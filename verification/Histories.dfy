/**
  The record list of a history module (cpu, io, proc): every collection appends one record,
  computed against the record that was last in the list. The three collect_record functions
  share this shape and differ in `start` and `next`.
 */
module Histories {

  /** One collect_record: the first sample is stored as read, a later one is computed against the last record. */
  function Collect<S, R>(start: S -> R, next: (S, R) -> R, records: seq<R>, sample: S): seq<R> {
    records + [if records == [] then start(sample) else next(sample, records[|records| - 1])]
  }

  /** The record list after one collection per sample. */
  function History<S, R>(start: S -> R, next: (S, R) -> R, samples: seq<S>): (records: seq<R>)
    ensures |records| == |samples|
  {
    if samples == [] then []
    else Collect(start, next, History(start, next, samples[..|samples| - 1]), samples[|samples| - 1])
  }

  /** The list is the whole history in order, and each record was computed against its immediate predecessor. */
  lemma {:induction false} HistoryIsChained<S, R>(start: S -> R, next: (S, R) -> R, samples: seq<S>)
    ensures var h := History(start, next, samples);
      && (h != [] ==> h[0] == start(samples[0]))
      && (forall i :: 0 < i < |h| ==> h[i] == next(samples[i], h[i - 1]))
  {
    if samples != [] {
      HistoryIsChained(start, next, samples[..|samples| - 1]);
    }
  }

  /** Nothing collected later changes what is already in the list. */
  lemma {:induction false} HistoryOnlyGrows<S, R>(start: S -> R, next: (S, R) -> R, samples: seq<S>, n: nat)
    requires n <= |samples|
    ensures History(start, next, samples[..n]) == History(start, next, samples)[..n]
  {
    if n < |samples| {
      HistoryOnlyGrows(start, next, samples[..|samples| - 1], n);
      assert samples[..|samples| - 1][..n] == samples[..n];
    } else {
      assert samples[..n] == samples;
    }
  }
}
