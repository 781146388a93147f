/**
  zsr/module/mod_mem.c on the heap; mod_gateway, mod_load_avg, mod_swap, mod_time and mod_uptime
  have the same collect_record over another type of entry. The list never has more than one entry,
  and a field that the reader does not write keeps what an earlier round left in it.
 */
module ModMem {
  import opened Iteration
  import opened Rings

  /** A record by field name. A field that is not in it is zeroed memory, as is one with the empty value. */
  type Fields = map<string, string>

  function Field(r: Fields, f: string): string {
    if f in r then r[f] else ""
  }

  /** Zeroed fields are left out, so that equal records are equal maps. */
  predicate Canonical(r: Fields) {
    "" !in r.Values
  }

  /** The record `r` after a reader has written the fields `writes`, which may be none or only some. */
  function Written(r: Fields, writes: Fields): (r': Fields)
    ensures Canonical(r')
    ensures forall f :: Field(r', f) == if f in writes then writes[f] else Field(r, f)
  {
    var all := r + writes;
    map f | f in all && all[f] != "" :: all[f]
  }

  lemma FieldsDecide(a: Fields, b: Fields)
    requires Canonical(a) && Canonical(b)
    ensures a == b <==> forall f :: Field(a, f) == Field(b, f)
  {
    if forall f :: Field(a, f) == Field(b, f) {
      forall f ensures f in a <==> f in b {
        assert f in a ==> a[f] in a.Values;
        assert f in b ==> b[f] in b.Values;
        assert Field(a, f) == Field(b, f);
      }
      forall f | f in a ensures a[f] == b[f] {
        assert Field(a, f) == Field(b, f);
      }
    }
  }

  /** Nothing of the old record is left exactly when each of its fields that is not zero is written. */
  lemma WrittenAfreshExactlyWhen(r: Fields, writes: Fields)
    ensures Written(r, writes) == Written(map[], writes) <==> forall f :: Field(r, f) != "" ==> f in writes
  {
    var now, afresh := Written(r, writes), Written(map[], writes);
    hide Written, Canonical;
    FieldsDecide(now, afresh);
    forall f ensures Field(now, f) == Field(afresh, f) <==> Field(r, f) != "" ==> f in writes {
      assert Field(map[], f) == "";
    }
  }

  lemma NothingWritten(r: Fields)
    requires Canonical(r)
    ensures Written(r, map[]) == Written(map[], r) == r
  {
    FieldsDecide(Written(r, map[]), r);
    FieldsDecide(Written(map[], r), r);
  }

  /** The record after a run of rounds that wrote these fields, the first of them into zeroed memory. */
  function After(run: seq<Fields>): (r: Fields)
    ensures Canonical(r)
  {
    if run == [] then map[] else Written(After(run[..|run| - 1]), run[|run| - 1])
  }

  function LastWritten(run: seq<Fields>, f: string): string {
    if run == [] then ""
    else if f in run[|run| - 1] then run[|run| - 1][f]
    else LastWritten(run[..|run| - 1], f)
  }

  /** Each field has the value last written to it, however long ago. */
  lemma {:induction false} AfterIsLastWritten(run: seq<Fields>, f: string)
    ensures Field(After(run), f) == LastWritten(run, f)
  {
    if run != [] {
      AfterIsLastWritten(run[..|run| - 1], f);
    }
  }

  /** `run[k - 1]` is the last to write the field, or none does. */
  lemma {:induction false} LastWrittenAt(run: seq<Fields>, f: string, k: nat)
    requires k <= |run| && (k > 0 ==> f in run[k - 1]) && forall j :: k <= j < |run| ==> f !in run[j]
    ensures LastWritten(run, f) == if k == 0 then "" else run[k - 1][f]
  {
    if k < |run| {
      LastWrittenAt(run[..|run| - 1], f, k);
    }
  }

  /** collect_record: the first call allocates and zeroes the entry, every later one reads into the old one. */
  method CollectRecord(heap: Heap, recordList: Node<Fields>, writes: Fields, ghost s: seq<Node<Fields>>)
    returns (ghost t: seq<Node<Fields>>)
    requires Ring(recordList, s) && |s| <= 1
    modifies heap, recordList`next, recordList`prev, Nodes(s)`entry
    ensures Ring(recordList, t)
    ensures Entries(t) == [Written(if s == [] then map[] else old(Entries(s))[0], writes)]
    ensures if s == [] then fresh(t) else t == s
    ensures heap.live == old(heap.live) + (if s == [] then Nodes(t) else {})
  {
    hide Written;
    QueriesDecide(recordList, s, recordList);
    var entry;
    t := s;
    if ListEmpty(recordList) {
      entry := heap.Malloc<Fields>();
      entry.entry := map[];
      ListAddTail(entry, recordList, s);
      t := [entry];
    } else {
      entry := recordList.prev;
    }
    entry.entry := Written(entry.entry, writes);
  }
}
