/**
  The number types of the C code: uint64_t with its wrap-around, and double. Doubles are exact
  reals here (no rounding), together with the two special values that a non-negative numerator
  over a zero denominator gives.
 */
module Words {
  const WORD: int := 0x1_0000_0000_0000_0000

  type u64 = x: int | 0 <= x < WORD

  function Wrap(x: int): u64 {
    x % WORD
  }

  function Add(a: u64, b: u64): u64 {
    Wrap(a + b)
  }

  function Sub(a: u64, b: u64): u64 {
    Wrap(a - b)
  }

  datatype Double = Real(value: real) | Infinity | NaN

  /** `a / b` in double arithmetic, for the unsigned operands the code divides. */
  function Ratio(a: real, b: real): Double
    requires a >= 0.0 && b >= 0.0
  {
    if b != 0.0 then Real(a / b) else if a != 0.0 then Infinity else NaN
  }

  /** The number in a double, 0 if there is none. */
  function Value(d: Double): real {
    if d.Real? then d.value else 0.0
  }

  /** Multiplication and division of a double by a positive constant. */
  function Scale(d: Double, factor: real): Double
    requires factor > 0.0
  {
    match d
    case Real(v) => Real(v * factor)
    case _ => d
  }

  /** The counters are 64 bits wide, and the sum and the difference go round. */
  lemma GoesRound()
    ensures Add(18446744073709551615, 1) == 0 && Sub(0, 1) == 18446744073709551615
    ensures Ratio(0.0, 0.0) == NaN && Ratio(1.0, 0.0) == Infinity && Ratio(1.0, 2.0) == Real(0.5)
  {
  }

  /** Wrapping commutes with addition: only the wrapped value of an operand matters. */
  lemma WrapAbsorbs(a: int, b: int)
    ensures Wrap(Wrap(a) + b) == Wrap(a + b)
    ensures Wrap(Wrap(a) - b) == Wrap(a - b)
    ensures Wrap(a - Wrap(b)) == Wrap(a - b)
  {
    var qa, qb := a / WORD, b / WORD;
    WrapShift(a + b, -qa);
    WrapShift(a - b, -qa);
    WrapShift(a - b, qb);
  }

  lemma WrapShift(x: int, q: int)
    ensures Wrap(x + q * WORD) == Wrap(x)
  {
    var r := x % WORD;
    var k := x / WORD + q;
    assert x + q * WORD == k * WORD + r;
    DivisionIsUnique(x + q * WORD, k, r);
  }

  lemma DivisionIsUnique(x: int, k: int, r: int)
    requires x == k * WORD + r && 0 <= r < WORD
    ensures x % WORD == r
  {
    var k', r' := x / WORD, x % WORD;
    assert x == k' * WORD + r';
    assert (k - k') * WORD == r' - r;
  }

  lemma WrapIsModulo(x: int)
    ensures Wrap(x) == x % WORD
  {
  }

  lemma SubIsZero(a: u64, b: u64)
    ensures Sub(a, b) == 0 <==> a == b
  {
  }

  lemma WrapSmall(x: int)
    requires 0 <= x < WORD
    ensures Wrap(x) == x
  {
  }

  /** Two counters kept modulo 2^64 have a difference that is right modulo 2^64. */
  lemma DifferenceOfWrapped(a: int, b: int)
    ensures Sub(Wrap(a), Wrap(b)) == Wrap(a - b)
  {
    WrapAbsorbs(a, Wrap(b));
    WrapAbsorbs(a, b);
  }
}
