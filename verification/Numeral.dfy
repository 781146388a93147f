/** is_digit of libzsr/common.c: which strings it takes for numbers. */
module Numeral {
  import opened Searching

  const NUL := '\0'

  predicate IsDigitChar(c: char) {
    '0' <= c <= '9'
  }

  lemma TenDigits(c: char)
    ensures IsDigitChar(c) <==> c in "0123456789"
  {
    var digits := "0123456789";
    if '0' <= c <= '9' {
      var k := c as int - '0' as int;
      assert digits[k] as int == '0' as int + k;
      assert digits[k] == c;
    }
  }

  /** `*(s + p)` in a C string: the terminator follows the last character, and nothing behind it may be read. */
  function CharAt(s: string, p: nat): char
    requires p <= |s|
  {
    if p < |s| then s[p] else NUL
  }

  function Unsigned(s: string): (body: string) {
    if s != [] && s[0] == '-' then s[1..] else s
  }

  // --------------------------------------------------------------- the grammar

  /** A nonempty run of digits. */
  predicate Group(g: string) {
    g != [] && forall i :: 0 <= i < |g| ==> IsDigitChar(g[i])
  }

  predicate Groups(gs: seq<string>) {
    forall i :: 0 <= i < |gs| ==> Group(gs[i])
  }

  /** Each group with a dot before it. */
  function Dotted(gs: seq<string>): string {
    if gs == [] then "" else "." + gs[0] + Dotted(gs[1..])
  }

  /** The groups, joined by single dots. */
  function Joined(gs: seq<string>): string {
    if gs == [] then "" else gs[0] + Dotted(gs[1..])
  }

  /** An optional minus sign, then nothing, or nonempty digit groups joined by single dots. */
  ghost predicate Accepted(s: string) {
    exists gs :: Groups(gs) && Unsigned(s) == Joined(gs)
  }

  /** The numerals that include/zsr/common.h:13 promises: integers and decimals, negative ones too. */
  ghost predicate IsNumeral(s: string) {
    exists gs :: Groups(gs) && 1 <= |gs| <= 2 && Unsigned(s) == Joined(gs)
  }

  // ------------------------------------------------------------ the recogniser

  /** What may follow a digit. */
  predicate Tail(t: string) {
    || t == []
    || (IsDigitChar(t[0]) && Tail(t[1..]))
    || (t[0] == '.' && |t| > 1 && IsDigitChar(t[1]) && Tail(t[2..]))
  }

  predicate Body(t: string) {
    t == [] || (IsDigitChar(t[0]) && Tail(t[1..]))
  }

  /**
    The loop of is_digit from position `p` on, after `i` rounds, with the test `i == len` on a
    dot (`lengthTest`) or without it.
   */
  predicate Scan(s: string, p: nat, i: nat, lengthTest: bool)
    requires p <= |s|
    decreases |s| - p
  {
    if CharAt(s, p) == NUL then true
    else
      var dot := CharAt(s, p) == '.';
      if dot && (i + 1 == 1 || (lengthTest && i + 1 == |s|)) then false
      else
        var q := if dot then p + 1 else p;
        IsDigitChar(CharAt(s, q)) && Scan(s, q + 1, i + 1, lengthTest)
  }

  /**
    `i` counts rounds, not characters, so it is never ahead of `p`. The test `i == len` can
    succeed only on a dot that is the last character, where the scan fails without it, too.
   */
  lemma {:induction false} LengthTestIsIdle(s: string, p: nat, i: nat)
    requires i <= p <= |s| && NUL !in s
    ensures Scan(s, p, i, true) == Scan(s, p, i, false)
    decreases |s| - p
  {
    if p < |s| {
      var q := if s[p] == '.' then p + 1 else p;
      if IsDigitChar(CharAt(s, q)) {
        LengthTestIsIdle(s, q + 1, i + 1);
      }
    }
  }

  /** is_digit, with its test `i == len`; every read is in the string or of its terminator. */
  method IsDigit(str: Option<string>) returns (r: bool)
    requires str.Some? ==> NUL !in str.value
    ensures r <==> str.Some? && Accepted(str.value)
    ensures str.Some? ==> r == Scan(str.value, if CharAt(str.value, 0) == '-' then 1 else 0, 0, true)
  {
    if str == None {
      return false;
    }
    var s := str.value;
    var i, len, p := 0, |s|, 0;
    if CharAt(s, p) == '-' {
      p := p + 1;
    }
    ScanIsAccepted(s, p);
    ghost var start := p;
    while CharAt(s, p) != NUL
      invariant 0 <= i <= p <= |s|
      invariant Scan(s, p, i, true) == Scan(s, start, 0, true)
      decreases |s| - p
    {
      i := i + 1;
      if CharAt(s, p) == '.' {
        if i == 1 || i == len {
          return false;
        }
        p := p + 1;
      }
      if !IsDigitChar(CharAt(s, p)) {
        return false;
      }
      p := p + 1;
    }
    return true;
  }

  /** The whole scan, in its two forms, decides the grammar. */
  lemma ScanIsAccepted(s: string, start: nat)
    requires NUL !in s && start == if CharAt(s, 0) == '-' then 1 else 0
    ensures Scan(s, start, 0, true) <==> Accepted(s)
    ensures Scan(s, start, 0, false) <==> Accepted(s)
  {
    hide Accepted;
    LengthTestIsIdle(s, start, 0);
    BodyIsAccepted(s);
    ScanIsBody(s, start);
    assert Unsigned(s) == s[start..];
  }

  lemma ScanIsBody(s: string, p: nat)
    requires p <= |s| && NUL !in s
    ensures Scan(s, p, 0, false) <==> Body(s[p..])
  {
    if p < |s| {
      assert s[p..][0] == s[p] && s[p..][1..] == s[p + 1..];
      ScanIsTail(s, p + 1, 1);
    }
  }

  lemma {:induction false} ScanIsTail(s: string, p: nat, i: nat)
    requires p <= |s| && i > 0 && NUL !in s
    ensures Scan(s, p, i, false) <==> Tail(s[p..])
    decreases |s| - p
  {
    if p < |s| {
      var t := s[p..];
      assert t[0] == s[p] && t[1..] == s[p + 1..];
      if s[p] == '.' {
        if p + 1 < |s| {
          assert t[1] == s[p + 1] && t[2..] == s[p + 2..];
          ScanIsTail(s, p + 2, i + 1);
        }
      } else {
        ScanIsTail(s, p + 1, i + 1);
      }
    }
  }

  lemma BodyIsAccepted(s: string)
    ensures Body(Unsigned(s)) <==> Accepted(s)
  {
    hide Body, Joined, Groups;
    if Body(Unsigned(s)) {
      var gs := GroupsOfBody(Unsigned(s));
    }
    if Accepted(s) {
      var gs :| Groups(gs) && Unsigned(s) == Joined(gs);
      BodyOfGroups(gs);
    }
  }

  lemma GroupsOfBody(t: string) returns (gs: seq<string>)
    requires Body(t)
    ensures Groups(gs) && t == Joined(gs)
  {
    if t == [] {
      gs := [];
    } else {
      hide Dotted, Tail, Group, Digits;
      var d, rest := SplitTail(t[1..]);
      var g := [t[0]] + d;
      GroupOfDigits(t[0], d);
      gs := [g] + rest;
      assert gs[1..] == rest;
      assert t == [t[0]] + t[1..];
      assert t == g + Dotted(rest);
    }
  }

  lemma GroupOfDigits(c: char, d: string)
    requires IsDigitChar(c) && Digits(d)
    ensures Group([c] + d)
  {
  }

  lemma BodyOfGroups(gs: seq<string>)
    requires Groups(gs)
    ensures Body(Joined(gs))
  {
    if gs != [] {
      assert Group(gs[0]) && Groups(gs[1..]);
      assert Joined(gs)[1..] == gs[0][1..] + Dotted(gs[1..]);
      TailOfGroups(gs[0][1..], gs[1..]);
    }
  }

  predicate Digits(d: string) {
    d == [] || Group(d)
  }

  lemma {:induction false} SplitTail(t: string) returns (d: string, gs: seq<string>)
    requires Tail(t)
    ensures Digits(d) && Groups(gs) && t == d + Dotted(gs)
  {
    if t == [] {
      d, gs := "", [];
    } else if IsDigitChar(t[0]) {
      d, gs := SplitTail(t[1..]);
      d := [t[0]] + d;
    } else {
      var g, rest := SplitTail(t[2..]);
      d, gs := "", [[t[1]] + g] + rest;
      assert Dotted(gs) == "." + gs[0] + Dotted(rest);
    }
  }

  lemma {:induction false} TailOfGroups(d: string, gs: seq<string>)
    requires Digits(d) && Groups(gs)
    ensures Tail(d + Dotted(gs))
    decreases |gs|, |d|
  {
    var t := d + Dotted(gs);
    if d != [] {
      TailOfGroups(d[1..], gs);
      assert t[1..] == d[1..] + Dotted(gs);
    } else if gs != [] {
      assert Group(gs[0]) && Groups(gs[1..]);
      TailOfGroups(gs[0][1..], gs[1..]);
      assert t[1] == gs[0][0] && t[2..] == gs[0][1..] + Dotted(gs[1..]);
    }
  }

  // ------------------------------------------- what it was documented to accept

  function Dots(t: string): nat {
    if t == [] then 0 else (if t[0] == '.' then 1 else 0) + Dots(t[1..])
  }

  lemma {:induction false} DotsOfAppend(a: string, b: string)
    ensures Dots(a + b) == Dots(a) + Dots(b)
  {
    if a == [] {
      assert a + b == b;
    } else {
      DotsOfAppend(a[1..], b);
      assert (a + b)[1..] == a[1..] + b;
    }
  }

  lemma {:induction false} NoDots(g: string)
    requires Digits(g)
    ensures Dots(g) == 0
  {
    if g != [] {
      NoDots(g[1..]);
    }
  }

  lemma {:induction false} DotsOfDotted(gs: seq<string>)
    requires Groups(gs)
    ensures Dots(Dotted(gs)) == |gs|
  {
    if gs != [] {
      assert Group(gs[0]) && Groups(gs[1..]);
      DotsOfDotted(gs[1..]);
      NoDots(gs[0]);
      DotsOfAppend("." + gs[0], Dotted(gs[1..]));
      DotsOfAppend(".", gs[0]);
    }
  }

  lemma DotsOfJoined(gs: seq<string>)
    requires Groups(gs) && gs != []
    ensures Dots(Joined(gs)) == |gs| - 1
  {
    assert Group(gs[0]) && Groups(gs[1..]);
    NoDots(gs[0]);
    DotsOfDotted(gs[1..]);
    DotsOfAppend(gs[0], Dotted(gs[1..]));
  }

  /**
    Every documented numeral is accepted; an accepted string is one exactly when something
    follows the sign and there is at most one dot in it.
   */
  lemma AcceptedAgainstDocumented(s: string)
    ensures IsNumeral(s) ==> Accepted(s)
    ensures Accepted(s) ==> (IsNumeral(s) <==> Unsigned(s) != [] && Dots(Unsigned(s)) <= 1)
  {
    var t := Unsigned(s);
    if IsNumeral(s) {
      var gs :| Groups(gs) && 1 <= |gs| <= 2 && t == Joined(gs);
      assert Group(gs[0]);
      DotsOfJoined(gs);
    }
    if Accepted(s) && t != [] && Dots(t) <= 1 {
      var gs :| Groups(gs) && t == Joined(gs);
      DotsOfJoined(gs);
    }
  }

  lemma VersionIsAccepted()
    ensures Accepted("1.2.3")
  {
    hide Groups, IsNumeral;
    BodyIsAccepted("1.2.3");
    assert Tail("") && Tail("3"[1..]) && "1.2.3"[1..] == ".2.3" && ".2.3"[2..] == ".3" && ".3"[2..] == "";
    assert Tail(".3") && Tail(".2.3");
  }

  /** Three strings that is_digit takes for numbers. */
  lemma AcceptedButNoNumerals()
    ensures Accepted("") && Accepted("-") && Accepted("1.2.3")
    ensures !IsNumeral("") && !IsNumeral("-") && !IsNumeral("1.2.3")
  {
    VersionIsAccepted();
    assert Groups([]) && Joined([]) == "";
    assert Unsigned("-") == "";
    AcceptedAgainstDocumented("");
    AcceptedAgainstDocumented("-");
    AcceptedAgainstDocumented("1.2.3");
    assert ".2.3"[1..] == "2.3" && "2.3"[1..] == ".3" && ".3"[1..] == "3" && "3"[1..] == "";
    assert Dots("3") == 0 && Dots(".3") == 1 && Dots("2.3") == 1 && Dots(".2.3") == 2;
  }
}
