/** The filter of get_dns in libzsr/dns.c. */
module Dns {

  /** get_dns leaves the addresses of the local host out. */
  predicate IsLocalHost(addr: string) {
    addr == "0.0.0.0" || addr == "127.0.0.1" || addr == "::" || addr == "::1"
  }

  function Remote(addrs: seq<string>): seq<string> {
    if addrs == [] then []
    else (if IsLocalHost(addrs[0]) then [] else [addrs[0]]) + Remote(addrs[1..])
  }

  /** What is left is what is not local, and nothing is made up. */
  lemma {:induction false} RemoteIsFilter(addrs: seq<string>, addr: string)
    ensures addr in Remote(addrs) <==> addr in addrs && !IsLocalHost(addr)
  {
    hide IsLocalHost;
    if addrs != [] {
      RemoteIsFilter(addrs[1..], addr);
      assert addrs == [addrs[0]] + addrs[1..];
    }
  }

  lemma RemoteOfCons(addr: string, addrs: seq<string>)
    ensures Remote([addr] + addrs) == (if IsLocalHost(addr) then [] else [addr]) + Remote(addrs)
  {
    hide IsLocalHost;
    assert ([addr] + addrs)[1..] == addrs;
  }

  /** Filtering goes address by address, so the order is kept. */
  lemma {:induction false} RemoteOfAppend(a: seq<string>, b: seq<string>)
    ensures Remote(a + b) == Remote(a) + Remote(b)
  {
    if a == [] {
      assert a + b == b;
    } else {
      hide Remote, IsLocalHost;
      var addr, rest := a[0], a[1..];
      assert a == [addr] + rest;
      calc {
        Remote(a + b);
        { assert a + b == [addr] + (rest + b); }
        Remote([addr] + (rest + b));
        { RemoteOfCons(addr, rest + b); }
        (if IsLocalHost(addr) then [] else [addr]) + Remote(rest + b);
        { RemoteOfAppend(rest, b); }
        (if IsLocalHost(addr) then [] else [addr]) + (Remote(rest) + Remote(b));
        ((if IsLocalHost(addr) then [] else [addr]) + Remote(rest)) + Remote(b);
        { RemoteOfCons(addr, rest); }
        Remote(a) + Remote(b);
      }
    }
  }

  predicate OneOfFour(addr: string) {
    addr in ["0.0.0.0", "127.0.0.1", "::", "::1"]
  }

  lemma FourAddresses(addr: string)
    ensures IsLocalHost(addr) <==> OneOfFour(addr)
  {
  }

  /**
    `rest` is what is left of `addrs` at the positions `ps`: in the same order, each as often as
    before, without the four addresses of the local host and without anything else missing.
   */
  ghost predicate LeftInOrder(addrs: seq<string>, rest: seq<string>, ps: seq<nat>) {
    && |ps| == |rest|
    && (forall j :: 0 <= j < |ps| ==> ps[j] < |addrs| && rest[j] == addrs[ps[j]])
    && (forall j, k :: 0 <= j < k < |ps| ==> ps[j] < ps[k])
    && (forall i :: 0 <= i < |addrs| ==> (i in ps <==> !OneOfFour(addrs[i])))
  }

  lemma LeftSnoc(addrs: seq<string>, rest: seq<string>, ps: seq<nat>, addr: string)
    requires LeftInOrder(addrs, rest, ps)
    ensures if OneOfFour(addr) then LeftInOrder(addrs + [addr], rest, ps)
            else LeftInOrder(addrs + [addr], rest + [addr], ps + [|addrs|])
  {
    hide OneOfFour;
    var n := |addrs|;
    assert n !in ps;
    if !OneOfFour(addr) {
      var ps' := ps + [n];
      assert forall i :: i in ps' <==> i in ps || i == n;
      assert LeftInOrder(addrs + [addr], rest + [addr], ps');
    }
  }

  lemma {:induction false} RemoteIsLeftInOrder(addrs: seq<string>) returns (ps: seq<nat>)
    ensures LeftInOrder(addrs, Remote(addrs), ps)
  {
    hide IsLocalHost, OneOfFour;
    if addrs == [] {
      ps := [];
    } else {
      var n := |addrs| - 1;
      ps := RemoteIsLeftInOrder(addrs[..n]);
      LeftSnoc(addrs[..n], Remote(addrs[..n]), ps, addrs[n]);
      assert addrs == addrs[..n] + [addrs[n]];
      RemoteOfAppend(addrs[..n], [addrs[n]]);
      RemoteOfCons(addrs[n], []);
      FourAddresses(addrs[n]);
      if !IsLocalHost(addrs[n]) {
        ps := ps + [n];
      }
    }
  }

  lemma NoneOfFour(addr: string)
    ensures !OneOfFour(addr) <==> addr != "0.0.0.0" && addr != "127.0.0.1" && addr != "::" && addr != "::1"
  {
  }

  /** So an address is left exactly when it was there and is none of the four. */
  lemma LeftExactlyWhen(addrs: seq<string>, rest: seq<string>, ps: seq<nat>, addr: string)
    requires LeftInOrder(addrs, rest, ps)
    ensures addr in rest
      <==> addr in addrs && addr != "0.0.0.0" && addr != "127.0.0.1" && addr != "::" && addr != "::1"
  {
    hide OneOfFour;
    NoneOfFour(addr);
    if addr in addrs && !OneOfFour(addr) {
      var i :| 0 <= i < |addrs| && addrs[i] == addr;
      var j :| 0 <= j < |ps| && ps[j] == i;
      assert rest[j] == addr;
    }
    if addr in rest {
      var j :| 0 <= j < |rest| && rest[j] == addr;
      assert ps[j] in ps && addrs[ps[j]] == addr;
    }
  }
}
