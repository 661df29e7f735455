/** Byte strings of one length compared with memcmp are numbers, most significant
    byte first. */
module BigEndian {
  import opened Bytes

  function Pow256(n: nat): (p: nat)
    ensures p > 0
  {
    if n == 0 then 1 else 256 * Pow256(n - 1)
  }

  function Value(s: seq<byte>): nat
  {
    if s == [] then 0 else 256 * Value(s[..|s| - 1]) + s[|s| - 1] as nat
  }

  lemma {:induction false} ValueBound(s: seq<byte>)
    ensures Value(s) < Pow256(|s|)
  {
    if s != [] {
      ValueBound(s[..|s| - 1]);
    }
  }

  lemma {:induction false} PowSum(m: nat, n: nat)
    ensures Pow256(m + n) == Pow256(m) * Pow256(n)
  {
    if n > 0 {
      PowSum(m, n - 1);
      assert Pow256(m) * (256 * Pow256(n - 1)) == 256 * (Pow256(m) * Pow256(n - 1));
    }
  }

  lemma Scaled(x: nat, p: nat)
    ensures 256 * (x * p) == x * (256 * p)
  {
  }

  lemma {:induction false} ValueConcat(a: seq<byte>, b: seq<byte>)
    ensures Value(a + b) == Value(a) * Pow256(|b|) + Value(b)
  {
    if b == [] {
      assert a + b == a;
    } else {
      var n := |b| - 1;
      assert (a + b)[..|a + b| - 1] == a + b[..n];
      ValueConcat(a, b[..n]);
      Scaled(Value(a), Pow256(n));
    }
  }

  function Filled(b: byte, n: nat): (s: seq<byte>)
    ensures |s| == n
  {
    seq(n, _ => b)
  }

  lemma {:induction false} ValueFilled(n: nat)
    ensures Value(Filled(0, n)) == 0 && Value(Filled(0xff, n)) == Pow256(n) - 1
  {
    if n > 0 {
      ValueFilled(n - 1);
      assert Filled(0, n)[..n - 1] == Filled(0, n - 1);
      assert Filled(0xff, n)[..n - 1] == Filled(0xff, n - 1);
    }
  }

  /** memcmp. */
  function Compare(a: seq<byte>, b: seq<byte>): (r: int)
    requires |a| == |b|
    ensures r == 0 <==> a == b
  {
    if a == [] then 0
    else if a[0] < b[0] then -1
    else if a[0] > b[0] then 1
    else
      assert a == [a[0]] + a[1..] && b == [b[0]] + b[1..];
      Compare(a[1..], b[1..])
  }

  lemma {:induction false} CompareIsOrder(a: seq<byte>, b: seq<byte>)
    requires |a| == |b|
    ensures Compare(a, b) < 0 <==> Value(a) < Value(b)
    ensures Compare(a, b) > 0 <==> Value(a) > Value(b)
  {
    if a != [] {
      var n := |a| - 1;
      CompareIsOrder(a[1..], b[1..]);
      assert a == [a[0]] + a[1..] && b == [b[0]] + b[1..];
      ValueConcat([a[0]], a[1..]);
      ValueConcat([b[0]], b[1..]);
      ValueBound(a[1..]);
      ValueBound(b[1..]);
      Digit(a[0] as nat, Value(a[1..]), b[0] as nat, Value(b[1..]), Pow256(n));
    }
  }

  lemma Digit(d: nat, x: nat, e: nat, y: nat, p: nat)
    requires x < p && y < p
    ensures d < e ==> d * p + x < e * p + y
    ensures d > e ==> d * p + x > e * p + y
  {
    if d < e {
      assert (d + 1) * p <= e * p;
    } else if d > e {
      assert (e + 1) * p <= d * p;
    }
  }

  lemma ValueInjective(a: seq<byte>, b: seq<byte>)
    requires |a| == |b| && Value(a) == Value(b)
    ensures a == b
  {
  }

  /** The next string, and all zeroes after all 0xff. */
  function Succ(s: seq<byte>): (r: seq<byte>)
    ensures |r| == |s|
  {
    if s == [] then []
    else
      var n := |s| - 1;
      if s[n] == 0xff then Succ(s[..n]) + [0] else s[..n] + [s[n] + 1]
  }

  predicate Full(s: seq<byte>)
  {
    s == [] || (s[|s| - 1] == 0xff && Full(s[..|s| - 1]))
  }

  lemma {:induction false} SuccAddsOne(s: seq<byte>)
    ensures Full(s) <==> Value(s) + 1 == Pow256(|s|)
    ensures Value(Succ(s)) == if Full(s) then 0 else Value(s) + 1
  {
    if s != [] {
      var n := |s| - 1;
      ValueBound(s[..n]);
      SuccAddsOne(s[..n]);
      if s[n] == 0xff {
        assert Succ(s)[..n] == Succ(s[..n]);
      }
    }
  }

  /** Trailing 0xff bytes become zeroes, and the byte before them takes the carry. */
  lemma {:induction false} CarryStops(s: seq<byte>, r: seq<byte>, i: int)
    requires -1 <= i < |s| == |r| && (forall j :: i < j < |s| ==> s[j] == 0xff && r[j] == 0)
    requires forall j :: 0 <= j < i ==> r[j] == s[j]
    requires i >= 0 ==> s[i] != 0xff && r[i] == s[i] + 1
    ensures r == Succ(s) && (Full(s) <==> i < 0)
  {
    if s != [] {
      var n := |s| - 1;
      if i < n {
        CarryStops(s[..n], r[..n], i);
      }
      assert r == r[..n] + [r[n]];
    }
  }

  /** Add one, from the last byte on; true if it wrapped around. */
  method Increment(s: seq<byte>) returns (r: seq<byte>, wrapped: bool)
    ensures r == Succ(s)
    ensures wrapped <==> Full(s)
  {
    hide Succ, Full;
    r := s;
    var i := |s| - 1;
    while i >= 0
      invariant -1 <= i < |s| == |r|
      invariant forall j :: i < j < |s| ==> s[j] == 0xff && r[j] == 0
      invariant forall j :: 0 <= j <= i ==> r[j] == s[j]
    {
      r := r[i := if r[i] == 0xff then 0 else r[i] + 1];
      if r[i] != 0 {
        break;
      }
      i := i - 1;
    }
    CarryStops(s, r, i);
    wrapped := i < 0;
  }
}
