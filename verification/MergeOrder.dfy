/** When walking through two lists side by side, smaller head first, takes what is in both
    together: the order in which the far end and we list our BARs, as numbers. */
module MergeOrder {

  ghost predicate Distinct(a: seq<nat>)
  {
    forall i, j :: 0 <= i < j < |a| ==> a[i] != a[j]
  }

  /** The walk: nothing that is in both lists is passed on its own. */
  ghost predicate Meets(a: seq<nat>, b: seq<nat>)
    decreases |a| + |b|
  {
    if a == [] || b == [] then true
    else if a[0] < b[0] then a[0] !in b && Meets(a[1..], b)
    else if a[0] > b[0] then b[0] !in a && Meets(a, b[1..])
    else Meets(a[1..], b[1..])
  }

  /** What is in both comes in the same order in both. */
  ghost predicate SameOrder(a: seq<nat>, b: seq<nat>)
  {
    forall i, j, k, l :: 0 <= i < j < |a| && 0 <= k < |b| && 0 <= l < |b| && a[i] == b[k] && a[j] == b[l] ==> k < l
  }

  /** `j` is the next place in `a` from `i` on of something that is in `b` as well. */
  ghost predicate Next(a: seq<nat>, b: seq<nat>, i: int, j: int)
  {
    0 <= i < j < |a| && a[i] !in b && a[j] in b && forall m :: i < m < j ==> a[m] !in b
  }

  /** What is in `a` only is below the next of what is in both. */
  ghost predicate Below(a: seq<nat>, b: seq<nat>)
  {
    forall i, j :: Next(a, b, i, j) ==> a[i] < a[j]
  }

  ghost predicate Aligned(a: seq<nat>, b: seq<nat>)
  {
    SameOrder(a, b) && Below(a, b) && Below(b, a)
  }

  lemma OrderIsMutual(a: seq<nat>, b: seq<nat>)
    requires Distinct(a) && Distinct(b) && SameOrder(a, b)
    ensures SameOrder(b, a)
  {
    forall i, j, k, l | 0 <= i < j < |b| && 0 <= k < |a| && 0 <= l < |a| && b[i] == a[k] && b[j] == a[l]
      ensures k < l
    {
      assert k != l;
    }
  }

  lemma AlignedIsMutual(a: seq<nat>, b: seq<nat>)
    requires Distinct(a) && Distinct(b)
    ensures Aligned(a, b) <==> Aligned(b, a)
  {
    hide Below;
    if SameOrder(a, b) {
      OrderIsMutual(a, b);
    }
    if SameOrder(b, a) {
      OrderIsMutual(b, a);
    }
  }

  /** The first of `b` that is in `a`. */
  lemma FirstShared(a: seq<nat>, b: seq<nat>, k: nat) returns (m: nat)
    requires k < |b| && b[k] in a
    ensures m <= k && b[m] in a && forall i :: 0 <= i < m ==> b[i] !in a
  {
    m := 0;
    while b[m] !in a
      invariant m <= k && forall i :: 0 <= i < m ==> b[i] !in a
      decreases k - m
    {
      m := m + 1;
    }
  }

  /** The first of both is the same, and not below the head of `b`. */
  lemma HeadLeads(a: seq<nat>, b: seq<nat>, j: nat)
    requires Distinct(a) && SameOrder(a, b) && Below(b, a) && b != []
    requires j < |a| && a[j] in b && forall i :: 0 <= i < j ==> a[i] !in b
    ensures b[0] <= a[j]
  {
    var k :| 0 <= k < |b| && b[k] == a[j];
    var m := FirstShared(a, b, k);
    var i :| 0 <= i < |a| && a[i] == b[m];
    assert i >= j;
    assert i > j ==> k < m;
    if m > 0 {
      assert Next(b, a, 0, m);
    }
  }

  lemma TailDistinct(a: seq<nat>)
    requires Distinct(a) && a != []
    ensures Distinct(a[1..]) && a[0] !in a[1..] && forall x :: x in a <==> x == a[0] || x in a[1..]
  {
    assert a == [a[0]] + a[1..];
  }

  lemma OrderOfTail(a: seq<nat>, b: seq<nat>)
    requires a != []
    ensures SameOrder(a, b) ==> SameOrder(a[1..], b)
    ensures a[0] !in b && SameOrder(a[1..], b) ==> SameOrder(a, b)
  {
    var t := a[1..];
    assert forall i :: 0 <= i < |t| ==> t[i] == a[i + 1];
    if a[0] !in b && SameOrder(t, b) {
      forall i, j, k, l | 0 <= i < j < |a| && 0 <= k < |b| && 0 <= l < |b| && a[i] == b[k] && a[j] == b[l]
        ensures k < l
      {
        assert i > 0 && a[i] == t[i - 1] && a[j] == t[j - 1];
      }
    }
  }

  lemma NextInTail(a: seq<nat>, b: seq<nat>, i: nat, j: nat)
    requires a != []
    ensures Next(a[1..], b, i, j) <==> Next(a, b, i + 1, j + 1)
  {
    var t := a[1..];
    assert forall m :: 0 <= m < |t| ==> t[m] == a[m + 1];
    if Next(t, b, i, j) {
      assert forall m :: i + 1 < m < j + 1 ==> a[m] == t[m - 1];
    }
  }

  lemma BelowOfTail(a: seq<nat>, b: seq<nat>)
    requires a != []
    ensures Below(a, b) <==> Below(a[1..], b) && forall j :: Next(a, b, 0, j) ==> a[0] < a[j]
  {
    var t := a[1..];
    forall i: nat, j: nat ensures Next(t, b, i, j) <==> Next(a, b, i + 1, j + 1) {
      NextInTail(a, b, i, j);
    }
    hide Next;
    if Below(a, b) {
      forall i, j | Next(t, b, i, j) ensures t[i] < t[j] {
        assert Next(a, b, i + 1, j + 1);
        NextIsInside(t, b, i, j);
      }
    }
    if Below(t, b) && forall j :: Next(a, b, 0, j) ==> a[0] < a[j] {
      forall i, j | Next(a, b, i, j) ensures a[i] < a[j] {
        NextIsInside(a, b, i, j);
        if i > 0 {
          assert Next(t, b, i - 1, j - 1);
        }
      }
    }
  }

  lemma NextIsInside(a: seq<nat>, b: seq<nat>, i: int, j: int)
    requires Next(a, b, i, j)
    ensures 0 <= i < j < |a|
  {
  }

  /** Only what is shared matters of the other list. */
  lemma BelowAmong(a: seq<nat>, b: seq<nat>, b': seq<nat>)
    requires forall x :: x in a ==> (x in b <==> x in b')
    ensures Below(a, b) <==> Below(a, b')
  {
    forall i, j ensures Next(a, b, i, j) <==> Next(a, b', i, j) {
      assert 0 <= i < j < |a| ==> forall m :: i <= m <= j ==> a[m] in a;
    }
    hide Next;
  }

  /** A head that is in one list only, and is passed first, does not matter. */
  lemma PassUnshared(a: seq<nat>, b: seq<nat>)
    requires Distinct(a) && a != [] && b != [] && a[0] < b[0] && a[0] !in b
    ensures Aligned(a, b) <==> Aligned(a[1..], b)
  {
    TailDistinct(a);
    OrderOfTail(a, b);
    BelowOfTail(a, b);
    BelowAmong(b, a, a[1..]);
    hide SameOrder, Below, Distinct;
    if SameOrder(a, b) && Below(b, a) {
      forall j | Next(a, b, 0, j) ensures a[0] < a[j] {
        HeadLeads(a, b, j);
      }
    }
  }

  /** A head that is in both lists, and is passed before the other head, is out of turn. */
  lemma PassShared(a: seq<nat>, b: seq<nat>)
    requires Distinct(a) && Distinct(b) && a != [] && b != [] && a[0] < b[0] && a[0] in b
    ensures !Aligned(a, b)
  {
    if Aligned(a, b) {
      HeadLeads(a, b, 0);
      assert false;
    }
  }

  /** Equal heads are passed together. */
  lemma PassBoth(a: seq<nat>, b: seq<nat>)
    requires Distinct(a) && Distinct(b) && a != [] && b != [] && a[0] == b[0]
    ensures Aligned(a, b) <==> Aligned(a[1..], b[1..])
  {
    TailDistinct(a);
    TailDistinct(b);
    BelowOfTail(a, b);
    BelowOfTail(b, a);
    BelowAmong(a[1..], b, b[1..]);
    BelowAmong(b[1..], a, a[1..]);
    OrderOfBoth(a, b);
    hide SameOrder, Below, Distinct;
    assert forall j :: !Next(a, b, 0, j) && !Next(b, a, 0, j);
  }

  lemma OrderOfBoth(a: seq<nat>, b: seq<nat>)
    requires Distinct(a) && Distinct(b) && a != [] && b != [] && a[0] == b[0]
    ensures SameOrder(a, b) <==> SameOrder(a[1..], b[1..])
  {
    var s, t := a[1..], b[1..];
    assert forall i :: 0 <= i < |s| ==> s[i] == a[i + 1];
    assert forall i :: 0 <= i < |t| ==> t[i] == b[i + 1];
    if SameOrder(a, b) {
      forall i, j, k, l | 0 <= i < j < |s| && 0 <= k < |t| && 0 <= l < |t| && s[i] == t[k] && s[j] == t[l]
        ensures k < l
      {
        assert a[i + 1] == b[k + 1] && a[j + 1] == b[l + 1];
      }
    }
    if SameOrder(s, t) {
      forall i, j, k, l | 0 <= i < j < |a| && 0 <= k < |b| && 0 <= l < |b| && a[i] == b[k] && a[j] == b[l]
        ensures k < l
      {
        assert l > 0;
        if i > 0 {
          assert k > 0 && s[i - 1] == t[k - 1] && s[j - 1] == t[l - 1];
        }
      }
    }
  }

  lemma NothingToMeet(a: seq<nat>, b: seq<nat>)
    requires a == [] || b == []
    ensures Aligned(a, b)
  {
  }

  /** The walk takes everything that is in both lists together if and only if they are
      aligned. */
  lemma {:induction false} MeetsIffAligned(a: seq<nat>, b: seq<nat>)
    requires Distinct(a) && Distinct(b)
    ensures Meets(a, b) <==> Aligned(a, b)
    decreases |a| + |b|
  {
    if a == [] || b == [] {
      NothingToMeet(a, b);
    } else {
      hide Aligned, Distinct;
      TailDistinct(a);
      TailDistinct(b);
      if a[0] < b[0] {
        if a[0] in b {
          PassShared(a, b);
        } else {
          PassUnshared(a, b);
          MeetsIffAligned(a[1..], b);
        }
      } else if a[0] > b[0] {
        AlignedIsMutual(a, b);
        if b[0] in a {
          PassShared(b, a);
        } else {
          PassUnshared(b, a);
          AlignedIsMutual(a, b[1..]);
          MeetsIffAligned(a, b[1..]);
        }
      } else {
        PassBoth(a, b);
        MeetsIffAligned(a[1..], b[1..]);
      }
    }
  }

  /** Ascending lists are aligned. */
  lemma AscendingAligns(a: seq<nat>, b: seq<nat>)
    requires forall i, j :: 0 <= i < j < |a| ==> a[i] < a[j]
    requires forall i, j :: 0 <= i < j < |b| ==> b[i] < b[j]
    ensures Distinct(a) && Distinct(b) && Aligned(a, b)
  {
  }
}
