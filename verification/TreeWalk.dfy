/** walk_tree and enum_subscribers of overlay_address.c: an ordered visit of the
    subscriber tree, optionally bounded by a starting and an ending prefix. */
module TreeWalk {
  import opened BigEndian
  import opened Bytes
  import opened Wrappers
  import opened TreeShape
  import opened TreeStore

  // ----- what is visited, and in what order -----

  /** Slots of a node before this one are skipped; an absent start is []. */
  function Lower(pos: nat, start: seq<Nibble>): nat
  {
    if pos < |start| then start[pos] else 0
  }

  /** The first slot of a node that is not looked at; an absent end is []. */
  function Upper(pos: nat, end: seq<Nibble>): nat
  {
    if pos < |end| then (end[pos] as int) + 1 else 16
  }

  ghost predicate IsNode(shape: Shape, p: Path)
  {
    p in shape && |shape[p]| == 16 && |p| < SID_NIBBLES
  }

  /** The records found in a node from slot `i` on; only the first slot looked
      at still heeds the start. */
  ghost function WalkList(shape: Shape, p: Path, i: nat, start: seq<Nibble>, end: seq<Nibble>): seq<Sid>
    decreases SID_NIBBLES - |p|, 16 - i, 1
  {
    if !IsNode(shape, p) || i >= 16 || i >= Upper(|p|, end) then []
    else SlotList(shape, p, i, start, end) + WalkList(shape, p, i + 1, [], end)
  }

  /** The records found through one slot. */
  ghost function SlotList(shape: Shape, p: Path, i: Nibble, start: seq<Nibble>, end: seq<Nibble>): seq<Sid>
    requires IsNode(shape, p)
    decreases SID_NIBBLES - |p|, 16 - i, 0
  {
    match shape[p][i]
    case Free => []
    case Held(s) => [s]
    case Split => WalkList(shape, p + [i], Lower(|p| + 1, start), start, end)
  }

  /** The order of SIDs: nibble by nibble, most significant first. */
  ghost predicate Before(s: Sid, t: Sid)
  {
    exists k :: DiffersAt(s, t, k)
  }

  ghost predicate DiffersAt(s: Sid, t: Sid, k: nat)
  {
    k < SID_NIBBLES && Nibbles(s)[..k] == Nibbles(t)[..k] && Nibbles(s)[k] < Nibbles(t)[k]
  }

  ghost predicate Ascending(list: seq<Sid>)
  {
    forall i, j :: 0 <= i < j < |list| ==> Before(list[i], list[j])
  }

  /** That is the order of SIDs as numbers, most significant byte first. */
  lemma BeforeIsOrder(s: Sid, t: Sid)
    ensures Before(s, t) <==> Value(s) < Value(t)
  {
    hide Before, Value;
    if s == t {
      NeverBoth(s, t);
    } else {
      var j := FirstByteApart(s, t);
      NeverBoth(s, t);
      if s[j] < t[j] {
        LessAt(s, t, j);
      } else {
        LessAt(t, s, j);
      }
    }
  }

  lemma FirstByteApart(s: Sid, t: Sid) returns (j: nat)
    requires s != t
    ensures j < SID_SIZE && s[..j] == t[..j] && s[j] != t[j]
  {
    j := 0;
    while j < SID_SIZE && s[j] == t[j]
      invariant j <= SID_SIZE && s[..j] == t[..j]
    {
      j := j + 1;
    }
    assert s == s[..SID_SIZE] && t == t[..SID_SIZE];
  }

  lemma LessAt(s: Sid, t: Sid, j: nat)
    requires j < SID_SIZE && s[..j] == t[..j] && s[j] < t[j]
    ensures Before(s, t) && Value(s) < Value(t)
  {
    assert forall i :: 0 <= i < j ==> s[i] == s[..j][i] == t[i];
    var m, n := Nibbles(s), Nibbles(t);
    assert forall i :: 0 <= i < 2 * j ==> m[i] == n[i];
    assert m[..2 * j] == n[..2 * j];
    assert s[j] == 16 * m[2 * j] as int + m[2 * j + 1] as int && t[j] == 16 * n[2 * j] as int + n[2 * j + 1] as int;
    if m[2 * j] == n[2 * j] {
      assert m[..2 * j + 1] == n[..2 * j + 1];
      assert DiffersAt(s, t, 2 * j + 1);
    } else {
      assert DiffersAt(s, t, 2 * j);
    }
    hide Before, Nibbles, Value;
    CompareLess(s, t, j);
    CompareIsOrder(s, t);
  }

  lemma {:induction false} CompareLess(a: seq<byte>, b: seq<byte>, j: nat)
    requires |a| == |b| && j < |a| && a[..j] == b[..j] && a[j] < b[j]
    ensures Compare(a, b) < 0
  {
    if j > 0 {
      assert a[0] == a[..j][0] && b[0] == b[..j][0];
      assert a[1..][..j - 1] == a[..j][1..] && b[1..][..j - 1] == b[..j][1..];
      CompareLess(a[1..], b[1..], j - 1);
    }
  }

  lemma NeverBoth(s: Sid, t: Sid)
    ensures !(Before(s, t) && Before(t, s))
  {
    hide Nibbles;
    forall k: nat, l: nat ensures !(DiffersAt(s, t, k) && DiffersAt(t, s, l)) {
      if k < l < SID_NIBBLES {
        assert Nibbles(s)[..l][k] == Nibbles(s)[k] && Nibbles(t)[..l][k] == Nibbles(t)[k];
      } else if l < k < SID_NIBBLES {
        assert Nibbles(s)[..k][l] == Nibbles(s)[l] && Nibbles(t)[..k][l] == Nibbles(t)[l];
      }
    }
  }

  /** From nibble `j` on, and as far as both the start prefix and the `d`
      nibbles leading to the record reach, the record is not below the start. */
  ghost predicate NotBelow(n: seq<Nibble>, start: seq<Nibble>, j: nat, d: nat)
    requires d <= |n|
    decreases d - j
  {
    j < d && j < |start| ==> n[j] > start[j] || (n[j] == start[j] && NotBelow(n, start, j + 1, d))
  }

  /** The end prefix bounds every level on its own. */
  ghost predicate EachWithin(n: seq<Nibble>, end: seq<Nibble>, j: nat, d: nat)
    requires d <= |n|
  {
    forall k :: j <= k < d && k < |end| ==> n[k] <= end[k]
  }

  ghost predicate Visited(depths: Depths, p: Path, i: nat, start: seq<Nibble>, end: seq<Nibble>, t: Sid)
  {
    && t in depths && |p| < depths[t] <= SID_NIBBLES
    && p <= Nibbles(t)
    && i <= Nibbles(t)[|p|]
    && (Nibbles(t)[|p|] == i ==> NotBelow(Nibbles(t), start, |p| + 1, depths[t]))
    && EachWithin(Nibbles(t), end, |p|, depths[t])
  }

  lemma PathOfSlot(p: Path, i: Nibble, t: Sid)
    requires |p| < SID_NIBBLES
    ensures p + [i] <= Nibbles(t) <==> p <= Nibbles(t) && Nibbles(t)[|p|] == i
  {
  }

  lemma {:induction false} WalkVisits(shape: Shape, depths: Depths, p: Path, i: nat,
                                      start: seq<Nibble>, end: seq<Nibble>, t: Sid)
    requires Structured(shape, depths) && p in shape
    ensures t in WalkList(shape, p, i, start, end) <==> Visited(depths, p, i, start, end, t)
    decreases SID_NIBBLES - |p|, 16 - i, 1
  {
    if i < 16 && i < Upper(|p|, end) {
      SlotVisits(shape, depths, p, i, start, end, t);
      WalkVisits(shape, depths, p, i + 1, [], end, t);
    }
  }

  lemma {:induction false} SlotVisits(shape: Shape, depths: Depths, p: Path, i: Nibble,
                                      start: seq<Nibble>, end: seq<Nibble>, t: Sid)
    requires Structured(shape, depths) && p in shape && i < Upper(|p|, end)
    ensures t in SlotList(shape, p, i, start, end) <==>
            Visited(depths, p, i, start, end, t) && Nibbles(t)[|p|] == i
    decreases SID_NIBBLES - |p|, 16 - i, 0
  {
    PathOfSlot(p, i, t);
    assert CellFits(shape, depths, p, i);
    if t in depths && p + [i] <= Nibbles(t) {
      HomeBelow(shape, depths, p, i, t);
    }
    if shape[p][i] == Split {
      WalkVisits(shape, depths, p + [i], Lower(|p| + 1, start), start, end, t);
    }
  }

  lemma {:induction false} WalkAscends(shape: Shape, depths: Depths, p: Path, i: nat,
                                       start: seq<Nibble>, end: seq<Nibble>)
    requires Structured(shape, depths) && p in shape
    ensures Ascending(WalkList(shape, p, i, start, end))
    decreases SID_NIBBLES - |p|, 16 - i, 1
  {
    if i < 16 && i < Upper(|p|, end) {
      var a, b := SlotList(shape, p, i, start, end), WalkList(shape, p, i + 1, [], end);
      SlotAscends(shape, depths, p, i, start, end);
      WalkAscends(shape, depths, p, i + 1, [], end);
      forall s, t | s in a && t in b
        ensures Before(s, t)
      {
        SlotVisits(shape, depths, p, i, start, end, s);
        WalkVisits(shape, depths, p, i + 1, [], end, t);
        assert DiffersAt(s, t, |p|);
      }
    }
  }

  lemma {:induction false} SlotAscends(shape: Shape, depths: Depths, p: Path, i: Nibble,
                                       start: seq<Nibble>, end: seq<Nibble>)
    requires Structured(shape, depths) && p in shape
    ensures Ascending(SlotList(shape, p, i, start, end))
    decreases SID_NIBBLES - |p|, 16 - i, 0
  {
    if shape[p][i] == Split {
      assert CellFits(shape, depths, p, i);
      WalkAscends(shape, depths, p + [i], Lower(|p| + 1, start), start, end);
    }
  }

  /** The whole walk: what enum_subscribers and the prefix walks visit. */
  ghost function FullWalk(shape: Shape, start: seq<byte>, end: seq<byte>): seq<Sid>
  {
    WalkList(shape, [], Lower(0, Nibbles(start)), Nibbles(start), Nibbles(end))
  }

  lemma FullWalkVisits(shape: Shape, depths: Depths, start: seq<byte>, end: seq<byte>, t: Sid)
    requires Structured(shape, depths)
    ensures t in FullWalk(shape, start, end) <==>
            && t in depths && 1 <= depths[t] <= SID_NIBBLES
            && NotBelow(Nibbles(t), Nibbles(start), 0, depths[t])
            && EachWithin(Nibbles(t), Nibbles(end), 0, depths[t])
  {
    WalkVisits(shape, depths, [], Lower(0, Nibbles(start)), Nibbles(start), Nibbles(end), t);
    if t in depths {
      assert HomeHolds(shape, depths, t);
    }
  }

  // ----- starting from a known SID -----

  lemma {:induction false} NotBelowFrom(start: Sid, t: Sid, j: nat, d: nat)
    requires j <= d <= SID_NIBBLES && Nibbles(t)[..j] == Nibbles(start)[..j]
    ensures NotBelow(Nibbles(t), Nibbles(start), j, d) <==>
            Nibbles(t)[..d] == Nibbles(start)[..d] || exists k: nat :: k < d && DiffersAt(start, t, k)
    decreases d - j
  {
    var n, m := Nibbles(t), Nibbles(start);
    if j < d {
      if n[j] == m[j] {
        assert n[..j + 1] == n[..j] + [n[j]] && m[..j + 1] == m[..j] + [m[j]];
        NotBelowFrom(start, t, j + 1, d);
      } else {
        assert DiffersAt(start, t, j) <==> n[j] > m[j];
        FirstDifference(start, t, j, d);
      }
    } else {
      forall k: nat | k < d && DiffersAt(start, t, k)
        ensures n[..d] == m[..d]
      {
      }
    }
  }

  /** Where two SIDs part decides every comparison of longer prefixes. */
  lemma FirstDifference(start: Sid, t: Sid, j: nat, d: nat)
    requires j < d <= SID_NIBBLES && Nibbles(t)[..j] == Nibbles(start)[..j]
    requires Nibbles(t)[j] != Nibbles(start)[j]
    ensures Nibbles(t)[..d] != Nibbles(start)[..d]
    ensures forall k :: DiffersAt(start, t, k) ==> k == j
  {
  }

  /** A known SID that runs through the slot of another is that other. */
  lemma SlotPrefixIsOwn(shape: Shape, depths: Depths, s: Sid, t: Sid)
    requires Structured(shape, depths) && s in depths && t in depths
    requires depths[t] <= SID_NIBBLES && Nibbles(t)[..depths[t]] <= Nibbles(s)
    ensures s == t
  {
    assert HomeHolds(shape, depths, t);
    var n, d := Nibbles(t), depths[t];
    assert n[..d] == n[..d - 1] + [n[d - 1]];
    HeldIsAlone(shape, depths, n[..d - 1], n[d - 1], t);
  }

  /** enum_subscribers from a known SID visits exactly the SIDs not below it. */
  lemma EnumFromKnown(shape: Shape, depths: Depths, start: Sid, t: Sid)
    requires Structured(shape, depths) && start in depths
    ensures t in FullWalk(shape, start, []) <==> t in depths && (t == start || Before(start, t))
  {
    FullWalkVisits(shape, depths, start, [], t);
    if t in depths {
      assert HomeHolds(shape, depths, t);
      var d := depths[t];
      NotBelowFrom(start, t, 0, d);
      if Nibbles(t)[..d] == Nibbles(start)[..d] {
        SlotPrefixIsOwn(shape, depths, start, t);
      } else {
        PartsWithin(start, t, d);
      }
    }
  }

  lemma PartsWithin(start: Sid, t: Sid, d: nat)
    requires d <= SID_NIBBLES && Nibbles(t)[..d] != Nibbles(start)[..d]
    ensures Before(start, t) <==> exists k: nat :: k < d && DiffersAt(start, t, k)
    ensures start != t
  {
  }

  // ----- the walk along one prefix -----

  lemma {:induction false} SameBoundsFix(n: seq<Nibble>, p: seq<Nibble>, j: nat, d: nat)
    requires d <= |n|
    ensures NotBelow(n, p, j, d) && EachWithin(n, p, j, d) <==>
            forall k :: j <= k < d && k < |p| ==> n[k] == p[k]
    decreases d - j
  {
    if j < d && j < |p| {
      SameBoundsFix(n, p, j + 1, d);
      assert EachWithin(n, p, j, d) <==> n[j] <= p[j] && EachWithin(n, p, j + 1, d);
    }
  }

  lemma PrefixWalkVisits(shape: Shape, depths: Depths, prefix: seq<byte>, t: Sid)
    requires Structured(shape, depths) && |prefix| <= SID_SIZE
    ensures t in FullWalk(shape, prefix, prefix) <==>
            && t in depths && 1 <= depths[t] <= SID_NIBBLES
            && forall k :: 0 <= k < depths[t] && k < 2 * |prefix| ==> Nibbles(t)[k] == Nibbles(prefix)[k]
  {
    FullWalkVisits(shape, depths, prefix, prefix, t);
    if t in depths && 1 <= depths[t] <= SID_NIBBLES {
      SameBoundsFix(Nibbles(t), Nibbles(prefix), 0, depths[t]);
    }
  }

  lemma MatchIsVisited(shape: Shape, depths: Depths, prefix: seq<byte>, t: Sid)
    requires Structured(shape, depths) && |prefix| <= SID_SIZE
    requires t in depths && prefix <= t
    ensures t in FullWalk(shape, prefix, prefix)
  {
    PrefixWalkVisits(shape, depths, prefix, t);
    PrefixOfNibbles(prefix, t);
    assert HomeHolds(shape, depths, t);
  }

  /** A known SID whose slot lies on the way to the prefix, but which does not have the
      prefix. */
  ghost predicate Stray(depths: Depths, prefix: seq<byte>, t: Sid)
    requires |prefix| <= SID_SIZE
  {
    && t in depths && depths[t] < 2 * |prefix| && Nibbles(t)[..depths[t]] <= Nibbles(prefix)
    && !(prefix <= t)
  }

  /** Exactly the SIDs with the prefix are visited, and such strays. */
  lemma VisitsMatchesAndStrays(shape: Shape, depths: Depths, prefix: seq<byte>, t: Sid)
    requires Structured(shape, depths) && |prefix| <= SID_SIZE
    ensures t in FullWalk(shape, prefix, prefix) <==> (t in depths && prefix <= t) || Stray(depths, prefix, t)
  {
    PrefixWalkVisits(shape, depths, prefix, t);
    PrefixOfNibbles(prefix, t);
    hide FullWalk;
    if t in depths {
      assert HomeHolds(shape, depths, t);
      if depths[t] < 2 * |prefix| {
        assert Nibbles(t)[..depths[t]] <= Nibbles(prefix) <==>
               forall k :: 0 <= k < depths[t] ==> Nibbles(t)[k] == Nibbles(prefix)[k];
      }
    }
  }

  /** A walk along a prefix visits exactly the SIDs that have it if and only if there is no
      stray. */
  lemma PrefixWalkIsExactIff(shape: Shape, depths: Depths, prefix: seq<byte>)
    requires Structured(shape, depths) && |prefix| <= SID_SIZE
    ensures (forall t :: t in FullWalk(shape, prefix, prefix) <==> t in Matches(depths.Keys, prefix)) <==>
            forall t :: !Stray(depths, prefix, t)
  {
    hide FullWalk;
    forall t: Sid
      ensures t in FullWalk(shape, prefix, prefix) <==> t in Matches(depths.Keys, prefix) || Stray(depths, prefix, t)
    {
      VisitsMatchesAndStrays(shape, depths, prefix, t);
    }
    assert forall t :: Stray(depths, prefix, t) ==> t !in Matches(depths.Keys, prefix);
  }

  /** The table that knows one SID only, and a prefix that parts from it behind the first
      nibble. */
  lemma LoneStray(s: Sid, prefix: seq<byte>)
    requires 1 <= |prefix| <= SID_SIZE && Nibbles(prefix)[0] == Nibbles(s)[0] && !(prefix <= s)
    ensures var shape := map[[] := seq(16, _ => Free)[Nibbles(s)[0] := Held(s)]];
      && WellFormed(shape, map[s := 1]) && s in FullWalk(shape, prefix, prefix) && Matches({s}, prefix) == {}
  {
    var free := map[[] := seq(16, _ => Free)];
    var i := Nibbles(s)[0];
    assert [] + [i] <= Nibbles(s);
    PlaceKeepsStructure(free, map[], [], i, s);
    var shape := PlaceShape(free, [], i, s);
    assert shape == map[[] := seq(16, _ => Free)[i := Held(s)]];
    assert map[][s := 1] == map[s := 1];
    hide FullWalk;
    VisitsMatchesAndStrays(shape, map[s := 1], prefix, s);
    assert Nibbles(s)[..1] == [i] && Nibbles(prefix)[..1] == [i];
  }

  /** For instance. */
  lemma StrayIsVisited(s: Sid)
    requires s[0] == 0x10
    ensures var prefix := [0x11, 0x11, 0x11];
      s in FullWalk(map[[] := seq(16, _ => Free)[1 := Held(s)]], prefix, prefix) && !(prefix <= s)
  {
    assert Nibbles(s)[0] == 1 && Nibbles([0x11, 0x11, 0x11])[0] == 1;
    LoneStray(s, [0x11, 0x11, 0x11]);
  }

  /** A visited SID without the prefix is the only one visited. */
  lemma StrayIsAlone(shape: Shape, depths: Depths, prefix: seq<byte>, t: Sid, u: Sid)
    requires Structured(shape, depths) && |prefix| <= SID_SIZE
    requires t in FullWalk(shape, prefix, prefix) && !(prefix <= t)
    requires u in FullWalk(shape, prefix, prefix)
    ensures u == t
  {
    var p := Nibbles(prefix);
    PrefixWalkVisits(shape, depths, prefix, t);
    PrefixWalkVisits(shape, depths, prefix, u);
    PrefixOfNibbles(prefix, t);
    if depths[t] <= depths[u] {
      assert Nibbles(t)[..depths[t]] == p[..depths[t]] == Nibbles(u)[..depths[t]];
      SlotPrefixIsOwn(shape, depths, u, t);
    } else {
      assert Nibbles(u)[..depths[u]] == p[..depths[u]] == Nibbles(t)[..depths[u]];
      SlotPrefixIsOwn(shape, depths, t, u);
    }
  }

  /** A walk with equal start and end prefix visits the matching SIDs, all of
      them, in order; with no match it visits at most one other SID. */
  lemma PrefixWalkFinds(shape: Shape, depths: Depths, prefix: seq<byte>)
    requires Structured(shape, depths) && |prefix| <= SID_SIZE
    ensures var w := FullWalk(shape, prefix, prefix);
      && Ascending(w)
      && (forall t :: t in Matches(depths.Keys, prefix) ==> t in w)
      && (Matches(depths.Keys, prefix) != {} ==> forall t :: t in w ==> prefix <= t)
      && (Matches(depths.Keys, prefix) == {} ==> |w| <= 1)
  {
    var w, matches := FullWalk(shape, prefix, prefix), Matches(depths.Keys, prefix);
    WalkAscends(shape, depths, [], Lower(0, Nibbles(prefix)), Nibbles(prefix), Nibbles(prefix));
    forall t | t in matches
      ensures t in w
    {
      MatchIsVisited(shape, depths, prefix, t);
    }
    if stray: Sid :| stray in w && !(prefix <= stray) {
      forall u | u in w
        ensures u == stray
      {
        StrayIsAlone(shape, depths, prefix, stray, u);
      }
    } else {
      if |w| > 0 {
        PrefixWalkVisits(shape, depths, prefix, w[0]);
        assert w[0] in matches;
      }
    }
    assert |w| > 1 ==> w[0] in w && w[1] in w && Before(w[0], w[1]);
  }

  // ----- the walk itself -----

  /** Call back for each record in turn until the callback asks to stop. */
  function RunUntil<C>(callback: (Sid, C) -> (C, bool), c: C, list: seq<Sid>): (C, bool)
  {
    if list == [] then (c, false)
    else
      var (c', stop) := callback(list[0], c);
      if stop then (c', true) else RunUntil(callback, c', list[1..])
  }

  lemma {:induction false} RunUntilConcat<C>(callback: (Sid, C) -> (C, bool), c: C, a: seq<Sid>, b: seq<Sid>)
    ensures RunUntil(callback, c, a + b) ==
            var (c', stop) := RunUntil(callback, c, a);
            if stop then (c', true) else RunUntil(callback, c', b)
  {
    if a == [] {
      assert a + b == b;
    } else {
      assert (a + b)[0] == a[0] && (a + b)[1..] == a[1..] + b;
      var (c', stop) := callback(a[0], c);
      if !stop {
        RunUntilConcat(callback, c', a[1..], b);
      }
    }
  }

  lemma RunUntilOne<C>(callback: (Sid, C) -> (C, bool), c: C, s: Sid)
    ensures RunUntil(callback, c, [s]) == callback(s, c)
  {
  }

  lemma RunUntilNone<C>(callback: (Sid, C) -> (C, bool), c: C)
    ensures RunUntil(callback, c, []) == (c, false)
  {
  }

  /** One slot of a walk. */
  lemma WalkStep<C>(shape: Shape, p: Path, i: Nibble, start: seq<Nibble>, end: seq<Nibble>,
                    callback: (Sid, C) -> (C, bool), c: C)
    requires IsNode(shape, p) && i < Upper(|p|, end)
    ensures var (c', stop) := RunUntil(callback, c, SlotList(shape, p, i, start, end));
      RunUntil(callback, c, WalkList(shape, p, i, start, end)) ==
      if stop then (c', true) else RunUntil(callback, c', WalkList(shape, p, i + 1, [], end))
  {
    var here, rest := SlotList(shape, p, i, start, end), WalkList(shape, p, i + 1, [], end);
    assert WalkList(shape, p, i, start, end) == here + rest;
    hide WalkList, SlotList, RunUntil;
    RunUntilConcat(callback, c, here, rest);
  }

  lemma WalkDone<C>(shape: Shape, p: Path, i: nat, start: seq<Nibble>, end: seq<Nibble>,
                    callback: (Sid, C) -> (C, bool), c: C)
    requires i >= Upper(|p|, end)
    ensures RunUntil(callback, c, WalkList(shape, p, i, start, end)) == (c, false)
  {
  }

  lemma TableIsTree(nodes: Nodes, subs: Subs, lay: Layout, known: set<Sid>)
    requires ValidTable(nodes, subs, lay, known)
    ensures lay.at.Keys == lay.shape.Keys && [] in lay.at && lay.at[[]] == 0
    ensures Structured(lay.shape, lay.depths) && lay.records.Keys == lay.depths.Keys
  {
  }

  /** walk_tree: an absent start or end is the empty sequence. */
  method WalkTree<C>(table: SubscriberTable, node: NodePtr, ghost p: Path, pos: nat,
                     start: seq<byte>, end: seq<byte>, callback: (Sid, C) -> (C, bool), c: C)
    returns (c': C, stopped: bool)
    requires table.Valid() && p in table.lay.at && table.lay.at[p] == node && pos == |p|
    ensures (c', stopped) == RunUntil(callback, c,
      WalkList(table.lay.shape, p, Lower(pos, Nibbles(start)), Nibbles(start), Nibbles(end)))
    decreases SID_NIBBLES - |p|
  {
    hide ValidTable, RunUntil, WalkList, Structured;
    ghost var shape := table.lay.shape;
    ghost var whole := WalkList(shape, p, Lower(pos, Nibbles(start)), Nibbles(start), Nibbles(end));
    TableIsTree(table.nodes, table.subs, table.lay, table.Known());
    SlotHolds(table.nodes, table.subs, table.lay, table.Known(), p, 0);
    var i: nat := if pos < 2 * |start| then GetNibble(start, pos) else 0;
    var e: nat := if pos < 2 * |end| then (GetNibble(end, pos) as int) + 1 else 16;
    var from := start;
    c' := c;
    while i < e
      invariant e == Upper(pos, Nibbles(end)) <= 16
      invariant RunUntil(callback, c, whole) ==
                RunUntil(callback, c', WalkList(shape, p, i, Nibbles(from), Nibbles(end)))
    {
      SlotHolds(table.nodes, table.subs, table.lay, table.Known(), p, i);
      WalkStep(shape, p, i, Nibbles(from), Nibbles(end), callback, c');
      RunUntilNone(callback, c');
      var slot := table.nodes[node][i];
      if slot.Branch? {
        c', stopped := WalkTree(table, slot.node, p + [i], pos + 1, from, end, callback, c');
        if stopped {
          return;
        }
      } else if slot.Leaf? {
        var sid := table.subs[slot.sub].sid;
        RunUntilOne(callback, c', sid);
        var (c1, stop) := callback(sid, c');
        c' := c1;
        if stop {
          return c', true;
        }
      }
      from := [];
      i := i + 1;
    }
    WalkDone(shape, p, i, Nibbles(from), Nibbles(end), callback, c');
    stopped := false;
  }

  /** enum_subscribers, with a missing start as the empty sequence. */
  method EnumSubscribers<C>(table: SubscriberTable, start: seq<byte>, callback: (Sid, C) -> (C, bool), c: C)
    returns (c': C)
    requires table.Valid()
    ensures c' == RunUntil(callback, c, FullWalk(table.lay.shape, start, [])).0
  {
    hide ValidTable;
    TableIsTree(table.nodes, table.subs, table.lay, table.Known());
    var stopped;
    c', stopped := WalkTree(table, 0, [], 0, start, [], callback, c);
  }
}
