/** The subscriber table of overlay_address.c: a radix tree over subscriber
    identifiers (SIDs) with sixteen slots per node.  A slot is free, holds one
    subscriber record, or leads to a deeper node. */
module TreeShape {
  import opened Bytes
  import opened Wrappers

  const SID_SIZE := 32
  const SID_NIBBLES := 64

  type Sid = s: seq<byte> | |s| == SID_SIZE witness seq(SID_SIZE, _ => 0)

  type Path = seq<Nibble>

  datatype Cell = Free | Held(sid: Sid) | Split

  /** What the tree looks like, node by node: the nibbles leading to a node
      determine it. */
  type Shape = map<Path, seq<Cell>>

  /** The depth, in nibbles, of the slot that holds each known SID. */
  type Depths = map<Sid, nat>

  // ----- what a plain set of SIDs promises -----

  /** The known SIDs that begin with the octets `p`. */
  ghost function Matches(known: set<Sid>, p: seq<byte>): set<Sid>
  {
    set t | t in known && p <= t
  }

  /** No other known SID agrees with `s` on its first `k` nibbles. */
  ghost predicate UniqueAt(known: set<Sid>, s: Sid, k: nat)
    requires k <= SID_NIBBLES
  {
    forall t :: t in known && t != s ==> !(Nibbles(s)[..k] <= Nibbles(t))
  }

  /** `k` is the length of the shortest abbreviation of `s`, at least one nibble. */
  ghost predicate IsAbbreviation(known: set<Sid>, s: Sid, k: nat)
  {
    && 1 <= k <= SID_NIBBLES
    && UniqueAt(known, s, k)
    && (k > 1 ==> !UniqueAt(known, s, k - 1))
  }

  /** The shortest abbreviation is determined by the set alone. */
  lemma AbbreviationIsUnique(known: set<Sid>, s: Sid, j: nat, k: nat)
    requires IsAbbreviation(known, s, j) && IsAbbreviation(known, s, k)
    ensures j == k
  {
  }

  // ----- well-formed trees -----

  ghost predicate CellFits(shape: Shape, depths: Depths, p: Path, i: Nibble)
    requires p in shape && |shape[p]| == 16 && |p| < SID_NIBBLES
  {
    match shape[p][i]
    case Free => true
    case Held(s) => s in depths && depths[s] == |p| + 1 && p + [i] <= Nibbles(s)
    case Split => p + [i] in shape
  }

  ghost predicate NodesFit(shape: Shape, depths: Depths)
  {
    && [] in shape
    && (forall p :: p in shape ==> |p| < SID_NIBBLES && |shape[p]| == 16)
    && (forall p, i: Nibble :: p in shape ==> CellFits(shape, depths, p, i))
  }

  ghost predicate ParentSplits(shape: Shape, p: Path)
    requires p != []
  {
    var up := p[..|p| - 1];
    up in shape && |shape[up]| == 16 && shape[up][p[|p| - 1]] == Split
  }

  ghost predicate ParentsSplit(shape: Shape)
  {
    forall p {:trigger ParentSplits(shape, p)} :: p in shape && p != [] ==> ParentSplits(shape, p)
  }

  ghost predicate HomesHold(shape: Shape, depths: Depths)
  {
    forall s :: s in depths ==> HomeHolds(shape, depths, s)
  }

  ghost predicate HomeHolds(shape: Shape, depths: Depths, s: Sid)
    requires s in depths
  {
    && 1 <= depths[s] <= SID_NIBBLES
    && var home := Nibbles(s)[..depths[s] - 1];
       home in shape && |shape[home]| == 16 && shape[home][Nibbles(s)[depths[s] - 1]] == Held(s)
  }

  ghost predicate Crowd(known: set<Sid>, p: Path, s: Sid, t: Sid)
  {
    s in known && t in known && s != t && p <= Nibbles(s) && p <= Nibbles(t)
  }

  ghost predicate Shared(known: set<Sid>, p: Path)
  {
    exists s, t :: Crowd(known, p, s, t)
  }

  /** Below the root, a node exists only because several SIDs share its path. */
  ghost predicate Crowded(shape: Shape, known: set<Sid>)
  {
    forall p {:trigger Shared(known, p)} :: p in shape && p != [] ==> Shared(known, p)
  }

  ghost predicate Structured(shape: Shape, depths: Depths)
  {
    NodesFit(shape, depths) && ParentsSplit(shape) && HomesHold(shape, depths)
  }

  ghost predicate WellFormed(shape: Shape, depths: Depths)
  {
    Structured(shape, depths) && Crowded(shape, depths.Keys)
  }

  /** Every prefix of a node's path is a node that leads towards it. */
  lemma {:induction false} AncestorsSplit(shape: Shape, p: Path, k: nat)
    requires ParentsSplit(shape) && p in shape && k < |p|
    requires forall q :: q in shape ==> |shape[q]| == 16
    ensures p[..k] in shape && shape[p[..k]][p[k]] == Split
    decreases |p|
  {
    var up := p[..|p| - 1];
    assert ParentSplits(shape, p);
    if k < |p| - 1 {
      AncestorsSplit(shape, up, k);
      assert up[..k] == p[..k];
    }
  }

  /** A known SID that runs through a slot lives at or below that slot, and the
      slot is not free. */
  lemma HomeBelow(shape: Shape, depths: Depths, p: Path, i: Nibble, s: Sid)
    requires Structured(shape, depths) && p in shape && s in depths
    requires p + [i] <= Nibbles(s)
    ensures |p| < depths[s] && shape[p][i] != Free
    ensures depths[s] == |p| + 1 ==> shape[p][i] == Held(s)
    ensures depths[s] > |p| + 1 ==> shape[p][i] == Split
  {
    assert HomeHolds(shape, depths, s);
    var n := Nibbles(s);
    var home := n[..depths[s] - 1];
    assert n[..|p|] == p && n[|p|] == i by {
      assert n[..|p| + 1] == p + [i];
      assert n[..|p|] == n[..|p| + 1][..|p|];
    }
    if depths[s] <= |p| {
      assert p[..depths[s] - 1] == home && p[depths[s] - 1] == n[depths[s] - 1];
      AncestorsSplit(shape, p, depths[s] - 1);
      assert false;
    } else if depths[s] == |p| + 1 {
      assert home == p;
    } else {
      AncestorsSplit(shape, home, |p|);
      assert home[..|p|] == p && home[|p|] == i;
    }
  }

  /** A slot that holds `s` is the home of no other known SID below it. */
  lemma HeldIsAlone(shape: Shape, depths: Depths, p: Path, i: Nibble, s: Sid)
    requires Structured(shape, depths) && p in shape && shape[p][i] == Held(s)
    ensures s in depths && depths[s] == |p| + 1 && Nibbles(s)[..|p| + 1] == p + [i]
    ensures forall t :: t in depths && p + [i] <= Nibbles(t) ==> t == s
  {
    assert CellFits(shape, depths, p, i);
    forall t | t in depths && p + [i] <= Nibbles(t)
      ensures t == s
    {
      HomeBelow(shape, depths, p, i, t);
    }
  }

  /** The depth of a record is the length of its shortest unambiguous prefix. */
  lemma DepthIsAbbreviation(shape: Shape, depths: Depths, s: Sid)
    requires WellFormed(shape, depths) && s in depths
    ensures IsAbbreviation(depths.Keys, s, depths[s])
  {
    assert HomeHolds(shape, depths, s);
    var n, d := Nibbles(s), depths[s];
    var home := n[..d - 1];
    assert n[..d] == home + [n[d - 1]];
    HeldIsAlone(shape, depths, home, n[d - 1], s);
    if d > 1 {
      assert Shared(depths.Keys, home);
      var a: Sid, b: Sid :| Crowd(depths.Keys, home, a, b);
      var t := if a == s then b else a;
      assert t in depths.Keys && t != s && n[..d - 1] <= Nibbles(t);
    }
  }

  // ----- what a walk along a prefix learns -----

  /** The one known SID that begins with `p`, if there is exactly one. */
  ghost function Resolve(known: set<Sid>, p: seq<byte>): (r: Option<Sid>)
    ensures forall s :: r == Some(s) <==> Matches(known, p) == {s}
  {
    if s :| Matches(known, p) == {s} then
      assert forall t :: Matches(known, p) == {t} ==> t in {s};
      Some(s)
    else None
  }

  lemma MatchRunsThrough(p: Path, sid: seq<byte>, t: Sid)
    requires |sid| <= SID_SIZE && p <= Nibbles(sid) && sid <= t
    ensures p <= Nibbles(t)
  {
  }

  lemma FreeMeansUnknown(shape: Shape, depths: Depths, p: Path, i: Nibble, sid: seq<byte>)
    requires Structured(shape, depths) && p in shape && shape[p][i] == Free
    requires |sid| <= SID_SIZE && p + [i] <= Nibbles(sid)
    ensures Matches(depths.Keys, sid) == {}
  {
    forall t | t in depths.Keys
      ensures !(sid <= t)
    {
      if sid <= t {
        MatchRunsThrough(p + [i], sid, t);
        HomeBelow(shape, depths, p, i, t);
        assert false;
      }
    }
  }

  lemma HeldMeansAtMostOne(shape: Shape, depths: Depths, p: Path, i: Nibble, s: Sid, sid: seq<byte>)
    requires Structured(shape, depths) && p in shape && shape[p][i] == Held(s)
    requires |sid| <= SID_SIZE && p + [i] <= Nibbles(sid)
    ensures s in depths
    ensures Matches(depths.Keys, sid) == if sid <= s then {s} else {}
  {
    HeldIsAlone(shape, depths, p, i, s);
    forall t | t in depths.Keys && sid <= t
      ensures t == s
    {
      MatchRunsThrough(p + [i], sid, t);
    }
  }

  lemma NodeMeansSeveral(shape: Shape, known: set<Sid>, sid: seq<byte>)
    requires Crowded(shape, known) && 1 <= |sid| <= SID_SIZE && Nibbles(sid) in shape
    ensures Resolve(known, sid) == None
  {
    var p := Nibbles(sid);
    assert Shared(known, p);
    var a: Sid, b: Sid :| Crowd(known, p, a, b);
    PrefixOfNibbles(sid, a);
    PrefixOfNibbles(sid, b);
    assert a in Matches(known, sid) && b in Matches(known, sid);
    assert forall s :: Matches(known, sid) == {s} ==> a in {s} && b in {s};
  }

  /** Two different SIDs part before their last nibble is reached. */
  lemma DifferentSidsPart(s: Sid, t: Sid, p: Path)
    requires s != t && p <= Nibbles(s) && p <= Nibbles(t)
    ensures |p| < SID_NIBBLES
  {
    PrefixOfNibbles(s, t);
    assert |p| >= SID_NIBBLES ==> p == Nibbles(s) && p == Nibbles(t);
  }

  // ----- the two ways the tree grows -----

  ghost function PlaceShape(shape: Shape, p: Path, i: Nibble, s: Sid): Shape
    requires p in shape && |shape[p]| == 16
  {
    shape[p := shape[p][i := Held(s)]]
  }

  /** A fresh node whose only occupant is `r`. */
  ghost function NodeWith(r: Sid, k: nat): seq<Cell>
    requires k < SID_NIBBLES
  {
    seq(16, _ => Free)[Nibbles(r)[k] := Held(r)]
  }

  ghost function SplitShape(shape: Shape, p: Path, i: Nibble, r: Sid): Shape
    requires p in shape && |shape[p]| == 16 && |p| + 1 < SID_NIBBLES
  {
    shape[p := shape[p][i := Split]][p + [i] := NodeWith(r, |p| + 1)]
  }

  lemma PlaceKeepsCells(shape: Shape, depths: Depths, p: Path, i: Nibble, s: Sid)
    requires Structured(shape, depths) && p in shape && shape[p][i] == Free
    requires s !in depths && p + [i] <= Nibbles(s)
    ensures NodesFit(PlaceShape(shape, p, i, s), depths[s := |p| + 1])
  {
    var shape', depths' := PlaceShape(shape, p, i, s), depths[s := |p| + 1];
    forall q, j: Nibble | q in shape'
      ensures CellFits(shape', depths', q, j)
    {
      assert CellFits(shape, depths, q, j);
    }
  }

  lemma PlaceKeepsParents(shape: Shape, depths: Depths, p: Path, i: Nibble, s: Sid)
    requires Structured(shape, depths) && p in shape && shape[p][i] == Free
    ensures ParentsSplit(PlaceShape(shape, p, i, s))
  {
    var shape' := PlaceShape(shape, p, i, s);
    forall q | q in shape' && q != []
      ensures ParentSplits(shape', q)
    {
      assert ParentSplits(shape, q);
    }
  }

  lemma PlaceKeepsHomes(shape: Shape, depths: Depths, p: Path, i: Nibble, s: Sid)
    requires Structured(shape, depths) && p in shape && shape[p][i] == Free
    requires s !in depths && p + [i] <= Nibbles(s)
    ensures HomesHold(PlaceShape(shape, p, i, s), depths[s := |p| + 1])
  {
    var shape', depths' := PlaceShape(shape, p, i, s), depths[s := |p| + 1];
    assert Nibbles(s)[..|p|] == p && Nibbles(s)[|p|] == i;
    forall t | t in depths'
      ensures HomeHolds(shape', depths', t)
    {
      if t != s {
        assert HomeHolds(shape, depths, t);
      }
    }
  }

  lemma PlaceKeepsStructure(shape: Shape, depths: Depths, p: Path, i: Nibble, s: Sid)
    requires Structured(shape, depths) && p in shape && shape[p][i] == Free
    requires s !in depths && p + [i] <= Nibbles(s)
    ensures Structured(PlaceShape(shape, p, i, s), depths[s := |p| + 1])
  {
    PlaceKeepsCells(shape, depths, p, i, s);
    PlaceKeepsParents(shape, depths, p, i, s);
    PlaceKeepsHomes(shape, depths, p, i, s);
  }

  lemma ChildOfHeldIsNew(shape: Shape, p: Path, i: Nibble)
    requires ParentsSplit(shape) && p in shape && |shape[p]| == 16 && shape[p][i].Held?
    ensures p + [i] !in shape
  {
    var np := p + [i];
    assert np[..|np| - 1] == p && np[|np| - 1] == i;
    assert np in shape ==> ParentSplits(shape, np);
  }

  lemma SplitKeepsCells(shape: Shape, depths: Depths, p: Path, i: Nibble, r: Sid)
    requires Structured(shape, depths) && p in shape && shape[p][i] == Held(r)
    requires |p| + 1 < SID_NIBBLES && p + [i] !in shape && Nibbles(r)[..|p| + 1] == p + [i]
    ensures NodesFit(SplitShape(shape, p, i, r), depths[r := |p| + 2])
  {
    var shape', depths' := SplitShape(shape, p, i, r), depths[r := |p| + 2];
    var np := p + [i];
    assert np + [Nibbles(r)[|np|]] == Nibbles(r)[..|np| + 1];
    forall q, j: Nibble | q in shape'
      ensures CellFits(shape', depths', q, j)
    {
      if q != np {
        assert CellFits(shape, depths, q, j);
        if shape[q][j] == Held(r) {
          SameHome(shape, depths, p, i, q, j, r);
        }
      }
    }
  }

  lemma SplitKeepsParents(shape: Shape, depths: Depths, p: Path, i: Nibble, r: Sid)
    requires Structured(shape, depths) && p in shape && shape[p][i] == Held(r)
    requires |p| + 1 < SID_NIBBLES && p + [i] !in shape
    ensures ParentsSplit(SplitShape(shape, p, i, r))
  {
    var shape' := SplitShape(shape, p, i, r);
    var np := p + [i];
    assert np[..|np| - 1] == p && np[|np| - 1] == i;
    forall q | q in shape' && q != []
      ensures ParentSplits(shape', q)
    {
      if q != np {
        assert ParentSplits(shape, q);
      }
    }
  }

  lemma SplitKeepsHomes(shape: Shape, depths: Depths, p: Path, i: Nibble, r: Sid)
    requires Structured(shape, depths) && p in shape && shape[p][i] == Held(r)
    requires |p| + 1 < SID_NIBBLES && p + [i] !in shape && Nibbles(r)[..|p| + 1] == p + [i]
    ensures HomesHold(SplitShape(shape, p, i, r), depths[r := |p| + 2])
  {
  }

  lemma SplitKeepsStructure(shape: Shape, depths: Depths, p: Path, i: Nibble, r: Sid)
    requires Structured(shape, depths) && p in shape && shape[p][i] == Held(r)
    requires |p| + 1 < SID_NIBBLES
    ensures p + [i] !in shape
    ensures Structured(SplitShape(shape, p, i, r), depths[r := |p| + 2])
  {
    HeldIsAlone(shape, depths, p, i, r);
    ChildOfHeldIsNew(shape, p, i);
    SplitKeepsCells(shape, depths, p, i, r);
    SplitKeepsParents(shape, depths, p, i, r);
    SplitKeepsHomes(shape, depths, p, i, r);
  }

  /** A record sits in one slot only. */
  lemma SameHome(shape: Shape, depths: Depths, p: Path, i: Nibble, q: Path, j: Nibble, r: Sid)
    requires Structured(shape, depths) && p in shape && q in shape
    requires shape[p][i] == Held(r) && shape[q][j] == Held(r)
    ensures p == q && i == j
  {
    assert CellFits(shape, depths, p, i) && CellFits(shape, depths, q, j);
    assert Nibbles(r)[..|p| + 1] == p + [i] == q + [j];
    assert (p + [i])[..|p|] == p && (q + [j])[..|p|] == q;
    assert (p + [i])[|p|] == i && (q + [j])[|p|] == j;
  }
}

/** The same tree as servald stores it.  Tree nodes and subscriber records are
    allocated once and never freed, so a pointer to one is its allocation
    number; node 0 is the static root. */
module TreeStore {
  import opened Bytes
  import opened Wrappers
  import opened TreeShape

  type NodePtr = nat
  type SubPtr = nat

  datatype Slot = Empty | Leaf(sub: SubPtr) | Branch(node: NodePtr)

  datatype Subscriber = Subscriber(sid: Sid, abbreviateLen: nat, sendFull: bool)

  type Nodes = seq<seq<Slot>>
  type Subs = seq<Subscriber>

  /** How the stored nodes and records realise a tree shape. */
  datatype Layout = Layout(shape: Shape, depths: Depths, at: map<Path, NodePtr>, records: map<Sid, SubPtr>)

  ghost predicate SlotMatches(nodes: Nodes, lay: Layout, p: Path, i: Nibble)
    requires p in lay.at && lay.at[p] < |nodes| && |nodes[lay.at[p]]| == 16
    requires p in lay.shape && |lay.shape[p]| == 16
  {
    var slot := nodes[lay.at[p]][i];
    match lay.shape[p][i]
    case Free => slot == Empty
    case Held(s) => s in lay.records && slot == Leaf(lay.records[s])
    case Split => p + [i] in lay.at && slot == Branch(lay.at[p + [i]])
  }

  ghost predicate NodesLinked(nodes: Nodes, lay: Layout)
  {
    && lay.at.Keys == lay.shape.Keys
    && [] in lay.at && lay.at[[]] == 0
    && (forall k :: 0 <= k < |nodes| ==> |nodes[k]| == 16)
    && (forall p :: p in lay.shape ==> |lay.shape[p]| == 16 && lay.at[p] < |nodes|)
    && (forall p, q :: p in lay.at && q in lay.at && lay.at[p] == lay.at[q] ==> p == q)
    && (forall p, i: Nibble :: p in lay.at ==> SlotMatches(nodes, lay, p, i))
  }

  ghost predicate SubsLinked(subs: Subs, lay: Layout)
  {
    && lay.records.Keys == lay.depths.Keys
    && (forall s :: s in lay.records ==> RecordMatches(subs, lay, s))
    && (forall k :: 0 <= k < |subs| ==> subs[k].sid in lay.records && lay.records[subs[k].sid] == k)
  }

  ghost predicate RecordMatches(subs: Subs, lay: Layout, s: Sid)
    requires s in lay.records && s in lay.depths
  {
    lay.records[s] < |subs| && subs[lay.records[s]].sid == s
    && subs[lay.records[s]].abbreviateLen == lay.depths[s]
  }

  ghost predicate Linked(nodes: Nodes, subs: Subs, lay: Layout)
  {
    NodesLinked(nodes, lay) && SubsLinked(subs, lay) && Structured(lay.shape, lay.depths)
  }

  // ----- storing a new record -----

  ghost function PlaceLayout(lay: Layout, p: Path, i: Nibble, sid: Sid, r: SubPtr): Layout
    requires p in lay.shape && |lay.shape[p]| == 16
  {
    Layout(PlaceShape(lay.shape, p, i, sid), lay.depths[sid := |p| + 1], lay.at, lay.records[sid := r])
  }

  lemma PlaceNodes(nodes: Nodes, lay: Layout, p: Path, i: Nibble, sid: Sid, r: SubPtr)
    requires NodesLinked(nodes, lay) && p in lay.at && lay.shape[p][i] == Free && sid !in lay.records
    ensures var ptr := lay.at[p];
      NodesLinked(nodes[ptr := nodes[ptr][i := Leaf(r)]], PlaceLayout(lay, p, i, sid, r))
  {
    var ptr := lay.at[p];
    var nodes', lay' := nodes[ptr := nodes[ptr][i := Leaf(r)]], PlaceLayout(lay, p, i, sid, r);
    forall q, j: Nibble | q in lay'.at
      ensures SlotMatches(nodes', lay', q, j)
    {
      assert SlotMatches(nodes, lay, q, j);
    }
  }

  lemma PlaceSubs(subs: Subs, lay: Layout, p: Path, i: Nibble, rec: Subscriber)
    requires SubsLinked(subs, lay) && p in lay.shape && |lay.shape[p]| == 16
    requires rec.sid !in lay.records && rec.abbreviateLen == |p| + 1
    ensures SubsLinked(subs + [rec], PlaceLayout(lay, p, i, rec.sid, |subs|))
  {
    var subs', lay' := subs + [rec], PlaceLayout(lay, p, i, rec.sid, |subs|);
    forall s | s in lay'.records
      ensures RecordMatches(subs', lay', s)
    {
      if s != rec.sid {
        assert RecordMatches(subs, lay, s);
      }
    }
  }

  lemma PlaceLinks(nodes: Nodes, subs: Subs, lay: Layout, p: Path, i: Nibble, rec: Subscriber)
    requires Linked(nodes, subs, lay) && p in lay.at && lay.shape[p][i] == Free
    requires rec.sid !in lay.records && p + [i] <= Nibbles(rec.sid) && rec.abbreviateLen == |p| + 1
    ensures var ptr, r := lay.at[p], |subs|;
      Linked(nodes[ptr := nodes[ptr][i := Leaf(r)]], subs + [rec], PlaceLayout(lay, p, i, rec.sid, r))
  {
    PlaceNodes(nodes, lay, p, i, rec.sid, |subs|);
    PlaceSubs(subs, lay, p, i, rec);
    PlaceKeepsStructure(lay.shape, lay.depths, p, i, rec.sid);
  }

  // ----- pushing a record one level down -----

  ghost function PushLayout(lay: Layout, p: Path, i: Nibble, sid: Sid, node: NodePtr): Layout
    requires p in lay.shape && |lay.shape[p]| == 16 && |p| + 1 < SID_NIBBLES
  {
    Layout(SplitShape(lay.shape, p, i, sid), lay.depths[sid := |p| + 2],
           lay.at[p + [i] := node], lay.records)
  }

  /** The node made for the pushed record. */
  function NodeHolding(sub: SubPtr, nibble: Nibble): (n: seq<Slot>)
    ensures |n| == 16
  {
    seq(16, _ => Empty)[nibble := Leaf(sub)]
  }

  function PushNodes(nodes: Nodes, ptr: NodePtr, i: Nibble, sub: SubPtr, nibble: Nibble): (r: Nodes)
    requires ptr < |nodes| && |nodes[ptr]| == 16
  {
    nodes[ptr := nodes[ptr][i := Branch(|nodes|)]] + [NodeHolding(sub, nibble)]
  }

  lemma PushSlot(nodes: Nodes, lay: Layout, p: Path, i: Nibble, sid: Sid, q: Path, j: Nibble)
    requires NodesLinked(nodes, lay) && p in lay.at && lay.shape[p][i] == Held(sid)
    requires |p| + 1 < SID_NIBBLES && p + [i] !in lay.at && sid in lay.records
    requires q in lay.at || q == p + [i]
    ensures
      var nodes' := PushNodes(nodes, lay.at[p], i, lay.records[sid], Nibbles(sid)[|p| + 1]);
      var lay' := PushLayout(lay, p, i, sid, |nodes|);
      && lay'.at[q] < |nodes'| && |nodes'[lay'.at[q]]| == 16 && |lay'.shape[q]| == 16
      && SlotMatches(nodes', lay', q, j)
  {
    if q in lay.at {
      assert SlotMatches(nodes, lay, q, j);
    }
  }

  lemma PushSlots(nodes: Nodes, lay: Layout, p: Path, i: Nibble, sid: Sid)
    requires NodesLinked(nodes, lay) && p in lay.at && lay.shape[p][i] == Held(sid)
    requires |p| + 1 < SID_NIBBLES && p + [i] !in lay.at && sid in lay.records
    ensures var ptr := lay.at[p];
      NodesLinked(PushNodes(nodes, ptr, i, lay.records[sid], Nibbles(sid)[|p| + 1]),
                  PushLayout(lay, p, i, sid, |nodes|))
  {
    hide SlotMatches;
    var nodes' := PushNodes(nodes, lay.at[p], i, lay.records[sid], Nibbles(sid)[|p| + 1]);
    var lay' := PushLayout(lay, p, i, sid, |nodes|);
    forall q, j: Nibble | q in lay'.at
      ensures
        && lay'.at[q] < |nodes'| && |nodes'[lay'.at[q]]| == 16 && |lay'.shape[q]| == 16
        && SlotMatches(nodes', lay', q, j)
    {
      PushSlot(nodes, lay, p, i, sid, q, j);
    }
  }

  lemma PushSubs(subs: Subs, lay: Layout, p: Path, i: Nibble, sid: Sid, node: NodePtr)
    requires SubsLinked(subs, lay) && sid in lay.records
    requires p in lay.shape && |lay.shape[p]| == 16 && |p| + 1 < SID_NIBBLES
    ensures var r := lay.records[sid];
      r < |subs| && SubsLinked(subs[r := subs[r].(abbreviateLen := |p| + 2)], PushLayout(lay, p, i, sid, node))
  {
  }

  lemma PushLinks(nodes: Nodes, subs: Subs, lay: Layout, p: Path, i: Nibble, sid: Sid)
    requires Linked(nodes, subs, lay) && p in lay.at && lay.shape[p][i] == Held(sid)
    requires |p| + 1 < SID_NIBBLES
    ensures sid in lay.records && lay.records[sid] < |subs| && p + [i] !in lay.at
    ensures var ptr, r := lay.at[p], lay.records[sid];
      Linked(PushNodes(nodes, ptr, i, r, Nibbles(sid)[|p| + 1]),
             subs[r := subs[r].(abbreviateLen := |p| + 2)],
             PushLayout(lay, p, i, sid, |nodes|))
  {
    HeldIsAlone(lay.shape, lay.depths, p, i, sid);
    SplitKeepsStructure(lay.shape, lay.depths, p, i, sid);
    PushSlots(nodes, lay, p, i, sid);
    PushSubs(subs, lay, p, i, sid, |nodes|);
  }

  /** Ask for our own SID to be sent in full. */
  function Announce(subs: Subs, me: Option<SubPtr>): (r: Subs)
    requires me.Some? ==> me.value < |subs|
    ensures |r| == |subs|
    ensures forall k :: 0 <= k < |subs| ==>
      r[k] == subs[k].(sendFull := subs[k].sendFull || me == Some(k))
  {
    if me.Some? then subs[me.value := subs[me.value].(sendFull := true)] else subs
  }

  lemma AnnounceLinks(subs: Subs, lay: Layout, me: Option<SubPtr>)
    requires SubsLinked(subs, lay) && (me.Some? ==> me.value < |subs|)
    ensures SubsLinked(Announce(subs, me), lay)
  {
  }

  /** The whole table: every node below the root stands for several SIDs of
      `known`; during an insertion that includes the SID being inserted. */
  ghost predicate ValidTable(nodes: Nodes, subs: Subs, lay: Layout, known: set<Sid>)
  {
    Linked(nodes, subs, lay) && Crowded(lay.shape, known)
  }

  lemma PlaceKeepsTable(nodes: Nodes, subs: Subs, lay: Layout, known: set<Sid>, p: Path, i: Nibble,
                        rec: Subscriber, me: Option<SubPtr>)
    requires ValidTable(nodes, subs, lay, known) && p in lay.at && lay.shape[p][i] == Free
    requires rec.sid !in lay.records && p + [i] <= Nibbles(rec.sid) && rec.abbreviateLen == |p| + 1
    requires me.Some? ==> me.value < |subs|
    ensures p in lay.shape && |lay.shape[p]| == 16 && lay.at[p] < |nodes| && |nodes[lay.at[p]]| == 16
    ensures var ptr, r := lay.at[p], |subs|;
      ValidTable(nodes[ptr := nodes[ptr][i := Leaf(r)]], Announce(subs + [rec], me),
                 PlaceLayout(lay, p, i, rec.sid, r), known)
  {
    PlaceLinks(nodes, subs, lay, p, i, rec);
    AnnounceLinks(subs + [rec], PlaceLayout(lay, p, i, rec.sid, |subs|), me);
  }

  lemma PushKeepsTable(nodes: Nodes, subs: Subs, lay: Layout, known: set<Sid>, p: Path, i: Nibble,
                       sid: Sid, other: Sid)
    requires ValidTable(nodes, subs, lay, known) && p in lay.at && lay.shape[p][i] == Held(sid)
    requires |p| + 1 < SID_NIBBLES
    requires sid in known && other in known && sid != other && p + [i] <= Nibbles(other)
    ensures sid in lay.records && lay.records[sid] < |subs| && p + [i] !in lay.at
    ensures var ptr, r := lay.at[p], lay.records[sid];
      ValidTable(PushNodes(nodes, ptr, i, r, Nibbles(sid)[|p| + 1]),
                 subs[r := subs[r].(abbreviateLen := |p| + 2)],
                 PushLayout(lay, p, i, sid, |nodes|), known)
  {
    PushLinks(nodes, subs, lay, p, i, sid);
    HeldIsAlone(lay.shape, lay.depths, p, i, sid);
    assert Crowd(known, p + [i], sid, other);
  }

  /** Nothing but the announcement flags differs. */
  predicate SameButFlags(a: Subs, b: Subs)
  {
    |a| == |b| && forall k :: 0 <= k < |a| ==> b[k] == a[k].(sendFull := b[k].sendFull)
  }

  lemma FlagsKeepTable(nodes: Nodes, subs: Subs, subs': Subs, lay: Layout, known: set<Sid>)
    requires ValidTable(nodes, subs, lay, known) && SameButFlags(subs, subs')
    ensures ValidTable(nodes, subs', lay, known)
  {
  }

  /** A record is found at its own address, and its depth is the one stored. */
  lemma RecordIsItself(nodes: Nodes, subs: Subs, lay: Layout, known: set<Sid>, k: SubPtr)
    requires ValidTable(nodes, subs, lay, known) && k < |subs|
    ensures subs[k].sid in lay.records && lay.records[subs[k].sid] == k
    ensures subs[k].sid in lay.depths && lay.depths[subs[k].sid] == subs[k].abbreviateLen
  {
  }

  /** What a used slot tells about the record it points at. */
  lemma SlotHolds(nodes: Nodes, subs: Subs, lay: Layout, known: set<Sid>, p: Path, i: Nibble)
    requires ValidTable(nodes, subs, lay, known) && p in lay.at
    ensures p in lay.shape && |lay.shape[p]| == 16 && |p| < SID_NIBBLES
    ensures lay.at[p] < |nodes| && |nodes[lay.at[p]]| == 16
    ensures var slot, cell := nodes[lay.at[p]][i], lay.shape[p][i];
      && (slot.Empty? <==> cell.Free?)
      && (slot.Branch? <==> cell.Split?)
      && (slot.Branch? ==> p + [i] in lay.at && lay.at[p + [i]] == slot.node)
      && (cell.Held? ==>
            && slot.Leaf? && slot.sub < |subs| && subs[slot.sub].sid == cell.sid
            && cell.sid in lay.records && lay.records[cell.sid] == slot.sub
            && p + [i] <= Nibbles(cell.sid))
  {
    assert SlotMatches(nodes, lay, p, i) && CellFits(lay.shape, lay.depths, p, i);
    if lay.shape[p][i].Held? {
      assert RecordMatches(subs, lay, lay.shape[p][i].sid);
    }
  }

  /** Records keep their address, SID and announcement flag. */
  predicate SameButDepth(a: Subs, b: Subs)
  {
    |a| == |b| && forall k :: 0 <= k < |a| ==> b[k] == a[k].(abbreviateLen := b[k].abbreviateLen)
  }

  lemma SameRecords(a: Subs)
    ensures SameButDepth(a, a)
  {
  }

  lemma DepthsChange(a: Subs, b: Subs, c: Subs)
    requires SameButDepth(a, b) && SameButDepth(b, c)
    ensures SameButDepth(a, c)
  {
  }

  /** One record more, at the end; ours is marked to be sent in full. */
  predicate Grown(a: Subs, b: Subs, me: Option<SubPtr>, sid: Sid)
  {
    && |b| == |a| + 1 && b[|a|].sid == sid && b[|a|].sendFull
    && forall k :: 0 <= k < |a| ==>
         b[k].sid == a[k].sid && b[k].sendFull == (a[k].sendFull || me == Some(k))
  }

  lemma RecordsGrow(a: Subs, b: Subs, sid: Sid, pos: nat, me: Option<SubPtr>)
    requires SameButDepth(a, b) && (me.Some? ==> me.value < |b|)
    ensures Grown(a, Announce(b + [Subscriber(sid, pos, true)], me), me, sid)
  {
  }

  lemma CrowdGrows(nodes: Nodes, subs: Subs, lay: Layout, known: set<Sid>, more: set<Sid>)
    requires ValidTable(nodes, subs, lay, known) && known <= more
    ensures ValidTable(nodes, subs, lay, more)
  {
    forall p | p in lay.shape && p != []
      ensures Shared(more, p)
    {
      assert Shared(known, p);
      var s: Sid, t: Sid :| Crowd(known, p, s, t);
      assert Crowd(more, p, s, t);
    }
  }

  /** abbreviate_len is the shortest prefix, of at least one nibble, that no
      other known SID shares. */
  lemma RecordAbbreviation(nodes: Nodes, subs: Subs, lay: Layout, k: SubPtr)
    requires ValidTable(nodes, subs, lay, lay.records.Keys) && k < |subs|
    ensures subs[k].sid in lay.records && lay.records[subs[k].sid] == k
    ensures IsAbbreviation(lay.records.Keys, subs[k].sid, subs[k].abbreviateLen)
  {
    var s := subs[k].sid;
    assert RecordMatches(subs, lay, s);
    DepthIsAbbreviation(lay.shape, lay.depths, s);
  }

  lemma RootIsNode(nodes: Nodes, subs: Subs, lay: Layout, known: set<Sid>)
    requires ValidTable(nodes, subs, lay, known)
    ensures [] in lay.at && lay.at[[]] == 0
  {
  }

  /** What the slot on the path of `sid` settles about the known SIDs. */
  lemma SlotDecides(nodes: Nodes, subs: Subs, lay: Layout, known: set<Sid>, p: Path, i: Nibble, sid: seq<byte>)
    requires ValidTable(nodes, subs, lay, known) && p in lay.shape && |lay.shape[p]| == 16
    requires |sid| <= SID_SIZE && p + [i] <= Nibbles(sid)
    ensures lay.shape[p][i] == Free ==>
      Matches(lay.records.Keys, sid) == {} && sid !in lay.records
    ensures lay.shape[p][i].Held? ==>
      var s := lay.shape[p][i].sid;
      && Matches(lay.records.Keys, sid) == (if sid <= s then {s} else {})
      && (sid !in lay.records || sid == s)
  {
    if lay.shape[p][i] == Free {
      FreeMeansUnknown(lay.shape, lay.depths, p, i, sid);
      assert |sid| == SID_SIZE && sid in lay.records ==> sid in Matches(lay.records.Keys, sid);
    } else if lay.shape[p][i].Held? {
      HeldMeansAtMostOne(lay.shape, lay.depths, p, i, lay.shape[p][i].sid, sid);
      assert |sid| == SID_SIZE && sid in lay.records ==> sid in Matches(lay.records.Keys, sid);
    }
  }

  lemma NodeIsAmbiguous(nodes: Nodes, subs: Subs, lay: Layout, known: set<Sid>, sid: seq<byte>)
    requires ValidTable(nodes, subs, lay, known) && 1 <= |sid| <= SID_SIZE && Nibbles(sid) in lay.at
    ensures |sid| < SID_SIZE && Resolve(known, sid) == None
  {
    NodeMeansSeveral(lay.shape, known, sid);
  }

  class SubscriberTable {
    var nodes: Nodes
    var subs: Subs
    var mySubscriber: Option<SubPtr>
    ghost var lay: Layout

    ghost function Known(): set<Sid>
      reads this
    {
      lay.records.Keys
    }

    ghost predicate ValidFor(known: set<Sid>)
      reads this
    {
      ValidTable(nodes, subs, lay, known) && (mySubscriber.Some? ==> mySubscriber.value < |subs|)
    }

    ghost predicate Valid()
      reads this
    {
      ValidFor(Known())
    }

    constructor ()
      ensures Valid() && Known() == {} && subs == [] && mySubscriber == None
    {
      nodes := [seq(16, _ => Empty)];
      subs := [];
      mySubscriber := None;
      lay := Layout(map[[] := seq(16, _ => Free)], map[], map[[] := 0], map[]);
    }

    /** Put a new record into a free slot (a full SID is announced on first
        use, and so is our own). */
    method Place(ptr: NodePtr, ghost p: Path, i: Nibble, sid: Sid, pos: nat) returns (r: SubPtr)
      requires ValidFor(Known() + {sid}) && sid !in Known()
      requires p in lay.at && lay.at[p] == ptr && lay.shape[p][i] == Free
      requires pos == |p| + 1 && p + [i] <= Nibbles(sid)
      modifies this
      ensures Valid() && Known() == old(Known()) + {sid}
      ensures r == |old(subs)| && subs == Announce(old(subs) + [Subscriber(sid, pos, true)], old(mySubscriber))
      ensures mySubscriber == old(mySubscriber)
    {
      hide ValidTable;
      r := |subs|;
      PlaceKeepsTable(nodes, subs, lay, Known() + {sid}, p, i, Subscriber(sid, pos, true), mySubscriber);
      nodes := nodes[ptr := nodes[ptr][i := Leaf(r)]];
      subs := subs + [Subscriber(sid, pos, true)];
      lay := PlaceLayout(lay, p, i, sid, r);
      assert Known() == old(Known()) + {sid};
      if mySubscriber.Some? {
        subs := subs[mySubscriber.value := subs[mySubscriber.value].(sendFull := true)];
      }
    }

    /** Push the record in a slot one level down, into a node of its own. */
    method PushDown(ptr: NodePtr, ghost p: Path, i: Nibble, pos: nat, ghost sid: Sid) returns (node: NodePtr)
      requires ValidFor(Known() + {sid}) && sid !in Known()
      requires p in lay.at && lay.at[p] == ptr && lay.shape[p][i].Held?
      requires pos == |p| + 1 && p + [i] <= Nibbles(sid)
      modifies this
      ensures ValidFor(Known() + {sid}) && Known() == old(Known()) && mySubscriber == old(mySubscriber)
      ensures p + [i] in lay.at && lay.at[p + [i]] == node
      ensures SameButDepth(old(subs), subs)
    {
      hide ValidTable;
      SlotHolds(nodes, subs, lay, Known() + {sid}, p, i);
      ghost var held := lay.shape[p][i].sid;
      DifferentSidsPart(held, sid, p + [i]);
      PushKeepsTable(nodes, subs, lay, Known() + {sid}, p, i, held, sid);
      node := |nodes|;
      var ret := nodes[ptr][i].sub;
      var nibble := GetNibble(subs[ret].sid, pos);
      nodes := PushNodes(nodes, ptr, i, ret, nibble);
      subs := subs[ret := subs[ret].(abbreviateLen := pos + 1)];
      lay := PushLayout(lay, p, i, held, node);
    }

    /** find_subscriber: look a whole or abbreviated SID up; a whole one may be
        added.  Adding leaves exactly one record per SID, and an abbreviation
        is resolved if and only if one known SID has it. */
    method FindSubscriber(sid: seq<byte>, create: bool) returns (r: Option<SubPtr>)
      requires Valid() && 1 <= |sid| <= SID_SIZE
      modifies this
      ensures Valid() && mySubscriber == old(mySubscriber)
      ensures create && |sid| == SID_SIZE ==>
        && Known() == old(Known()) + {sid}
        && r.Some? && r.value < |subs| && subs[r.value].sid == sid
        && (if sid in old(Known()) then subs == old(subs) else Grown(old(subs), subs, mySubscriber, sid))
      ensures !(create && |sid| == SID_SIZE) ==>
        && Known() == old(Known()) && subs == old(subs) && nodes == old(nodes)
        && (r.Some? ==> r.value < |subs| && Resolve(Known(), sid) == Some(subs[r.value].sid))
        && (r.None? ==> Resolve(Known(), sid) == None)
    {
      hide ValidTable, Matches, SameButDepth, Grown, Announce;
      SameRecords(subs);
      var creating := create && |sid| == SID_SIZE;
      ghost var isNew := creating && sid !in Known();
      ghost var known := if isNew then Known() + {sid} else Known();
      CrowdGrows(nodes, subs, lay, Known(), known);
      RootIsNode(nodes, subs, lay, known);
      var ptr, pos := 0, 0;
      while pos < 2 * |sid|
        invariant pos <= 2 * |sid| && ValidFor(known)
        invariant Known() == old(Known()) && mySubscriber == old(mySubscriber)
        invariant Nibbles(sid)[..pos] in lay.at && lay.at[Nibbles(sid)[..pos]] == ptr
        invariant SameButDepth(old(subs), subs)
        invariant !isNew ==> subs == old(subs) && nodes == old(nodes)
      {
        ghost var p := Nibbles(sid)[..pos];
        var nibble := GetNibble(sid, pos);
        pos := pos + 1;
        assert p + [nibble] == Nibbles(sid)[..pos];
        SlotHolds(nodes, subs, lay, known, p, nibble);
        SlotDecides(nodes, subs, lay, known, p, nibble, sid);
        var slot := nodes[ptr][nibble];
        if slot.Branch? {
          ptr := slot.node;
        } else if slot.Empty? {
          if creating {
            ghost var before := subs;
            var k := Place(ptr, p, nibble, sid, pos);
            RecordsGrow(old(subs), before, sid, pos, mySubscriber);
            return Some(k);
          }
          return None;
        } else {
          if sid <= subs[slot.sub].sid {
            assert creating ==> sid == subs[slot.sub].sid;
            return Some(slot.sub);
          }
          if !creating {
            return None;
          }
          ghost var before := subs;
          ptr := PushDown(ptr, p, nibble, pos, sid);
          DepthsChange(old(subs), before, subs);
        }
      }
      assert Nibbles(sid)[..pos] == Nibbles(sid);
      NodeIsAmbiguous(nodes, subs, lay, known, sid);
      return None;
    }
  }

  ghost function Sids(sids: seq<Sid>): set<Sid>
  {
    set s | s in sids
  }

  predicate HasRecord(subs: Subs, s: Sid)
  {
    exists k :: 0 <= k < |subs| && subs[k].sid == s
  }

  ghost predicate DistinctRecords(subs: Subs)
  {
    forall j, k :: 0 <= j < k < |subs| ==> subs[j].sid != subs[k].sid
  }

  /** However SIDs arrive, the table ends up as the set of them: one record
      each, each with its shortest unambiguous abbreviation. */
  method CreateAll(sids: seq<Sid>) returns (table: SubscriberTable)
    ensures fresh(table) && table.Valid() && table.Known() == Sids(sids)
    ensures DistinctRecords(table.subs)
    ensures forall s :: s in sids <==> HasRecord(table.subs, s)
    ensures forall k :: 0 <= k < |table.subs| ==>
      IsAbbreviation(Sids(sids), table.subs[k].sid, table.subs[k].abbreviateLen)
  {
    hide ValidTable, IsAbbreviation;
    table := new SubscriberTable();
    for i := 0 to |sids|
      invariant fresh(table) && table.Valid() && table.Known() == Sids(sids[..i])
    {
      assert sids[..i + 1] == sids[..i] + [sids[i]];
      var _ := table.FindSubscriber(sids[i], true);
    }
    assert sids[..|sids|] == sids;
    RecordsAreKnown(table.nodes, table.subs, table.lay);
    forall k | 0 <= k < |table.subs|
      ensures IsAbbreviation(Sids(sids), table.subs[k].sid, table.subs[k].abbreviateLen)
    {
      RecordAbbreviation(table.nodes, table.subs, table.lay, k);
    }
  }

  lemma RecordsAreKnown(nodes: Nodes, subs: Subs, lay: Layout)
    requires ValidTable(nodes, subs, lay, lay.records.Keys)
    ensures DistinctRecords(subs)
    ensures forall s :: s in lay.records <==> HasRecord(subs, s)
  {
  }
}
