/** Comparing two lists of BARs, theirs and ours. */
module SyncMerge {
  import opened Bytes
  import opened BigEndian
  import opened SyncCursor
  import MergeOrder

  const COMPARE_BYTES := 31
  const VERSION_OFFSET := 16
  const VERSION_BYTES := 7

  type Bar = b: seq<byte> | |b| == BAR_BYTES witness Filled(0, BAR_BYTES)

  function Key(b: Bar): (k: seq<byte>)
    ensures |k| == COMPARE_BYTES
  {
    b[..COMPARE_BYTES]
  }

  function Version(b: Bar): nat
  {
    Value(b[VERSION_OFFSET..VERSION_OFFSET + VERSION_BYTES])
  }

  /** "Please send" and "I have [newer]". */
  datatype Hint = Want(bar: Bar) | Have(bar: Bar)

  function Render(h: Hint): seq<byte>
  {
    [if h.Want? then 0x01 else 0x02] + h.bar[..PREFIX_BYTES]
  }

  function RenderAll(hints: seq<Hint>): seq<byte>
  {
    if hints == [] then [] else Render(hints[0]) + RenderAll(hints[1..])
  }

  /** Less than, equal or greater; an exhausted list is greater than anything. */
  function Relation(them: seq<Bar>, us: seq<Bar>): int
    requires them != [] || us != []
  {
    if them != [] && us != [] then Compare(Key(them[0]), Key(us[0]))
    else if us == [] then -1 else 1
  }

  /** Whose version of a bundle that both have is newer. */
  function Newer(them: Bar, us: Bar): seq<Hint>
  {
    if Version(them) > Version(us) then [Want(them)]
    else if Version(them) < Version(us) then [Have(us)]
    else []
  }

  function Merge(them: seq<Bar>, us: seq<Bar>): seq<Hint>
    decreases |them| + |us|
  {
    if them == [] && us == [] then []
    else if Relation(them, us) < 0 then [Want(them[0])] + Merge(them[1..], us)
    else if Relation(them, us) > 0 then [Have(us[0])] + Merge(them, us[1..])
    else Newer(them[0], us[0]) + Merge(them[1..], us[1..])
  }

  /** Two BARs are of the same version of the same bundle if their first 31 bytes agree; the
      last one counts hops. */
  ghost predicate HasKey(list: seq<Bar>, k: seq<byte>)
  {
    exists i :: 0 <= i < |list| && list[i][..31] == k
  }

  /** The compared bytes take in the version, so that equal BARs have equal versions. */
  lemma VersionsAgree(a: Bar, b: Bar)
    requires Key(a) == Key(b)
    ensures Newer(a, b) == []
  {
    var l, h := VERSION_OFFSET, VERSION_OFFSET + VERSION_BYTES;
    assert a[l..h] == Key(a)[l..h] && b[l..h] == Key(b)[l..h];
  }

  lemma {:induction false} WantKept(them: seq<Bar>, us: seq<Bar>, t: Bar)
    requires t in them && !HasKey(us, Key(t))
    ensures Want(t) in Merge(them, us)
    decreases |them| + |us|
  {
    assert them == [them[0]] + them[1..];
    if Relation(them, us) > 0 {
      WantKept(them, us[1..], t);
    } else if Relation(them, us) == 0 {
      WantKept(them[1..], us[1..], t);
    } else if t != them[0] {
      WantKept(them[1..], us, t);
    }
  }

  lemma {:induction false} HaveKept(them: seq<Bar>, us: seq<Bar>, u: Bar)
    requires u in us && !HasKey(them, Key(u))
    ensures Have(u) in Merge(them, us)
    decreases |them| + |us|
  {
    assert us == [us[0]] + us[1..];
    if Relation(them, us) < 0 {
      HaveKept(them[1..], us, u);
    } else if Relation(them, us) == 0 {
      HaveKept(them[1..], us[1..], u);
    } else if u != us[0] {
      HaveKept(them, us[1..], u);
    }
  }

  /** No BAR that only one side has is left out, whatever the order of the lists. */
  lemma NothingOmitted(them: seq<Bar>, us: seq<Bar>)
    ensures forall t :: t in them && !HasKey(us, t[..31]) ==> Want(t) in Merge(them, us)
    ensures forall u :: u in us && !HasKey(them, u[..31]) ==> Have(u) in Merge(them, us)
  {
    forall t | t in them && !HasKey(us, Key(t)) ensures Want(t) in Merge(them, us) {
      WantKept(them, us, t);
    }
    forall u | u in us && !HasKey(them, Key(u)) ensures Have(u) in Merge(them, us) {
      HaveKept(them, us, u);
    }
  }

  /** Where each side has one BAR, there is nothing to do if and only if the first 31 bytes
      agree; otherwise each has something for the other. */
  lemma SameBundleIff(a: Bar, b: Bar)
    ensures Merge([a], [b]) == [] <==> a[..31] == b[..31]
    ensures a[..31] != b[..31] ==> Want(a) in Merge([a], [b]) && Have(b) in Merge([a], [b])
  {
    CompareIsOrder(Key(a), Key(b));
    assert [a][1..] == [] && [b][1..] == [];
    if a[..31] == b[..31] {
      VersionsAgree(a, b);
    } else {
      assert !HasKey([b], a[..31]) && !HasKey([a], b[..31]);
      NothingOmitted([a], [b]);
    }
  }

  /** At most one BAR of that bundle. */
  ghost predicate OnlyVersion(list: seq<Bar>, b: Bar)
  {
    forall x :: x in list && x[..PREFIX_BYTES] == b[..PREFIX_BYTES] ==> x == b
  }

  lemma OtherVersion(list: seq<Bar>, b: Bar, a: Bar)
    requires a[..PREFIX_BYTES] == b[..PREFIX_BYTES] && a[..31] != b[..31] && OnlyVersion(list, b)
    ensures !HasKey(list, a[..31])
  {
    forall i | 0 <= i < |list| ensures list[i][..31] != a[..31] {
      assert list[i] in list && list[i][..31][..PREFIX_BYTES] == list[i][..PREFIX_BYTES];
      assert a[..31][..PREFIX_BYTES] == a[..PREFIX_BYTES];
    }
  }

  /** So two versions of a bundle are asked for and offered both, whichever is newer. */
  lemma VersionsGoBothWays(them: seq<Bar>, us: seq<Bar>, a: Bar, b: Bar)
    requires a in them && b in us && a[..PREFIX_BYTES] == b[..PREFIX_BYTES] && a[..31] != b[..31]
    requires OnlyVersion(them, a) && OnlyVersion(us, b)
    ensures Want(a) in Merge(them, us) && Have(b) in Merge(them, us)
  {
    NothingOmitted(them, us);
    hide Merge;
    OtherVersion(us, b, a);
    OtherVersion(them, a, b);
  }

  lemma {:induction false} HintCount(them: seq<Bar>, us: seq<Bar>)
    ensures |Merge(them, us)| <= |them| + |us|
    decreases |them| + |us|
  {
    if them == [] && us == [] {
    } else if Relation(them, us) < 0 {
      HintCount(them[1..], us);
    } else if Relation(them, us) > 0 {
      HintCount(them, us[1..]);
    } else {
      HintCount(them[1..], us[1..]);
    }
  }

  /** Record `k` asks for or offers that BAR: a code, and its first 15 bytes. */
  ghost predicate RecordAt(records: seq<byte>, h: Hint, k: nat)
  {
    var at := 16 * k;
    && at + 16 <= |records| && records[at] == (if h.Want? then 0x01 else 0x02)
    && records[at + 1..at + 16] == h.bar[..15]
  }

  /** The records hold this one. */
  ghost predicate Recorded(records: seq<byte>, h: Hint)
  {
    exists k :: RecordAt(records, h, k)
  }

  /** There is a record for each hint, in order, and nothing else. */
  lemma {:induction false} RecordsInOrder(hints: seq<Hint>)
    ensures |RenderAll(hints)| == 16 * |hints|
    ensures forall k :: 0 <= k < |hints| ==> RecordAt(RenderAll(hints), hints[k], k)
  {
    if hints != [] {
      var first, rest := Render(hints[0]), RenderAll(hints[1..]);
      RecordsInOrder(hints[1..]);
      assert (first + rest)[1..16] == first[1..16];
      forall k | 1 <= k < |hints| ensures RecordAt(first + rest, hints[k], k) {
        RecordMoves(hints[0], rest, hints[1..][k - 1], k - 1);
      }
    }
  }

  lemma RecordMoves(first: Hint, rest: seq<byte>, h: Hint, k: nat)
    requires RecordAt(rest, h, k)
    ensures RecordAt(Render(first) + rest, h, k + 1)
  {
    var at := 16 * k;
    assert (Render(first) + rest)[at + 17..at + 32] == rest[at + 1..at + 16];
  }

  /** Whatever is asked for or offered comes from one of the lists. */
  lemma {:induction false} HintsAreReal(them: seq<Bar>, us: seq<Bar>)
    ensures forall h :: h in Merge(them, us) ==> if h.Want? then h.bar in them else h.bar in us
    decreases |them| + |us|
  {
    if them == [] && us == [] {
    } else if Relation(them, us) < 0 {
      HintsAreReal(them[1..], us);
    } else if Relation(them, us) > 0 {
      HintsAreReal(them, us[1..]);
    } else {
      VersionsAgree(them[0], us[0]);
      HintsAreReal(them[1..], us[1..]);
    }
  }

  function KeyValue(b: Bar): nat
  {
    Value(Key(b))
  }

  ghost predicate Rising(list: seq<Bar>)
  {
    forall i, j :: 0 <= i < j < |list| ==> KeyValue(list[i]) < KeyValue(list[j])
  }

  /** Every key of the list is above `k`. */
  ghost predicate Above(list: seq<Bar>, k: nat)
  {
    forall b :: b in list ==> KeyValue(b) > k
  }

  lemma RisingTail(list: seq<Bar>)
    requires Rising(list) && list != []
    ensures Rising(list[1..]) && Above(list[1..], KeyValue(list[0]))
  {
  }

  ghost predicate HintsRise(hints: seq<Hint>)
  {
    forall i, j :: 0 <= i < j < |hints| ==> KeyValue(hints[i].bar) < KeyValue(hints[j].bar)
  }

  /** The difference, told by keys. */
  ghost predicate Differs(them: seq<Bar>, us: seq<Bar>, h: Hint)
  {
    if h.Want? then h.bar in them && !HasKey(us, h.bar[..31]) else h.bar in us && !HasKey(them, h.bar[..31])
  }

  lemma KeyOrder(a: Bar, b: Bar)
    ensures Compare(Key(a), Key(b)) < 0 <==> KeyValue(a) < KeyValue(b)
    ensures Compare(Key(a), Key(b)) > 0 <==> KeyValue(a) > KeyValue(b)
    ensures Compare(Key(a), Key(b)) == 0 <==> Key(a) == Key(b)
  {
    CompareIsOrder(Key(a), Key(b));
  }

  /** In ascending lists a key below a whole list is not in it. */
  lemma AboveLacks(list: seq<Bar>, b: Bar)
    requires Above(list, KeyValue(b))
    ensures !HasKey(list, Key(b))
  {
    hide Value;
    assert forall i :: 0 <= i < |list| ==> list[i] in list && KeyValue(list[i]) != KeyValue(b);
  }

  lemma HasKeySplit(list: seq<Bar>, k: seq<byte>)
    requires list != []
    ensures HasKey(list, k) <==> Key(list[0]) == k || HasKey(list[1..], k)
  {
  }

  lemma WantFirst(them: seq<Bar>, us: seq<Bar>, h: Hint)
    requires them != [] && !HasKey(us, Key(them[0]))
    ensures Differs(them, us, h) <==> h == Want(them[0]) || Differs(them[1..], us, h)
  {
    assert them == [them[0]] + them[1..];
    HasKeySplit(them, Key(h.bar));
  }

  lemma HaveFirst(them: seq<Bar>, us: seq<Bar>, h: Hint)
    requires us != [] && !HasKey(them, Key(us[0]))
    ensures Differs(them, us, h) <==> h == Have(us[0]) || Differs(them, us[1..], h)
  {
    assert us == [us[0]] + us[1..];
    HasKeySplit(us, Key(h.bar));
  }

  lemma BothFirst(them: seq<Bar>, us: seq<Bar>, h: Hint)
    requires them != [] && us != [] && Key(them[0]) == Key(us[0])
    requires !HasKey(them[1..], Key(them[0])) && !HasKey(us[1..], Key(us[0]))
    ensures Differs(them, us, h) <==> Differs(them[1..], us[1..], h)
  {
    assert them == [them[0]] + them[1..] && us == [us[0]] + us[1..];
    HasKeySplit(us, Key(h.bar));
    HasKeySplit(them, Key(h.bar));
  }

  lemma LowestFirst(h: Hint, rest: seq<Hint>, them: seq<Bar>, us: seq<Bar>)
    requires HintsRise(rest) && Above(them, KeyValue(h.bar)) && Above(us, KeyValue(h.bar))
    requires forall x :: x in rest ==> if x.Want? then x.bar in them else x.bar in us
    ensures HintsRise([h] + rest)
  {
  }

  lemma AboveHead(list: seq<Bar>, k: nat)
    requires Rising(list) && (list != [] ==> KeyValue(list[0]) > k)
    ensures Above(list, k)
  {
  }

  /** For strictly ascending lists the hints are exactly the symmetric difference: what
      only they have is wanted, what only we have is offered, each once and in order. */
  lemma {:induction false} MergeIsDifference(them: seq<Bar>, us: seq<Bar>)
    requires Rising(them) && Rising(us)
    ensures HintsRise(Merge(them, us))
    ensures forall h :: h in Merge(them, us) <==> Differs(them, us, h)
    decreases |them| + |us|
  {
    if them != [] {
      RisingTail(them);
    }
    if us != [] {
      RisingTail(us);
    }
    if them != [] && us != [] {
      KeyOrder(them[0], us[0]);
    }
    hide Rising, Above, Differs, KeyValue, HintsRise;
    if them == [] && us == [] {
      NoHints();
    } else if Relation(them, us) < 0 {
      MergeIsDifference(them[1..], us);
      AboveHead(us, KeyValue(them[0]));
      HintsAreReal(them[1..], us);
      LowestFirst(Want(them[0]), Merge(them[1..], us), them[1..], us);
      AboveLacks(us, them[0]);
      forall h ensures Differs(them, us, h) <==> h == Want(them[0]) || Differs(them[1..], us, h) {
        WantFirst(them, us, h);
      }
    } else if Relation(them, us) > 0 {
      MergeIsDifference(them, us[1..]);
      AboveHead(them, KeyValue(us[0]));
      HintsAreReal(them, us[1..]);
      LowestFirst(Have(us[0]), Merge(them, us[1..]), them, us[1..]);
      AboveLacks(them, us[0]);
      forall h ensures Differs(them, us, h) <==> h == Have(us[0]) || Differs(them, us[1..], h) {
        HaveFirst(them, us, h);
      }
    } else {
      MergeIsDifference(them[1..], us[1..]);
      VersionsAgree(them[0], us[0]);
      AboveLacks(them[1..], them[0]);
      AboveLacks(us[1..], us[0]);
      forall h ensures Differs(them, us, h) <==> Differs(them[1..], us[1..], h) {
        BothFirst(them, us, h);
      }
    }
  }

  lemma NoHints()
    ensures HintsRise([]) && forall h :: !Differs([], [], h)
  {
  }

  // ----- lists in any order -----

  /** The hints are exactly the symmetric difference. */
  ghost predicate Exact(them: seq<Bar>, us: seq<Bar>)
  {
    forall h :: h in Merge(them, us) <==> Differs(them, us, h)
  }

  /** The keys of a list, as numbers. */
  function Keys(list: seq<Bar>): (keys: seq<nat>)
    ensures |keys| == |list| && forall i :: 0 <= i < |list| ==> keys[i] == KeyValue(list[i])
  {
    seq(|list|, i requires 0 <= i < |list| => KeyValue(list[i]))
  }

  ghost predicate DistinctKeys(list: seq<Bar>)
  {
    forall i, j :: 0 <= i < j < |list| ==> Key(list[i]) != Key(list[j])
  }

  lemma KeysOfTail(list: seq<Bar>)
    requires list != []
    ensures Keys(list)[1..] == Keys(list[1..]) && Keys(list)[0] == KeyValue(list[0])
  {
  }

  lemma KeyIsValue(list: seq<Bar>, b: Bar)
    ensures HasKey(list, Key(b)) <==> KeyValue(b) in Keys(list)
  {
    hide Value;
    forall i | 0 <= i < |list| && KeyValue(list[i]) == KeyValue(b) ensures Key(list[i]) == Key(b) {
      KeyOrder(list[i], b);
    }
    if HasKey(list, Key(b)) {
      var i :| 0 <= i < |list| && Key(list[i]) == Key(b);
      assert Keys(list)[i] == KeyValue(b);
    }
  }

  lemma DistinctValues(list: seq<Bar>)
    requires DistinctKeys(list)
    ensures MergeOrder.Distinct(Keys(list))
  {
    forall i, j | 0 <= i < j < |list| ensures KeyValue(list[i]) != KeyValue(list[j]) {
      KeyOrder(list[i], list[j]);
    }
  }

  lemma DistinctTail(list: seq<Bar>)
    requires DistinctKeys(list) && list != []
    ensures DistinctKeys(list[1..]) && !HasKey(list[1..], Key(list[0])) && list[0] !in list[1..]
  {
    assert forall i :: 0 <= i < |list| - 1 ==> list[1..][i] == list[i + 1];
  }

  lemma ExactWant(them: seq<Bar>, us: seq<Bar>)
    requires DistinctKeys(them) && them != [] && Relation(them, us) < 0
    ensures Exact(them, us) <==> !HasKey(us, Key(them[0])) && Exact(them[1..], us)
  {
    DistinctTail(them);
    HintsAreReal(them[1..], us);
    assert Merge(them, us) == [Want(them[0])] + Merge(them[1..], us);
    if HasKey(us, Key(them[0])) {
      assert Want(them[0]) in Merge(them, us) && !Differs(them, us, Want(them[0]));
    } else {
      forall h ensures Differs(them, us, h) <==> h == Want(them[0]) || Differs(them[1..], us, h) {
        WantFirst(them, us, h);
      }
      hide Merge, HasKey;
      assert !Differs(them[1..], us, Want(them[0])) && Want(them[0]) !in Merge(them[1..], us);
    }
  }

  lemma ExactHave(them: seq<Bar>, us: seq<Bar>)
    requires DistinctKeys(us) && us != [] && Relation(them, us) > 0
    ensures Exact(them, us) <==> !HasKey(them, Key(us[0])) && Exact(them, us[1..])
  {
    DistinctTail(us);
    HintsAreReal(them, us[1..]);
    assert Merge(them, us) == [Have(us[0])] + Merge(them, us[1..]);
    if HasKey(them, Key(us[0])) {
      assert Have(us[0]) in Merge(them, us) && !Differs(them, us, Have(us[0]));
    } else {
      forall h ensures Differs(them, us, h) <==> h == Have(us[0]) || Differs(them, us[1..], h) {
        HaveFirst(them, us, h);
      }
      hide Merge, HasKey;
      assert !Differs(them, us[1..], Have(us[0])) && Have(us[0]) !in Merge(them, us[1..]);
    }
  }

  lemma ExactBoth(them: seq<Bar>, us: seq<Bar>)
    requires DistinctKeys(them) && DistinctKeys(us) && them != [] && us != [] && Relation(them, us) == 0
    ensures Exact(them, us) <==> Exact(them[1..], us[1..])
  {
    DistinctTail(them);
    DistinctTail(us);
    KeyOrder(them[0], us[0]);
    VersionsAgree(them[0], us[0]);
    assert Merge(them, us) == Merge(them[1..], us[1..]);
    forall h ensures Differs(them, us, h) <==> Differs(them[1..], us[1..], h) {
      BothFirst(them, us, h);
    }
  }

  lemma ExactAlone(them: seq<Bar>, us: seq<Bar>)
    requires DistinctKeys(them) && DistinctKeys(us) && (them == [] || us == [])
    ensures Exact(them, us)
    decreases |them| + |us|
  {
    if them != [] {
      DistinctTail(them);
      ExactAlone(them[1..], us);
      ExactWant(them, us);
    } else if us != [] {
      DistinctTail(us);
      ExactAlone(them, us[1..]);
      ExactHave(them, us);
    }
  }

  lemma {:induction false} ExactIffMeets(them: seq<Bar>, us: seq<Bar>)
    requires DistinctKeys(them) && DistinctKeys(us)
    ensures Exact(them, us) <==> MergeOrder.Meets(Keys(them), Keys(us))
    decreases |them| + |us|
  {
    if them == [] || us == [] {
      ExactAlone(them, us);
    } else {
      KeysOfTail(them);
      KeysOfTail(us);
      DistinctTail(them);
      DistinctTail(us);
      KeyOrder(them[0], us[0]);
      KeyIsValue(us, them[0]);
      KeyIsValue(them, us[0]);
      hide Exact, Keys, KeyValue, HasKey, DistinctKeys;
      if Relation(them, us) < 0 {
        ExactWant(them, us);
        ExactIffMeets(them[1..], us);
      } else if Relation(them, us) > 0 {
        ExactHave(them, us);
        ExactIffMeets(them, us[1..]);
      } else {
        ExactBoth(them, us);
        ExactIffMeets(them[1..], us[1..]);
      }
    }
  }

  /** For lists that hold no BAR twice, in any order, the hints are exactly the symmetric
      difference if and only if the lists are aligned: what both have comes in the same order
      in both, and what only one has is below the next of those. */
  lemma MergeIsExactIff(them: seq<Bar>, us: seq<Bar>)
    requires DistinctKeys(them) && DistinctKeys(us)
    ensures Exact(them, us) <==> MergeOrder.Aligned(Keys(them), Keys(us))
  {
    hide Exact, Keys, MergeOrder.Aligned, MergeOrder.Distinct;
    ExactIffMeets(them, us);
    DistinctValues(them);
    DistinctValues(us);
    MergeOrder.MeetsIffAligned(Keys(them), Keys(us));
  }

  /** Out of order, a BAR that both have can be asked for and offered as well. */
  lemma DisorderedIsOverstated(a: Bar, b: Bar)
    requires KeyValue(a) < KeyValue(b)
    ensures Merge([b, a], [a]) == [Have(a), Want(b), Want(a)]
  {
    KeyOrder(b, a);
    assert [a][1..] == [] && [b, a][1..] == [a];
    assert Merge([b, a], [a]) == [Have(a)] + Merge([b, a], []);
    assert Merge([b, a], []) == [Want(b)] + Merge([a], []);
    assert Merge([a], []) == [Want(a)] + Merge([], []);
  }
}
