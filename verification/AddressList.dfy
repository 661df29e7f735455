/** Listing known subscribers page by page: search_subscribers and
    overlay_mdp_address_list of overlay_mdp.c, and the client loop that asks for
    page after page. */
module AddressList {
  import opened Bytes
  import opened TreeShape
  import opened TreeStore
  import opened TreeWalk

  const MDP_MAX_SID_REQUEST := 59
  const UNSIGNED := 0x1_0000_0000

  const MODE_ROUTABLE_PEERS := 0
  const MODE_SELF := 1
  const MODE_ALL_PEERS := 2

  const REACHABLE_DIRECT := 1
  const REACHABLE_UNICAST := 2
  const REACHABLE_INDIRECT := 3
  const REACHABLE_SELF := 5

  /** The counters are unsigned 32-bit; frame_sid_count is |sids|. */
  datatype AddrList = AddrList(mode: int, serverSidCount: nat, firstSid: nat, lastSid: nat, sids: seq<Sid>)

  predicate Wanted(mode: int, reachable: int)
  {
    && (mode == MODE_SELF ==> reachable == REACHABLE_SELF)
    && (mode == MODE_ROUTABLE_PEERS ==> reachable in {REACHABLE_DIRECT, REACHABLE_INDIRECT, REACHABLE_UNICAST})
    && (mode == MODE_ALL_PEERS ==> reachable != REACHABLE_SELF)
  }

  /** search_subscribers: count every wanted record, copy those of this page. */
  function Search(reachable: Sid -> int, sid: Sid, response: AddrList): (AddrList, bool)
  {
    if !Wanted(response.mode, reachable(sid)) then (response, false)
    else
      var copy := response.serverSidCount >= response.firstSid && |response.sids| < MDP_MAX_SID_REQUEST;
      (response.(serverSidCount := (response.serverSidCount + 1) % UNSIGNED,
                 sids := if copy then response.sids + [sid] else response.sids), false)
  }

  function Searcher(reachable: Sid -> int): (f: (Sid, AddrList) -> (AddrList, bool))
    ensures forall s, r :: f(s, r) == Search(reachable, s, r)
  {
    (s: Sid, r: AddrList) => Search(reachable, s, r)
  }

  // ----- what a page is -----

  function Kept(mode: int, reachable: Sid -> int, list: seq<Sid>): seq<Sid>
  {
    if list == [] then []
    else
      var last := list[|list| - 1];
      Kept(mode, reachable, list[..|list| - 1]) + if Wanted(mode, reachable(last)) then [last] else []
  }

  function Page(list: seq<Sid>, first: nat): (page: seq<Sid>)
    ensures |page| <= MDP_MAX_SID_REQUEST
  {
    if first >= |list| then []
    else if |list| - first <= MDP_MAX_SID_REQUEST then list[first..]
    else list[first..first + MDP_MAX_SID_REQUEST]
  }

  lemma PageGrows(list: seq<Sid>, first: nat, s: Sid)
    ensures Page(list + [s], first) ==
            if |list| >= first && |Page(list, first)| < MDP_MAX_SID_REQUEST
            then Page(list, first) + [s] else Page(list, first)
  {
  }

  lemma {:induction false} KeptFits(mode: int, reachable: Sid -> int, list: seq<Sid>)
    ensures |Kept(mode, reachable, list)| <= |list|
  {
    if list != [] {
      KeptFits(mode, reachable, list[..|list| - 1]);
    }
  }

  lemma {:induction false} KeptIsFilter(mode: int, reachable: Sid -> int, list: seq<Sid>)
    ensures forall s :: s in Kept(mode, reachable, list) <==> s in list && Wanted(mode, reachable(s))
    ensures Ascending(list) ==> Ascending(Kept(mode, reachable, list))
  {
    if list != [] {
      var front, last := list[..|list| - 1], list[|list| - 1];
      KeptIsFilter(mode, reachable, front);
      assert list == front + [last];
      assert Ascending(list) ==> Ascending(front) && forall s :: s in front ==> Before(s, last);
    }
  }

  /** One whole enumeration fills in exactly one page of the wanted records. */
  lemma {:induction false} SearchFillsPage(reachable: Sid -> int, list: seq<Sid>, blank: AddrList)
    requires blank.serverSidCount == 0 && blank.sids == [] && |list| < UNSIGNED
    ensures RunUntil(Searcher(reachable), blank, list) == (Filled(reachable, list, blank), false)
  {
    if list != [] {
      hide RunUntil, Filled;
      var front, last := list[..|list| - 1], list[|list| - 1];
      assert list == front + [last];
      SearchFillsPage(reachable, front, blank);
      RunUntilConcat(Searcher(reachable), blank, front, [last]);
      RunUntilOne(Searcher(reachable), Filled(reachable, front, blank), last);
      SearchStep(reachable, front, last, blank);
    }
  }

  lemma KeptLast(mode: int, reachable: Sid -> int, front: seq<Sid>, last: Sid)
    ensures Kept(mode, reachable, front + [last]) ==
            if Wanted(mode, reachable(last)) then Kept(mode, reachable, front) + [last] else Kept(mode, reachable, front)
  {
    hide Wanted;
    var all := front + [last];
    assert all[..|all| - 1] == front;
  }

  lemma SearchStep(reachable: Sid -> int, front: seq<Sid>, last: Sid, blank: AddrList)
    requires |front| + 1 < UNSIGNED
    ensures Search(reachable, last, Filled(reachable, front, blank)) ==
            (Filled(reachable, front + [last], blank), false)
  {
    hide Page, Wanted, Kept;
    KeptFits(blank.mode, reachable, front);
    KeptLast(blank.mode, reachable, front, last);
    PageGrows(Kept(blank.mode, reachable, front), blank.firstSid, last);
  }

  function Filled(reachable: Sid -> int, list: seq<Sid>, blank: AddrList): AddrList
  {
    var kept := Kept(blank.mode, reachable, list);
    blank.(serverSidCount := |kept|, sids := Page(kept, blank.firstSid))
  }

  /** The wanted subscribers of a table, in order. */
  ghost function Listing(table: SubscriberTable, mode: int, reachable: Sid -> int): seq<Sid>
    reads table
  {
    Kept(mode, reachable, FullWalk(table.lay.shape, [], []))
  }

  /** Mode 0 lists those who can be reached directly (1), by unicast (2) or through others (3),
      mode 1 our own identities (5), mode 2 everybody else, and any other mode everybody. */
  ghost predicate Listed(mode: int, reachable: int)
  {
    match mode
    case 0 => 1 <= reachable <= 3
    case 1 => reachable == 5
    case 2 => reachable != 5
    case _ => true
  }

  /** The listing is the set of wanted subscribers, each once, ascending. */
  lemma ListingIsComplete(table: SubscriberTable, mode: int, reachable: Sid -> int)
    requires table.Valid()
    ensures Ascending(Listing(table, mode, reachable))
    ensures forall s :: s in Listing(table, mode, reachable) <==> s in table.Known() && Listed(mode, reachable(s))
    ensures |Listing(table, mode, reachable)| <= |FullWalk(table.lay.shape, [], [])| <= |table.Known()|
  {
    hide ValidTable, Structured;
    var all := FullWalk(table.lay.shape, [], []);
    TableIsTree(table.nodes, table.subs, table.lay, table.Known());
    WalkAscends(table.lay.shape, table.lay.depths, [], 0, [], []);
    assert Nibbles([]) == [];
    forall s: Sid
      ensures s in all <==> s in table.Known()
    {
      EveryoneIsVisited(table.lay.shape, table.lay.depths, s);
    }
    AscendingFits(all, table.Known());
    KeptIsFilter(mode, reachable, all);
    KeptFits(mode, reachable, all);
  }

  /** A walk without bounds visits every known SID. */
  lemma EveryoneIsVisited(shape: Shape, depths: Depths, s: Sid)
    requires Structured(shape, depths)
    ensures s in FullWalk(shape, [], []) <==> s in depths
  {
    FullWalkVisits(shape, depths, [], [], s);
    if s in depths {
      assert HomeHolds(shape, depths, s);
    }
  }

  lemma {:induction false} AscendingFits(list: seq<Sid>, known: set<Sid>)
    requires Ascending(list) && forall s :: s in list ==> s in known
    ensures |list| <= |known|
  {
    if list != [] {
      var front, last := list[..|list| - 1], list[|list| - 1];
      assert forall s :: s in front ==> s in list && Before(s, last) && s != last;
      AscendingFits(front, known - {last});
    }
  }

  /** overlay_mdp_address_list on a zeroed reply. */
  method List(table: SubscriberTable, reachable: Sid -> int, mode: int, firstSid: nat) returns (response: AddrList)
    requires table.Valid() && |table.Known()| < UNSIGNED && firstSid < UNSIGNED
    ensures response.mode == mode && response.firstSid == firstSid
    ensures response.serverSidCount == |Listing(table, mode, reachable)|
    ensures var all := Listing(table, mode, reachable);
      response.sids == if firstSid >= |all| then [] else if firstSid + 59 >= |all| then all[firstSid..] else all[firstSid..firstSid + 59]
    ensures response.lastSid == (firstSid + |response.sids| - 1) % 0x1_0000_0000
  {
    hide ValidTable, WalkList, Listed, Ascending, Page, Kept;
    ListingIsComplete(table, mode, reachable);
    PageIs(Listing(table, mode, reachable), firstSid);
    var blank := AddrList(mode, 0, firstSid, 0, []);
    var filled := EnumSubscribers(table, [], Searcher(reachable), blank);
    SearchFillsPage(reachable, FullWalk(table.lay.shape, [], []), blank);
    response := filled.(lastSid := (filled.firstSid + |filled.sids| - 1) % UNSIGNED);
  }

  lemma PageIs(all: seq<Sid>, first: nat)
    ensures Page(all, first) == if first >= |all| then [] else if first + 59 >= |all| then all[first..] else all[first..first + 59]
  {
  }

  lemma PageExtends(all: seq<Sid>, first: nat)
    requires first <= |all|
    ensures first + |Page(all, first)| <= |all|
    ensures all[..first] + Page(all, first) == all[..first + |Page(all, first)|]
    ensures |Page(all, first)| < MDP_MAX_SID_REQUEST ==> first + |Page(all, first)| == |all|
  {
  }

  /** last_sid + 1 is where the next page begins, even when no page has begun. */
  lemma NextPage(first: nat, count: nat)
    requires first + count < UNSIGNED
    ensures ((first + count - 1) % UNSIGNED + 1) % UNSIGNED == first + count
  {
  }

  /** The client of app_id_self: pages of any length concatenate to the whole
      listing. */
  method ListAll(table: SubscriberTable, reachable: Sid -> int, mode: int) returns (printed: seq<Sid>)
    requires table.Valid() && |table.Known()| < UNSIGNED
    ensures printed == Listing(table, mode, reachable)
    ensures Ascending(printed) && forall s :: s in printed <==> s in table.Known() && Listed(mode, reachable(s))
  {
    hide ValidTable, WalkList, Listing, Listed, Ascending;
    printed := [];
    ghost var all := Listing(table, mode, reachable);
    ListingIsComplete(table, mode, reachable);
    var first: nat, more := 0, true;
    while more
      invariant first < UNSIGNED
      invariant more ==> first <= |all| && printed == all[..first]
      invariant !more ==> printed == all
      decreases |all| - |printed|, more
    {
      var response := List(table, reachable, mode, first);
      PageExtends(all, first);
      NextPage(first, |response.sids|);
      printed := printed + response.sids;
      more := |response.sids| == MDP_MAX_SID_REQUEST;
      first := (response.lastSid + 1) % UNSIGNED;
    }
  }
}
