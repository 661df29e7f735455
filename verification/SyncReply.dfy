/** The reply to a list of BARs, and what a whole synchronisation finds. */
module SyncReply {
  import opened Wrappers
  import opened Bytes
  import opened BigEndian
  import opened SyncCursor
  import opened SyncSweep
  import opened SyncMerge
  import opened RhizomeDirect
  import MergeOrder

  // ----- lists of BARs in a buffer -----

  function BarAt(buffer: seq<byte>, i: nat): Bar
    requires OFFSET_BYTES + BAR_BYTES * (i + 1) <= |buffer|
  {
    buffer[OFFSET_BYTES + BAR_BYTES * i..OFFSET_BYTES + BAR_BYTES * i + BAR_BYTES]
  }

  function Bars(buffer: seq<byte>, count: nat): (bars: seq<Bar>)
    requires OFFSET_BYTES + BAR_BYTES * count <= |buffer|
    ensures |bars| == count && forall i :: 0 <= i < count ==> bars[i] == BarAt(buffer, i)
  {
    seq(count, i requires 0 <= i < count => BarAt(buffer, i))
  }

  /** What remains to be put into the reply. */
  function ToCome(them: seq<Bar>, us: seq<Bar>, t: nat, u: nat): seq<byte>
    requires t <= |them| && u <= |us|
  {
    RenderAll(Merge(them[t..], us[u..]))
  }

  lemma RenderFirst(h: Hint, rest: seq<Hint>)
    ensures RenderAll([h] + rest) == Render(h) + RenderAll(rest)
  {
  }

  /** One turn of the comparison. */
  lemma MergeTurn(them: seq<Bar>, us: seq<Bar>, t: nat, u: nat)
    requires t <= |them| && u <= |us| && (t < |them| || u < |us|)
    ensures var relation := Relation(them[t..], us[u..]);
            && (relation < 0 ==>
                  t < |them| && ToCome(them, us, t, u) == [0x01] + them[t][..PREFIX_BYTES] + ToCome(them, us, t + 1, u))
            && (relation > 0 ==>
                  u < |us| && ToCome(them, us, t, u) == [0x02] + us[u][..PREFIX_BYTES] + ToCome(them, us, t, u + 1))
            && (relation == 0 ==>
                  t < |them| && u < |us| && Newer(them[t], us[u]) == []
                  && ToCome(them, us, t, u) == ToCome(them, us, t + 1, u + 1))
  {
    var a, b := them[t..], us[u..];
    if Relation(a, b) < 0 {
      assert a[1..] == them[t + 1..];
      RenderFirst(Want(a[0]), Merge(a[1..], b));
    } else if Relation(a, b) > 0 {
      assert b[1..] == us[u + 1..];
      RenderFirst(Have(b[0]), Merge(a, b[1..]));
    } else {
      assert a[1..] == them[t + 1..] && b[1..] == us[u + 1..];
      VersionsAgree(a[0], b[0]);
      assert [] + Merge(a[1..], b[1..]) == Merge(a[1..], b[1..]);
    }
  }

  /** The order of the two heads; an exhausted list comes last. */
  method Relate(themBuffer: seq<byte>, themCount: nat, usBuffer: seq<byte>, usCount: nat, them: nat, us: nat)
    returns (relation: int)
    requires OFFSET_BYTES + BAR_BYTES * themCount <= |themBuffer|
    requires OFFSET_BYTES + BAR_BYTES * usCount <= |usBuffer|
    requires them <= themCount && us <= usCount && (them < themCount || us < usCount)
    ensures relation == Relation(Bars(themBuffer, themCount)[them..], Bars(usBuffer, usCount)[us..])
  {
    relation := 0;
    if them < themCount && us < usCount {
      relation := Compare(Key(BarAt(themBuffer, them)), Key(BarAt(usBuffer, us)));
    } else if us == usCount {
      relation := -1;
    } else {
      relation := 1;
    }
  }

  /** Iterate until we are through both lists. */
  method Compared(themBuffer: seq<byte>, themCount: nat, usBuffer: seq<byte>, usCount: nat) returns (records: seq<byte>)
    requires OFFSET_BYTES + BAR_BYTES * themCount <= |themBuffer|
    requires OFFSET_BYTES + BAR_BYTES * usCount <= |usBuffer|
    ensures records == RenderAll(Merge(Bars(themBuffer, themCount), Bars(usBuffer, usCount)))
  {
    hide RenderAll, Merge, Value, Relation, Bars, ToCome, Version, BarAt;
    ghost var themBars, usBars := Bars(themBuffer, themCount), Bars(usBuffer, usCount);
    records := [];
    var them, us := 0, 0;
    Whole(themBars, usBars);
    while them < themCount || us < usCount
      invariant 0 <= them <= themCount && 0 <= us <= usCount
      invariant RenderAll(Merge(themBars, usBars)) == records + ToCome(themBars, usBars, them, us)
      decreases themCount - them + usCount - us
    {
      MergeTurn(themBars, usBars, them, us);
      var relation := Relate(themBuffer, themCount, usBuffer, usCount, them, us);
      if relation < 0 {
        records := records + ([0x01] + BarAt(themBuffer, them)[..PREFIX_BYTES]);
        them := them + 1;
      } else if relation > 0 {
        records := records + ([0x02] + BarAt(usBuffer, us)[..PREFIX_BYTES]);
        us := us + 1;
      } else {
        var theirs, ours := BarAt(themBuffer, them), BarAt(usBuffer, us);
        var ask, offer := [0x01] + theirs[..PREFIX_BYTES], [0x02] + ours[..PREFIX_BYTES];
        if Version(theirs) > Version(ours) {
          records := records + ask;
        } else if Version(theirs) < Version(ours) {
          records := records + offer;
        }
        them, us := them + 1, us + 1;
      }
    }
    Through(themBars, usBars);
  }

  lemma Whole(them: seq<Bar>, us: seq<Bar>)
    ensures ToCome(them, us, 0, 0) == RenderAll(Merge(them, us))
  {
  }

  lemma Through(them: seq<Bar>, us: seq<Bar>)
    ensures ToCome(them, us, |them|, |us|) == []
  {
  }

  // ----- the reply -----

  /** The BARs of some rows. */
  function RowBars(rows: seq<Row>): (bars: seq<Bar>)
    requires AllRows(rows)
    ensures |bars| == |rows| && forall i :: 0 <= i < |rows| ==> bars[i] == rows[i].bar
  {
    assert forall i :: 0 <= i < |rows| ==> ValidRow(rows[i]);
    seq(|rows|, i requires 0 <= i < |rows| && ValidRow(rows[i]) => RowBar(rows[i]))
  }

  function RowBar(r: Row): Bar
    requires ValidRow(r)
  {
    r.bar
  }

  lemma {:induction false} BarBytesAt(rows: seq<Row>, i: nat)
    requires AllRows(rows) && i < |rows|
    ensures BAR_BYTES * i + BAR_BYTES <= |BarBytes(rows)|
    ensures BarBytes(rows)[BAR_BYTES * i..BAR_BYTES * i + BAR_BYTES] == rows[i].bar
  {
    assert ValidRow(rows[0]);
    if i > 0 {
      BarBytesAt(rows[1..], i - 1);
      var b := BarBytes(rows[1..]);
      assert BarBytes(rows)[BAR_BYTES * i..BAR_BYTES * i + BAR_BYTES] == b[BAR_BYTES * (i - 1)..BAR_BYTES * (i - 1) + BAR_BYTES];
    }
  }

  lemma BarsAreRows(buffer: seq<byte>, rows: seq<Row>)
    requires AllRows(rows) && |buffer| >= OFFSET_BYTES && buffer[OFFSET_BYTES..] == BarBytes(rows)
    ensures |buffer| == OFFSET_BYTES + BAR_BYTES * |rows| && Bars(buffer, |rows|) == RowBars(rows)
  {
    hide BarBytes;
    BarBytesLength(rows);
    forall i | 0 <= i < |rows| ensures BarAt(buffer, i) == rows[i].bar {
      BarBytesAt(rows, i);
      var l := BAR_BYTES * i;
      assert buffer[OFFSET_BYTES..][l..l + BAR_BYTES] == BarAt(buffer, i);
    }
  }

  lemma FilledRows(db: seq<Row>, c: Cursor, room: nat)
    requires AllRows(db) && c.sizeHigh > 0
    ensures AllRows(Fill(db, c, room).1)
    decreases room, c.limitSize - c.sizeHigh
  {
    hide Fill, Batch, Landing, Last;
    FillStep(db, c, room);
    if room > 0 && !Finished(c) {
      var rows := Batch(db, c, room);
      BatchRows(db, c, room);
      if rows == [] {
        FilledRows(db, NextBin(c), room);
      } else {
        LandingStays(c, rows);
        FilledRows(db, Landing(c, rows), room - |rows|);
      }
    }
  }

  lemma BatchRows(db: seq<Row>, c: Cursor, room: nat)
    requires AllRows(db)
    ensures AllRows(Batch(db, c, room))
  {
    SelectMembers(db, QueryOf(c));
    hide Select;
  }

  const MAX_REQUEST := 65536
  const MAX_RESPONSE := 1048576

  function ResponseRoom(maxResponse: nat): nat
    requires maxResponse >= OFFSET_BYTES
  {
    (maxResponse - OFFSET_BYTES) / (1 + PREFIX_BYTES)
  }

  /** Compare the list in `buffer` with the bundles that we have in the same range. */
  method FillResponse(buffer: seq<byte>, maxResponse: nat, db: seq<Row>) returns (reply: Option<seq<byte>>)
    requires AllRows(db)
    ensures reply.None? <==> !(10 <= |buffer| <= 65536 && 10 <= maxResponse <= 1048576)
    ensures reply.Some? ==>
              var out := Fill(db, Unpickle(RangeOf(buffer[..OFFSET_BYTES])), ResponseRoom(maxResponse)).1;
              && |reply.value| >= OFFSET_BYTES && AllRows(out)
              && reply.value[OFFSET_BYTES..] ==
                 RenderAll(Merge(Bars(buffer, (|buffer| - OFFSET_BYTES) / BAR_BYTES), RowBars(out)))
              && ((|buffer| - OFFSET_BYTES) / BAR_BYTES + |out| <= 2 * ResponseRoom(maxResponse) ==>
                    |reply.value| <= OFFSET_BYTES + BAR_BYTES * ResponseRoom(maxResponse))
    ensures reply.Some? && Moderate(RangeOf(buffer[..OFFSET_BYTES])) ==>
              Fill(db, Unpickle(RangeOf(buffer[..OFFSET_BYTES])), ResponseRoom(maxResponse)).0.sizeHigh <= LONG_LONG
  {
    hide Fill, Merge, RenderAll, RangeOf, Unpickle, Bars, RowBars, BarBytes, Value, Last;
    if |buffer| < OFFSET_BYTES || |buffer| > MAX_REQUEST || maxResponse < OFFSET_BYTES || maxResponse > MAX_RESPONSE {
      return None;
    }
    var themCount := (|buffer| - OFFSET_BYTES) / BAR_BYTES;
    var maxIntermediate := OFFSET_BYTES + (maxResponse - OFFSET_BYTES) / (1 + PREFIX_BYTES) * BAR_BYTES;
    var c := new BundleCursor(maxIntermediate);
    var unpickled := c.UnpickleRange(buffer[..OFFSET_BYTES]);
    ghost var start := c.View();
    FreshRange(buffer[..OFFSET_BYTES], start);
    var usCount, out := c.FillBuffer(db);
    FilledRows(db, start, ResponseRoom(maxResponse));
    var usBuffer := c.buffer[..OFFSET_BYTES + c.bufferUsed];
    BarsAreRows(usBuffer, out);
    var records := Compared(buffer, themCount, usBuffer, usCount);
    HintsFit(Bars(buffer, themCount), RowBars(out), ResponseRoom(maxResponse));
    ModerateFits(db, RangeOf(buffer[..OFFSET_BYTES]), ResponseRoom(maxResponse));
    reply := Some(usBuffer[..OFFSET_BYTES] + records);
  }

  lemma ModerateFits(db: seq<Row>, g: Range, room: nat)
    ensures Moderate(g) ==> Fill(db, Unpickle(g), room).0.sizeHigh <= LONG_LONG
  {
    if Moderate(g) {
      SizesFitIff(db, g, room);
    }
  }

  lemma HintsFit(them: seq<Bar>, us: seq<Bar>, room: nat)
    ensures |them| + |us| <= 2 * room ==> |RenderAll(Merge(them, us))| <= BAR_BYTES * room
  {
    hide RenderAll, Merge;
    HintCount(them, us);
    RecordsInOrder(Merge(them, us));
  }

  /** The response that the HTTP server allows. */
  const HTTP_RESPONSE := 65536

  /** There, 4095 rows are compared, and the hints always fit the buffer. */
  lemma HttpReplyFits(db: seq<Row>, c: Cursor, size: nat)
    requires c.sizeHigh > 0 && OFFSET_BYTES <= size <= MAX_REQUEST && Ascending(db) && IdsInRange(db)
    ensures ResponseRoom(HTTP_RESPONSE) == 4095
    ensures (size - OFFSET_BYTES) / BAR_BYTES + |Fill(db, c, ResponseRoom(HTTP_RESPONSE)).1| <= 2 * ResponseRoom(HTTP_RESPONSE)
  {
    hide Fill, Rest;
    FillIsHead(db, c, ResponseRoom(HTTP_RESPONSE));
  }

  lemma FreshRange(p: seq<byte>, c: Cursor)
    requires |p| == OFFSET_BYTES && c == Unpickle(RangeOf(p)).(bidHigh := NewCursor().bidHigh)
    ensures c == Unpickle(RangeOf(p))
  {
    hide Value, Last, Exp2, Scale;
  }

  // ----- a whole synchronisation -----

  /** A turn from one cursor to another takes what was ahead of the first and is not ahead of
      the second, in order. */
  ghost predicate GoodTurn(db: seq<Row>, t: Turn)
  {
    && Proper(t.start) && Proper(t.end) && Ended(t.end) && Further(t.start, t.end)
    && !Finished(t.start) && t.end.bidHigh <= Last() && InOrder(t.rows)
    && forall r :: r in t.rows <==> r in db && Passed(t, r)
  }

  ghost predicate Passed(t: Turn, r: Row)
  {
    Ahead(t.start, r.size, Id(r)) && !Ahead(t.end, r.size, Id(r))
  }

  lemma {:induction false} SweepTurns(db: seq<Row>, c: Cursor, room: nat)
    requires Ascending(db) && NoneFull(db, c.limitSize) && Proper(c) && room > 0 && IdsInRange(db)
    ensures forall t :: t in Sweep(db, c, room) ==> GoodTurn(db, t)
    decreases |Rest(db, c)|, if Stopped(c) then 0 else 1
  {
    if !Stopped(c) {
      FillProgress(db, c, room);
      var (c', out) := Fill(db, c, room);
      SweepTurns(db, c', room);
      RestIsAhead(db, c);
      RestIsAhead(db, c');
      RestInOrder(db, c);
      PartedInOrder(Rest(db, c), out, Rest(db, c'));
      hide Fill, Rest, Ahead, InOrder, Id;
      assert GoodTurn(db, Turn(c, c', out));
    }
  }

  lemma PartedInOrder(all: seq<Row>, a: seq<Row>, b: seq<Row>)
    requires InOrder(all) && all == a + b
    ensures InOrder(a) && forall r :: r in a <==> r in all && r !in b
  {
    hide BinOf, Id;
    assert forall i :: 0 <= i < |a| ==> a[i] == all[i];
    forall i, j | 0 <= i < |a| && 0 <= j < |b| ensures a[i] != b[j] {
      assert Earlier(all[i], all[|a| + j]);
    }
  }

  /** The far end's cursor for a range is proper, too. */
  lemma UnpickledProper(c: Cursor, c': Cursor)
    requires Proper(c) && Proper(c') && Further(c, c') && c'.bidHigh <= Last()
    ensures var u := Unpickle(Pickle(c, c')); Proper(u) && !Finished(u)
  {
    UnpickledBounds(c, c');
    RoundedUp(c'.bidHigh);
    hide Last, Log2, Quotient, IsBin;
  }

  lemma RoundedUp(bid: nat)
    requires bid <= Last()
    ensures Quotient(bid, Scale()) * Scale() + Scale() - 1 <= Last()
  {
    hide Pow256, Quotient;
    PowSum(PICKLED_BYTES, ID_BYTES - PICKLED_BYTES);
    var p, q, n := Scale(), Pow256(PICKLED_BYTES), Quotient(bid, Scale());
    Rounding(bid, p);
    Digit(q, 0, n, 0, p);
    Digit(n, p - 1, q, 0, p);
  }

  /** What tells a version of a bundle from others: its BAR but for the last byte. */
  function RowKey(r: Row): seq<byte>
    requires ValidRow(r)
  {
    r.bar[..31]
  }

  ghost predicate HoldsKey(db: seq<Row>, k: seq<byte>)
  {
    exists r :: r in db && ValidRow(r) && RowKey(r) == k
  }

  lemma RowsLackKey(rows: seq<Row>, db: seq<Row>, k: seq<byte>)
    requires AllRows(rows) && (forall r :: r in rows ==> r in db) && !HoldsKey(db, k)
    ensures !HasKey(RowBars(rows), k)
  {
    var bars := RowBars(rows);
    forall i | 0 <= i < |bars| ensures Key(bars[i]) != k {
      assert rows[i] in rows;
      assert rows[i] in db && RowKey(rows[i]) == Key(bars[i]);
    }
  }

  /** The cursor with which the far end answers one turn of a sweep. */
  function Answering(t: Turn): (c: Cursor)
    ensures c.sizeHigh > 0
  {
    Unpickle(Pickle(t.start, t.end))
  }

  lemma HeldRows(ours: seq<Row>, theirs: seq<Row>, t: Turn)
    requires GoodTurn(ours, t) && IdsInRange(theirs)
    ensures forall r :: r in Rest(theirs, Answering(t)) <==> r in theirs && Ahead(Answering(t), r.size, Id(r))
  {
    UnpickledProper(t.start, t.end);
    RestIsAhead(theirs, Answering(t));
  }

  /** What the far end, which holds `theirs`, looks up for one turn of our sweep when it
      has room for `k` rows. */
  ghost function LookedUp(theirs: seq<Row>, t: Turn, k: nat): seq<Row>
  {
    Fill(theirs, Answering(t), k).1
  }

  /** These are the first rows of the range that comes with the turn. */
  lemma LooksUpHead(ours: seq<Row>, theirs: seq<Row>, t: Turn, k: nat)
    requires GoodTurn(ours, t) && AllRows(theirs) && Ascending(theirs) && IdsInRange(theirs)
    ensures Answering(t).sizeHigh > 0 && LookedUp(theirs, t, k) == Head(Rest(theirs, Answering(t)), k)
    ensures AllRows(LookedUp(theirs, t, k)) && forall r :: r in LookedUp(theirs, t, k) ==> r in theirs
  {
    FillIsHead(theirs, Answering(t), k);
    HeldRows(ours, theirs, t);
    hide Fill, Rest, Ahead;
  }

  /** And what it makes of the turn: the BARs that it is sent, compared with those rows. */
  ghost function Verdict(ours: seq<Row>, theirs: seq<Row>, t: Turn, k: nat): seq<Hint>
    requires GoodTurn(ours, t) && AllRows(ours) && AllRows(theirs)
  {
    FilledRows(theirs, Answering(t), k);
    Merge(RowBars(t.rows), RowBars(LookedUp(theirs, t, k)))
  }

  /** The far end looks up all that it has in the range. */
  ghost predicate LooksUpAll(theirs: seq<Row>, t: Turn, k: nat)
  {
    var rest := Rest(theirs, Answering(t)); UpToFull(rest) == |rest| <= k
  }

  /** Every row of the far end within the size limit is in the range of some turn. */
  lemma TheirsCovered(ours: seq<Row>, theirs: seq<Row>, room: nat, r: Row)
    requires Listed(ours) && NoneFull(ours, SIZE_LIMIT) && room > 0 && IdsInRange(theirs)
    requires r in theirs && r.size <= SIZE_LIMIT && AllRows(theirs)
    ensures Ascending(ours) && Proper(NewCursor())
    ensures exists t :: t in Sweep(ours, NewCursor(), room) && r in Rest(theirs, Answering(t))
  {
    var c := NewCursor();
    ListedAscends(ours);
    NewCursorProper();
    ListedInRange(ours);
    assert Ahead(c, r.size, Id(r)) && c.limitBid == Last();
    assert !Stopped(c) by { NotStoppedYet(); }
    RangesLeaveNoGap(ours, c, room, r.size, Id(r));
    var t :| t in Sweep(ours, c, room) && Ahead(Unpickle(Pickle(t.start, t.end)), r.size, Id(r));
    SweepTurns(ours, c, room);
    HeldRows(ours, theirs, t);
  }

  lemma NotStoppedYet()
    ensures !Stopped(NewCursor())
  {
  }

  lemma {:induction false} InSomeTurn(turns: seq<Turn>, r: Row)
    requires r in Concat(turns)
    ensures exists t :: t in turns && r in t.rows
  {
    assert turns == [turns[0]] + turns[1..];
    if r in turns[0].rows {
      assert turns[0] in turns;
    } else {
      InSomeTurn(turns[1..], r);
      var t :| t in turns[1..] && r in t.rows;
      assert t in turns;
    }
  }

  ghost predicate Found(ours: seq<Row>, theirs: seq<Row>, turns: seq<Turn>, k: nat, h: Hint)
    requires AllRows(ours) && AllRows(theirs)
  {
    exists t :: t in turns && GoodTurn(ours, t) && h in Verdict(ours, theirs, t, k)
  }

  /** A row is known by its BAR. */
  lemma BarsDiffer(db: seq<Row>, a: Row, b: Row)
    requires Listed(db) && a in db && b in db && a.bar == b.bar
    ensures a == b
  {
    var i :| 0 <= i < |db| && db[i] == a;
    var j :| 0 <= j < |db| && db[j] == b;
    assert a.bid[..PREFIX_BYTES] == b.bid[..PREFIX_BYTES];
  }

  /** One turn offers a row that we lack if and only if it is among those looked up. */
  lemma OffersLookedUp(ours: seq<Row>, theirs: seq<Row>, t: Turn, k: nat, r: Row)
    requires GoodTurn(ours, t) && AllRows(ours) && Listed(theirs) && r in theirs
    requires ValidRow(r) && !HoldsKey(ours, RowKey(r))
    ensures AllRows(theirs)
    ensures Have(RowBar(r)) in Verdict(ours, theirs, t, k) <==> r in LookedUp(theirs, t, k)
  {
    ListedAscends(theirs);
    ListedInRange(theirs);
    LooksUpHead(ours, theirs, t, k);
    var rows := LookedUp(theirs, t, k);
    RowsLackKey(t.rows, ours, RowKey(r));
    NothingOmitted(RowBars(t.rows), RowBars(rows));
    HintsAreReal(RowBars(t.rows), RowBars(rows));
    hide Merge, Rest, GoodTurn, LookedUp, Listed;
    forall x | x in rows && x.bar == r.bar ensures x == r {
      BarsDiffer(theirs, x, r);
    }
    assert RowBar(r) in RowBars(rows) <==> r in rows by {
      assert forall i :: 0 <= i < |rows| ==> rows[i] in rows && RowBars(rows)[i] == rows[i].bar;
    }
  }

  /** Over a whole sweep, a bundle that we lack is offered if and only if the far end looks
      it up in some turn: if it is among the first rows of a range, as many as there is
      room for. */
  lemma FindsTheirsIff(ours: seq<Row>, theirs: seq<Row>, room: nat, k: nat, r: Row)
    requires Listed(ours) && NoneFull(ours, SIZE_LIMIT) && Listed(theirs) && room > 0
    requires r in theirs && ValidRow(r) && !HoldsKey(ours, RowKey(r))
    ensures AllRows(ours) && AllRows(theirs) && Ascending(ours) && Proper(NewCursor())
    ensures var turns := Sweep(ours, NewCursor(), room);
            Found(ours, theirs, turns, k, Have(RowBar(r))) <==>
            exists t :: t in turns && r in Head(Rest(theirs, Answering(t)), k)
  {
    ListedAscends(ours);
    ListedAscends(theirs);
    ListedInRange(ours);
    ListedInRange(theirs);
    NewCursorProper();
    SweepTurns(ours, NewCursor(), room);
    var turns := Sweep(ours, NewCursor(), room);
    assert AllRows(ours);
    hide Sweep, Rest, Verdict, GoodTurn, Head, LookedUp, SIZE_LIMIT, Listed, HoldsKey;
    forall t | t in turns
      ensures Have(RowBar(r)) in Verdict(ours, theirs, t, k) <==> r in Head(Rest(theirs, Answering(t)), k)
    {
      OffersLookedUp(ours, theirs, t, k, r);
      LooksUpHead(ours, theirs, t, k);
    }
  }

  lemma FindsTheirs(ours: seq<Row>, theirs: seq<Row>, room: nat, k: nat, r: Row)
    requires Listed(ours) && NoneFull(ours, SIZE_LIMIT) && Listed(theirs) && room > 0 && Ascending(ours) && Proper(NewCursor())
    requires r in theirs && ValidRow(r) && r.size <= SIZE_LIMIT && !HoldsKey(ours, RowKey(r))
    requires forall t :: t in Sweep(ours, NewCursor(), room) ==> LooksUpAll(theirs, t, k)
    ensures AllRows(ours) && AllRows(theirs)
    ensures Found(ours, theirs, Sweep(ours, NewCursor(), room), k, Have(RowBar(r)))
  {
    hide Rest, Sweep, Found, UpToFull, SIZE_LIMIT, Proper, Ascending, Listed, HoldsKey, Answering;
    AreRows(theirs);
    ListedInRange(theirs);
    TheirsCovered(ours, theirs, room, r);
    FindsTheirsIff(ours, theirs, room, k, r);
    var t :| t in Sweep(ours, NewCursor(), room) && r in Rest(theirs, Answering(t));
    assert Head(Rest(theirs, Answering(t)), k) == Rest(theirs, Answering(t));
  }

  /** What the far end lacks it asks for, however little it has room for. */
  lemma FindsOurs(ours: seq<Row>, theirs: seq<Row>, room: nat, k: nat, r: Row)
    requires Listed(ours) && NoneFull(ours, SIZE_LIMIT) && Listed(theirs) && room > 0
    requires r in ours && ValidRow(r) && r.size <= SIZE_LIMIT && !HoldsKey(theirs, RowKey(r))
    ensures AllRows(ours) && AllRows(theirs) && Ascending(ours) && Proper(NewCursor())
    ensures Found(ours, theirs, Sweep(ours, NewCursor(), room), k, Want(RowBar(r)))
  {
    assert AllRows(ours) && AllRows(theirs);
    SweepIsComplete(ours, room);
    ListedInRange(ours);
    ListedInRange(theirs);
    ListedAscends(theirs);
    SweepTurns(ours, NewCursor(), room);
    var turns := Sweep(ours, NewCursor(), room);
    hide Rest, Sweep, Merge, SIZE_LIMIT, Listed, Head, LookedUp, Fill;
    InSomeTurn(turns, r);
    var t :| t in turns && r in t.rows;
    LooksUpHead(ours, theirs, t, k);
    var i :| 0 <= i < |t.rows| && t.rows[i] == r;
    assert RowBars(t.rows)[i] == RowBar(r);
    RowsLackKey(LookedUp(theirs, t, k), theirs, RowKey(r));
    NothingOmitted(RowBars(t.rows), RowBars(LookedUp(theirs, t, k)));
  }

  /** A sweep of one database, answered from another by a responder with room for `k` rows,
      finds every difference, provided that the responder looks up all of each range:
      whatever bundle of at most 2^48 bytes only one of them has is offered or asked for
      in the reply to some turn, for every size of the buffer. */
  lemma SyncFindsAll(ours: seq<Row>, theirs: seq<Row>, room: nat, k: nat)
    requires Listed(ours) && NoneFull(ours, SIZE_LIMIT) && Listed(theirs) && room > 0
    ensures AllRows(ours) && AllRows(theirs) && Ascending(ours) && Proper(NewCursor())
    ensures var turns := Sweep(ours, NewCursor(), room);
            (forall t :: t in turns ==> LooksUpAll(theirs, t, k)) ==>
              forall r :: r in theirs && r.size <= SIZE_LIMIT && !HoldsKey(ours, RowKey(r)) ==>
                Found(ours, theirs, turns, k, Have(RowBar(r)))
    ensures var turns := Sweep(ours, NewCursor(), room);
            forall r :: r in ours && r.size <= SIZE_LIMIT && !HoldsKey(theirs, RowKey(r)) ==>
              Found(ours, theirs, turns, k, Want(RowBar(r)))
  {
    ListedAscends(ours);
    NewCursorProper();
    assert AllRows(ours) && AllRows(theirs);
    hide Listed, Sweep, Found, RowKey, SIZE_LIMIT, NoneFull, LooksUpAll;
    var turns := Sweep(ours, NewCursor(), room);
    if forall t :: t in turns ==> LooksUpAll(theirs, t, k) {
      forall r | r in theirs && r.size <= SIZE_LIMIT && !HoldsKey(ours, RowKey(r))
        ensures Found(ours, theirs, turns, k, Have(RowBar(r)))
      {
        FindsTheirs(ours, theirs, room, k, r);
      }
    }
    forall r | r in ours && r.size <= SIZE_LIMIT && !HoldsKey(theirs, RowKey(r))
      ensures Found(ours, theirs, turns, k, Want(RowBar(r)))
    {
      FindsOurs(ours, theirs, room, k, r);
    }
  }

  // ----- bundles that both have -----

  /** Rows in order have different keys. */
  lemma RowsDiffer(db: seq<Row>, rows: seq<Row>)
    requires Listed(db) && AllRows(rows) && InOrder(rows) && forall r :: r in rows ==> r in db
    ensures DistinctKeys(RowBars(rows))
  {
    hide BinOf, Id;
    forall i, j | 0 <= i < j < |rows| ensures Key(RowBars(rows)[i]) != Key(RowBars(rows)[j]) {
      assert Earlier(rows[i], rows[j]) && rows[i] in rows && rows[j] in rows;
      KeysDiffer(db, rows[i], rows[j]);
    }
  }

  /** A row is known by the compared bytes of its BAR. */
  lemma KeysDiffer(db: seq<Row>, a: Row, b: Row)
    requires Listed(db) && a in db && b in db && ValidRow(a) && ValidRow(b)
    ensures RowKey(a) == RowKey(b) ==> a == b
  {
    var i :| 0 <= i < |db| && db[i] == a;
    var j :| 0 <= j < |db| && db[j] == b;
    assert a.bid[..PREFIX_BYTES] == RowKey(a)[..PREFIX_BYTES] && b.bid[..PREFIX_BYTES] == RowKey(b)[..PREFIX_BYTES];
  }

  lemma LookedUpInOrder(ours: seq<Row>, theirs: seq<Row>, t: Turn, k: nat)
    requires GoodTurn(ours, t) && AllRows(theirs) && Ascending(theirs) && IdsInRange(theirs)
    ensures InOrder(LookedUp(theirs, t, k))
  {
    UnpickledProper(t.start, t.end);
    RestInOrder(theirs, Answering(t));
    LooksUpHead(ours, theirs, t, k);
    hide Rest, LookedUp, UpToFull, Earlier;
  }

  /** The list that is sent and the list that is looked up are aligned. */
  ghost predicate AlignedTurn(ours: seq<Row>, theirs: seq<Row>, t: Turn, k: nat)
    requires GoodTurn(ours, t) && AllRows(ours) && AllRows(theirs)
  {
    FilledRows(theirs, Answering(t), k);
    MergeOrder.Aligned(Keys(RowBars(t.rows)), Keys(RowBars(LookedUp(theirs, t, k))))
  }

  ghost predicate ExactTurn(ours: seq<Row>, theirs: seq<Row>, t: Turn, k: nat)
    requires GoodTurn(ours, t) && AllRows(ours) && AllRows(theirs)
  {
    FilledRows(theirs, Answering(t), k);
    forall h :: h in Verdict(ours, theirs, t, k) <==> Differs(RowBars(t.rows), RowBars(LookedUp(theirs, t, k)), h)
  }

  /** The reply to a turn is exactly the difference of the two lists if and only if they are
      aligned, which lists that run over several bins need not be. */
  lemma TurnIsExactIff(ours: seq<Row>, theirs: seq<Row>, t: Turn, k: nat)
    requires GoodTurn(ours, t) && Listed(ours) && Listed(theirs)
    ensures AllRows(ours) && AllRows(theirs)
    ensures ExactTurn(ours, theirs, t, k) <==> AlignedTurn(ours, theirs, t, k)
  {
    AreRows(ours);
    AreRows(theirs);
    ListedAscends(theirs);
    ListedInRange(theirs);
    LooksUpHead(ours, theirs, t, k);
    LookedUpInOrder(ours, theirs, t, k);
    RowsDiffer(ours, t.rows);
    RowsDiffer(theirs, LookedUp(theirs, t, k));
    MergeIsExactIff(RowBars(t.rows), RowBars(LookedUp(theirs, t, k)));
    hide LookedUp, GoodTurn, Listed, InOrder, Merge, Differs, MergeOrder.Aligned, Keys, DistinctKeys, Answering;
  }

  /** The list has a row whose BAR has those first 31 bytes. */
  ghost predicate Lists(rows: seq<Row>, key: seq<byte>)
  {
    exists i :: 0 <= i < |rows| && ValidRow(rows[i]) && rows[i].bar[..31] == key
  }

  /** In an aligned turn a row that is sent is asked for, and a row that is looked up is
      offered, if and only if no row of the other list has a BAR with the same first 31
      bytes; the hop count behind them makes no difference. */
  lemma TurnHints(ours: seq<Row>, theirs: seq<Row>, t: Turn, k: nat)
    requires GoodTurn(ours, t) && Listed(ours) && Listed(theirs) && AllRows(ours) && AllRows(theirs)
    requires AlignedTurn(ours, theirs, t, k)
    ensures forall r :: r in t.rows && ValidRow(r) ==>
              (Want(RowBar(r)) in Verdict(ours, theirs, t, k) <==> !Lists(LookedUp(theirs, t, k), r.bar[..31]))
    ensures forall r :: r in LookedUp(theirs, t, k) && ValidRow(r) ==>
              (Have(RowBar(r)) in Verdict(ours, theirs, t, k) <==> !Lists(t.rows, r.bar[..31]))
  {
    TurnIsExactIff(ours, theirs, t, k);
    FilledRows(theirs, Answering(t), k);
    var theirRows := LookedUp(theirs, t, k);
    hide LookedUp, GoodTurn, Listed, Verdict, AlignedTurn, Answering;
    forall r | r in t.rows && ValidRow(r)
      ensures Want(RowBar(r)) in Verdict(ours, theirs, t, k) <==> !Lists(theirRows, r.bar[..31])
    {
      ListedBars(t.rows, theirRows, r);
    }
    forall r | r in theirRows && ValidRow(r)
      ensures Have(RowBar(r)) in Verdict(ours, theirs, t, k) <==> !Lists(t.rows, r.bar[..31])
    {
      ListedBars(theirRows, t.rows, r);
    }
  }

  lemma ListedBars(rows: seq<Row>, others: seq<Row>, r: Row)
    requires AllRows(rows) && AllRows(others) && r in rows && ValidRow(r)
    ensures RowBar(r) in RowBars(rows)
    ensures HasKey(RowBars(others), r.bar[..31]) <==> Lists(others, r.bar[..31])
  {
    var i :| 0 <= i < |rows| && rows[i] == r;
    assert RowBars(rows)[i] == RowBar(r);
    assert forall j :: 0 <= j < |others| ==> others[j] in others && RowBars(others)[j] == others[j].bar;
  }

  lemma RowIsAmong(db: seq<Row>, rows: seq<Row>, r: Row)
    requires Listed(db) && AllRows(rows) && (forall x :: x in rows ==> x in db) && r in db && ValidRow(r)
    ensures HasKey(RowBars(rows), RowKey(r)) <==> r in rows
    ensures RowBar(r) in RowBars(rows) <==> r in rows
  {
    hide Listed;
    forall i | 0 <= i < |rows| && Key(RowBars(rows)[i]) == RowKey(r) ensures rows[i] == r {
      assert rows[i] in rows;
      KeysDiffer(db, rows[i], r);
    }
    if r in rows {
      var i :| 0 <= i < |rows| && rows[i] == r;
      assert RowBars(rows)[i] == RowBar(r);
    }
  }

  /** A bundle `r` that we hold too, as `o`, is offered in an aligned turn if and only if it
      is looked up for the turn, whose range is wider than what the turn has passed, and not
      passed by it. */
  lemma HeldIsOfferedIff(ours: seq<Row>, theirs: seq<Row>, t: Turn, k: nat, r: Row, o: Row)
    requires GoodTurn(ours, t) && Listed(ours) && Listed(theirs) && AllRows(ours) && AllRows(theirs)
    requires r in theirs && o in ours && ValidRow(r) && ValidRow(o) && RowKey(r) == RowKey(o)
    ensures r in LookedUp(theirs, t, k) && !Passed(t, o) ==> Have(RowBar(r)) in Verdict(ours, theirs, t, k)
    ensures AlignedTurn(ours, theirs, t, k) ==>
              (Have(RowBar(r)) in Verdict(ours, theirs, t, k) <==> r in LookedUp(theirs, t, k) && !Passed(t, o))
  {
    ListedAscends(theirs);
    ListedInRange(theirs);
    LooksUpHead(ours, theirs, t, k);
    TurnIsExactIff(ours, theirs, t, k);
    var rows := LookedUp(theirs, t, k);
    RowIsAmong(theirs, rows, r);
    RowIsAmong(ours, t.rows, o);
    NothingOmitted(RowBars(t.rows), RowBars(rows));
    hide LookedUp, Listed, InOrder, Merge, AlignedTurn, Answering, HasKey, RowBars, Passed;
  }

  /** Over a whole sweep of aligned turns. */
  lemma HeldAreOfferedIff(ours: seq<Row>, theirs: seq<Row>, room: nat, k: nat, r: Row, o: Row)
    requires Listed(ours) && NoneFull(ours, SIZE_LIMIT) && Listed(theirs) && room > 0
    requires r in theirs && o in ours && ValidRow(r) && ValidRow(o) && RowKey(r) == RowKey(o)
    ensures AllRows(ours) && AllRows(theirs) && Ascending(ours) && Proper(NewCursor())
    ensures var turns := Sweep(ours, NewCursor(), room);
            (forall t :: t in turns ==> GoodTurn(ours, t) && AlignedTurn(ours, theirs, t, k)) ==>
              (Found(ours, theirs, turns, k, Have(RowBar(r))) <==>
                 exists t :: t in turns && r in LookedUp(theirs, t, k) && !Passed(t, o))
  {
    AreRows(ours);
    AreRows(theirs);
    ListedAscends(ours);
    NewCursorProper();
    var turns := Sweep(ours, NewCursor(), room);
    hide Sweep, Verdict, GoodTurn, LookedUp, SIZE_LIMIT, Listed, AlignedTurn, Passed, Proper, Ascending, NoneFull;
    if forall t :: t in turns ==> GoodTurn(ours, t) && AlignedTurn(ours, theirs, t, k) {
      forall t | t in turns
        ensures Have(RowBar(r)) in Verdict(ours, theirs, t, k) <==> r in LookedUp(theirs, t, k) && !Passed(t, o)
      {
        HeldIsOfferedIff(ours, theirs, t, k, r, o);
      }
    }
  }

  // ----- a turn over two bins -----

  lemma OnlyRow(rows: seq<Row>, p: Row)
    requires InOrder(rows) && forall r :: r in rows <==> r == p
    ensures rows == [p]
  {
    hide BinOf, Id;
    assert p in rows;
    assert |rows| > 1 ==> rows[0] in rows && rows[1] in rows && Earlier(rows[0], rows[1]);
    assert rows[0] in rows;
  }

  lemma OneWay(p: Row, q: Row)
    requires Earlier(p, q)
    ensures !Earlier(q, p) && !Earlier(p, p) && !Earlier(q, q)
  {
  }

  lemma OnlyRows(rows: seq<Row>, p: Row, q: Row)
    requires InOrder(rows) && (forall r :: r in rows <==> r == p || r == q) && Earlier(p, q)
    ensures rows == [p, q]
  {
    hide Earlier;
    OneWay(p, q);
    assert p in rows && rows[0] in rows;
    assert forall m :: 0 < m < |rows| ==> Earlier(rows[0], rows[m]) && rows[m] in rows;
    assert rows[0] == p;
    var rest := rows[1..];
    forall m | 0 <= m < |rest| ensures rest[m] == q {
      assert rest[m] == rows[m + 1];
    }
    assert rows == [p] + rest && q in rows && q != p;
    OnlyRow(rest, q);
  }

  /** A smaller id in a larger bin: the second is listed first. */
  ghost predicate TwoBins(p: Row, q: Row)
  {
    Listed([p, q]) && q.size <= FIRST_BIN < p.size <= SIZE_LIMIT && Id(q) < Last()
  }

  lemma TwoBinsListed(p: Row, q: Row)
    requires TwoBins(p, q)
    ensures Listed([p, q]) && Listed([p]) && NoneFull([p, q], SIZE_LIMIT) && Earlier(q, p)
    ensures ValidRow(p) && ValidRow(q) && KeyValue(RowBar(p)) < KeyValue(RowBar(q))
  {
    var db := [p, q];
    assert ValidRow(db[0]) && ValidRow(db[1]) && db[0].bid[..PREFIX_BYTES] != db[1].bid[..PREFIX_BYTES];
    ListedAscends(db);
    assert Id(db[0]) < Id(db[1]);
    assert Value(db[0].bar) <= Value(db[1].bar);
    hide Value, Listed;
    assert RowKey(p)[..PREFIX_BYTES] == p.bid[..PREFIX_BYTES] && RowKey(q)[..PREFIX_BYTES] == q.bid[..PREFIX_BYTES];
    PrefixDecides(q.bar, p.bar, COMPARE_BYTES);
    if KeyValue(RowBar(p)) == KeyValue(RowBar(q)) {
      ValueInjective(RowKey(p), RowKey(q));
    }
  }

  lemma TwoBinsSwept(p: Row, q: Row, room: nat)
    requires TwoBins(p, q) && room >= 2
    ensures Listed([p, q]) && Ascending([p, q]) && NoneFull([p, q], SIZE_LIMIT) && Proper(NewCursor())
    ensures var turns := Sweep([p, q], NewCursor(), room);
            && turns != [] && GoodTurn([p, q], turns[0]) && turns[0].rows == [q, p]
            && Ahead(Answering(turns[0]), p.size, Id(p))
  {
    hide SIZE_LIMIT, Last, IsBin, Value, Listed;
    TwoBinsListed(p, q);
    var db, c := [p, q], NewCursor();
    ListedAscends(db);
    ListedInRange(db);
    NewCursorProper();
    NotStoppedYet();
    RestIsTwo(p, q);
    FillProgress(db, c, room);
    SweepTurns(db, c, room);
    var (c', out) := Fill(db, c, room);
    var turns := Sweep(db, c, room);
    assert turns[0] == Turn(c, c', out) && turns[0] in turns;
    RestIsAhead(db, c');
    hide Fill, Rest, Sweep;
    assert out == Rest(db, c) && Rest(db, c') == [];
    RangeContainsFill(c, c', p.size, Id(p));
  }

  lemma RestIsTwo(p: Row, q: Row)
    requires TwoBins(p, q)
    ensures Proper(NewCursor()) && Rest([p, q], NewCursor()) == [q, p] && Ahead(NewCursor(), p.size, Id(p))
  {
    var db, c := [p, q], NewCursor();
    TwoBinsListed(p, q);
    ListedAscends(db);
    ListedInRange(db);
    NewCursorProper();
    RestIsAhead(db, c);
    RestInOrder(db, c);
    hide Rest, Listed, Value, IsBin;
    assert forall r :: r in db <==> r == p || r == q;
    assert Ahead(c, p.size, Id(p)) && Ahead(c, q.size, Id(q));
    OnlyRows(Rest(db, c), q, p);
  }

  /** A bundle that both have, and that comes in such a turn, is asked for and offered all the
      same. */
  lemma TwoBinsOverstate(p: Row, q: Row, room: nat, k: nat)
    requires TwoBins(p, q) && room >= 2 && k >= 1
    ensures Listed([p, q]) && Listed([p]) && AllRows([p, q]) && AllRows([p])
    ensures ValidRow(p) && ValidRow(q) && Ascending([p, q]) && NoneFull([p, q], SIZE_LIMIT) && Proper(NewCursor())
    ensures var turns := Sweep([p, q], NewCursor(), room);
            && turns != [] && GoodTurn([p, q], turns[0])
            && Verdict([p, q], [p], turns[0], k) == [Have(RowBar(p)), Want(RowBar(q)), Want(RowBar(p))]
  {
    hide SIZE_LIMIT, Proper, Sweep, NoneFull, TwoBins, Listed, Ahead, Rest, GoodTurn, KeyValue, Answering;
    TwoBinsListed(p, q);
    TwoBinsSwept(p, q, room);
    AreRows([p, q]);
    AreRows([p]);
    ListedAscends([p]);
    ListedInRange([p]);
    var t := Sweep([p, q], NewCursor(), room)[0];
    LooksUpHead([p, q], [p], t, k);
    LookedUpWhole([p, q], p, t);
    assert LookedUp([p], t, k) == [p];
    assert RowBars([q, p]) == [RowBar(q), RowBar(p)] && RowBars([p]) == [RowBar(p)];
    DisorderedIsOverstated(RowBar(p), RowBar(q));
  }

  lemma LookedUpWhole(ours: seq<Row>, p: Row, t: Turn)
    requires GoodTurn(ours, t) && IdsInRange([p]) && Ascending([p]) && Ahead(Answering(t), p.size, Id(p))
    ensures Rest([p], Answering(t)) == [p]
  {
    HeldRows(ours, [p], t);
    UnpickledProper(t.start, t.end);
    RestInOrder([p], Answering(t));
    hide Rest, Answering, InOrder, GoodTurn;
    OnlyRow(Rest([p], Answering(t)), p);
  }

  // ----- more bundles than the responder has room for -----

  lemma {:induction false} NothingAhead(c: Cursor)
    requires c.sizeHigh > 0
    ensures Rest([], c) == []
    decreases c.limitSize - c.sizeHigh
  {
    if !Finished(c) {
      NothingAhead(NextBin(c));
    }
  }

  /** An empty database is swept in one turn. */
  lemma EmptySweep(room: nat)
    requires room > 0
    ensures Ascending([]) && NoneFull([], SIZE_LIMIT) && Proper(NewCursor())
    ensures |Sweep([], NewCursor(), room)| == 1
  {
    hide Rest, SIZE_LIMIT, Proper, Last, Sweep, Stopped, Fill;
    var c := NewCursor();
    NewCursorProper();
    NotStoppedYet();
    NothingAhead(c);
    FillProgress([], c, room);
    SweepBegins([], room);
    SweepGoesOn([], c, room, []);
    var (c', out) := Fill([], c, room);
    SweepOver([], c', room, [] + [Turn(c, c', out)]);
  }

  lemma {:induction false} AtMostAsMany(a: seq<Row>, b: seq<Row>)
    requires Ascending(a) && forall r :: r in a ==> r in b
    ensures |a| <= |b|
  {
    if a != [] {
      hide Id;
      TailAscends(a);
      assert a[0] in a;
      var i :| 0 <= i < |b| && b[i] == a[0];
      var b' := b[..i] + b[i + 1..];
      assert b == b[..i] + [b[i]] + b[i + 1..];
      forall r | r in a[1..] ensures r in b' {
        assert r in a && r != a[0];
      }
      AtMostAsMany(a[1..], b');
    }
  }

  lemma HeadFits(rows: seq<Row>, k: nat)
    ensures |Head(rows, k)| <= k
  {
  }

  lemma NoneHeld(key: seq<byte>)
    ensures Listed([]) && !HoldsKey([], key)
  {
  }

  lemma AreRows(db: seq<Row>)
    requires Listed(db)
    ensures AllRows(db)
  {
  }

  /** So if the far end has more bundles than it has room for, some of them are not offered
      to a node that has none. */
  lemma EmptyMisses(theirs: seq<Row>, room: nat, k: nat)
    requires Listed(theirs) && room > 0 && |theirs| > k
    ensures AllRows([]) && AllRows(theirs) && Ascending([]) && NoneFull([], SIZE_LIMIT) && Proper(NewCursor())
    ensures exists r :: r in theirs && ValidRow(r) && !Found([], theirs, Sweep([], NewCursor(), room), k, Have(RowBar(r)))
  {
    hide Sweep, Found, Rest, Head, SIZE_LIMIT, Listed, Proper, HoldsKey, Answering;
    EmptySweep(room);
    ListedAscends(theirs);
    AreRows(theirs);
    var turns := Sweep([], NewCursor(), room);
    var rest := Rest(theirs, Answering(turns[0]));
    var head := Head(rest, k);
    HeadFits(rest, k);
    if forall r :: r in theirs ==> Found([], theirs, turns, k, Have(RowBar(r))) {
      forall r | r in theirs ensures r in head {
        NoneHeld(RowKey(r));
        FindsTheirsIff([], theirs, room, k, r);
        var t :| t in turns && r in Head(Rest(theirs, Answering(t)), k);
        assert t == turns[0];
      }
      AtMostAsMany(theirs, head);
      assert false;
    }
  }

  // ----- through the buffers -----

  /** The range in a filled buffer is that of the fill, since its logarithms fit. */
  lemma RangeIsPickled(start: Cursor, end: Cursor, g: Range)
    requires Proper(start) && Proper(end) && start.limitSize == end.limitSize == SIZE_LIMIT
    requires g == Pickle(start, end).(startLog := g.startLog, endLog := g.endLog)
    requires g.startLog == Log2(start.sizeHigh) % 0x100 && g.endLog == Log2(end.sizeHigh) % 0x100
    ensures g == Pickle(start, end)
  {
    hide Log2, SIZE_LIMIT, Proper, Quotient, Scale;
    LogsFit(start);
    LogsFit(end);
  }

  /** The reply to a turn spells the hints of the far end's verdict. */
  ghost predicate Answers(ours: seq<Row>, theirs: seq<Row>, t: Turn, k: nat, reply: seq<byte>)
    requires AllRows(ours) && AllRows(theirs)
  {
    |reply| >= OFFSET_BYTES && GoodTurn(ours, t) && reply[OFFSET_BYTES..] == RenderAll(Verdict(ours, theirs, t, k))
  }

  /** One turn of a synchronisation: fill the buffer here, and have it answered there. */
  method SyncTurn(c: BundleCursor, ours: seq<Row>, theirs: seq<Row>, maxResponse: nat)
    returns (reply: seq<byte>, ghost t: Turn)
    requires c.Valid() && OFFSET_BYTES + BAR_BYTES <= c.buffer.Length <= MAX_REQUEST
    requires OFFSET_BYTES <= maxResponse <= MAX_RESPONSE && AllRows(ours) && AllRows(theirs)
    requires exists turns :: OnSweep(ours, c.Room(), turns, c.View())
    requires !Stopped(c.View())
    modifies c, c.buffer
    ensures c.Valid() && t.start == old(c.View()) && t.end == c.View()
    ensures (t.end, t.rows) == Fill(ours, t.start, c.Room())
    ensures Answers(ours, theirs, t, ResponseRoom(maxResponse), reply)
    ensures t.end.sizeHigh <= LONG_LONG && Fill(theirs, Answering(t), ResponseRoom(maxResponse)).0.sizeHigh <= LONG_LONG
  {
    hide Fill, Merge, RenderAll, Rest, Last, SIZE_LIMIT, Proper, Bars, RowBars, Value, BarBytes, RangeOf;
    ghost var start := c.View();
    ListedInRange(ours);
    FillProgress(ours, start, c.Room());
    var stuffed, out := c.FillBuffer(ours);
    t := Turn(start, c.View(), out);
    TurnIsGood(ours, t, c.Room());
    var request := c.buffer[..OFFSET_BYTES + c.bufferUsed];
    assert AllRows(out);
    RangeIsPickled(start, c.View(), RangeOf(request[..OFFSET_BYTES]));
    BarsAreRows(request, out);
    SizesStaySmall(t);
    var r := FillResponse(request, maxResponse, theirs);
    reply := r.value;
  }

  /** Far from the largest number, since the logarithms are at most 49. */
  lemma SizesStaySmall(t: Turn)
    requires Proper(t.start) && Proper(t.end) && t.start.limitSize == t.end.limitSize == SIZE_LIMIT
    ensures t.end.sizeHigh <= LONG_LONG && Moderate(Pickle(t.start, t.end))
  {
    LogsFit(t.start);
    LogsFit(t.end);
    LogOfBin(t.end.sizeHigh);
    hide Proper, Quotient, Scale, SIZE_LIMIT, Log2, Exp2;
    Exp2Of63();
    Exp2Order(Log2(t.end.sizeHigh), 62);
  }

  lemma TurnIsGood(db: seq<Row>, t: Turn, room: nat)
    requires Ascending(db) && NoneFull(db, t.start.limitSize) && Proper(t.start) && room > 0 && IdsInRange(db)
    requires !Stopped(t.start) && (t.end, t.rows) == Fill(db, t.start, room)
    ensures GoodTurn(db, t)
  {
    FillProgress(db, t.start, room);
    SweepTurns(db, t.start, room);
    assert Sweep(db, t.start, room)[0] == t;
  }

  /** What is known of a database that can be swept. */
  ghost predicate Sweepable(db: seq<Row>)
  {
    AllRows(db) && Listed(db) && Ascending(db) && NoneFull(db, SIZE_LIMIT)
  }

  /** A sweep that has taken these turns so far, and goes on from `c`. */
  ghost predicate OnSweep(db: seq<Row>, room: nat, turns: seq<Turn>, c: Cursor)
  {
    && Sweepable(db) && room > 0 && Proper(NewCursor())
    && Proper(c) && c.limitSize == SIZE_LIMIT && c.limitBid == Last()
    && turns + Sweep(db, c, room) == Sweep(db, NewCursor(), room)
  }

  ghost predicate AllAnswered(ours: seq<Row>, theirs: seq<Row>, turns: seq<Turn>, k: nat, replies: seq<seq<byte>>)
    requires AllRows(ours) && AllRows(theirs)
  {
    |replies| == |turns| && forall i :: 0 <= i < |turns| ==> Answers(ours, theirs, turns[i], k, replies[i])
  }

  /** A whole synchronisation, buffer by buffer: each reply spells the verdict on one turn of
      the sweep, in order. */
  method Synchronise(ours: seq<Row>, theirs: seq<Row>, bufferSize: nat, maxResponse: nat)
    returns (replies: seq<seq<byte>>)
    requires Listed(ours) && NoneFull(ours, SIZE_LIMIT) && Listed(theirs)
    requires OFFSET_BYTES + BAR_BYTES <= bufferSize <= MAX_REQUEST && OFFSET_BYTES <= maxResponse <= MAX_RESPONSE
    ensures AllRows(ours) && AllRows(theirs) && Ascending(ours) && Proper(NewCursor())
    ensures var turns := Sweep(ours, NewCursor(), (bufferSize - OFFSET_BYTES) / BAR_BYTES);
            AllAnswered(ours, theirs, turns, ResponseRoom(maxResponse), replies)
  {
    hide Fill, Rest, Last, SIZE_LIMIT, Proper, Answers, Listed, NoneFull, Ascending, Sweep, Value, Stopped, ResponseRoom;
    hide OnSweep, Sweepable, NewCursor, AllAnswered, AllRows, Exp2;
    SweepBegins(ours, (bufferSize - OFFSET_BYTES) / BAR_BYTES);
    AreRows(theirs);
    var c := new BundleCursor(bufferSize);
    ghost var room := (bufferSize - OFFSET_BYTES) / BAR_BYTES;
    RoomIs(c);
    assert AllAnswered(ours, theirs, [], ResponseRoom(maxResponse), []) by { NoneYet(ours, theirs, ResponseRoom(maxResponse)); }
    replies := [];
    ghost var turns := [];
    var out := HasStopped(c);
    while !out
      invariant c.Valid() && fresh(c) && fresh(c.buffer) && out == Stopped(c.View())
      invariant OnSweep(ours, room, turns, c.View())
      invariant AllAnswered(ours, theirs, turns, ResponseRoom(maxResponse), replies)
      decreases |Rest(ours, c.View())|, !out
    {
      var reply;
      ghost var t;
      SweepGoesOn(ours, c.View(), room, turns);
      reply, t := SyncTurn(c, ours, theirs, maxResponse);
      OneMore(ours, theirs, turns, ResponseRoom(maxResponse), replies, t, reply);
      replies, turns := replies + [reply], turns + [t];
      out := HasStopped(c);
    }
    SweepOver(ours, c.View(), room, turns);
  }

  lemma NoneYet(ours: seq<Row>, theirs: seq<Row>, k: nat)
    requires AllRows(ours) && AllRows(theirs)
    ensures AllAnswered(ours, theirs, [], k, [])
  {
  }

  lemma OneMore(ours: seq<Row>, theirs: seq<Row>, turns: seq<Turn>, k: nat, replies: seq<seq<byte>>, t: Turn, reply: seq<byte>)
    requires AllRows(ours) && AllRows(theirs)
    requires AllAnswered(ours, theirs, turns, k, replies) && Answers(ours, theirs, t, k, reply)
    ensures AllAnswered(ours, theirs, turns + [t], k, replies + [reply])
  {
    hide Answers;
  }

  lemma RoomIs(c: BundleCursor)
    requires c.Valid()
    ensures c.Room() == (c.buffer.Length - OFFSET_BYTES) / BAR_BYTES
  {
  }

  lemma SweepBegins(db: seq<Row>, room: nat)
    requires Listed(db) && NoneFull(db, SIZE_LIMIT) && room > 0
    ensures AllRows(db) && Ascending(db) && Proper(NewCursor()) && OnSweep(db, room, [], NewCursor())
  {
    ListedAscends(db);
    hide Sweep, NoneFull;
    NewCursorProper();
    assert [] + Sweep(db, NewCursor(), room) == Sweep(db, NewCursor(), room);
  }

  /** Out of bins and out of ids. */
  method HasStopped(c: BundleCursor) returns (stopped: bool)
    requires c.Valid()
    ensures stopped == Stopped(c.View())
    ensures stopped <==> c.sizeHigh >= c.limitSizeHigh && Value(c.bidLow) >= Value(c.limitBidHigh)
  {
    CompareIsOrder(c.bidLow, c.limitBidHigh);
    stopped := c.sizeHigh >= c.limitSizeHigh && Compare(c.bidLow, c.limitBidHigh) >= 0;
  }

  lemma SweepGoesOn(db: seq<Row>, c: Cursor, room: nat, turns: seq<Turn>)
    requires OnSweep(db, room, turns, c) && !Stopped(c)
    ensures var (c', out) := Fill(db, c, room);
            && OnSweep(db, room, turns + [Turn(c, c', out)], c')
            && |Rest(db, c')| <= |Rest(db, c)| && (|Rest(db, c')| < |Rest(db, c)| || Stopped(c'))
  {
    FillProgress(db, c, room);
    var (c', out) := Fill(db, c, room);
    hide Fill, Rest, Sweepable;
    assert turns + ([Turn(c, c', out)] + Sweep(db, c', room)) == turns + [Turn(c, c', out)] + Sweep(db, c', room);
  }

  lemma SweepOver(db: seq<Row>, c: Cursor, room: nat, turns: seq<Turn>)
    requires OnSweep(db, room, turns, c) && Stopped(c)
    ensures Sweep(db, NewCursor(), room) == turns
  {
  }

  /** One of the replies holds that record. */
  ghost predicate Told(replies: seq<seq<byte>>, h: Hint)
  {
    exists i :: 0 <= i < |replies| && |replies[i]| >= OFFSET_BYTES && Recorded(replies[i][OFFSET_BYTES..], h)
  }

  lemma FoundIsTold(ours: seq<Row>, theirs: seq<Row>, turns: seq<Turn>, k: nat, replies: seq<seq<byte>>, h: Hint)
    requires AllRows(ours) && AllRows(theirs) && Found(ours, theirs, turns, k, h)
    requires AllAnswered(ours, theirs, turns, k, replies)
    ensures Told(replies, h)
  {
    hide Verdict, GoodTurn, RecordAt;
    var t :| t in turns && GoodTurn(ours, t) && h in Verdict(ours, theirs, t, k);
    var i :| 0 <= i < |turns| && turns[i] == t;
    assert Answers(ours, theirs, turns[i], k, replies[i]);
    var hints := Verdict(ours, theirs, t, k);
    RecordsInOrder(hints);
    var j :| 0 <= j < |hints| && hints[j] == h;
    assert RecordAt(RenderAll(hints), h, j);
    assert Recorded(replies[i][OFFSET_BYTES..], h);
  }

  /** So the bytes of the replies to a synchronisation tell every difference that its
      turns find. */
  lemma RepliesTellAll(ours: seq<Row>, theirs: seq<Row>, room: nat, k: nat, turns: seq<Turn>, replies: seq<seq<byte>>)
    requires Listed(ours) && NoneFull(ours, SIZE_LIMIT) && Listed(theirs) && room > 0
    requires AllRows(ours) && AllRows(theirs) && Ascending(ours) && Proper(NewCursor())
    requires turns == Sweep(ours, NewCursor(), room) && AllAnswered(ours, theirs, turns, k, replies)
    ensures (forall t :: t in turns ==> LooksUpAll(theirs, t, k)) ==>
              forall r :: r in theirs && r.size <= SIZE_LIMIT && !HoldsKey(ours, RowKey(r)) ==> Told(replies, Have(RowBar(r)))
    ensures forall r :: r in ours && r.size <= SIZE_LIMIT && !HoldsKey(theirs, RowKey(r)) ==> Told(replies, Want(RowBar(r)))
  {
    SyncFindsAll(ours, theirs, room, k);
    hide Listed, Sweep, Found, SIZE_LIMIT, NoneFull, LooksUpAll, Told, AllAnswered, HoldsKey, Proper, Ascending;
    forall h | Found(ours, theirs, turns, k, h) ensures Told(replies, h) {
      FoundIsTold(ours, theirs, turns, k, replies, h);
    }
  }
}
