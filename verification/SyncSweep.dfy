/** Whole sweeps of a Rhizome Direct cursor, and the ranges it sends to the far end. */
module SyncSweep {
  import opened Bytes
  import opened BigEndian
  import opened SyncCursor

  // ----- size bins -----

  /** 1024, 2048, 4096, ... */
  ghost predicate IsBin(h: nat)
  {
    h == FIRST_BIN || (h > FIRST_BIN && h % 2 == 0 && IsBin(h / 2))
  }

  /** The top of the bin that a size belongs to. */
  function BinOf(size: nat): (h: nat)
    ensures h >= FIRST_BIN
  {
    if size <= FIRST_BIN then FIRST_BIN else 2 * BinOf((size + 1) / 2)
  }

  lemma {:induction false} BinOfWithin(h: nat, size: nat)
    requires IsBin(h) && Low(h) <= size <= h
    ensures BinOf(size) == h
  {
    if h > FIRST_BIN {
      BinOfWithin(h / 2, (size + 1) / 2);
    }
  }

  lemma {:induction false} BinOfAbove(h: nat, size: nat)
    requires IsBin(h) && size > h
    ensures BinOf(size) > h
  {
    if h > FIRST_BIN {
      BinOfAbove(h / 2, (size + 1) / 2);
    }
  }

  lemma {:induction false} BinsDouble(h: nat, l: nat)
    requires IsBin(h) && IsBin(l) && h < l
    ensures 2 * h <= l
  {
    if h > FIRST_BIN {
      BinsDouble(h / 2, l / 2);
    } else {
      BinAtLeast(l / 2);
    }
  }

  lemma {:induction false} BinAtLeast(h: nat)
    requires IsBin(h)
    ensures h >= FIRST_BIN
  {
  }

  // ----- what lies ahead of a cursor -----

  /** The bins of cursor and limit are proper, and beyond the limit no id is left. */
  ghost predicate Proper(c: Cursor)
  {
    && IsBin(c.sizeHigh) && c.sizeLow == Low(c.sizeHigh) && c.sizeHigh > 0
    && IsBin(c.limitSize) && c.limitBid <= Last()
    && (Finished(c) ==> c.bidLow == Last() && c.sizeHigh == 2 * c.limitSize)
  }

  /** A size and an id between the cursor and its limit. */
  ghost predicate Ahead(c: Cursor, size: nat, bid: nat)
  {
    && c.sizeLow <= size <= c.limitSize
    && (size <= c.sizeHigh ==> c.bidLow <= bid)
    && (size >= Low(c.limitSize) ==> bid <= c.limitBid)
  }

  lemma NextBinProper(c: Cursor)
    requires Proper(c) && !Finished(c)
    ensures Proper(NextBin(c))
  {
    if c.sizeHigh < c.limitSize {
      BinsDouble(c.sizeHigh, c.limitSize);
    }
    assert IsBin(2 * c.sizeHigh);
  }

  /** Ahead of the cursor is either in its bin or ahead of the next bin. */
  lemma AheadStep(c: Cursor, size: nat, bid: nat)
    requires Proper(c) && !Finished(c) && bid <= Last()
    ensures Ahead(c, size, bid) <==>
            (c.sizeLow <= size <= c.sizeHigh && c.bidLow <= bid <= BidMax(c)) || Ahead(NextBin(c), size, bid)
  {
    if c.sizeHigh < c.limitSize {
      BinsDouble(c.sizeHigh, c.limitSize);
    }
  }

  ghost predicate IdsInRange(db: seq<Row>)
  {
    forall r :: r in db ==> Id(r) <= Last()
  }

  lemma ListedInRange(db: seq<Row>)
    requires Listed(db)
    ensures IdsInRange(db)
  {
    forall r | r in db ensures Id(r) <= Last() {
      ValueBound(r.bid);
    }
  }

  /** Exactly the rows ahead of the cursor are left for it. */
  lemma {:induction false} RestIsAhead(db: seq<Row>, c: Cursor)
    requires Proper(c) && IdsInRange(db)
    ensures forall r :: r in Rest(db, c) <==> r in db && Ahead(c, r.size, Id(r))
    decreases c.limitSize - c.sizeHigh
  {
    if !Finished(c) {
      NextBinProper(c);
      RestIsAhead(db, NextBin(c));
      SelectMembers(db, QueryOf(c));
      RestStep(db, c);
      forall r | r in db
        ensures Ahead(c, r.size, Id(r)) <==> Matches(r, QueryOf(c)) || Ahead(NextBin(c), r.size, Id(r))
      {
        AheadStep(c, r.size, Id(r));
      }
      hide Rest, Select, Ahead, Id;
    }
  }

  /** Smaller bins first, and ids ascending in each bin. */
  ghost predicate Earlier(a: Row, b: Row)
  {
    BinOf(a.size) < BinOf(b.size) || (BinOf(a.size) == BinOf(b.size) && Id(a) < Id(b))
  }

  ghost predicate InOrder(rows: seq<Row>)
  {
    forall i, j :: 0 <= i < j < |rows| ==> Earlier(rows[i], rows[j])
  }

  lemma BinInOrder(db: seq<Row>, c: Cursor)
    requires Proper(c) && Ascending(db)
    ensures InOrder(Select(db, QueryOf(c)))
    ensures forall r :: r in Select(db, QueryOf(c)) ==> BinOf(r.size) == c.sizeHigh
  {
    var rows := Select(db, QueryOf(c));
    SelectAscends(db, QueryOf(c));
    SelectMembers(db, QueryOf(c));
    hide Select, Id;
    forall r | r in rows ensures BinOf(r.size) == c.sizeHigh {
      BinOfWithin(c.sizeHigh, r.size);
    }
    assert forall i :: 0 <= i < |rows| ==> rows[i] in rows;
  }

  lemma LaterBins(db: seq<Row>, c: Cursor)
    requires Proper(c) && IdsInRange(db) && !Finished(c)
    ensures forall r :: r in Rest(db, NextBin(c)) ==> BinOf(r.size) > c.sizeHigh
  {
    NextBinProper(c);
    RestIsAhead(db, NextBin(c));
    hide Rest;
    forall r | r in Rest(db, NextBin(c)) ensures BinOf(r.size) > c.sizeHigh {
      BinOfAbove(c.sizeHigh, r.size);
    }
  }

  /** And in order, so none of them twice. */
  lemma {:induction false} RestInOrder(db: seq<Row>, c: Cursor)
    requires Proper(c) && IdsInRange(db) && Ascending(db)
    ensures InOrder(Rest(db, c))
    decreases c.limitSize - c.sizeHigh
  {
    if !Finished(c) {
      NextBinProper(c);
      RestInOrder(db, NextBin(c));
      BinInOrder(db, c);
      LaterBins(db, c);
      RestStep(db, c);
      JoinOrdered(Select(db, QueryOf(c)), Rest(db, NextBin(c)), c.sizeHigh);
    }
  }

  lemma JoinOrdered(a: seq<Row>, b: seq<Row>, h: nat)
    requires InOrder(a) && InOrder(b)
    requires (forall r :: r in a ==> BinOf(r.size) == h) && (forall r :: r in b ==> BinOf(r.size) > h)
    ensures InOrder(a + b)
  {
  }

  // ----- fills and sweeps -----

  /** A fill ends beyond the last bin, or just behind the last id it took. */
  ghost predicate Ended(c: Cursor)
  {
    if Finished(c) then c.bidHigh == Last() else c.bidLow == c.bidHigh + 1 <= Last()
  }

  lemma TakingEnds(db: seq<Row>, c: Cursor, room: nat)
    requires NoneFull(db, c.limitSize) && Proper(c) && !Finished(c) && Batch(db, c, room) != []
    ensures var c1 := Landing(c, Batch(db, c, room)); Proper(c1) && Ended(c1) && c1.bidHigh < Last()
  {
    RowsAreReal(db, c, room);
    hide Batch, IsBin, Id;
  }

  ghost predicate Further(c: Cursor, c': Cursor)
  {
    c.sizeHigh <= c'.sizeHigh && c'.limitSize == c.limitSize && c'.limitBid == c.limitBid
  }

  lemma {:induction false} FillEnds(db: seq<Row>, c: Cursor, room: nat)
    requires NoneFull(db, c.limitSize) && Proper(c) && (room == 0 || Finished(c) ==> Ended(c))
    ensures var (c', out) := Fill(db, c, room);
            Proper(c') && Ended(c') && Further(c, c') && (out == [] ==> room == 0 || Finished(c'))
    decreases room, c.limitSize - c.sizeHigh
  {
    hide Fill, Batch, Last, IsBin, Id;
    FillStep(db, c, room);
    if room > 0 && !Finished(c) {
      var rows := Batch(db, c, room);
      if rows == [] {
        NextBinProper(c);
        assert Finished(NextBin(c)) ==> Ended(NextBin(c));
        FillEnds(db, NextBin(c), room);
      } else {
        TakingEnds(db, c, room);
        FillEnds(db, Landing(c, rows), room - |rows|);
      }
    }
  }

  /** Where a synchronisation is complete. */
  predicate Stopped(c: Cursor)
  {
    c.sizeHigh >= c.limitSize && c.bidLow >= c.limitBid
  }

  /** Each fill takes something, or reaches the end. */
  lemma FillProgress(db: seq<Row>, c: Cursor, room: nat)
    requires Ascending(db) && NoneFull(db, c.limitSize) && Proper(c) && room > 0 && !Stopped(c)
    ensures var (c', out) := Fill(db, c, room);
            && Proper(c') && Ended(c') && TookHead(db, c, room, c', out)
            && Further(c, c') && (Stopped(c') || out != [])
            && |Rest(db, c')| + |out| == |Rest(db, c)|
  {
    FillTakesHead(db, c, room);
    FillEnds(db, c, room);
    hide Fill, Rest;
  }

  datatype Turn = Turn(start: Cursor, end: Cursor, rows: seq<Row>)

  /** Fills until the cursor has stopped: bins left and bundles left only go down. */
  ghost function Sweep(db: seq<Row>, c: Cursor, room: nat): (turns: seq<Turn>)
    requires Ascending(db) && NoneFull(db, c.limitSize) && Proper(c) && room > 0
    decreases |Rest(db, c)|, if Stopped(c) then 0 else 1
  {
    if Stopped(c) then []
    else
      FillProgress(db, c, room);
      var (c', out) := Fill(db, c, room);
      [Turn(c, c', out)] + Sweep(db, c', room)
  }

  function Concat(turns: seq<Turn>): seq<Row>
  {
    if turns == [] then [] else turns[0].rows + Concat(turns[1..])
  }

  /** An unlimited cursor stops only when nothing is left. */
  lemma StoppedIsDone(db: seq<Row>, c: Cursor)
    requires Proper(c) && Stopped(c) && c.limitBid == Last() && NoneFull(db, c.limitSize)
    ensures Rest(db, c) == []
  {
    if !Finished(c) {
      SelectNone(db, QueryOf(c));
      RestStep(db, c);
      assert Finished(NextBin(c));
    }
  }

  lemma {:induction false} SweepTakesRest(db: seq<Row>, c: Cursor, room: nat)
    requires Ascending(db) && NoneFull(db, c.limitSize) && Proper(c) && room > 0 && c.limitBid == Last()
    ensures Concat(Sweep(db, c, room)) == Rest(db, c)
    decreases |Rest(db, c)|, if Stopped(c) then 0 else 1
  {
    if Stopped(c) {
      StoppedIsDone(db, c);
    } else {
      FillProgress(db, c, room);
      var (c', out) := Fill(db, c, room);
      SweepTakesRest(db, c', room);
      hide Fill, Rest, Proper;
      assert Sweep(db, c, room)[1..] == Sweep(db, c', room);
    }
  }

  // ----- a new cursor -----

  function Exp2(n: nat): (p: nat)
    ensures p > 0
  {
    if n == 0 then 1 else 2 * Exp2(n - 1)
  }

  const SIZE_LIMIT := Exp2(48)

  function NewCursor(): Cursor
  {
    Cursor(0, FIRST_BIN, 0, 0, SIZE_LIMIT, Last())
  }

  lemma {:induction false} PowersAreBins(n: nat)
    requires n >= 10
    ensures IsBin(Exp2(n))
  {
    if n == 10 {
      assert Exp2(3) == 8 && Exp2(6) == 64 && Exp2(9) == 512 && Exp2(10) == 1024;
    } else {
      PowersAreBins(n - 1);
    }
  }

  lemma NewCursorProper()
    ensures Proper(NewCursor())
  {
    PowersAreBins(48);
    BinAtLeast(SIZE_LIMIT);
  }

  /** A cursor over a fixed database, driven by fills of any size of at least one BAR,
      takes every bundle of at most 2^48 bytes exactly once, bin by bin and in order of
      id in each bin. */
  lemma SweepIsComplete(db: seq<Row>, room: nat)
    requires Listed(db) && NoneFull(db, SIZE_LIMIT) && room > 0
    ensures Ascending(db) && Proper(NewCursor())
    ensures var rows := Concat(Sweep(db, NewCursor(), room));
            && InOrder(rows)
            && (forall r :: r in rows <==> r in db && r.size <= SIZE_LIMIT)
  {
    var c := NewCursor();
    ListedAscends(db);
    NewCursorProper();
    SweepTakesRest(db, c, room);
    ListedInRange(db);
    RestIsAhead(db, c);
    RestInOrder(db, c);
    hide Rest, Sweep, InOrder;
    assert forall r :: r in db ==> (Ahead(c, r.size, Id(r)) <==> r.size <= SIZE_LIMIT);
  }

  // ----- pickled ranges -----

  const PICKLED_BYTES := 4

  /** What a pickled range holds of the start and the end of a fill: the logarithm of
      each size bin and the first bytes of each id. */
  datatype Range = Range(startLog: nat, startPrefix: nat, endLog: nat, endPrefix: nat)

  function Log2(v: nat): nat
  {
    if v > 1 then 1 + Log2(v / 2) else 0
  }

  function Scale(): (p: nat)
    ensures p > 0
  {
    Pow256(ID_BYTES - PICKLED_BYTES)
  }

  function Quotient(x: nat, p: nat): nat
    requires p > 0
  {
    x / p
  }

  function Pickle(start: Cursor, end: Cursor): Range
  {
    Range(Log2(start.sizeHigh), Quotient(start.bidLow, Scale()), Log2(end.sizeHigh), Quotient(end.bidHigh, Scale()))
  }

  /** The cursor that the far end makes of a range: missing bytes of the first id are
      zero, of the last one 0xff. */
  function Unpickle(g: Range): Cursor
  {
    var high := Exp2(g.startLog);
    Cursor(Low(high), high, g.startPrefix * Scale(), 0, Exp2(g.endLog), g.endPrefix * Scale() + Scale() - 1)
  }

  lemma {:induction false} LogOfBin(h: nat)
    requires IsBin(h)
    ensures Exp2(Log2(h)) == h
  {
    if h == FIRST_BIN {
      assert Log2(1024) == 10;
      assert Exp2(3) == 8 && Exp2(6) == 64 && Exp2(9) == 512 && Exp2(10) == 1024;
    } else {
      LogOfBin(h / 2);
    }
  }

  lemma Rounding(x: nat, p: nat)
    requires p > 0
    ensures Quotient(x, p) * p <= x <= Quotient(x, p) * p + p - 1
  {
  }

  lemma AllButOne(q: nat, p: nat)
    requires p >= 2 && q >= 1
    ensures q * p >= 2 && Quotient(q * p - 2, p) * p + p == q * p
  {
    assert q * p - 2 == (q - 1) * p + (p - 2);
    QuotientUnique(q - 1, p, p - 2);
    assert (q - 1) * p + p == q * p;
  }

  lemma QuotientUnique(n: nat, p: nat, r: nat)
    requires r < p
    ensures n * p + r >= 0 && Quotient(n * p + r, p) == n
  {
    var k := Quotient(n * p + r, p);
    Rounding(n * p + r, p);
    Digit(k, p - 1, n, 0, p);
    Digit(n, r, k, 0, p);
  }

  lemma Powers()
    ensures Pow256(ID_BYTES) == Pow256(PICKLED_BYTES) * Scale() && Scale() >= 2 && Pow256(PICKLED_BYTES) >= 1
  {
    hide Pow256;
    PowSum(PICKLED_BYTES, ID_BYTES - PICKLED_BYTES);
    MoreThanOne(ID_BYTES - PICKLED_BYTES);
  }

  lemma MoreThanOne(n: nat)
    requires n > 0
    ensures Pow256(n) >= 256
  {
  }

  lemma LastIsFull()
    ensures Last() >= 1 && Quotient(Last() - 1, Scale()) * Scale() + Scale() - 1 == Last()
  {
    hide Quotient, Pow256, Scale;
    Powers();
    AllButOne(Pow256(PICKLED_BYTES), Scale());
  }

  lemma UnpickledBounds(c: Cursor, c': Cursor)
    requires Proper(c) && Proper(c')
    ensures var u := Unpickle(Pickle(c, c'));
            && u.sizeHigh == c.sizeHigh && u.sizeLow == c.sizeLow && u.limitSize == c'.sizeHigh
            && u.bidLow <= c.bidLow && c'.bidHigh <= u.limitBid
  {
    LogOfBin(c.sizeHigh);
    LogOfBin(c'.sizeHigh);
    Rounding(c.bidLow, Scale());
    Rounding(c'.bidHigh, Scale());
  }

  /** The ids are widened by less than the 28 bytes that are cut off. */
  lemma UnpickledTight(c: Cursor, c': Cursor)
    ensures var u := Unpickle(Pickle(c, c')); c.bidLow < u.bidLow + Pow256(28) && u.limitBid < c'.bidHigh + Pow256(28)
  {
    hide Pow256, Quotient, Exp2, Log2, Low;
    Rounding(c.bidLow, Scale());
    Rounding(c'.bidHigh, Scale());
  }

  /** The range of a fill, as the far end unpickles it, contains everything that was
      ahead of the fill and is not still ahead of a cursor that goes on. */
  lemma RangeContainsFill(c: Cursor, c': Cursor, size: nat, bid: nat)
    requires Proper(c) && Proper(c') && Ended(c') && Further(c, c') && !Finished(c) && c.limitBid == Last()
    requires Ahead(c, size, bid) && bid <= Last()
    ensures Ahead(Unpickle(Pickle(c, c')), size, bid) || (Ahead(c', size, bid) && !Stopped(c'))
  {
    UnpickledBounds(c, c');
    if Stopped(c') && !Finished(c') {
      LastIsFull();
    }
    hide Unpickle, Pickle, IsBin;
  }

  /** Over a whole sweep the ranges leave no gap. */
  lemma {:induction false} RangesLeaveNoGap(db: seq<Row>, c: Cursor, room: nat, size: nat, bid: nat)
    requires Ascending(db) && NoneFull(db, c.limitSize) && Proper(c) && room > 0 && c.limitBid == Last() && !Stopped(c)
    requires Ahead(c, size, bid) && bid <= Last()
    ensures exists t :: t in Sweep(db, c, room) && Ahead(Unpickle(Pickle(t.start, t.end)), size, bid)
    decreases |Rest(db, c)|
  {
    FillProgress(db, c, room);
    var (c', out) := Fill(db, c, room);
    RangeContainsFill(c, c', size, bid);
    var turns := Sweep(db, c, room);
    assert turns[0] == Turn(c, c', out) && turns[1..] == Sweep(db, c', room);
    hide Fill, Rest, Sweep, Unpickle, Pickle, Ahead;
    if Ahead(Unpickle(Pickle(c, c')), size, bid) {
      assert turns[0] in turns;
    } else {
      RangesLeaveNoGap(db, c', room, size, bid);
      var t :| t in Sweep(db, c', room) && Ahead(Unpickle(Pickle(t.start, t.end)), size, bid);
      assert t in turns;
    }
  }

  // ----- where a sweep does not get on -----

  /** A buffer without room for a BAR leaves the cursor where it is. */
  lemma NoRoomNoProgress(db: seq<Row>, c: Cursor)
    requires c.sizeHigh > 0
    ensures Fill(db, c, 0) == (c, [])
  {
  }

  /** Where the cursor is after up to `n` fills; a synchronisation that has stopped does
      not go on. */
  function After(db: seq<Row>, c: Cursor, room: nat, n: nat): Cursor
    requires c.sizeHigh > 0
    decreases n
  {
    if n == 0 || Stopped(c) then c else After(db, Fill(db, c, room).0, room, n - 1)
  }

  lemma {:induction false} SweepStops(db: seq<Row>, c: Cursor, room: nat)
    requires Ascending(db) && NoneFull(db, c.limitSize) && Proper(c) && room > 0
    ensures Stopped(After(db, c, room, |Sweep(db, c, room)|))
    decreases |Rest(db, c)|, if Stopped(c) then 0 else 1
  {
    if !Stopped(c) {
      FillProgress(db, c, room);
      SweepStops(db, Fill(db, c, room).0, room);
      hide Fill, Rest, Proper;
    }
  }

  /** The cursor has not got past a bundle with the last of all ids, and no limit but
      that of all sizes bounds it. */
  ghost predicate Waits(c: Cursor, r: Row)
  {
    && Proper(c) && c.limitBid == Last() && r.size <= c.limitSize && Id(r) == Last()
    && c.sizeLow <= r.size && c.bidLow < Last()
  }

  /** There is no id just below the last one to stop at. */
  ghost predicate NoNeighbour(db: seq<Row>)
  {
    forall r :: r in db ==> Id(r) + 1 != Last()
  }

  lemma WaitsForBin(db: seq<Row>, c: Cursor, room: nat, r: Row)
    requires Waits(c, r) && r in db && room > 0 && Batch(db, c, room) == []
    ensures !Finished(c) && !Finished(NextBin(c)) && Waits(NextBin(c), r)
  {
    SelectMembers(db, QueryOf(c));
    BatchIsHead(db, c, room);
    hide Batch, Select, Id;
    assert !Matches(r, QueryOf(c));
    NextBinProper(c);
  }

  lemma WaitsBehind(db: seq<Row>, c: Cursor, room: nat, r: Row)
    requires Waits(c, r) && NoNeighbour(db) && IdsInRange(db) && !Finished(c) && Batch(db, c, room) != []
    ensures Waits(Landing(c, Batch(db, c, room)), r)
  {
    var rows := Batch(db, c, room);
    SelectMembers(db, QueryOf(c));
    BatchIsHead(db, c, room);
    hide Batch, Select, Id, IsBin;
    assert rows[|rows| - 1] in Select(db, QueryOf(c));
    assert Id(rows[|rows| - 1]) + 1 != Last();
  }

  /** A fill does not get the cursor past such a bundle: where it takes it, the id wraps
      around to the start of the bin. */
  lemma {:induction false} FillWaits(db: seq<Row>, c: Cursor, room: nat, r: Row)
    requires Waits(c, r) && r in db && NoNeighbour(db) && IdsInRange(db)
    ensures Waits(Fill(db, c, room).0, r)
    decreases room, c.limitSize - c.sizeHigh
  {
    hide Fill, Batch, Last, Id, IsBin, Landing, NextBin;
    FillStep(db, c, room);
    if room > 0 && !Finished(c) {
      var rows := Batch(db, c, room);
      if rows == [] {
        WaitsForBin(db, c, room, r);
        Doubling(c);
        FillWaits(db, NextBin(c), room, r);
      } else {
        WaitsBehind(db, c, room, r);
        LandingStays(c, rows);
        if Landing(c, rows).bidHigh != Last() {
          FillWaits(db, Landing(c, rows), room - |rows|, r);
        }
      }
    }
  }

  lemma Doubling(c: Cursor)
    ensures NextBin(c).sizeHigh == 2 * c.sizeHigh && NextBin(c).limitSize == c.limitSize
  {
  }

  lemma {:induction false} NeverStops(db: seq<Row>, c: Cursor, room: nat, r: Row, n: nat)
    requires Waits(c, r) && r in db && NoNeighbour(db) && IdsInRange(db)
    ensures !Stopped(After(db, c, room, n))
    decreases n
  {
    hide Fill, IsBin, Last, Id, Low;
    if n > 0 {
      FillWaits(db, c, room, r);
      NeverStops(db, Fill(db, c, room).0, room, r, n - 1);
    }
  }

  lemma {:induction false} NeverMoves(db: seq<Row>, c: Cursor, n: nat)
    requires c.sizeHigh > 0
    ensures After(db, c, 0, n) == c
  {
    if n > 0 && !Stopped(c) {
      NoRoomNoProgress(db, c);
      hide Fill;
      NeverMoves(db, c, n - 1);
    }
  }

  /** Ids that differ in their first bytes are not next to each other. */
  lemma FullIsAlone(db: seq<Row>, r: Row)
    requires Listed(db) && r in db && Id(r) == Last()
    ensures NoNeighbour(db)
  {
    var k :| 0 <= k < |db| && db[k] == r;
    forall x | x in db ensures Id(x) + 1 != Last() {
      var i :| 0 <= i < |db| && db[i] == x;
      if i != k {
        FarFromLast(r.bid, x.bid);
      }
    }
  }

  lemma FarFromLast(full: seq<byte>, bid: seq<byte>)
    requires |full| == |bid| == ID_BYTES && Value(full) == Last() && full[..PREFIX_BYTES] != bid[..PREFIX_BYTES]
    ensures Value(bid) + 1 != Last()
  {
    hide Value, Pow256;
    var m, s := Pow256(PREFIX_BYTES), Pow256(ID_BYTES - PREFIX_BYTES);
    var f, f', b, b' := full[..PREFIX_BYTES], full[PREFIX_BYTES..], bid[..PREFIX_BYTES], bid[PREFIX_BYTES..];
    assert full == f + f' && bid == b + b';
    PowSum(PREFIX_BYTES, ID_BYTES - PREFIX_BYTES);
    MoreThanOne(ID_BYTES - PREFIX_BYTES);
    ValueConcat(f, f');
    ValueConcat(b, b');
    ValueBound(f);
    ValueBound(f');
    ValueBound(b);
    ValueBound(b');
    if Value(f) == Value(b) {
      ValueInjective(f, b);
    }
    TopDigits(Value(f), Value(f'), m, s);
    Digit(Value(b), Value(b'), Value(f), 0, s);
  }

  lemma TopDigits(f: nat, f': nat, m: nat, s: nat)
    requires f < m && f' < s && f * s + f' == m * s - 1
    ensures f == m - 1 && f' == s - 1
  {
    Digit(f, f', m - 1, 0, s);
    assert (m - 1) * s + s == m * s;
  }

  /** A synchronisation ends if and only if its buffer has room for a BAR and no bundle
      within the limit of sizes has an id of 0xff throughout. */
  lemma SweepStopsIff(db: seq<Row>, room: nat)
    requires Listed(db)
    ensures (exists n :: Stopped(After(db, NewCursor(), room, n))) <==> room > 0 && NoneFull(db, SIZE_LIMIT)
  {
    var c := NewCursor();
    ListedAscends(db);
    NewCursorProper();
    ListedInRange(db);
    if room == 0 {
      forall n: nat ensures !Stopped(After(db, c, room, n)) {
        NeverMoves(db, c, n);
      }
    } else if NoneFull(db, SIZE_LIMIT) {
      SweepStops(db, c, room);
    } else {
      var r :| r in db && r.size <= SIZE_LIMIT && Id(r) >= Last();
      FullIsAlone(db, r);
      assert Waits(c, r);
      forall n: nat ensures !Stopped(After(db, c, room, n)) {
        NeverStops(db, c, room, r, n);
      }
    }
  }

  lemma {:induction false} LogBound(h: nat, n: nat)
    requires h <= Exp2(n)
    ensures Log2(h) <= n
  {
    if h > 1 {
      LogBound(h / 2, n - 1);
    }
  }

  /** The logarithms of an unlimited cursor fit their bytes. */
  lemma LogsFit(c: Cursor)
    requires Proper(c) && c.limitSize == SIZE_LIMIT
    ensures Log2(c.sizeHigh) <= 49
  {
    assert c.sizeHigh <= 2 * SIZE_LIMIT == Exp2(49);
    hide IsBin, Last;
    LogBound(c.sizeHigh, 49);
  }

  // ----- sizes as 64-bit numbers -----

  const LONG_LONG := 0x7fff_ffff_ffff_ffff

  lemma {:induction false} Exp2Grows(m: nat, n: nat)
    requires m <= n
    ensures Exp2(m) <= Exp2(n) && (m < n ==> 2 * Exp2(m) <= Exp2(n))
    decreases n - m
  {
    if m < n {
      Exp2Grows(m + 1, n);
    }
  }

  lemma Exp2Order(m: nat, n: nat)
    ensures Exp2(m) <= Exp2(n) <==> m <= n
  {
    hide Exp2;
    if m <= n {
      Exp2Grows(m, n);
    } else {
      Exp2Grows(n, m);
    }
  }

  lemma Exp2Of48()
    ensures SIZE_LIMIT == Exp2(48) == 0x1_0000_0000_0000
  {
    assert Exp2(12) == 0x1000;
    assert Exp2(24) == 0x100_0000;
    assert Exp2(36) == 0x10_0000_0000;
  }

  lemma Exp2Of63()
    ensures Exp2(62) <= LONG_LONG && Exp2(63) == LONG_LONG + 1
  {
    assert Exp2(8) == 256;
    assert Exp2(16) == 65536;
    assert Exp2(24) == 0x100_0000;
    assert Exp2(32) == 0x1_0000_0000;
    assert Exp2(40) == 0x100_0000_0000;
    assert Exp2(48) == 0x1_0000_0000_0000;
    assert Exp2(56) == 0x100_0000_0000_0000;
    assert Exp2(62) == 0x4000_0000_0000_0000;
  }

  /** Sizes only grow during a fill, by doubling, and not beyond twice the limit: the last one
      is the largest. */
  lemma {:induction false} FillDoubles(db: seq<Row>, c: Cursor, room: nat, i: nat, j: nat) returns (m: nat)
    requires c.sizeHigh == Exp2(i) && c.limitSize == Exp2(j)
    ensures var c' := Fill(db, c, room).0;
            c'.sizeHigh == Exp2(m) && c'.limitSize == c.limitSize && i <= m && (m == i || m <= j + 1)
    decreases room, c.limitSize - c.sizeHigh
  {
    hide Fill, Batch, Last, Id, Exp2;
    FillStep(db, c, room);
    m := i;
    if room > 0 && !Finished(c) {
      var rows := Batch(db, c, room);
      if rows == [] {
        Exp2Order(i, j);
        OneMore(i);
        m := FillDoubles(db, NextBin(c), room, i + 1, j);
      } else if Landing(c, rows).bidHigh != Last() {
        LandingStays(c, rows);
        m := FillDoubles(db, Landing(c, rows), room - |rows|, i, j);
      }
    }
  }

  lemma OneMore(i: nat)
    ensures Exp2(i + 1) == 2 * Exp2(i)
  {
  }

  /** For a range that begins and ends with at most 2^62, as its bytes have to for the shifts
      to be defined, the sizes of a fill stay 64-bit numbers unless the range ends with 2^62
      and the fill gets to its end. */
  lemma SizesFitIff(db: seq<Row>, g: Range, room: nat)
    requires g.startLog <= 62 && g.endLog <= 62
    ensures var c' := Fill(db, Unpickle(g), room).0;
            c'.sizeHigh <= LONG_LONG <==> !(g.endLog == 62 && Finished(c'))
  {
    var c := Unpickle(g);
    var m := FillDoubles(db, c, room, g.startLog, g.endLog);
    hide Fill, Exp2;
    Exp2Of63();
    Exp2Order(m, 62);
    Exp2Order(m, g.endLog);
    Exp2Order(63, m);
  }

  /** A fill gets to the end of its range if and only if there is room left. */
  lemma FillFinishesIff(db: seq<Row>, c: Cursor, room: nat)
    requires Ascending(db) && NoneFull(db, c.limitSize) && c.sizeHigh > 0 && !Finished(c)
    ensures Finished(Fill(db, c, room).0) <==> |Rest(db, c)| < room
    decreases room, c.limitSize - c.sizeHigh
  {
    hide Fill, Batch, Rest, Last, Id;
    FillStep(db, c, room);
    if room > 0 {
      var rows := Batch(db, c, room);
      if rows == [] {
        RestMoved(db, c, room);
        if !Finished(NextBin(c)) {
          FillFinishesIff(db, NextBin(c), room);
        } else {
          FillStep(db, NextBin(c), room);
          NothingBeyond(db, NextBin(c));
        }
      } else {
        RowsAreReal(db, c, room);
        RestTaken(db, c, room);
        LandingStays(c, rows);
        FillFinishesIff(db, Landing(c, rows), room - |rows|);
      }
    }
  }

  lemma NothingBeyond(db: seq<Row>, c: Cursor)
    requires c.sizeHigh > 0 && Finished(c)
    ensures Rest(db, c) == []
  {
  }

  /** So a range that ends with 2^62 is too much for everyone who has room left for it. */
  lemma LastShiftOverflowsIff(db: seq<Row>, g: Range, room: nat)
    requires Ascending(db) && NoneFull(db, Exp2(62)) && g.startLog <= 62 && g.endLog == 62
    ensures Fill(db, Unpickle(g), room).0.sizeHigh > LONG_LONG <==> |Rest(db, Unpickle(g))| < room
  {
    SizesFitIff(db, g, room);
    Exp2Order(g.startLog, 62);
    hide Fill, Rest, Exp2;
    FillFinishesIff(db, Unpickle(g), room);
  }

  /** The range bytes with which no fill leaves the 64-bit numbers, whatever is stored. */
  predicate Moderate(g: Range)
  {
    g.startLog <= 62 && g.endLog <= 61
  }
}
