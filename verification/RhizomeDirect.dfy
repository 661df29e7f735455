/** The Rhizome Direct bundle cursor of rhizome_direct.c, with its buffer, and the reply
    to the far end's list. */
module RhizomeDirect {
  import opened Bytes
  import opened BigEndian
  import opened SyncCursor
  import opened SyncSweep
  import opened SyncMerge

  const OFFSET_BYTES := 10

  ghost predicate AllRows(db: seq<Row>)
  {
    forall r :: r in db ==> ValidRow(r)
  }

  lemma IdOrder(r: Row, bid: seq<byte>)
    requires |r.bid| == |bid|
    ensures Compare(r.bid, bid) >= 0 <==> Id(r) >= Value(bid)
    ensures Compare(r.bid, bid) <= 0 <==> Id(r) <= Value(bid)
  {
    CompareIsOrder(r.bid, bid);
  }

  /** Up to `requested` rows of the database in a size range and an id range. */
  method GetBars(db: seq<Row>, sizeLow: nat, sizeHigh: nat, bidLow: seq<byte>, bidMax: seq<byte>, requested: nat)
    returns (rows: seq<Row>)
    requires AllRows(db) && |bidLow| == |bidMax| == ID_BYTES
    ensures var found := Select(db, Query(sizeLow, sizeHigh, Value(bidLow), Value(bidMax)));
            rows == found[..Fewer(|found|, requested)]
  {
    hide Select, Value, Compare;
    ghost var q := Query(sizeLow, sizeHigh, Value(bidLow), Value(bidMax));
    rows := [];
    var i := 0;
    assert db[0..] == db && [] + Select(db, q) == Select(db, q);
    while i < |db| && |rows| < requested
      invariant 0 <= i <= |db| && |rows| <= requested
      invariant Select(db, q) == rows + Select(db[i..], q)
    {
      var r := db[i];
      assert ValidRow(r);
      SelectNext(db, i, q, rows);
      IdOrder(r, bidLow);
      IdOrder(r, bidMax);
      if sizeLow <= r.size <= sizeHigh && Compare(r.bid, bidLow) >= 0 && Compare(r.bid, bidMax) <= 0 {
        rows := rows + [r];
      }
      i := i + 1;
    }
    NothingLeft(db[i..], q);
    Taken(Select(db, q), rows, Select(db[i..], q), requested);
  }

  lemma SelectNext(db: seq<Row>, i: nat, q: Query, rows: seq<Row>)
    requires i < |db|
    ensures rows + Select(db[i..], q) ==
            (if Matches(db[i], q) then rows + [db[i]] else rows) + Select(db[i + 1..], q)
  {
  }

  lemma Taken(found: seq<Row>, rows: seq<Row>, rest: seq<Row>, requested: nat)
    requires found == rows + rest && |rows| <= requested && (|rows| == requested || rest == [])
    ensures rows == found[..Fewer(|found|, requested)]
  {
  }

  lemma NothingLeft(db: seq<Row>, q: Query)
    ensures db == [] ==> Select(db, q) == []
  {
  }

  /** The BARs of some rows, one after the other. */
  function BarBytes(rows: seq<Row>): seq<byte>
  {
    if rows == [] then [] else rows[0].bar + BarBytes(rows[1..])
  }

  lemma {:induction false} BarBytesJoin(a: seq<Row>, b: seq<Row>)
    ensures BarBytes(a + b) == BarBytes(a) + BarBytes(b)
  {
    if a == [] {
      assert a + b == b;
    } else {
      assert (a + b)[1..] == a[1..] + b;
      BarBytesJoin(a[1..], b);
    }
  }

  lemma {:induction false} BarBytesLength(rows: seq<Row>)
    requires AllRows(rows)
    ensures |BarBytes(rows)| == BAR_BYTES * |rows|
  {
    if rows != [] {
      assert rows[0] in rows;
      BarBytesLength(rows[1..]);
    }
  }

  /** A fill that has taken `out` so far, and goes on from `c`. */
  ghost predicate OnTrack(db: seq<Row>, c0: Cursor, room: nat, c: Cursor, out: seq<Row>)
    requires c0.sizeHigh > 0
  {
    && c.sizeHigh > 0 && |out| <= room
    && Fill(db, c0, room) == (Fill(db, c, room - |out|).0, out + Fill(db, c, room - |out|).1)
  }

  /** One query of the loop. */
  lemma TrackGoesOn(db: seq<Row>, c0: Cursor, room: nat, c: Cursor, out: seq<Row>)
    requires c0.sizeHigh > 0 && OnTrack(db, c0, room, c, out) && |out| < room && !Finished(c)
    ensures var rows := Batch(db, c, room - |out|);
            if rows == [] then OnTrack(db, c0, room, NextBin(c), out + rows)
            else if Landing(c, rows).bidHigh == Last() then Fill(db, c0, room) == (Landing(c, rows), out + rows)
            else OnTrack(db, c0, room, Landing(c, rows), out + rows)
  {
    hide Fill, Batch, Landing, Last;
    var rows := Batch(db, c, room - |out|);
    FillStep(db, c, room - |out|);
    if rows != [] {
      LandingStays(c, rows);
    }
    assert out + [] == out;
    if rows != [] {
      var more := Fill(db, Landing(c, rows), room - |out| - |rows|).1;
      assert out + (rows + more) == (out + rows) + more;
    }
  }

  lemma TrackEnds(db: seq<Row>, c0: Cursor, room: nat, c: Cursor, out: seq<Row>)
    requires c0.sizeHigh > 0 && OnTrack(db, c0, room, c, out) && (|out| == room || Finished(c))
    ensures Fill(db, c0, room) == (c, out)
  {
    FillStep(db, c, room - |out|);
    hide Fill;
    assert out + [] == out;
  }

  // ----- pickled ranges -----

  /** The range that ten bytes stand for. */
  function RangeOf(p: seq<byte>): Range
    requires |p| == OFFSET_BYTES
  {
    Range(p[0], Value(p[1..5]), p[5], Value(p[6..10]))
  }

  lemma PrefixIsQuotient(bid: seq<byte>)
    requires |bid| == ID_BYTES
    ensures Value(bid[..PICKLED_BYTES]) == Quotient(Value(bid), Scale())
  {
    hide Quotient, Pow256, Value;
    var a, b := bid[..PICKLED_BYTES], bid[PICKLED_BYTES..];
    assert bid == a + b;
    ValueConcat(a, b);
    ValueBound(b);
    QuotientUnique(Value(a), Scale(), Value(b));
  }

  /** Shift down until nothing but the top bit is left. */
  method LogOf(size: nat) returns (l: nat)
    ensures l == Log2(size)
  {
    var v := size;
    l := 0;
    while v > 1
      invariant l + Log2(v) == Log2(size)
      decreases v
    {
      l := l + 1;
      v := v / 2;
    }
  }

  method PickleRange(startSizeHigh: nat, startBidLow: seq<byte>, sizeHigh: nat, bidHigh: seq<byte>) returns (p: seq<byte>)
    requires |startBidLow| == |bidHigh| == ID_BYTES
    ensures |p| == 10 && p[0] == Log2(startSizeHigh) % 0x100 && p[1..5] == startBidLow[..4]
    ensures p[5] == Log2(sizeHigh) % 0x100 && p[6..10] == bidHigh[..4]
    ensures RangeOf(p) == Range(Log2(startSizeHigh) % 0x100, Quotient(Value(startBidLow), Scale()),
                                Log2(sizeHigh) % 0x100, Quotient(Value(bidHigh), Scale()))
  {
    hide Value, Quotient, Scale, Log2;
    var first := LogOf(startSizeHigh);
    var last := LogOf(sizeHigh);
    p := [first % 0x100] + startBidLow[..PICKLED_BYTES] + [last % 0x100] + bidHigh[..PICKLED_BYTES];
    PrefixIsQuotient(startBidLow);
    PrefixIsQuotient(bidHigh);
    assert p[1..5] == startBidLow[..PICKLED_BYTES] && p[6..10] == bidHigh[..PICKLED_BYTES];
  }

  lemma PaddedValues(prefix: seq<byte>)
    requires |prefix| == PICKLED_BYTES
    ensures Value(prefix + Filled(0, ID_BYTES - PICKLED_BYTES)) == Value(prefix) * Scale()
    ensures Value(prefix + Filled(0xff, ID_BYTES - PICKLED_BYTES)) == Value(prefix) * Scale() + Scale() - 1
  {
    hide Value, Pow256, Filled;
    ValueFilled(ID_BYTES - PICKLED_BYTES);
    ValueConcat(prefix, Filled(0, ID_BYTES - PICKLED_BYTES));
    ValueConcat(prefix, Filled(0xff, ID_BYTES - PICKLED_BYTES));
  }

  /** Sizes of up to 1024 bytes are one bin. */
  lemma FirstBins(n: nat)
    ensures Exp2(n) <= 1024 <==> n <= 10
    ensures n > 0 ==> Exp2(n) / 2 == Exp2(n - 1)
  {
    assert Exp2(3) == 8 && Exp2(6) == 64 && Exp2(9) == 512 && Exp2(10) == 1024 && Exp2(11) == 2048;
    hide Exp2;
    if n > 10 {
      Exp2Order(11, n);
    } else {
      Exp2Order(n, 10);
    }
  }

  class BundleCursor {
    var startSizeHigh: nat
    var startBidLow: seq<byte>
    var limitSizeHigh: nat
    var limitBidHigh: seq<byte>
    var sizeLow: nat
    var sizeHigh: nat
    var bidLow: seq<byte>
    var bidHigh: seq<byte>
    const buffer: array<byte>
    var bufferUsed: nat

    ghost predicate Valid()
      reads this
    {
      && |startBidLow| == |limitBidHigh| == |bidLow| == |bidHigh| == ID_BYTES
      && sizeHigh > 0 && OFFSET_BYTES + bufferUsed <= buffer.Length
    }

    /** The position of the cursor. */
    ghost function View(): Cursor
      reads this
    {
      Cursor(sizeLow, sizeHigh, Value(bidLow), Value(bidHigh), limitSizeHigh, Value(limitBidHigh))
    }

    /** The used part of the buffer. */
    ghost function Written(): seq<byte>
      requires Valid()
      reads this, buffer
    {
      buffer[..OFFSET_BYTES + bufferUsed]
    }

    constructor (bufferSize: nat)
      requires bufferSize >= OFFSET_BYTES
      ensures Valid() && View() == NewCursor() && buffer.Length == bufferSize && bufferUsed == 0 && fresh(buffer)
      ensures sizeLow == 0 && sizeHigh == 1024 && limitSizeHigh == 0x1_0000_0000_0000
      ensures forall i :: 0 <= i < 32 ==> bidLow[i] == 0x00 && limitBidHigh[i] == 0xff
    {
      buffer := new byte[bufferSize](_ => 0);
      startSizeHigh, bufferUsed := 0, 0;
      sizeLow, sizeHigh, limitSizeHigh := 0, FIRST_BIN, Exp2(48);
      startBidLow, bidLow, bidHigh, limitBidHigh :=
        Filled(0, ID_BYTES), Filled(0, ID_BYTES), Filled(0, ID_BYTES), Filled(0xff, ID_BYTES);
      new;
      hide Value, Last, Exp2;
      Exp2Of48();
      FilledIds();
    }

    /** No more matches in this size bin, so move up a size bin. */
    method MoveUp()
      requires Valid()
      modifies this`sizeLow, this`sizeHigh, this`bidLow, this`bidHigh
      ensures Valid() && View() == NextBin(old(View()))
      ensures sizeHigh == 2 * old(sizeHigh) && sizeLow == if sizeHigh <= 1024 then 0 else old(sizeHigh) + 1
      ensures forall i :: 0 <= i < 32 ==> bidHigh[i] == 0xff && bidLow[i] == if sizeHigh > limitSizeHigh then 0xff else 0x00
    {
      hide Value, Last;
      FilledIds();
      sizeLow := sizeHigh + 1;
      sizeHigh := sizeHigh * 2;
      if sizeHigh <= FIRST_BIN {
        sizeLow := 0;
      }
      bidHigh := Filled(0xff, ID_BYTES);
      if sizeHigh > limitSizeHigh {
        bidLow := Filled(0xff, ID_BYTES);
      } else {
        bidLow := Filled(0x00, ID_BYTES);
      }
    }

    /** Continue from the id behind the last one taken. */
    method StepBehind() returns (wrapped: bool)
      requires Valid()
      modifies this`bidLow
      ensures Valid() && View() == Behind(old(View()), old(View().bidHigh))
      ensures wrapped <==> View().bidHigh == Last()
    {
      ValueBound(bidHigh);
      SuccAddsOne(bidHigh);
      hide Value, Succ, Full, Pow256;
      bidLow, wrapped := Increment(bidHigh);
    }

    /** Copy one BAR into the buffer. */
    method PutBar(bar: seq<byte>, at: nat)
      requires at + |bar| <= buffer.Length
      modifies buffer
      ensures buffer[..at + |bar|] == old(buffer[..at]) + bar
    {
      for i := 0 to |bar|
        invariant forall j :: 0 <= j < at ==> buffer[j] == old(buffer[j])
        invariant forall j :: 0 <= j < i ==> buffer[at + j] == bar[j]
      {
        buffer[at + i] := bar[i];
      }
    }

    method PutBars(rows: seq<Row>, at: nat)
      requires AllRows(rows) && at + BAR_BYTES * |rows| <= buffer.Length
      modifies buffer
      ensures buffer[..at + BAR_BYTES * |rows|] == old(buffer[..at]) + BarBytes(rows)
    {
      hide BarBytes;
      EmptyBars(rows);
      for i := 0 to |rows|
        invariant buffer[..at + BAR_BYTES * i] == old(buffer[..at]) + BarBytes(rows[..i])
      {
        assert ValidRow(rows[i]);
        BarBytesStep(rows, i);
        PutBar(rows[i].bar, at + BAR_BYTES * i);
      }
      assert rows[..|rows|] == rows;
    }

    lemma EmptyBars(rows: seq<Row>)
      ensures BarBytes(rows[..0]) == []
    {
    }

    lemma BarBytesStep(rows: seq<Row>, i: nat)
      requires i < |rows|
      ensures BarBytes(rows[..i + 1]) == BarBytes(rows[..i]) + rows[i].bar
    {
      assert rows[..i + 1] == rows[..i] + [rows[i]];
      BarBytesJoin(rows[..i], [rows[i]]);
      assert BarBytes([rows[i]]) == rows[i].bar + BarBytes([]);
    }

    /** The highest id that the limit of the cursor allows in this bin. */
    method HighestId() returns (bidMax: seq<byte>)
      requires Valid()
      ensures |bidMax| == ID_BYTES && Value(bidMax) == BidMax(View())
    {
      hide Value, Filled, Last;
      FilledIds();
      bidMax := if sizeHigh == limitSizeHigh then limitBidHigh else Filled(0xff, ID_BYTES);
    }

    /** Read BARs into the buffer, and note how far they go. */
    method TakeBars(db: seq<Row>, stuffable: nat) returns (rows: seq<Row>)
      requires Valid() && AllRows(db)
      requires OFFSET_BYTES + bufferUsed + BAR_BYTES * stuffable <= buffer.Length
      modifies this`bufferUsed, this`bidHigh, buffer
      ensures Valid() && rows == Batch(db, old(View()), stuffable)
      ensures bufferUsed == old(bufferUsed) + BAR_BYTES * |rows|
      ensures Written() == old(Written()) + BarBytes(rows)
      ensures View() == if rows == [] then old(View()) else old(View()).(bidHigh := Id(rows[|rows| - 1]))
    {
      hide Value, BarBytes, Select;
      var bidMax := HighestId();
      rows := GetBars(db, sizeLow, sizeHigh, bidLow, bidMax, stuffable);
      TakenRows(db, View(), stuffable, rows);
      PutBars(rows, OFFSET_BYTES + bufferUsed);
      bufferUsed := bufferUsed + BAR_BYTES * |rows|;
      if rows != [] {
        bidHigh := rows[|rows| - 1].bid;
      }
    }

    lemma TakenRows(db: seq<Row>, c: Cursor, stuffable: nat, rows: seq<Row>)
      requires AllRows(db) && rows == Batch(db, c, stuffable)
      ensures AllRows(rows) && (rows != [] ==> |rows[|rows| - 1].bid| == ID_BYTES)
    {
      SelectMembers(db, QueryOf(c));
      hide Select;
      assert rows != [] ==> rows[|rows| - 1] in rows;
    }

    /** One turn of the loop of a fill: read, and move on. */
    method FillTurn(db: seq<Row>, stuffable: nat) returns (rows: seq<Row>, wrapped: bool)
      requires Valid() && AllRows(db)
      requires OFFSET_BYTES + bufferUsed + BAR_BYTES * stuffable <= buffer.Length
      modifies this`bufferUsed, this`sizeLow, this`sizeHigh, this`bidLow, this`bidHigh, buffer
      ensures Valid() && rows == Batch(db, old(View()), stuffable)
      ensures bufferUsed == old(bufferUsed) + BAR_BYTES * |rows|
      ensures Written() == old(Written()) + BarBytes(rows)
      ensures View() == if rows == [] then NextBin(old(View())) else Landing(old(View()), rows)
      ensures wrapped <==> rows != [] && View().bidHigh == Last()
    {
      hide Value, Batch, BarBytes, Last, Id;
      rows := TakeBars(db, stuffable);
      wrapped := false;
      if rows == [] {
        MoveUp();
      } else {
        wrapped := StepBehind();
      }
    }

    /** How many BARs the buffer takes. */
    function Room(): nat
      requires buffer.Length >= OFFSET_BYTES
    {
      (buffer.Length - OFFSET_BYTES) / BAR_BYTES
    }

    /** The loop of a fill.  Sizes only grow in it, so that the last one is the largest. */
    method FillLoop(db: seq<Row>) returns (stuffed: nat, ghost out: seq<Row>)
      requires Valid() && AllRows(db) && bufferUsed == 0
      modifies this`bufferUsed, this`sizeLow, this`sizeHigh, this`bidLow, this`bidHigh, buffer
      ensures old(sizeHigh) <= sizeHigh
      ensures old(sizeHigh) <= Exp2(62) && limitSizeHigh <= Exp2(61) ==> sizeHigh <= LONG_LONG
      ensures Valid() && stuffed == |out| && bufferUsed == 32 * |out|
      ensures (View(), out) == Fill(db, old(View()), Room())
      ensures Written() == old(Written()) + BarBytes(out)
    {
      hide Fill, Batch, BarBytes, OnTrack, Landing, NextBin, Last, Written, Value, Exp2;
      var maxBars := Room();
      stuffed, out := 0, [];
      var wrapped := false;
      StartTrack(db, View(), maxBars);
      while stuffed < maxBars && sizeHigh <= limitSizeHigh
        invariant Valid() && stuffed == |out| <= maxBars && bufferUsed == BAR_BYTES * stuffed && !wrapped
        invariant old(sizeHigh) <= sizeHigh && (sizeHigh == old(sizeHigh) || sizeHigh <= 2 * limitSizeHigh)
        invariant OnTrack(db, old(View()), maxBars, View(), out)
        invariant Written() == old(Written()) + BarBytes(out)
        decreases maxBars - stuffed, limitSizeHigh - sizeHigh
      {
        Doubles(View());
        Lands(View());
        TrackGoesOn(db, old(View()), maxBars, View(), out);
        var stuffable := (buffer.Length - bufferUsed - OFFSET_BYTES) / BAR_BYTES;
        RoomLeft(buffer.Length, stuffed);
        var rows;
        rows, wrapped := FillTurn(db, stuffable);
        BarBytesJoin(out, rows);
        stuffed, out := stuffed + |rows|, out + rows;
        if wrapped {
          break;
        }
      }
      if !wrapped {
        TrackEnds(db, old(View()), maxBars, View(), out);
      }
      Exp2Of63();
      OneMore(61);
    }

    lemma Lands(c: Cursor)
      ensures forall rows :: rows != [] ==> Landing(c, rows).sizeHigh == c.sizeHigh
    {
    }

    lemma Doubles(c: Cursor)
      ensures NextBin(c).sizeHigh == 2 * c.sizeHigh
    {
    }

    lemma RoomLeft(length: nat, stuffed: nat)
      requires length >= OFFSET_BYTES && stuffed <= (length - OFFSET_BYTES) / BAR_BYTES
      ensures (length - BAR_BYTES * stuffed - OFFSET_BYTES) / BAR_BYTES == (length - OFFSET_BYTES) / BAR_BYTES - stuffed
      ensures OFFSET_BYTES + BAR_BYTES * ((length - OFFSET_BYTES) / BAR_BYTES) <= length
    {
    }

    lemma StartTrack(db: seq<Row>, c0: Cursor, room: nat)
      requires c0.sizeHigh > 0
      ensures OnTrack(db, c0, room, c0, []) && BarBytes([]) == []
    {
      hide Fill;
      assert [] + Fill(db, c0, room).1 == Fill(db, c0, room).1;
    }
  
    /** A fill, with the range it has covered pickled in front of the BARs. */
    method FillBuffer(db: seq<Row>) returns (stuffed: nat, ghost out: seq<Row>)
      requires Valid() && AllRows(db)
      modifies this, buffer
      ensures Valid() && stuffed == |out| && bufferUsed == 32 * |out|
      ensures (View(), out) == Fill(db, old(View()), Room())
      ensures startSizeHigh == old(sizeHigh) && startBidLow == old(bidLow)
      ensures Written()[OFFSET_BYTES..] == BarBytes(out)
      ensures var g := RangeOf(Written()[..OFFSET_BYTES]);
              g == Pickle(old(View()), View()).(startLog := g.startLog, endLog := g.endLog)
              && g.startLog == Log2(old(sizeHigh)) % 0x100 && g.endLog == Log2(sizeHigh) % 0x100
    {
      hide Fill, BarBytes, Value, Quotient, Scale, Log2;
      bufferUsed := 0;
      startSizeHigh, startBidLow := sizeHigh, bidLow;
      stuffed, out := FillLoop(db);
      var range := PickleRange(startSizeHigh, startBidLow, sizeHigh, bidHigh);
      PutHead(range);
    }

    method PutHead(head: seq<byte>)
      requires Valid() && |head| == OFFSET_BYTES
      modifies buffer
      ensures Valid() && Written() == head + old(Written())[OFFSET_BYTES..]
    {
      for i := 0 to OFFSET_BYTES
        invariant forall j :: 0 <= j < i ==> buffer[j] == head[j]
        invariant forall j :: OFFSET_BYTES <= j < buffer.Length ==> buffer[j] == old(buffer[j])
      {
        buffer[i] := head[i];
      }
    }

    /** Take over the range that the far end has sent. */
    method UnpickleRange(p: seq<byte>) returns (ok: bool)
      requires Valid()
      modifies this
      ensures Valid() && bufferUsed == old(bufferUsed)
      ensures ok <==> |p| == OFFSET_BYTES
      ensures View() == if ok then Unpickle(RangeOf(p)).(bidHigh := old(View().bidHigh)) else old(View())
      ensures ok ==> sizeHigh == Exp2(p[0]) && sizeLow == (if p[0] <= 10 then 0 else Exp2(p[0] - 1) + 1)
      ensures ok ==> limitSizeHigh == Exp2(p[5]) && bidLow[..4] == p[1..5] && limitBidHigh[..4] == p[6..10]
      ensures ok ==> forall i :: 4 <= i < 32 ==> bidLow[i] == 0x00 && limitBidHigh[i] == 0xff
    {
      if |p| != OFFSET_BYTES {
        return false;
      }
      hide Value, Scale;
      PaddedValues(p[1..5]);
      PaddedValues(p[6..10]);
      sizeHigh := Exp2(p[0]);
      sizeLow := sizeHigh / 2 + 1;
      if sizeHigh <= FIRST_BIN {
        sizeLow := 0;
      }
      bidLow := p[1..5] + Filled(0, ID_BYTES - PICKLED_BYTES);
      limitSizeHigh := Exp2(p[5]);
      limitBidHigh := p[6..10] + Filled(0xff, ID_BYTES - PICKLED_BYTES);
      FirstBins(p[0]);
      return true;
    }
  }
}
