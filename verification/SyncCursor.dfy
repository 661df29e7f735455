/** The Rhizome Direct cursor on values: which bundles a fill takes from the database,
    and what is left for the next one. */
module SyncCursor {
  import opened Bytes
  import opened BigEndian

  const ID_BYTES := 32
  const BAR_BYTES := 32
  const PREFIX_BYTES := 15

  // ----- the MANIFESTS table -----

  /** A manifest row: its id, the size of its file and its BAR, which starts with the
      first bytes of the id. */
  datatype Row = Row(bid: seq<byte>, size: nat, bar: seq<byte>)

  ghost predicate ValidRow(r: Row)
  {
    |r.bid| == ID_BYTES && |r.bar| == BAR_BYTES && r.bar[..PREFIX_BYTES] == r.bid[..PREFIX_BYTES]
  }

  function Id(r: Row): nat
  {
    Value(r.bid)
  }

  function Last(): nat
  {
    Pow256(ID_BYTES) - 1
  }

  lemma FilledIds()
    ensures Value(Filled(0, ID_BYTES)) == 0 && Value(Filled(0xff, ID_BYTES)) == Last()
  {
    hide Value, Pow256;
    ValueFilled(ID_BYTES);
  }

  /** The table listed in the order in which queries return it, ORDER BY BAR, when no
      two ids share their first bytes. */
  ghost predicate Listed(db: seq<Row>)
  {
    && (forall i :: 0 <= i < |db| ==> ValidRow(db[i]))
    && (forall i, j :: 0 <= i < j < |db| ==>
          Value(db[i].bar) <= Value(db[j].bar) && db[i].bid[..PREFIX_BYTES] != db[j].bid[..PREFIX_BYTES])
  }

  /** No bundle up to that size has an id of 0xff throughout. */
  ghost predicate NoneFull(db: seq<Row>, limit: nat)
  {
    forall r :: r in db && r.size <= limit ==> Id(r) < Last()
  }

  ghost predicate Ascending(db: seq<Row>)
  {
    forall i, j :: 0 <= i < j < |db| ==> Id(db[i]) < Id(db[j])
  }

  lemma PrefixDecides(a: seq<byte>, b: seq<byte>, n: nat)
    requires |a| == |b| && n <= |a| && a[..n] != b[..n]
    ensures Value(a) < Value(b) <==> Value(a[..n]) < Value(b[..n])
  {
    var m := |a| - n;
    assert a == a[..n] + a[n..] && b == b[..n] + b[n..];
    ValueConcat(a[..n], a[n..]);
    ValueConcat(b[..n], b[n..]);
    ValueBound(a[n..]);
    ValueBound(b[n..]);
    if Value(a[..n]) == Value(b[..n]) {
      ValueInjective(a[..n], b[..n]);
      assert false;
    }
    Digit(Value(a[..n]), Value(a[n..]), Value(b[..n]), Value(b[n..]), Pow256(m));
  }

  /** The order of BARs is then the order of ids. */
  lemma ListedAscends(db: seq<Row>)
    requires Listed(db)
    ensures Ascending(db)
  {
    forall i, j | 0 <= i < j < |db| ensures Id(db[i]) < Id(db[j]) {
      var a, b := db[i], db[j];
      assert ValidRow(a) && ValidRow(b);
      PrefixDecides(b.bar, a.bar, PREFIX_BYTES);
      PrefixDecides(a.bid, b.bid, PREFIX_BYTES);
      if Value(a.bid[..PREFIX_BYTES]) == Value(b.bid[..PREFIX_BYTES]) {
        ValueInjective(a.bid[..PREFIX_BYTES], b.bid[..PREFIX_BYTES]);
        assert false;
      }
    }
  }

  datatype Query = Query(low: nat, high: nat, bidLow: nat, bidMax: nat)

  predicate Matches(r: Row, q: Query)
  {
    q.low <= r.size <= q.high && q.bidLow <= Id(r) <= q.bidMax
  }

  /** The rows that match, in order. */
  function Select(db: seq<Row>, q: Query): seq<Row>
  {
    if db == [] then []
    else (if Matches(db[0], q) then [db[0]] else []) + Select(db[1..], q)
  }

  lemma {:induction false} SelectMembers(db: seq<Row>, q: Query)
    ensures forall r :: r in Select(db, q) <==> r in db && Matches(r, q)
  {
    if db != [] {
      SelectMembers(db[1..], q);
      assert db == [db[0]] + db[1..];
    }
  }

  lemma TailAscends(db: seq<Row>)
    requires Ascending(db) && db != []
    ensures Ascending(db[1..]) && forall r :: r in db[1..] ==> Id(db[0]) < Id(r)
  {
  }

  lemma {:induction false} SelectAscends(db: seq<Row>, q: Query)
    requires Ascending(db)
    ensures Ascending(Select(db, q))
  {
    if db != [] {
      TailAscends(db);
      SelectAscends(db[1..], q);
      SelectMembers(db[1..], q);
      var t := Select(db[1..], q);
      assert forall i :: 0 <= i < |t| ==> t[i] in db[1..];
    }
  }

  lemma {:induction false} SelectNone(db: seq<Row>, q: Query)
    requires forall r :: r in db ==> !Matches(r, q)
    ensures Select(db, q) == []
  {
    if db != [] {
      assert db[0] in db;
      SelectNone(db[1..], q);
    }
  }

  /** The matches up to an id come before those beyond it. */
  lemma {:induction false} SelectParts(db: seq<Row>, q: Query, p: nat)
    requires Ascending(db) && p <= q.bidMax && q.bidLow <= p + 1
    ensures Select(db, q) == Select(db, q.(bidMax := p)) + Select(db, q.(bidLow := p + 1))
  {
    if db != [] {
      TailAscends(db);
      SelectParts(db[1..], q, p);
      PartsStep(db, q, p);
    }
  }

  lemma PartsStep(db: seq<Row>, q: Query, p: nat)
    requires db != [] && p <= q.bidMax && q.bidLow <= p + 1 && forall r :: r in db[1..] ==> Id(db[0]) < Id(r)
    requires Select(db[1..], q) == Select(db[1..], q.(bidMax := p)) + Select(db[1..], q.(bidLow := p + 1))
    ensures Select(db, q) == Select(db, q.(bidMax := p)) + Select(db, q.(bidLow := p + 1))
  {
    hide Select, Id;
    var q1, q2 := q.(bidMax := p), q.(bidLow := p + 1);
    SelectStep(db, q);
    SelectStep(db, q1);
    SelectStep(db, q2);
    if Id(db[0]) > p {
      SelectNone(db[1..], q1);
    }
  }

  lemma SelectStep(db: seq<Row>, q: Query)
    requires db != []
    ensures Select(db, q) == if Matches(db[0], q) then [db[0]] + Select(db[1..], q) else Select(db[1..], q)
  {
  }

  /** Reading on behind the k-th match gives the matches behind it. */
  lemma SelectResumes(db: seq<Row>, q: Query, k: nat)
    requires Ascending(db) && 0 < k <= |Select(db, q)|
    ensures Select(db, q.(bidLow := Id(Select(db, q)[k - 1]) + 1)) == Select(db, q)[k..]
  {
    var s := Select(db, q);
    var p := Id(s[k - 1]);
    var pre, post := Select(db, q.(bidMax := p)), Select(db, q.(bidLow := p + 1));
    SelectAscends(db, q);
    SelectMembers(db, q);
    SelectMembers(db, q.(bidMax := p));
    SelectMembers(db, q.(bidLow := p + 1));
    hide Select, Id;
    assert s[k - 1] in s;
    SelectParts(db, q, p);
    PivotIsEnd(s, pre, post, k);
  }

  lemma PivotIsEnd(s: seq<Row>, pre: seq<Row>, post: seq<Row>, k: nat)
    requires Ascending(s) && s == pre + post && 0 < k <= |s|
    requires forall r :: r in pre ==> Id(r) <= Id(s[k - 1])
    requires forall r :: r in post ==> Id(r) > Id(s[k - 1])
    ensures |pre| == k && post == s[k..]
  {
    hide Id;
    assert forall i :: 0 <= i < |pre| ==> s[i] in pre;
    assert forall i :: |pre| <= i < |s| ==> s[i] in post;
    assert s[k - 1] in pre + post;
    assert k < |s| ==> Id(s[k - 1]) < Id(s[k]);
  }

  // ----- the cursor -----

  const FIRST_BIN := 1024

  datatype Cursor = Cursor(sizeLow: nat, sizeHigh: nat, bidLow: nat, bidHigh: nat, limitSize: nat, limitBid: nat)

  function BidMax(c: Cursor): nat
  {
    if c.sizeHigh == c.limitSize then c.limitBid else Last()
  }

  function QueryOf(c: Cursor): Query
  {
    Query(c.sizeLow, c.sizeHigh, c.bidLow, BidMax(c))
  }

  function Low(high: nat): nat
  {
    if high <= FIRST_BIN then 0 else high / 2 + 1
  }

  /** No more matches in this size bin, so move up one. */
  function NextBin(c: Cursor): Cursor
  {
    var high := 2 * c.sizeHigh;
    c.(sizeLow := if high <= FIRST_BIN then 0 else c.sizeHigh + 1, sizeHigh := high,
       bidHigh := Last(), bidLow := if high > c.limitSize then Last() else 0)
  }

  /** Continue behind id `bid`; all zeroes comes after all 0xff. */
  function Behind(c: Cursor, bid: nat): Cursor
  {
    c.(bidHigh := bid, bidLow := if bid >= Last() then 0 else bid + 1)
  }

  function Fewer(a: nat, b: nat): nat
  {
    if a < b then a else b
  }

  /** The rows that one query of a fill returns. */
  function Batch(db: seq<Row>, c: Cursor, room: nat): (rows: seq<Row>)
    ensures |rows| <= room
  {
    var found := Select(db, QueryOf(c));
    found[..Fewer(|found|, room)]
  }

  /** Where the cursor stands after taking these rows of its bin. */
  function Landing(c: Cursor, rows: seq<Row>): Cursor
    requires rows != []
  {
    Behind(c, Id(rows[|rows| - 1]))
  }

  /** A fill of a buffer with room for that many BARs: where the cursor then is, and
      the rows it has taken. */
  function Fill(db: seq<Row>, c: Cursor, room: nat): (r: (Cursor, seq<Row>))
    requires c.sizeHigh > 0
    ensures r.0.sizeHigh > 0
    decreases room, c.limitSize - c.sizeHigh
  {
    if room == 0 || c.sizeHigh > c.limitSize then (c, [])
    else
      var rows := Batch(db, c, room);
      if rows == [] then Fill(db, NextBin(c), room)
      else if Landing(c, rows).bidHigh == Last() then (Landing(c, rows), rows)
      else
        var (c', more) := Fill(db, Landing(c, rows), room - |rows|);
        (c', rows + more)
  }

  /** Everything between the cursor and its limit, bin by bin. */
  function Rest(db: seq<Row>, c: Cursor): seq<Row>
    requires c.sizeHigh > 0
    decreases c.limitSize - c.sizeHigh
  {
    if c.sizeHigh > c.limitSize then []
    else Select(db, QueryOf(c)) + Rest(db, NextBin(c))
  }

  /** Beyond the last bin. */
  predicate Finished(c: Cursor)
  {
    c.sizeHigh > c.limitSize
  }

  lemma RowsAreReal(db: seq<Row>, c: Cursor, room: nat)
    requires NoneFull(db, c.limitSize) && !Finished(c) && Batch(db, c, room) != []
    ensures Landing(c, Batch(db, c, room)).bidHigh < Last()
  {
    var rows := Batch(db, c, room);
    SelectMembers(db, QueryOf(c));
    hide Select;
    assert rows[|rows| - 1] in Select(db, QueryOf(c));
  }

  lemma LandingStays(c: Cursor, rows: seq<Row>)
    requires rows != []
    ensures NextBin(Landing(c, rows)) == NextBin(c)
    ensures Finished(Landing(c, rows)) == Finished(c) && Landing(c, rows).sizeHigh == c.sizeHigh
    ensures Landing(c, rows).bidHigh == Id(rows[|rows| - 1])
    ensures var id := Id(rows[|rows| - 1]); id < Last() ==> QueryOf(Landing(c, rows)) == QueryOf(c).(bidLow := id + 1)
  {
  }

  lemma BinResumes(db: seq<Row>, c: Cursor, room: nat)
    requires Ascending(db) && Batch(db, c, room) != [] && Landing(c, Batch(db, c, room)).bidHigh < Last()
    ensures var rows := Batch(db, c, room);
            Select(db, QueryOf(c)) == rows + Select(db, QueryOf(Landing(c, rows)))
  {
    hide *;
    var rows := Batch(db, c, room);
    BatchIsHead(db, c, room);
    SelectResumes(db, QueryOf(c), |rows|);
    LandingStays(c, rows);
  }

  lemma BatchIsHead(db: seq<Row>, c: Cursor, room: nat)
    ensures var rows, found := Batch(db, c, room), Select(db, QueryOf(c));
            |rows| <= |found| && rows == found[..|rows|] && (room > 0 && rows == [] ==> found == [])
  {
  }

  /** One turn of the loop in a fill. */
  lemma FillStep(db: seq<Row>, c: Cursor, room: nat)
    requires c.sizeHigh > 0
    ensures room == 0 || Finished(c) ==> Fill(db, c, room) == (c, [])
    ensures room > 0 && !Finished(c) ==>
              var rows := Batch(db, c, room);
              Fill(db, c, room) ==
                if rows == [] then Fill(db, NextBin(c), room)
                else if Landing(c, rows).bidHigh == Last() then (Landing(c, rows), rows)
                else (Fill(db, Landing(c, rows), room - |rows|).0, rows + Fill(db, Landing(c, rows), room - |rows|).1)
  {
    hide Batch, Last, Behind, NextBin;
  }

  lemma RestStep(db: seq<Row>, c: Cursor)
    requires c.sizeHigh > 0 && !Finished(c)
    ensures NextBin(c).sizeHigh > 0 && Rest(db, c) == Select(db, QueryOf(c)) + Rest(db, NextBin(c))
  {
  }

  /** `out` is the head of what was left, and it only stops short of a full buffer when
      nothing is left at all. */
  ghost predicate TookHead(db: seq<Row>, c: Cursor, room: nat, c': Cursor, out: seq<Row>)
    requires c.sizeHigh > 0
  {
    && c'.sizeHigh > 0 && c'.limitSize == c.limitSize && c'.limitBid == c.limitBid
    && Rest(db, c) == out + Rest(db, c')
    && (|out| == room || (|out| < room && Finished(c')))
  }

  lemma RestTaken(db: seq<Row>, c: Cursor, room: nat)
    requires Ascending(db) && c.sizeHigh > 0 && !Finished(c) && Batch(db, c, room) != []
    requires Landing(c, Batch(db, c, room)).bidHigh < Last()
    ensures Rest(db, c) == Batch(db, c, room) + Rest(db, Landing(c, Batch(db, c, room)))
  {
    hide *;
    var rows := Batch(db, c, room);
    BinResumes(db, c, room);
    LandingStays(c, rows);
    RestStep(db, c);
    RestStep(db, Landing(c, rows));
    var left, later := Select(db, QueryOf(Landing(c, rows))), Rest(db, NextBin(c));
    assert (rows + left) + later == rows + (left + later);
  }

  lemma RestMoved(db: seq<Row>, c: Cursor, room: nat)
    requires c.sizeHigh > 0 && !Finished(c) && room > 0 && Batch(db, c, room) == []
    ensures NextBin(c).sizeHigh > 0 && Rest(db, c) == Rest(db, NextBin(c))
  {
  }

  /** For every buffer. */
  lemma {:induction false} FillTakesHead(db: seq<Row>, c: Cursor, room: nat)
    requires Ascending(db) && NoneFull(db, c.limitSize) && c.sizeHigh > 0
    ensures TookHead(db, c, room, Fill(db, c, room).0, Fill(db, c, room).1)
    decreases room, c.limitSize - c.sizeHigh
  {
    hide Fill, Batch, Rest, Last, Id;
    FillStep(db, c, room);
    if room > 0 && !Finished(c) {
      var rows := Batch(db, c, room);
      if rows == [] {
        RestMoved(db, c, room);
        FillTakesHead(db, NextBin(c), room);
      } else {
        RowsAreReal(db, c, room);
        RestTaken(db, c, room);
        FillTakesHead(db, Landing(c, rows), room - |rows|);
      }
    }
  }

  /** How far a fill without a limit would get: up to the first id of 0xff throughout. */
  function UpToFull(rows: seq<Row>): (n: nat)
    ensures n <= |rows|
  {
    if rows == [] then 0
    else if Id(rows[0]) >= Last() then 1
    else 1 + UpToFull(rows[1..])
  }

  function Head(rows: seq<Row>, room: nat): seq<Row>
  {
    rows[..Fewer(UpToFull(rows), room)]
  }

  lemma {:induction false} UpToFullJoins(a: seq<Row>, b: seq<Row>)
    requires forall r :: r in a ==> Id(r) < Last()
    ensures UpToFull(a + b) == |a| + UpToFull(b)
  {
    if a == [] {
      assert a + b == b;
    } else {
      assert (a + b)[1..] == a[1..] + b;
      UpToFullJoins(a[1..], b);
    }
  }

  lemma HeadJoins(a: seq<Row>, b: seq<Row>, room: nat)
    requires (forall r :: r in a ==> Id(r) < Last()) && |a| <= room
    ensures Head(a + b, room) == a + Head(b, room - |a|)
  {
    UpToFullJoins(a, b);
  }

  lemma HeadStops(a: seq<Row>, b: seq<Row>, room: nat)
    requires a != [] && |a| <= room && Id(a[|a| - 1]) >= Last() && forall i :: 0 <= i < |a| - 1 ==> Id(a[i]) < Last()
    ensures Head(a + b, room) == a
  {
    var k := |a| - 1;
    assert a + b == a[..k] + ([a[k]] + b);
    UpToFullJoins(a[..k], [a[k]] + b);
  }

  lemma TopOfHead(found: seq<Row>, n: nat, last: nat)
    requires Ascending(found) && 0 < n <= |found| && forall r :: r in found ==> Id(r) <= last
    ensures Id(found[n - 1]) <= last && forall i :: 0 <= i < n - 1 ==> Id(found[i]) < last
    ensures Id(found[n - 1]) == last ==> n == |found|
  {
    hide Id;
    assert forall i :: 0 <= i < |found| ==> found[i] in found;
    assert n < |found| ==> Id(found[n - 1]) < Id(found[n]);
  }

  lemma BatchBelow(db: seq<Row>, c: Cursor, room: nat)
    requires Ascending(db) && Batch(db, c, room) != [] && (forall r :: r in db ==> Id(r) <= Last())
    ensures var rows := Batch(db, c, room);
            && Id(rows[|rows| - 1]) <= Last() && (forall i :: 0 <= i < |rows| - 1 ==> Id(rows[i]) < Last())
            && (Id(rows[|rows| - 1]) == Last() ==> rows == Select(db, QueryOf(c)))
  {
    hide *;
    var rows, found := Batch(db, c, room), Select(db, QueryOf(c));
    SelectAscends(db, QueryOf(c));
    SelectMembers(db, QueryOf(c));
    BatchIsHead(db, c, room);
    TopOfHead(found, |rows|, Last());
  }

  /** What a fill takes, whatever the ids: the first rows ahead of it, up to its room or to
      an id of 0xff throughout. */
  lemma {:induction false} FillIsHead(db: seq<Row>, c: Cursor, room: nat)
    requires Ascending(db) && (forall r :: r in db ==> Id(r) <= Last()) && c.sizeHigh > 0
    ensures Fill(db, c, room).1 == Head(Rest(db, c), room)
    decreases room, c.limitSize - c.sizeHigh
  {
    hide Fill, Batch, Last, Id;
    FillStep(db, c, room);
    if room > 0 && !Finished(c) {
      var rows := Batch(db, c, room);
      if rows == [] {
        RestMoved(db, c, room);
        hide Rest;
        FillIsHead(db, NextBin(c), room);
      } else {
        BatchBelow(db, c, room);
        RestStep(db, c);
        if Id(rows[|rows| - 1]) == Last() {
          hide Rest;
          HeadStops(rows, Rest(db, NextBin(c)), room);
        } else {
          RestTaken(db, c, room);
          hide Rest;
          FillIsHead(db, Landing(c, rows), room - |rows|);
          HeadJoins(rows, Rest(db, Landing(c, rows)), room);
        }
      }
    }
  }
}
