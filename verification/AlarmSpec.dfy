/** What the alarm half of fdqueue.c promises, on values: two lists of pending
    entries, kept in order of alarm time, of which the second holds the entries
    whose time has come. */
module AlarmSpec {
  import opened Wrappers

  datatype Entry<Id> = Entry(id: Id, alarm: int, deadline: int)

  datatype Queue<Id> = Queue(alarms: seq<Entry<Id>>, deadlines: seq<Entry<Id>>)

  // ----- ordered lists -----

  /** Behind everything that is not later. */
  function Insert<Id>(list: seq<Entry<Id>>, e: Entry<Id>): seq<Entry<Id>>
  {
    if list == [] then [e]
    else if list[0].alarm > e.alarm then [e] + list
    else [list[0]] + Insert(list[1..], e)
  }

  ghost predicate Sorted<Id>(list: seq<Entry<Id>>)
  {
    forall i, j :: 0 <= i < j < |list| ==> list[i].alarm <= list[j].alarm
  }

  /** Where the search for a place to insert stops. */
  ghost predicate StopsAt<Id>(list: seq<Entry<Id>>, e: Entry<Id>, k: nat)
  {
    && k <= |list|
    && (forall i :: 0 <= i < k ==> list[i].alarm <= e.alarm)
    && (k < |list| ==> list[k].alarm > e.alarm)
  }

  lemma {:induction false} InsertAt<Id>(list: seq<Entry<Id>>, e: Entry<Id>, k: nat)
    requires StopsAt(list, e, k)
    ensures Insert(list, e) == list[..k] + [e] + list[k..]
  {
    if k > 0 {
      InsertAt(list[1..], e, k - 1);
      assert list[..k] == [list[0]] + list[1..][..k - 1] && list[k..] == list[1..][k - 1..];
    }
  }

  lemma {:induction false} StopExists<Id>(list: seq<Entry<Id>>, e: Entry<Id>) returns (k: nat)
    ensures StopsAt(list, e, k)
  {
    if list == [] || list[0].alarm > e.alarm {
      k := 0;
    } else {
      var j := StopExists(list[1..], e);
      k := j + 1;
    }
  }

  /** The list without the entry of `id`, which it holds at most once. */
  function Remove<Id(==)>(list: seq<Entry<Id>>, id: Id): seq<Entry<Id>>
  {
    if list == [] then []
    else if list[0].id == id then list[1..]
    else [list[0]] + Remove(list[1..], id)
  }

  lemma {:induction false} RemoveAt<Id>(list: seq<Entry<Id>>, id: Id, k: nat)
    requires k < |list| && list[k].id == id && forall i :: 0 <= i < k ==> list[i].id != id
    ensures Remove(list, id) == list[..k] + list[k + 1..]
  {
    if k > 0 {
      RemoveAt(list[1..], id, k - 1);
      assert list[..k] == [list[0]] + list[1..][..k - 1] && list[k + 1..] == list[1..][k..];
    }
  }

  lemma {:induction false} RemoveNone<Id>(list: seq<Entry<Id>>, id: Id)
    requires forall i :: 0 <= i < |list| ==> list[i].id != id
    ensures Remove(list, id) == list
  {
    if list != [] {
      RemoveNone(list[1..], id);
    }
  }

  // ----- the operations -----

  function Normalise<Id>(e: Entry<Id>): Entry<Id>
  {
    if e.deadline < e.alarm then e.(deadline := e.alarm) else e
  }

  /** schedule, at time `now`. */
  function Schedule<Id>(q: Queue<Id>, e: Entry<Id>, now: int): Queue<Id>
  {
    if e.alarm <= now then q.(deadlines := Insert(q.deadlines, Normalise(e)))
    else q.(alarms := Insert(q.alarms, Normalise(e)))
  }

  function Unschedule<Id(==)>(q: Queue<Id>, id: Id): Queue<Id>
  {
    Queue(Remove(q.alarms, id), Remove(q.deadlines, id))
  }

  /** Move alarms whose time has come to the deadline list, one by one. */
  function MoveElapsed<Id>(q: Queue<Id>, now: int): Queue<Id>
    decreases |q.alarms|
  {
    if q.alarms != [] && q.alarms[0].alarm <= now then
      MoveElapsed(AfterMove(q), now)
    else q
  }

  /** What happens after poll() has returned `ready` descriptors at time `later`:
      at most one entry is taken off to be called. */
  function Fire<Id>(q: Queue<Id>, ready: int, later: int): (Queue<Id>, Option<Entry<Id>>)
  {
    if q.deadlines != [] && (q.deadlines[0].deadline <= later || ready == 0)
    then (q.(deadlines := q.deadlines[1..]), Some(q.deadlines[0]))
    else (q, None)
  }

  /** The alarm half of fd_poll. */
  function Poll<Id>(q: Queue<Id>, now: int, ready: int, later: int): (Queue<Id>, Option<Entry<Id>>)
  {
    Fire(MoveElapsed(q, now), ready, later)
  }

  const INT_RANGE := 0x1_0000_0000

  /** Conversion of a 64-bit difference to int. */
  function ToInt(x: int): (r: int)
    ensures -0x8000_0000 <= r < 0x8000_0000
    ensures x >= 0 ==> r <= x
  {
    var m := x % INT_RANGE;
    if m >= 0x8000_0000 then m - INT_RANGE else m
  }

  /** The timeout given to poll(). */
  function Timeout<Id>(q: Queue<Id>, now: int): (ms: int)
    ensures ms >= 0
  {
    var ms := if q.deadlines != [] then 0 else if q.alarms != [] then ToInt(q.alarms[0].alarm - now) else 60000;
    if ms < 0 then 0 else ms
  }

  // ----- lists -----

  ghost predicate HasId<Id>(list: seq<Entry<Id>>, id: Id)
  {
    exists i :: 0 <= i < |list| && list[i].id == id
  }

  /** In order, no entry twice, no deadline before its alarm. */
  ghost predicate Proper<Id>(list: seq<Entry<Id>>)
  {
    && Sorted(list)
    && (forall i, j :: 0 <= i < j < |list| ==> list[i].id != list[j].id)
    && (forall i :: 0 <= i < |list| ==> list[i].alarm <= list[i].deadline)
  }

  ghost predicate DueBy<Id>(list: seq<Entry<Id>>, clock: int)
  {
    forall i :: 0 <= i < |list| ==> list[i].alarm <= clock
  }

  ghost predicate Apart<Id>(a: seq<Entry<Id>>, b: seq<Entry<Id>>)
  {
    forall i, j :: 0 <= i < |a| && 0 <= j < |b| ==> a[i].id != b[j].id
  }

  lemma InsertProper<Id>(list: seq<Entry<Id>>, e: Entry<Id>)
    requires Proper(list) && e.alarm <= e.deadline && !HasId(list, e.id)
    ensures Proper(Insert(list, e))
  {
    hide Insert;
    var k := StopExists(list, e);
    InsertAt(list, e, k);
  }

  lemma InsertAdds<Id>(list: seq<Entry<Id>>, e: Entry<Id>)
    ensures multiset(Insert(list, e)) == multiset(list) + multiset{e}
  {
    hide Insert;
    var k := StopExists(list, e);
    InsertAt(list, e, k);
    assert list == list[..k] + list[k..];
  }

  lemma InsertDue<Id>(list: seq<Entry<Id>>, e: Entry<Id>, clock: int)
    requires DueBy(list, clock) && e.alarm <= clock
    ensures DueBy(Insert(list, e), clock)
  {
  }

  lemma InsertApart<Id>(a: seq<Entry<Id>>, list: seq<Entry<Id>>, e: Entry<Id>)
    requires Apart(a, list) && !HasId(a, e.id)
    ensures Apart(a, Insert(list, e)) && Apart(Insert(list, e), a)
  {
  }

  /** What Remove takes out. */
  function Held<Id(==)>(list: seq<Entry<Id>>, id: Id): seq<Entry<Id>>
  {
    if list == [] then []
    else if list[0].id == id then [list[0]]
    else Held(list[1..], id)
  }

  lemma {:induction false} HeldAt<Id>(list: seq<Entry<Id>>, id: Id, k: nat)
    requires k <= |list| && (forall i :: 0 <= i < k ==> list[i].id != id) && (k < |list| ==> list[k].id == id)
    ensures Held(list, id) == if k < |list| then [list[k]] else []
  {
    if k > 0 {
      HeldAt(list[1..], id, k - 1);
    }
  }

  lemma RemoveSplits<Id>(list: seq<Entry<Id>>, id: Id) returns (k: nat)
    ensures k <= |list| && (k < |list| <==> HasId(list, id))
    ensures k == |list| ==> Remove(list, id) == list && Held(list, id) == []
    ensures k < |list| ==> list[k].id == id && Remove(list, id) == list[..k] + list[k + 1..] && Held(list, id) == [list[k]]
  {
    hide Remove, Held;
    k := 0;
    while k < |list| && list[k].id != id
      invariant k <= |list| && forall i :: 0 <= i < k ==> list[i].id != id
    {
      k := k + 1;
    }
    HeldAt(list, id, k);
    if k < |list| {
      RemoveAt(list, id, k);
    } else {
      RemoveNone(list, id);
    }
  }

  lemma RemoveProper<Id>(list: seq<Entry<Id>>, id: Id)
    requires Proper(list)
    ensures Proper(Remove(list, id)) && !HasId(Remove(list, id), id)
    ensures !HasId(list, id) ==> Remove(list, id) == list
    ensures forall clock :: DueBy(list, clock) ==> DueBy(Remove(list, id), clock)
  {
    var k := RemoveSplits(list, id);
  }

  lemma RemoveTakes<Id>(list: seq<Entry<Id>>, id: Id)
    ensures multiset(list) == multiset(Remove(list, id)) + multiset(Held(list, id))
  {
    hide Remove, Held;
    var k := RemoveSplits(list, id);
    if k < |list| {
      var a, e, b := list[..k], [list[k]], list[k + 1..];
      assert list == a + e + b;
      assert multiset(a + e + b) == multiset(a) + multiset(e) + multiset(b);
    }
  }

  lemma RemoveApart<Id>(a: seq<Entry<Id>>, b: seq<Entry<Id>>, id: Id)
    requires Proper(a) && Proper(b) && Apart(a, b)
    ensures Apart(Remove(a, id), Remove(b, id))
  {
    var k := RemoveSplits(a, id);
    var l := RemoveSplits(b, id);
  }

  // ----- what every operation keeps -----

  ghost function Pending<Id>(q: Queue<Id>): multiset<Entry<Id>>
  {
    multiset(q.alarms) + multiset(q.deadlines)
  }

  ghost predicate Queued<Id>(q: Queue<Id>, id: Id)
  {
    HasId(q.alarms, id) || HasId(q.deadlines, id)
  }

  /** Both lists proper and without common entries, and nothing among the deadlines
      is due later than `clock`. */
  ghost predicate Ordered<Id>(q: Queue<Id>, clock: int)
  {
    Proper(q.alarms) && Proper(q.deadlines) && Apart(q.alarms, q.deadlines) && DueBy(q.deadlines, clock)
  }

  lemma ScheduleKeeps<Id>(q: Queue<Id>, e: Entry<Id>, clock: int, now: int)
    requires Ordered(q, clock) && clock <= now && !Queued(q, e.id)
    ensures Ordered(Schedule(q, e, now), now)
    ensures Pending(Schedule(q, e, now)) ==
            Pending(q) + multiset{Entry(e.id, e.alarm, if e.deadline < e.alarm then e.alarm else e.deadline)}
  {
    var n := Normalise(e);
    assert DueBy(q.deadlines, now);
    assert Apart(q.deadlines, q.alarms);
    hide Proper, Apart, DueBy, HasId, Insert;
    if e.alarm <= now {
      InsertProper(q.deadlines, n);
      InsertAdds(q.deadlines, n);
      InsertDue(q.deadlines, n, now);
      InsertApart(q.alarms, q.deadlines, n);
    } else {
      InsertProper(q.alarms, n);
      InsertAdds(q.alarms, n);
      InsertApart(q.deadlines, q.alarms, n);
    }
  }

  lemma UnscheduleKeeps<Id>(q: Queue<Id>, id: Id, clock: int)
    requires Ordered(q, clock)
    ensures Ordered(Unschedule(q, id), clock) && !Queued(Unschedule(q, id), id)
    ensures Pending(q) == Pending(Unschedule(q, id)) + multiset(Held(q.alarms, id) + Held(q.deadlines, id))
    ensures !Queued(q, id) ==> Unschedule(q, id) == q
  {
    hide Proper, Apart, DueBy, HasId, Remove, Held;
    RemoveProper(q.alarms, id);
    RemoveProper(q.deadlines, id);
    RemoveTakes(q.alarms, id);
    RemoveTakes(q.deadlines, id);
    RemoveApart(q.alarms, q.deadlines, id);
  }

  lemma HeadLeaves<Id>(a: seq<Entry<Id>>, b: seq<Entry<Id>>)
    requires Proper(a) && a != [] && Apart(a, b)
    ensures Proper(a[1..]) && Apart(a[1..], b) && !HasId(a[1..], a[0].id) && !HasId(b, a[0].id)
    ensures a[0].alarm <= a[0].deadline && multiset(a) == multiset{a[0]} + multiset(a[1..])
  {
    assert a == [a[0]] + a[1..];
  }

  function AfterMove<Id>(q: Queue<Id>): Queue<Id>
    requires q.alarms != []
  {
    Queue(q.alarms[1..], Insert(q.deadlines, Normalise(q.alarms[0])))
  }

  lemma MoveOne<Id>(q: Queue<Id>, clock: int, now: int)
    requires Ordered(q, clock) && clock <= now && q.alarms != [] && q.alarms[0].alarm <= now
    ensures Ordered(AfterMove(q), now) && Pending(AfterMove(q)) == Pending(q)
  {
    assert DueBy(q.deadlines, now);
    hide Proper, Apart, DueBy, HasId, Insert;
    HeadLeaves(q.alarms, q.deadlines);
    InsertProper(q.deadlines, q.alarms[0]);
    InsertAdds(q.deadlines, q.alarms[0]);
    InsertDue(q.deadlines, q.alarms[0], now);
    InsertApart(q.alarms[1..], q.deadlines, q.alarms[0]);
  }

  /** Moving elapsed alarms loses none, and leaves only later ones behind. */
  lemma {:induction false} MoveElapsedKeeps<Id>(q: Queue<Id>, clock: int, now: int)
    requires Ordered(q, clock) && clock <= now
    ensures Ordered(MoveElapsed(q, now), now)
    ensures Pending(MoveElapsed(q, now)) == Pending(q)
    ensures forall e :: e in MoveElapsed(q, now).alarms ==> e.alarm > now
    decreases |q.alarms|
  {
    if q.alarms != [] && q.alarms[0].alarm <= now {
      MoveOne(q, clock, now);
      MoveElapsedKeeps(AfterMove(q), now, now);
    }
  }

  // ----- one poll -----

  /** `e` is pending and no pending entry has an earlier alarm time. */
  ghost predicate Earliest<Id>(q: Queue<Id>, e: Entry<Id>)
  {
    e in Pending(q) && forall x :: x in Pending(q) ==> e.alarm <= x.alarm
  }

  /** After the elapsed alarms have been moved, the head of the deadlines is an
      earliest entry of both lists. */
  lemma HeadIsEarliest<Id>(q: Queue<Id>, now: int)
    requires Ordered(q, now) && forall e :: e in q.alarms ==> e.alarm > now
    ensures q.deadlines != [] ==> Earliest(q, q.deadlines[0]) && q.deadlines[0].alarm <= now
    ensures q.deadlines == [] ==> forall e :: e in Pending(q) ==> e.alarm > now
  {
  }

  lemma FireKeeps<Id>(q: Queue<Id>, now: int)
    requires Ordered(q, now) && q.deadlines != []
    ensures Ordered(q.(deadlines := q.deadlines[1..]), now)
    ensures Pending(q) == Pending(q.(deadlines := q.deadlines[1..])) + multiset{q.deadlines[0]}
  {
    assert q.deadlines == [q.deadlines[0]] + q.deadlines[1..];
  }

  /** fd_poll never runs an alarm before its time, runs at most one, picks an
      earliest of both lists, and loses none.  If it runs none, either nothing is due,
      or descriptors were ready and an earliest entry can wait. */
  lemma PollRunsEarliest<Id>(q: Queue<Id>, clock: int, now: int, ready: int, later: int)
    requires Ordered(q, clock) && clock <= now <= later
    ensures var (q', fired) := Poll(q, now, ready, later);
            && Ordered(q', later)
            && (fired.Some? ==>
                  && Earliest(q, fired.value) && fired.value.alarm <= now
                  && (fired.value.deadline <= later || ready == 0)
                  && Pending(q) == Pending(q') + multiset{fired.value})
            && (fired.None? ==>
                  && Pending(q') == Pending(q)
                  && ((forall e :: e in Pending(q) ==> e.alarm > now)
                      || (ready != 0 && exists e :: Earliest(q, e) && e.deadline > later)))
  {
    var m := MoveElapsed(q, now);
    MoveElapsedKeeps(q, clock, now);
    HeadIsEarliest(m, now);
    hide MoveElapsed;
    if m.deadlines != [] {
      FireKeeps(m, now);
      assert Earliest(q, m.deadlines[0]);
    }
    var (q', fired) := Poll(q, now, ready, later);
    assert Ordered(q', now);
  }

  // ----- deadlines -----

  /** The entry that is first in order: the head of the deadlines, unless the head of the
      alarms is earlier. */
  predicate First<Id(==)>(q: Queue<Id>, x: Entry<Id>)
  {
    if q.deadlines != [] && (q.alarms == [] || q.deadlines[0].alarm <= q.alarms[0].alarm) then x == q.deadlines[0]
    else q.alarms != [] && x == q.alarms[0]
  }

  /** Later alarms have later deadlines. */
  ghost predicate SameOrder<Id>(q: Queue<Id>)
  {
    forall x, y :: x in Pending(q) && y in Pending(q) && x.alarm <= y.alarm ==> x.deadline <= y.deadline
  }

  lemma FirstMoves<Id>(q: Queue<Id>, x: Entry<Id>, clock: int)
    requires Ordered(q, clock) && First(q, x) && q.alarms != []
    ensures First(AfterMove(q), x)
  {
    assert Normalise(q.alarms[0]) == q.alarms[0];
  }

  /** Moving elapsed alarms does not change which entry is first. */
  lemma {:induction false} FirstStays<Id>(q: Queue<Id>, x: Entry<Id>, clock: int, now: int)
    requires Ordered(q, clock) && clock <= now && First(q, x)
    ensures First(MoveElapsed(q, now), x)
    decreases |q.alarms|
  {
    if q.alarms != [] && q.alarms[0].alarm <= now {
      FirstMoves(q, x, clock);
      MoveOne(q, clock, now);
      FirstStays(AfterMove(q), x, now, now);
    }
  }

  /** While descriptors are ready, a poll runs an alarm if and only if the alarm and the
      deadline of the first entry have passed: no other entry has a say. */
  lemma BusyPollRunsIff<Id>(q: Queue<Id>, x: Entry<Id>, clock: int, now: int, ready: int, later: int)
    requires Ordered(q, clock) && clock <= now <= later && ready != 0 && First(q, x)
    ensures Poll(q, now, ready, later).1.Some? <==> x.alarm <= now && x.deadline <= later
  {
    FirstStays(q, x, clock, now);
    MoveElapsedKeeps(q, clock, now);
    hide MoveElapsed, Pending;
    var m := MoveElapsed(q, now);
    assert m.deadlines != [] ==> m.deadlines[0].alarm <= now;
    assert m.alarms != [] ==> m.alarms[0] in m.alarms;
  }

  /** So an entry whose deadline has passed is made to wait by an earlier one that can. */
  lemma PassedDeadlineWaits<Id>(x: Entry<Id>, y: Entry<Id>, now: int, ready: int, later: int)
    requires x.id != y.id && x.alarm < y.alarm <= now <= later && ready != 0
    requires y.alarm <= y.deadline <= later < x.deadline
    ensures Ordered(Queue([], [x, y]), now)
    ensures Poll(Queue([], [x, y]), now, ready, later) == (Queue([], [x, y]), None)
  {
  }

  /** It never is where later alarms have later deadlines. */
  lemma PassedDeadlineRuns<Id>(q: Queue<Id>, e: Entry<Id>, clock: int, now: int, ready: int, later: int)
    requires Ordered(q, clock) && clock <= now <= later && SameOrder(q)
    requires e in Pending(q) && e.alarm <= now && e.deadline <= later
    ensures var fired := Poll(q, now, ready, later).1; fired.Some? && fired.value.deadline <= e.deadline
  {
    PollRunsEarliest(q, clock, now, ready, later);
    hide Poll, Ordered, Pending;
    assert forall x :: Earliest(q, x) ==> x.deadline <= e.deadline;
  }

  lemma NextIsEarliest<Id>(m: Queue<Id>, now: int)
    requires Ordered(m, now) && forall e :: e in m.alarms ==> e.alarm > now
    ensures m.deadlines != [] || m.alarms == [] || forall e :: e in Pending(m) ==> now + Timeout(m, now) <= e.alarm
  {
  }

  /** The timeout is 0 when something is due, 60 seconds when nothing is pending, and
      never reaches past the next alarm, even when the difference does not fit an int. */
  lemma NeverOversleeps<Id>(q: Queue<Id>, clock: int, now: int)
    requires Ordered(q, clock) && clock <= now
    ensures var ms := Timeout(MoveElapsed(q, now), now);
            && (forall e :: e in Pending(q) ==> now + ms <= e.alarm || ms == 0)
            && ((exists e :: e in Pending(q) && e.alarm <= now) ==> ms == 0)
            && (|Pending(q)| == 0 ==> ms == 60000)
  {
    var m := MoveElapsed(q, now);
    MoveElapsedKeeps(q, clock, now);
    HeadIsEarliest(m, now);
    NextIsEarliest(m, now);
    assert |Pending(m)| == |m.alarms| + |m.deadlines|;
    hide *;
  }

  ghost predicate EarliestOf<Id>(entries: multiset<Entry<Id>>, e: Entry<Id>)
  {
    e in entries && forall x :: x in entries ==> e.alarm <= x.alarm
  }

  /** When nothing is due, poll() sleeps until the next alarm; or, if that is 2^31 milliseconds
      away or more, for as long as the low 32 bits of the difference say, or not at all if
      they are negative as an int. */
  lemma SleepsUntilNext<Id>(q: Queue<Id>, clock: int, now: int, e: Entry<Id>)
    requires Ordered(q, clock) && clock <= now && EarliestOf(Pending(q), e) && now < e.alarm
    ensures var ms, d := Timeout(MoveElapsed(q, now), now), e.alarm - now;
      && (d < 0x8000_0000 ==> ms == d)
      && ms == if d % 0x1_0000_0000 < 0x8000_0000 then d % 0x1_0000_0000 else 0
  {
    hide MoveElapsed, Timeout, Ordered, EarliestOf, Pending;
    var m := MoveElapsed(q, now);
    MoveElapsedKeeps(q, clock, now);
    NextIsFirst(m, now, e);
    TimeoutOfNext(m, now, e.alarm - now);
  }

  lemma NextIsFirst<Id>(m: Queue<Id>, now: int, e: Entry<Id>)
    requires Ordered(m, now) && (forall x :: x in m.alarms ==> x.alarm > now)
    requires EarliestOf(Pending(m), e) && now < e.alarm
    ensures m.deadlines == [] && m.alarms != [] && m.alarms[0].alarm == e.alarm
  {
    InPending(m);
    hide Pending, Apart;
    LateIsDue(m.deadlines, now);
    hide DueBy;
    var k :| 0 <= k < |m.alarms| && m.alarms[k] == e;
    assert m.alarms[0] in m.alarms;
  }

  lemma LateIsDue<Id>(list: seq<Entry<Id>>, clock: int)
    ensures DueBy(list, clock) && list != [] ==> exists e :: e in list && e.alarm <= clock
  {
    assert list != [] ==> list[0] in list;
  }

  lemma InPending<Id>(q: Queue<Id>)
    ensures forall e :: e in Pending(q) <==> e in q.alarms || e in q.deadlines
  {
  }

  lemma TimeoutOfNext<Id>(m: Queue<Id>, now: int, d: int)
    requires m.deadlines == [] && m.alarms != [] && m.alarms[0].alarm - now == d > 0
    ensures d < 0x8000_0000 ==> Timeout(m, now) == d
    ensures Timeout(m, now) == if d % 0x1_0000_0000 < 0x8000_0000 then d % 0x1_0000_0000 else 0
  {
  }

  // ----- whole runs -----

  datatype Op<Id> =
    | OpSchedule(entry: Entry<Id>, at: int)
    | OpUnschedule(id: Id)
    | OpPoll(now: int, ready: int, later: int)

  function OpStart<Id>(op: Op<Id>, clock: int): int
  {
    match op
    case OpSchedule(_, at) => at
    case OpUnschedule(_) => clock
    case OpPoll(now, _, _) => now
  }

  function OpEnd<Id>(op: Op<Id>, clock: int): int
  {
    match op
    case OpSchedule(_, at) => at
    case OpUnschedule(_) => clock
    case OpPoll(_, _, later) => later
  }

  function AsList<T>(o: Option<T>): seq<T>
  {
    if o.Some? then [o.value] else []
  }

  /** The queue, and everything that has been added, run, and taken back so far; `times` says when
      the polls began that ran something. */
  datatype History<Id> = History(
    queue: Queue<Id>, added: seq<Entry<Id>>, run: seq<Entry<Id>>, times: seq<int>, taken: seq<Entry<Id>>)

  function Step<Id(==)>(h: History<Id>, op: Op<Id>): History<Id>
  {
    match op
    case OpSchedule(e, at) =>
      h.(queue := Schedule(h.queue, e, at), added := h.added + [Normalise(e)])
    case OpUnschedule(id) =>
      h.(queue := Unschedule(h.queue, id),
         taken := h.taken + (Held(h.queue.alarms, id) + Held(h.queue.deadlines, id)))
    case OpPoll(now, ready, later) =>
      var (q', fired) := Poll(h.queue, now, ready, later);
      h.(queue := q', run := h.run + AsList(fired), times := h.times + if fired.Some? then [now] else [])
  }

  /** The clock never goes back, and no entry is scheduled while it is queued. */
  ghost predicate Legal<Id>(h: History<Id>, op: Op<Id>, clock: int)
  {
    && clock <= OpStart(op, clock) <= OpEnd(op, clock)
    && (op.OpSchedule? ==> !Queued(h.queue, op.entry.id))
  }

  ghost predicate LegalRun<Id>(h: History<Id>, ops: seq<Op<Id>>, clock: int)
    decreases |ops|
  {
    ops == [] || (Legal(h, ops[0], clock) && LegalRun(Step(h, ops[0]), ops[1..], OpEnd(ops[0], clock)))
  }

  function Steps<Id(==)>(h: History<Id>, ops: seq<Op<Id>>): History<Id>
    decreases |ops|
  {
    if ops == [] then h else Steps(Step(h, ops[0]), ops[1..])
  }

  function Clock<Id>(ops: seq<Op<Id>>, clock: int): int
    decreases |ops|
  {
    if ops == [] then clock else Clock(ops[1..], OpEnd(ops[0], clock))
  }

  /** Each entry was due when it was run. */
  ghost predicate OnTime<Id>(run: seq<Entry<Id>>, times: seq<int>)
  {
    |run| == |times| && forall i :: 0 <= i < |run| ==> run[i].alarm <= times[i]
  }

  /** Every entry ever added is pending, has been run, or has been taken back: exactly
      once; and nothing has been run before its time. */
  ghost predicate Accounted<Id>(h: History<Id>, clock: int)
  {
    && Ordered(h.queue, clock)
    && multiset(h.added) == Pending(h.queue) + multiset(h.run) + multiset(h.taken)
    && OnTime(h.run, h.times)
  }

  lemma StepAccounts<Id>(h: History<Id>, op: Op<Id>, clock: int)
    requires Accounted(h, clock) && Legal(h, op, clock)
    ensures Accounted(Step(h, op), OpEnd(op, clock))
  {
    hide Ordered, Pending, Schedule, Unschedule, Poll, Held, OnTime, Queued;
    match op
    case OpSchedule(e, at) =>
      ScheduleKeeps(h.queue, e, clock, at);
    case OpUnschedule(id) =>
      UnscheduleKeeps(h.queue, id, clock);
    case OpPoll(now, ready, later) =>
      PollAccounts(h, clock, now, ready, later);
  }

  lemma PollConserves<Id>(q: Queue<Id>, clock: int, now: int, ready: int, later: int)
    requires Ordered(q, clock) && clock <= now <= later
    ensures var (q', fired) := Poll(q, now, ready, later);
            && Ordered(q', later) && (fired.Some? ==> fired.value.alarm <= now)
            && Pending(q) == Pending(q') + multiset(AsList(fired))
  {
    PollRunsEarliest(q, clock, now, ready, later);
    hide Ordered, Pending, Poll, Earliest;
  }

  lemma PollAccounts<Id>(h: History<Id>, clock: int, now: int, ready: int, later: int)
    requires Accounted(h, clock) && clock <= now <= later
    ensures Accounted(Step(h, OpPoll(now, ready, later)), later)
  {
    hide Ordered, Pending, Poll;
    PollConserves(h.queue, clock, now, ready, later);
    var (q', fired) := Poll(h.queue, now, ready, later);
    assert multiset(h.run + AsList(fired)) == multiset(h.run) + multiset(AsList(fired));
  }

  lemma {:induction false} RunAccounts<Id>(h: History<Id>, ops: seq<Op<Id>>, clock: int)
    requires Accounted(h, clock) && LegalRun(h, ops, clock)
    ensures Accounted(Steps(h, ops), Clock(ops, clock))
    decreases |ops|
  {
    if ops != [] {
      StepAccounts(h, ops[0], clock);
      RunAccounts(Step(h, ops[0]), ops[1..], OpEnd(ops[0], clock));
    }
  }

  // ----- nothing waits for ever -----

  function CountDue<Id>(list: seq<Entry<Id>>, t: int): nat
  {
    if list == [] then 0 else (if list[0].alarm <= t then 1 else 0) + CountDue(list[1..], t)
  }

  lemma {:induction false} CountSplit<Id>(a: seq<Entry<Id>>, b: seq<Entry<Id>>, t: int)
    ensures CountDue(a + b, t) == CountDue(a, t) + CountDue(b, t)
  {
    if a == [] {
      assert a + b == b;
    } else {
      assert (a + b)[1..] == a[1..] + b;
      CountSplit(a[1..], b, t);
    }
  }

  lemma CountInsert<Id>(list: seq<Entry<Id>>, e: Entry<Id>, t: int)
    ensures CountDue(Insert(list, e), t) == CountDue(list, t) + if e.alarm <= t then 1 else 0
  {
  }

  /** How many pending entries are due at time `t`. */
  function Due<Id>(q: Queue<Id>, t: int): nat
  {
    CountDue(q.alarms, t) + CountDue(q.deadlines, t)
  }

  lemma {:induction false} MoveKeepsDue<Id>(q: Queue<Id>, now: int, t: int)
    ensures Due(MoveElapsed(q, now), t) == Due(q, t)
    decreases |q.alarms|
  {
    if q.alarms != [] && q.alarms[0].alarm <= now {
      CountInsert(q.deadlines, Normalise(q.alarms[0]), t);
      MoveKeepsDue(AfterMove(q), now, t);
    }
  }

  lemma {:induction false} CountLater<Id>(list: seq<Entry<Id>>, t: int)
    ensures CountDue(list, t) == 0 <==> forall e :: e in list ==> e.alarm > t
  {
    if list != [] {
      assert list == [list[0]] + list[1..];
      CountLater(list[1..], t);
    }
  }

  /** An idle poll (no descriptor ready) at or after `t` runs an entry due at `t` if there is one. */
  lemma IdlePollRuns<Id>(q: Queue<Id>, clock: int, t: int, now: int, later: int)
    requires Ordered(q, clock) && clock <= now <= later && t <= now && Due(q, t) > 0
    ensures var (q', fired) := Poll(q, now, 0, later);
            fired.Some? && fired.value.alarm <= t && Due(q', t) == Due(q, t) - 1
  {
    var m := MoveElapsed(q, now);
    MoveElapsedKeeps(q, clock, now);
    MoveKeepsDue(q, now, t);
    HeadIsEarliest(m, now);
    hide MoveElapsed;
    CountLater(m.alarms, t);
    CountLater(m.deadlines, t);
    assert forall e :: e in m.deadlines ==> e in Pending(m);
    if m.deadlines != [] && m.deadlines[0].alarm > t {
      assert false;
    }
  }

  /** A run of idle polls. */
  function Idle<Id>(q: Queue<Id>, polls: seq<(int, int)>): (Queue<Id>, seq<Entry<Id>>)
    decreases |polls|
  {
    if polls == [] then (q, [])
    else
      var (q', fired) := Poll(q, polls[0].0, 0, polls[0].1);
      var (q'', rest) := Idle(q', polls[1..]);
      (q'', AsList(fired) + rest)
  }

  ghost predicate Times(polls: seq<(int, int)>, clock: int)
    decreases |polls|
  {
    polls == [] || (clock <= polls[0].0 <= polls[0].1 && Times(polls[1..], polls[0].1))
  }

  /** Entries due at `t` have all been run after as many idle polls as there are such
      entries: none of them waits behind one that became due later. */
  lemma {:induction false} IdlePollsRunAll<Id>(q: Queue<Id>, polls: seq<(int, int)>, clock: int, t: int)
    requires Ordered(q, clock) && t <= clock && Times(polls, clock)
    ensures Due(Idle(q, polls).0, t) == if Due(q, t) <= |polls| then 0 else Due(q, t) - |polls|
    decreases |polls|
  {
    if polls != [] {
      var (now, later) := polls[0];
      var (q', fired) := Poll(q, now, 0, later);
      PollRunsEarliest(q, clock, now, 0, later);
      if Due(q, t) > 0 {
        IdlePollRuns(q, clock, t, now, later);
      } else {
        StaysClear(q, clock, t, now, later);
      }
      IdlePollsRunAll(q', polls[1..], later, t);
    }
  }

  lemma StaysClear<Id>(q: Queue<Id>, clock: int, t: int, now: int, later: int)
    requires Due(q, t) == 0
    ensures Due(Poll(q, now, 0, later).0, t) == 0
  {
    MoveKeepsDue(q, now, t);
  }
}
