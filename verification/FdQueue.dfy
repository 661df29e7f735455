/** fdqueue.c: alarms in two intrusive doubly linked lists, and the table of watched
    file descriptors. */
module FdQueue {
  import opened Wrappers
  import opened AlarmSpec

  class SchedEnt {
    var next: SchedEnt?
    var prev: SchedEnt?
    var alarm: int
    var deadline: int
    var hasFunction: bool
    var fd: int
    var events: int
    var revents: int
    var pollIndex: int

    constructor (alarm: int, deadline: int, hasFunction: bool, fd: int, events: int)
      ensures next == null && prev == null && pollIndex == -1
      ensures this.alarm == alarm && this.deadline == deadline && this.hasFunction == hasFunction
      ensures this.fd == fd && this.events == events && revents == 0
    {
      next, prev := null, null;
      this.alarm, this.deadline, this.hasFunction := alarm, deadline, hasFunction;
      this.fd, this.events, revents, pollIndex := fd, events, 0, -1;
    }
  }

  // ----- one linked list -----

  type Listing = seq<Entry<SchedEnt>>

  ghost function Members(list: Listing): set<SchedEnt>
  {
    set i | 0 <= i < |list| :: list[i].id
  }

  ghost function NextOf(list: Listing, i: nat): SchedEnt?
  {
    if i + 1 < |list| then list[i + 1].id else null
  }

  ghost function PrevOf(list: Listing, i: nat): SchedEnt?
  {
    if 0 < i <= |list| then list[i - 1].id else null
  }

  ghost function At(list: Listing, i: nat): SchedEnt?
  {
    if i < |list| then list[i].id else null
  }

  ghost predicate NoRepeats(list: Listing)
  {
    forall i, j :: 0 <= i < j < |list| ==> list[i].id != list[j].id
  }

  ghost predicate Shown(e: Entry<SchedEnt>)
    reads e.id
  {
    e.alarm == e.id.alarm && e.deadline == e.id.deadline
  }

  /** The entries of `list` are linked both ways, in that order. */
  ghost predicate Chain(list: Listing)
    reads Members(list)
  {
    && NoRepeats(list)
    && (forall i :: 0 <= i < |list| ==> Shown(list[i]))
    && (forall i :: 0 <= i < |list| ==> list[i].id.next == NextOf(list, i))
    && (forall i :: 0 <= i < |list| ==> list[i].id.prev == PrevOf(list, i))
  }

  /** Find where `e` belongs: the last entry that is not later, and the one after it. */
  method FindPlace(head: SchedEnt?, e: SchedEnt, ghost list: Listing)
    returns (last: SchedEnt?, node: SchedEnt?, ghost k: nat)
    requires head == At(list, 0) && Chain(list)
    ensures k <= |list| && StopsAt(list, Entry(e, e.alarm, e.deadline), k)
    ensures last == PrevOf(list, k) && node == At(list, k)
  {
    last, node, k := null, head, 0;
    while node != null
      invariant k <= |list|
      invariant node == At(list, k) && last == PrevOf(list, k)
      invariant forall i :: 0 <= i < k ==> list[i].alarm <= e.alarm
      decreases |list| - k
    {
      assert Shown(list[k]);
      if node.alarm > e.alarm {
        break;
      }
      last := node;
      node := node.next;
      k := k + 1;
    }
  }

  /** The links after `e` has been put at place `k` of a chain. */
  ghost predicate LinkedAt(list: Listing, e: Entry<SchedEnt>, k: nat)
    reads Members(list), e.id
  {
    && Shown(e)
    && e.id.prev == PrevOf(list, k)
    && e.id.next == At(list, k)
    && (forall i :: 0 <= i < |list| ==> Shown(list[i]))
    && (forall i :: 0 <= i < |list| ==> list[i].id.next == if i == k - 1 then e.id else NextOf(list, i))
    && (forall i :: 0 <= i < |list| ==> list[i].id.prev == if i == k then e.id else PrevOf(list, i))
  }

  /** Join `e` to the entry before place `k`, or make it the head. */
  method JoinBefore(head: SchedEnt?, last: SchedEnt?, e: SchedEnt, ghost list: Listing, ghost k: nat)
    returns (head': SchedEnt?)
    requires NoRepeats(list) && e !in Members(list) && k <= |list| && last == PrevOf(list, k)
    requires forall i :: 0 <= i < |list| ==> list[i].id.next == NextOf(list, i)
    modifies Members(list)`next, e`prev
    ensures e.prev == last && head' == if k == 0 then e else head
    ensures forall i :: 0 <= i < |list| ==> list[i].id.next == if i == k - 1 then e else NextOf(list, i)
  {
    head' := head;
    if last == null {
      head' := e;
    } else {
      last.next := e;
    }
    e.prev := last;
  }

  /** Join `e` to the entry at place `k`, if there is one. */
  method JoinAfter(node: SchedEnt?, e: SchedEnt, ghost list: Listing, ghost k: nat)
    requires NoRepeats(list) && e !in Members(list) && k <= |list| && node == At(list, k)
    requires forall i :: 0 <= i < |list| ==> list[i].id.prev == PrevOf(list, i)
    modifies Members(list)`prev, e`next
    ensures e.next == node
    ensures forall i :: 0 <= i < |list| ==> list[i].id.prev == if i == k then e else PrevOf(list, i)
  {
    if node != null {
      node.prev := e;
    }
    e.next := node;
  }

  method LinkAt(head: SchedEnt?, last: SchedEnt?, node: SchedEnt?, e: SchedEnt, ghost list: Listing, ghost k: nat)
    returns (head': SchedEnt?)
    requires Chain(list) && e !in Members(list) && k <= |list|
    requires head == At(list, 0) && last == PrevOf(list, k) && node == At(list, k)
    modifies Members(list)`next, Members(list)`prev, e`next, e`prev
    ensures LinkedAt(list, Entry(e, e.alarm, e.deadline), k) && head' == if k == 0 then e else head
  {
    hide NextOf, PrevOf, NoRepeats, At;
    head' := JoinBefore(head, last, e, list, k);
    JoinAfter(node, e, list, k);
  }

  lemma LongerNoRepeats(list: Listing, e: Entry<SchedEnt>, k: nat, list': Listing)
    requires NoRepeats(list) && e.id !in Members(list) && k <= |list| && list' == list[..k] + [e] + list[k..]
    ensures NoRepeats(list')
  {
  }

  /** The elements of a list with one more. */
  lemma LongerAt(list: Listing, e: Entry<SchedEnt>, k: nat, list': Listing, i: nat)
    requires k <= |list| && list' == list[..k] + [e] + list[k..] && i < |list'|
    ensures list'[i] == if i < k then list[i] else if i == k then e else list[i - 1]
    ensures NextOf(list', i) == if i + 1 == k then e.id else if i < k then NextOf(list, i) else if i == k then At(list, k) else NextOf(list, i - 1)
    ensures PrevOf(list', i) == if i <= k then PrevOf(list, i) else if i == k + 1 then e.id else PrevOf(list, i - 1)
  {
  }

  lemma ChainGrows(list: Listing, e: Entry<SchedEnt>, k: nat, list': Listing)
    requires NoRepeats(list) && e.id !in Members(list) && k <= |list| && LinkedAt(list, e, k)
    requires list' == list[..k] + [e] + list[k..]
    ensures Chain(list')
  {
    LongerNoRepeats(list, e, k, list');
    hide NoRepeats, NextOf, PrevOf, At;
    forall i | 0 <= i < |list'|
      ensures Shown(list'[i]) && list'[i].id.next == NextOf(list', i) && list'[i].id.prev == PrevOf(list', i)
    {
      LongerAt(list, e, k, list', i);
    }
  }

  lemma MembersWith(list: Listing, e: Entry<SchedEnt>, k: nat, list': Listing)
    requires k <= |list| && list' == list[..k] + [e] + list[k..]
    ensures Members(list') == Members(list) + {e.id}
  {
    forall x | x in Members(list) + {e.id} ensures x in Members(list') {
      if x != e.id {
        var i :| 0 <= i < |list| && list[i].id == x;
        assert list[i] == list'[if i < k then i else i + 1];
      } else {
        assert list'[k] == e;
      }
    }
    forall x | x in Members(list') ensures x in Members(list) + {e.id} {
      var i :| 0 <= i < |list'| && list'[i].id == x;
      assert i != k ==> list'[i] == list[if i < k then i else i - 1];
    }
  }

  lemma InsertGrows(list: Listing, e: Entry<SchedEnt>, k: nat)
    requires StopsAt(list, e, k)
    ensures Insert(list, e) == list[..k] + [e] + list[k..]
    ensures At(Insert(list, e), 0) == if k == 0 then e.id else At(list, 0)
    ensures Members(Insert(list, e)) == Members(list) + {e.id}
  {
    InsertAt(list, e, k);
    MembersWith(list, e, k, Insert(list, e));
    hide Insert, Members;
  }

  method LinkIn(head: SchedEnt?, e: SchedEnt, ghost list: Listing) returns (head': SchedEnt?, ghost list': Listing)
    requires head == At(list, 0) && Chain(list) && e !in Members(list)
    modifies Members(list)`next, Members(list)`prev, e`next, e`prev
    ensures list' == Insert(list, Entry(e, e.alarm, e.deadline))
    ensures Chain(list') && head' == At(list', 0) && Members(list') == Members(list) + {e}
  {
    ghost var entry := Entry(e, e.alarm, e.deadline);
    assert NoRepeats(list);
    hide Insert, StopsAt, Chain, NoRepeats, LinkedAt, PrevOf, Members, At;
    ghost var k: nat;
    var last, node;
    last, node, k := FindPlace(head, e, list);
    head' := LinkAt(head, last, node, e, list, k);
    list' := Insert(list, entry);
    InsertGrows(list, entry, k);
    ChainGrows(list, entry, k, list');
  }

  /** The links after entry `k` of a chain has been cut out. */
  ghost predicate CutAt(list: Listing, k: nat)
    reads Members(list)
  {
    && (forall i :: 0 <= i < |list| ==> Shown(list[i]))
    && (forall i :: 0 <= i < |list| && i != k ==> list[i].id.next == if i == k - 1 then NextOf(list, k) else NextOf(list, i))
    && (forall i :: 0 <= i < |list| && i != k ==> list[i].id.prev == if i == k + 1 then PrevOf(list, k) else PrevOf(list, i))
  }

  lemma ChainShrinks(list: Listing, k: nat, list': Listing)
    requires NoRepeats(list) && k < |list| && CutAt(list, k) && list' == list[..k] + list[k + 1..]
    ensures Chain(list')
  {
  }

  lemma MembersWithout(list: Listing, k: nat, list': Listing)
    requires NoRepeats(list) && k < |list| && list' == list[..k] + list[k + 1..]
    ensures Members(list') == Members(list) - {list[k].id}
  {
    forall x | x in Members(list) - {list[k].id} ensures x in Members(list') {
      var i :| 0 <= i < |list| && list[i].id == x;
      assert list[i] == list'[if i < k then i else i - 1];
    }
    forall x | x in Members(list') ensures x in Members(list) - {list[k].id} {
      var i :| 0 <= i < |list'| && list'[i].id == x;
      assert list'[i] == list[if i < k then i else i + 1];
    }
  }

  lemma RemoveShrinks(list: Listing, k: nat)
    requires NoRepeats(list) && k < |list|
    ensures Remove(list, list[k].id) == list[..k] + list[k + 1..]
    ensures At(Remove(list, list[k].id), 0) == if k == 0 then NextOf(list, 0) else At(list, 0)
    ensures Members(Remove(list, list[k].id)) == Members(list) - {list[k].id}
  {
    RemoveAt(list, list[k].id, k);
    hide Remove;
    MembersWithout(list, k, list[..k] + list[k + 1..]);
  }

  /** Let the entry before place `k` point past it. */
  method PassNext(prev: SchedEnt?, next: SchedEnt?, ghost list: Listing, ghost k: nat)
    requires NoRepeats(list) && (k < |list| || list == []) && prev == PrevOf(list, k) && next == NextOf(list, k)
    requires forall i :: 0 <= i < |list| ==> list[i].id.next == NextOf(list, i)
    modifies Members(list)`next
    ensures forall i :: 0 <= i < |list| ==> list[i].id.next == if i == k - 1 then NextOf(list, k) else NextOf(list, i)
  {
    if prev != null {
      prev.next := next;
    }
  }

  /** Let the entry after place `k` point back past it. */
  method PassPrev(prev: SchedEnt?, next: SchedEnt?, ghost list: Listing, ghost k: nat)
    requires NoRepeats(list) && (k < |list| || list == []) && prev == PrevOf(list, k) && next == NextOf(list, k)
    requires forall i :: 0 <= i < |list| ==> list[i].id.prev == PrevOf(list, i)
    modifies Members(list)`prev
    ensures forall i :: 0 <= i < |list| ==> list[i].id.prev == if i == k + 1 then PrevOf(list, k) else PrevOf(list, i)
  {
    if next != null {
      next.prev := prev;
    }
  }

  lemma NoNeighbours(k: nat)
    ensures PrevOf([], k) == null && NextOf([], k) == null
  {
  }

  /** Join the neighbours of `e`, which is entry `k` of the chain or in no chain. */
  method Bypass(e: SchedEnt, prev: SchedEnt?, next: SchedEnt?, ghost list: Listing, ghost k: nat)
    requires Chain(list) && (if list == [] then prev == next == null else k < |list| && list[k].id == e)
    requires prev == e.prev && next == e.next
    modifies Members(list)`next, Members(list)`prev, e`next, e`prev
    ensures e.next == e.prev == null && (list != [] ==> CutAt(list, k))
  {
    hide NextOf, PrevOf, NoRepeats;
    NoNeighbours(k);
    PassNext(prev, next, list, k);
    PassPrev(prev, next, list, k);
    Clear(e, list, k);
  }

  /** Cut `e` loose; the other entries of the list keep their links. */
  method Clear(e: SchedEnt, ghost list: Listing, ghost k: nat)
    requires NoRepeats(list) && (list != [] ==> k < |list| && list[k].id == e)
    modifies e`next, e`prev
    ensures e.next == e.prev == null
    ensures forall i :: 0 <= i < |list| && i != k ==> list[i].id.next == old(list[i].id.next)
    ensures forall i :: 0 <= i < |list| && i != k ==> list[i].id.prev == old(list[i].id.prev)
  {
    e.prev, e.next := null, null;
  }

  lemma RemoveFacts(list: Listing, e: SchedEnt)
    requires NoRepeats(list)
    ensures Members(Remove(list, e)) == Members(list) - {e}
    ensures At(Remove(list, e), 0) == if At(list, 0) == e then NextOf(list, 0) else At(list, 0)
    ensures e !in Members(list) ==> Remove(list, e) == list
  {
    if e in Members(list) {
      var k :| 0 <= k < |list| && list[k].id == e;
      RemoveShrinks(list, k);
    } else {
      RemoveNone(list, e);
    }
  }

  lemma ChainCut(list: Listing, e: SchedEnt, k: nat)
    requires list != [] ==> NoRepeats(list) && k < |list| && list[k].id == e && CutAt(list, k)
    ensures list != [] ==> Chain(Remove(list, e))
  {
    if list != [] {
      RemoveShrinks(list, k);
      hide Remove;
      ChainShrinks(list, k, Remove(list, e));
    }
  }

  // ----- the queue -----

  lemma StepsGoOn(h: History<SchedEnt>, ops: seq<Op<SchedEnt>>, i: nat, clock: int)
    requires i < |ops|
    ensures Steps(h, ops[i..]) == Steps(Step(h, ops[i]), ops[i + 1..])
    ensures Clock(ops[i..], clock) == Clock(ops[i + 1..], OpEnd(ops[i], clock))
    ensures LegalRun(h, ops[i..], clock) <==>
            Legal(h, ops[i], clock) && LegalRun(Step(h, ops[i]), ops[i + 1..], OpEnd(ops[i], clock))
  {
    hide Step, Legal;
    assert ops[i..][0] == ops[i] && ops[i..][1..] == ops[i + 1..];
  }

  /** What one operation adds to what has been run. */
  lemma StepRuns(h: History<SchedEnt>, op: Op<SchedEnt>)
    ensures Step(h, op).run ==
            h.run + if op.OpPoll? then AsList(AlarmSpec.Poll(h.queue, op.now, op.ready, op.later).1) else []
    ensures op.OpSchedule? ==> Step(h, op).queue == AlarmSpec.Schedule(h.queue, op.entry, op.at)
    ensures op.OpUnschedule? ==> Step(h, op).queue == AlarmSpec.Unschedule(h.queue, op.id)
    ensures op.OpPoll? ==> Step(h, op).queue == AlarmSpec.Poll(h.queue, op.now, op.ready, op.later).0
  {
    assert h.run + [] == h.run;
    hide AlarmSpec.Poll;
  }

  ghost function Named(due: SchedEnt?): Option<Entry<SchedEnt>>
    reads due
  {
    if due == null then None else var e: SchedEnt := due; Some(Entry(e, e.alarm, e.deadline))
  }

  class AlarmQueue {
    var nextAlarm: SchedEnt?
    var nextDeadline: SchedEnt?
    ghost var queue: Queue<SchedEnt>
    ghost var early: set<SchedEnt>
    ghost var late: set<SchedEnt>

    /** Both lists are linked both ways and have no entry in common. */
    ghost predicate Valid()
      reads this, early, late
    {
      && early == Members(queue.alarms) && late == Members(queue.deadlines) && early !! late
      && nextAlarm == At(queue.alarms, 0) && nextDeadline == At(queue.deadlines, 0)
      && Chain(queue.alarms) && Chain(queue.deadlines)
    }

    ghost predicate Holds(e: SchedEnt)
      reads this
    {
      e in early || e in late
    }

    /** An entry that is in neither list has no neighbours: it is new or has been unscheduled. */
    ghost predicate Loose(e: SchedEnt)
      reads this, e
    {
      Holds(e) || (e.next == null && e.prev == null)
    }

    constructor ()
      ensures Valid() && queue == Queue([], [])
    {
      nextAlarm, nextDeadline := null, null;
      queue, early, late := Queue([], []), {}, {};
    }

    /** deadline() */
    method Deadline(e: SchedEnt)
      requires Valid() && !Holds(e)
      modifies this`nextDeadline, this`queue, this`late, late`next, late`prev
      modifies e`next, e`prev, e`deadline
      ensures Valid()
      ensures Entry(e, e.alarm, e.deadline) == Normalise(old(Entry(e, e.alarm, e.deadline)))
      ensures queue == old(queue).(deadlines := Insert(old(queue.deadlines), Entry(e, e.alarm, e.deadline)))
      ensures late == old(late) + {e}
    {
      hide Chain, Members, At, Insert;
      if e.deadline < e.alarm {
        e.deadline := e.alarm;
      }
      ghost var list;
      nextDeadline, list := LinkIn(nextDeadline, e, queue.deadlines);
      queue, late := queue.(deadlines := list), late + {e};
    }

    /** schedule(), at time `now` */
    method Schedule(e: SchedEnt, now: int) returns (ok: bool)
      requires Valid() && !Holds(e)
      modifies this, early`next, early`prev, late`next, late`prev
      modifies e`next, e`prev, e`deadline
      ensures Valid() && ok == e.hasFunction
      ensures ok ==> Entry(e, e.alarm, e.deadline) == Normalise(old(Entry(e, e.alarm, e.deadline)))
      ensures ok ==> queue == AlarmSpec.Schedule(old(queue), old(Entry(e, e.alarm, e.deadline)), now)
      ensures !ok ==> queue == old(queue) && unchanged(e)
      ensures early + late == old(early) + old(late) + if ok then {e} else {}
    {
      hide Chain, Members, At, Insert;
      if !e.hasFunction {
        return false;
      }
      if e.deadline < e.alarm {
        e.deadline := e.alarm;
      }
      if e.alarm <= now {
        Deadline(e);
        return true;
      }
      ghost var list;
      nextAlarm, list := LinkIn(nextAlarm, e, queue.alarms);
      queue, early := queue.(alarms := list), early + {e};
      return true;
    }

    /** The list that holds `e`, and where. */
    ghost method Locate(e: SchedEnt) returns (list: Listing, k: nat)
      requires Valid() && Loose(e)
      ensures list == if e in early then queue.alarms
                      else if e in late then queue.deadlines else []
      ensures if list == [] then !Holds(e) && e.next == e.prev == null && Members(list) == {}
              else k < |list| && list[k].id == e && e.prev == PrevOf(list, k) && e.next == NextOf(list, k)
                   && (e.prev == null <==> k == 0)
      ensures Chain(list) && NoRepeats(list)
      ensures NoRepeats(queue.alarms) && NoRepeats(queue.deadlines)
      ensures nextAlarm == e <==> e in early && k == 0
      ensures nextDeadline == e <==> e in late && k == 0
    {
      list, k := [], 0;
      if e in early {
        list := queue.alarms;
        k :| k < |list| && list[k].id == e;
      } else if e in late {
        list := queue.deadlines;
        k :| k < |list| && list[k].id == e;
      }
    }

    /** Join the neighbours of `e`, or move on the head that pointed at it. */
    method Relink(e: SchedEnt, ghost list: Listing, ghost k: nat)
      requires Chain(list) && (if list == [] then e.prev == e.next == null else k < |list| && list[k].id == e)
      requires nextAlarm == e || nextDeadline == e ==> e.prev == null
      requires Chain(queue.alarms) && early == Members(queue.alarms)
      requires Chain(queue.deadlines) && late == Members(queue.deadlines) && early !! late
      requires Members(list) == if e in early then early else if e in late then late else {}
      modifies this`nextAlarm, this`nextDeadline, Members(list)`next, Members(list)`prev, e`next, e`prev
      ensures e.next == e.prev == null && (list != [] ==> CutAt(list, k))
      ensures (e !in early ==> Chain(queue.alarms)) && (e !in late ==> Chain(queue.deadlines))
      ensures nextAlarm == if old(nextAlarm) == e then old(e.next) else old(nextAlarm)
      ensures nextDeadline == if old(nextDeadline) == e && old(nextAlarm) != e then old(e.next) else old(nextDeadline)
    {
      hide Chain, CutAt, Members;
      var prev, next := e.prev, e.next;
      Bypass(e, prev, next, list, k);
      if prev == null {
        if nextAlarm == e {
          nextAlarm := next;
        } else if nextDeadline == e {
          nextDeadline := next;
        }
      }
    }

    /** Strike `e`, which is no longer linked, off the record. */
    ghost method StrikeOff(e: SchedEnt)
      requires early == Members(queue.alarms) && late == Members(queue.deadlines) && early !! late
      requires NoRepeats(queue.alarms) && NoRepeats(queue.deadlines)
      requires nextAlarm == if At(queue.alarms, 0) == e then NextOf(queue.alarms, 0) else At(queue.alarms, 0)
      requires nextDeadline == if At(queue.deadlines, 0) == e then NextOf(queue.deadlines, 0) else At(queue.deadlines, 0)
      requires if e in early then Chain(Remove(queue.alarms, e)) else Chain(queue.alarms)
      requires if e in late then Chain(Remove(queue.deadlines, e)) else Chain(queue.deadlines)
      modifies this`queue, this`early, this`late
      ensures Valid() && !Holds(e) && queue == AlarmSpec.Unschedule(old(queue), e)
      ensures early == old(early) - {e} && late == old(late) - {e}
    {
      hide Chain, Members, At, Remove, NoRepeats, NextOf;
      RemoveFacts(queue.alarms, e);
      RemoveFacts(queue.deadlines, e);
      queue, early, late := AlarmSpec.Unschedule(queue, e), early - {e}, late - {e};
    }

    /** unschedule() */
    method Unschedule(e: SchedEnt)
      requires Valid() && Loose(e)
      modifies this, early`next, early`prev, late`next, late`prev
      modifies e`next, e`prev
      ensures Valid()
      ensures !Holds(e)
      ensures e.next == e.prev == null
      ensures queue == AlarmSpec.Unschedule(old(queue), e)
      ensures early == old(early) - {e} && late == old(late) - {e}
    {
      ghost var list, k := Locate(e);
      hide Chain, Members, At, Remove, CutAt, NoRepeats, PrevOf, NextOf;
      hide AlarmSpec.Unschedule;
      Relink(e, list, k);
      if e in early {
        ChainCut(queue.alarms, e, k);
      } else if e in late {
        ChainCut(queue.deadlines, e, k);
      }
      StrikeOff(e);
    }
  
    /** Taking the head off a list, as unschedule sees it. */
    lemma HeadOff(e: SchedEnt)
      requires Valid()
      ensures e == nextAlarm ==>
                && queue.alarms != [] && queue.alarms[0] == Entry(e, e.alarm, e.deadline) && e in early
                && AlarmSpec.Unschedule(queue, e) == queue.(alarms := queue.alarms[1..])
      ensures e == nextDeadline ==>
                && queue.deadlines != [] && queue.deadlines[0] == Entry(e, e.alarm, e.deadline) && e in late
                && AlarmSpec.Unschedule(queue, e) == queue.(deadlines := queue.deadlines[1..])
    {
      if e == nextAlarm {
        assert Shown(queue.alarms[0]);
        RemoveFacts(queue.deadlines, e);
      }
      if e == nextDeadline {
        assert Shown(queue.deadlines[0]);
        RemoveFacts(queue.alarms, e);
      }
    }

    /** One turn of the loop that moves elapsed alarms. */
    method MoveHead()
      requires Valid() && nextAlarm != null
      modifies this, early`next, early`prev, early`deadline, late`next, late`prev
      ensures Valid() && old(queue).alarms != []
      ensures queue == AfterMove(old(queue)) && early + late == old(early) + old(late)
    {
      var e := nextAlarm;
      HeadOff(e);
      hide Valid, Remove, Insert;
      Unschedule(e);
      Deadline(e);
    }
  
    method MoveElapsed(now: int)
      requires Valid()
      modifies this, early`next, early`prev, early`deadline, late`next, late`prev, late`deadline
      ensures Valid() && queue == AlarmSpec.MoveElapsed(old(queue), now)
      ensures early + late == old(early) + old(late)
    {
      while nextAlarm != null && nextAlarm.alarm <= now
        invariant Valid() && early + late == old(early) + old(late)
        invariant AlarmSpec.MoveElapsed(queue, now) == AlarmSpec.MoveElapsed(old(queue), now)
        decreases |queue.alarms|
      {
        HeadOff(nextAlarm);
        hide Valid, AfterMove;
        MoveHead();
      }
      assert queue.alarms != [] ==> Shown(queue.alarms[0]);
    }

    /** How long poll() may block. */
    method NextTimeout(now: int) returns (ms: int)
      requires Valid()
      ensures ms == Timeout(queue, now)
    {
      ms := 60000;
      if nextDeadline != null {
        ms := 0;
      } else if nextAlarm != null {
        assert Shown(queue.alarms[0]);
        ms := ToInt(nextAlarm.alarm - now);
      }
      if ms < 0 {
        ms := 0;
      }
    }

    /** Take off the entry to call after poll() has returned `ready`. */
    method TakeDue(ready: int, later: int) returns (due: SchedEnt?)
      requires Valid()
      modifies this, early`next, early`prev, late`next, late`prev
      ensures Valid() && early == old(early) - {due} && late == old(late) - {due}
      ensures due != null ==> due in old(late)
      ensures queue == Fire(old(queue), ready, later).0
      ensures Fire(old(queue), ready, later).1 == Named(due)
      ensures due != null ==> !Holds(due) && due.next == due.prev == null
    {
      due := null;
      if nextDeadline != null {
        HeadOff(nextDeadline);
        if nextDeadline.deadline <= later || ready == 0 {
          due := nextDeadline;
          hide Valid, Remove;
          Unschedule(due);
        }
      }
    }

    /** The alarm half of fd_poll(): poll() is entered at `now` and returns `ready` at `later`. */
    method Poll(now: int, ready: int, later: int) returns (ms: int, due: SchedEnt?)
      requires Valid()
      modifies this, early`next, early`prev, early`deadline, late`next, late`prev, late`deadline
      ensures Valid() && ms == Timeout(AlarmSpec.MoveElapsed(old(queue), now), now)
      ensures (queue, Named(due)) == AlarmSpec.Poll(old(queue), now, ready, later)
      ensures due != null ==> !Holds(due) && due.next == due.prev == null
      ensures early + late == old(early) + old(late) - {due}
      ensures due != null ==> due in old(early) + old(late)
    {
      hide Valid, AlarmSpec.MoveElapsed, Fire;
      MoveElapsed(now);
      ms := NextTimeout(now);
      due := TakeDue(ready, later);
    }

    // ----- whole runs -----

    /** All entries in use: those in the lists, and others that can be scheduled. */
    ghost predicate Ready(ents: set<SchedEnt>)
      reads this, early, late, ents
    {
      Valid() && early + late <= ents && forall e :: e in ents ==> Loose(e) && e.hasFunction
    }

    ghost predicate Concerns(op: Op<SchedEnt>, ents: set<SchedEnt>)
    {
      match op
      case OpSchedule(e, _) => e.id in ents
      case OpUnschedule(e) => e in ents
      case OpPoll(_, _, _) => true
    }

    lemma HoldsIsQueued(e: SchedEnt)
      requires Valid()
      ensures Holds(e) <==> Queued(queue, e)
    {
    }

    /** Fill in alarm and deadline, and schedule. */
    method PerformSchedule(entry: Entry<SchedEnt>, at: int, ghost ents: set<SchedEnt>)
      requires Ready(ents) && entry.id in ents && !Holds(entry.id)
      modifies this, ents`next, ents`prev, ents`alarm, ents`deadline
      ensures Ready(ents) && queue == AlarmSpec.Schedule(old(queue), entry, at)
    {
      hide Chain, Members, At, AlarmSpec.Schedule, Normalise;
      var e := entry.id;
      e.alarm, e.deadline := entry.alarm, entry.deadline;
      var ok := Schedule(e, at);
    }

    method PerformUnschedule(e: SchedEnt, ghost ents: set<SchedEnt>)
      requires Ready(ents) && e in ents
      modifies this, ents`next, ents`prev
      ensures Ready(ents) && queue == AlarmSpec.Unschedule(old(queue), e)
    {
      hide Chain, Members, At, AlarmSpec.Unschedule;
      Unschedule(e);
    }

    method PerformPoll(now: int, ready: int, later: int, ghost ents: set<SchedEnt>) returns (due: SchedEnt?)
      requires Ready(ents)
      modifies this, ents`next, ents`prev, ents`deadline
      ensures Ready(ents) && (queue, Named(due)) == AlarmSpec.Poll(old(queue), now, ready, later)
    {
      hide Chain, Members, At, AlarmSpec.Poll, AlarmSpec.MoveElapsed;
      var ms;
      ms, due := Poll(now, ready, later);
    }

    /** One operation. */
    method Perform(op: Op<SchedEnt>, ghost ents: set<SchedEnt>) returns (due: SchedEnt?)
      requires Ready(ents) && Concerns(op, ents) && (op.OpSchedule? ==> !Queued(queue, op.entry.id))
      modifies this, ents`next, ents`prev, ents`alarm, ents`deadline
      ensures Ready(ents)
      ensures op.OpSchedule? ==> queue == AlarmSpec.Schedule(old(queue), op.entry, op.at)
      ensures op.OpUnschedule? ==> queue == AlarmSpec.Unschedule(old(queue), op.id)
      ensures op.OpPoll? ==> (queue, Named(due)) == AlarmSpec.Poll(old(queue), op.now, op.ready, op.later)
      ensures !op.OpPoll? ==> due == null
    {
      hide AlarmSpec.Schedule, AlarmSpec.Unschedule, AlarmSpec.Poll, Queued, Valid;
      due := null;
      match op {
        case OpSchedule(entry, at) =>
          HoldsIsQueued(entry.id);
          PerformSchedule(entry, at, ents);
        case OpUnschedule(e) =>
          PerformUnschedule(e, ents);
        case OpPoll(now, ready, later) =>
          due := PerformPoll(now, ready, later, ents);
      }
    }

    /** Any run of operations on the linked lists, with its history: whatever is scheduled is
        pending, has been run or has been taken back, exactly once, and what is run is what the
        history says. */
    method Drive(ops: seq<Op<SchedEnt>>, ghost ents: set<SchedEnt>, ghost clock: int, ghost h: History<SchedEnt>)
      returns (run: seq<SchedEnt>, ghost h': History<SchedEnt>)
      requires Ready(ents) && (forall op :: op in ops ==> Concerns(op, ents))
      requires h.queue == queue && Accounted(h, clock) && LegalRun(h, ops, clock)
      modifies this, ents`next, ents`prev, ents`alarm, ents`deadline
      ensures Ready(ents)
      ensures h' == Steps(h, ops) && h'.queue == queue && Accounted(h', Clock(ops, clock))
      ensures |h'.run| == |h.run| + |run| && h'.run[..|h.run|] == h.run
      ensures forall i :: 0 <= i < |run| ==> h'.run[|h.run| + i].id == run[i]
    {
      hide Ready, Accounted, Concerns;
      run, h' := [], h;
      ghost var c := clock;
      assert ops[0..] == ops;
      for i := 0 to |ops|
        invariant Ready(ents) && h'.queue == queue && Accounted(h', c)
        invariant Steps(h, ops) == Steps(h', ops[i..]) && LegalRun(h', ops[i..], c) && Clock(ops, clock) == Clock(ops[i..], c)
        invariant |h'.run| == |h.run| + |run| && h'.run[..|h.run|] == h.run
        invariant forall k :: 0 <= k < |run| ==> h'.run[|h.run| + k].id == run[k]
      {
        StepsGoOn(h', ops, i, c);
        StepAccounts(h', ops[i], c);
        var due := Perform(ops[i], ents);
        StepRuns(h', ops[i]);
        h', c := Step(h', ops[i]), OpEnd(ops[i], c);
        if due != null {
          run := run + [due];
        }
      }
      assert ops[|ops|..] == [];
    }
  }

  // ----- watched descriptors -----

  const MAX_WATCHED_FDS := 128

  datatype PollFd = PollFd(fd: int, events: int, revents: int)

  datatype Slot = Slot(entry: SchedEnt, poll: PollFd)

  /** Remove by moving the last element into the gap. */
  ghost function SwapRemove(table: seq<Slot>, i: nat): (r: seq<Slot>)
    requires i < |table|
    ensures |r| == |table| - 1
    ensures forall j :: 0 <= j < |r| ==> r[j] == table[if j == i then |r| else j]
  {
    if i == |table| - 1 then table[..i] else table[i := table[|table| - 1]][..|table| - 1]
  }

  lemma SwapRemoveLosesOne(table: seq<Slot>, i: nat)
    requires i < |table|
    ensures multiset(table) == multiset(SwapRemove(table, i)) + multiset{table[i]}
  {
    var n := |table| - 1;
    assert table == table[..n] + [table[n]];
    if i < n {
      assert table[..n] == table[..i] + [table[i]] + table[i + 1..n];
      assert SwapRemove(table, i) == table[..i] + [table[n]] + table[i + 1..n];
    }
  }

  ghost function Entries(table: seq<Slot>): set<SchedEnt>
  {
    set i | 0 <= i < |table| :: table[i].entry
  }

  ghost predicate EachOnce(table: seq<Slot>)
  {
    forall i, j :: 0 <= i < j < |table| ==> table[i].entry != table[j].entry
  }

  lemma SwapRemoveEntries(table: seq<Slot>, i: nat)
    requires i < |table| && EachOnce(table)
    ensures Entries(SwapRemove(table, i)) == Entries(table) - {table[i].entry}
  {
    hide SwapRemove;
    var r := SwapRemove(table, i);
    forall x | x in Entries(table) - {table[i].entry} ensures x in Entries(r) {
      var j :| 0 <= j < |table| && table[j].entry == x;
      assert r[if j == |r| then i else j].entry == x;
    }
    forall x | x in Entries(r) ensures x in Entries(table) - {table[i].entry} {
      var j :| 0 <= j < |r| && r[j].entry == x;
      assert r[j] == table[if j == i then |r| else j];
    }
  }

  lemma AddedEntry(table: seq<Slot>, slot: Slot)
    ensures Entries(table + [slot]) == Entries(table) + {slot.entry}
  {
    var r := table + [slot];
    assert r[|table|] == slot;
    forall x | x in Entries(table) ensures x in Entries(r) {
      var j :| 0 <= j < |table| && table[j].entry == x;
      assert r[j].entry == x;
    }
  }

  lemma SameEntry(table: seq<Slot>, i: nat, slot: Slot)
    requires i < |table| && table[i].entry == slot.entry
    ensures Entries(table[i := slot]) == Entries(table)
  {
    var r := table[i := slot];
    forall x | x in Entries(table) ensures x in Entries(r) {
      var j :| 0 <= j < |table| && table[j].entry == x;
      assert r[j].entry == x;
    }
  }

  class WatchTable {
    const fds: array<PollFd>
    const callbacks: array<SchedEnt?>
    var fdcount: nat
    ghost var table: seq<Slot>
    ghost var watched: set<SchedEnt>

    /** Every watched entry knows its place, and nothing lies beyond the count. */
    ghost predicate Valid()
      reads this, fds, callbacks, watched
    {
      && fds.Length == callbacks.Length == MAX_WATCHED_FDS
      && |table| == fdcount <= MAX_WATCHED_FDS
      && (forall i :: 0 <= i < fdcount ==> callbacks[i] == table[i].entry && fds[i] == table[i].poll)
      && (forall i :: fdcount <= i < MAX_WATCHED_FDS ==> callbacks[i] == null)
      && watched == Entries(table)
      && (forall i :: 0 <= i < fdcount ==> table[i].entry.pollIndex == i)
    }

    constructor ()
      ensures Valid() && table == [] && watched == {} && fresh(fds) && fresh(callbacks)
    {
      fds := new PollFd[MAX_WATCHED_FDS](_ => PollFd(-1, 0, 0));
      callbacks := new SchedEnt?[MAX_WATCHED_FDS](_ => null);
      fdcount, table, watched := 0, [], {};
    }

    lemma Places()
      requires Valid()
      ensures EachOnce(table)
      ensures forall x :: x in watched <==> exists i :: 0 <= i < fdcount && table[i].entry == x
      ensures forall x :: x in watched ==> 0 <= x.pollIndex < fdcount && table[x.pollIndex].entry == x
    {
    }

    /** watch() */
    method Watch(e: SchedEnt) returns (ok: bool)
      requires Valid() && (e in watched || e.pollIndex == -1)
      modifies this, fds, callbacks, e`pollIndex, e`revents
      ensures Valid()
      ensures ok == (e.hasFunction && (e in old(watched) || old(fdcount) < MAX_WATCHED_FDS))
      ensures watched == if ok then old(watched) + {e} else old(watched)
      ensures !ok ==> table == old(table)
      ensures ok && e in old(watched) ==>
                0 <= e.pollIndex < |old(table)| && table == old(table)[e.pollIndex := Slot(e, PollFd(e.fd, e.events, e.revents))]
      ensures ok && e !in old(watched) ==> table == old(table) + [Slot(e, PollFd(e.fd, e.events, 0))]
    {
      Places();
      hide Entries, EachOnce;
      if !e.hasFunction {
        return false;
      }
      if e.pollIndex >= 0 && callbacks[e.pollIndex] == e {
        fds[e.pollIndex] := PollFd(e.fd, e.events, e.revents);
        SameEntry(table, e.pollIndex, Slot(e, PollFd(e.fd, e.events, e.revents)));
        table := table[e.pollIndex := Slot(e, PollFd(e.fd, e.events, e.revents))];
        return true;
      }
      if fdcount >= MAX_WATCHED_FDS {
        return false;
      }
      callbacks[fdcount] := e;
      e.revents := 0;
      e.pollIndex := fdcount;
      fdcount := fdcount + 1;
      fds[e.pollIndex] := PollFd(e.fd, e.events, e.revents);
      AddedEntry(table, Slot(e, PollFd(e.fd, e.events, e.revents)));
      table, watched := table + [Slot(e, PollFd(e.fd, e.events, e.revents))], watched + {e};
      return true;
    }

    /** Move the last slot into the gap at `index`. */
    method Squash(index: nat)
      requires Valid() && index < fdcount
      modifies this`fdcount, fds, callbacks, watched`pollIndex
      ensures fdcount == old(fdcount) - 1
      ensures forall i :: 0 <= i < fdcount ==> callbacks[i] == SwapRemove(table, index)[i].entry
      ensures forall i :: 0 <= i < fdcount ==> fds[i] == SwapRemove(table, index)[i].poll
      ensures forall i :: fdcount <= i < MAX_WATCHED_FDS ==> callbacks[i] == null
      ensures forall i :: 0 <= i < fdcount ==> SwapRemove(table, index)[i].entry.pollIndex == i
    {
      Places();
      hide SwapRemove, Entries;
      fdcount := fdcount - 1;
      if index != fdcount {
        fds[index] := fds[fdcount];
        callbacks[index] := callbacks[fdcount];
        callbacks[index].pollIndex := index;
      }
      fds[fdcount] := fds[fdcount].(fd := -1);
      callbacks[fdcount] := null;
    }

    /** unwatch() */
    method Unwatch(e: SchedEnt) returns (ok: bool)
      requires Valid() && (e in watched || e.pollIndex == -1)
      modifies this, fds, callbacks, watched`pollIndex
      ensures Valid()
      ensures ok == (e in old(watched) && old(table)[old(e.pollIndex)].poll.fd == e.fd)
      ensures ok ==> watched == old(watched) - {e} && e.pollIndex == -1
      ensures ok ==> table == SwapRemove(old(table), old(e.pollIndex))
      ensures ok ==> multiset(old(table)) == multiset(table) + multiset{old(table)[old(e.pollIndex)]}
      ensures !ok ==> table == old(table) && watched == old(watched)
    {
      Places();
      hide SwapRemove, Entries;
      var index := e.pollIndex;
      if index < 0 || fds[index].fd != e.fd {
        return false;
      }
      Squash(index);
      e.pollIndex := -1;
      SwapRemoveEntries(table, index);
      SwapRemoveLosesOne(table, index);
      table, watched := SwapRemove(table, index), watched - {e};
      return true;
    }
  }
}
