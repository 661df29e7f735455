/** dna_helper.c: the handlers of the events of the helper process, on its static state. */
module DnaHelper {
  import opened Wrappers
  import opened DnaSpec
  import ReplyFramer

  /** One field of a reply: copy up to a bar, but no more than `most` characters. */
  method CopyField(line: string, from: nat, most: nat) returns (ok: bool, field: string, next: nat)
    requires from <= |line|
    ensures ok <==> Field(line[from..], most).Some?
    ensures ok ==> next <= |line| && Field(line[from..], most).value == (field, line[next..])
  {
    field, next := [], from;
    AheadOfAll(Field(line[from..], most));
    while next < |line| && line[next] != '|' && |field| < most
      invariant from <= next <= |line| && |field| == next - from <= most
      invariant Field(line[from..], most) == Ahead(field, Field(line[next..], most - |field|))
    {
      FieldStep(line, next, most - |field|, field);
      field := field + [line[next]];
      next := next + 1;
    }
    FieldEnds(line, next, most - |field|, field);
    if next == |line| || line[next] != '|' {
      return false, field, next;
    }
    next := next + 1;
    ok := true;
  }

  ghost function Ahead(head: string, r: Option<(string, string)>): Option<(string, string)>
  {
    if r.None? then None else Some((head + r.value.0, r.value.1))
  }

  lemma AheadOfAll(r: Option<(string, string)>)
    ensures Ahead([], r) == r
  {
    assert r.Some? ==> [] + r.value.0 == r.value.0;
  }

  lemma FieldStep(line: string, next: nat, most: nat, field: string)
    requires next < |line| && line[next] != '|' && most > 0
    ensures Ahead(field, Field(line[next..], most)) == Ahead(field + [line[next]], Field(line[next + 1..], most - 1))
  {
    assert line[next..][1..] == line[next + 1..];
    var r := Field(line[next + 1..], most - 1);
    if r.Some? {
      assert field + ([line[next]] + r.value.0) == (field + [line[next]]) + r.value.0;
    }
  }

  lemma FieldEnds(line: string, next: nat, most: nat, field: string)
    requires next <= |line| && (next == |line| || line[next] == '|' || most == 0)
    ensures Ahead(field, Field(line[next..], most)) ==
            if next < |line| && line[next] == '|' then Some((field, line[next + 1..])) else None
  {
    assert field + [] == field;
    assert next < |line| ==> line[next..][0] == line[next] && line[next..][1..] == line[next + 1..];
  }

  /** parseDnaReply */
  method ParseDnaReply(line: string) returns (r: Option<Reply>)
    ensures r == ParseReply(line)
  {
    hide Field;
    assert line[0..] == line;
    var ok, token, p := CopyField(line, 0, SID_STRLEN);
    if !ok {
      return None;
    }
    var uri;
    ok, uri, p := CopyField(line, p, 511);
    if !ok {
      return None;
    }
    var did;
    ok, did, p := CopyField(line, p, DID_MAXSIZE);
    if !ok {
      return None;
    }
    var name;
    ok, name, p := CopyField(line, p, 63);
    if !ok {
      return None;
    }
    return Some(Reply(token, uri, did, name, line[p..]));
  }

  class Helper<M> {
    var pid: int
    var stdinOpen: bool
    var stdoutOpen: bool
    var stderrOpen: bool
    var started: bool
    var requestBuffer: string
    var requestPosition: Option<nat>
    var requester: M
    var requestDid: string
    var awaitingReply: bool
    var timeoutPending: bool
    var watchingRequests: bool
    const framer: ReplyFramer.Framer

    ghost function View(): State<M>
      reads this
    {
      State(pid, stdinOpen, stdoutOpen, stderrOpen, started, requestBuffer, requestPosition, requester, requestDid,
            awaitingReply, timeoutPending, watchingRequests)
    }

    constructor (nobody: M)
      ensures framer.Valid() && fresh(framer) && fresh(framer.buffer)
      ensures Sound(View()) && Gone(View()) && !started
      ensures Faithful(Beginning(View())) && AllWhole(Beginning(View()))
    {
      hide Sound, Gone, Faithful, Beginning, AllWhole, ReplyFramer.Framer.Valid;
      pid, stdinOpen, stdoutOpen, stderrOpen, started := -1, false, false, false, false;
      requestBuffer, requestPosition, requester, requestDid := [], None, nobody, [];
      awaitingReply, timeoutPending, watchingRequests := false, false, false;
      framer := new ReplyFramer.Framer();
      new;
      NothingYet(nobody);
    }

    /** dna_helper_kill */
    method Kill()
      modifies this`awaitingReply, this`timeoutPending
      ensures View() == DnaSpec.Kill(old(View()))
    {
      if awaitingReply {
        timeoutPending := false;
        awaitingReply := false;
      }
    }

    /** dna_helper_start, with what became of it */
    method Start(launch: Launch) returns (ok: bool)
      requires framer.Valid()
      modifies this, framer
      ensures View() == DnaSpec.Start(old(View()), launch) && ok == !launch.LaunchFailed?
      ensures framer.Valid() && (launch.Launched? ==> framer.stream == [])
      ensures !launch.Launched? ==> unchanged(framer)
    {
      hide ReplyFramer.Framer.Valid;
      match launch {
        case NoneConfigured =>
          pid := 0;
          ok := true;
        case LaunchFailed =>
          ok := false;
        case Launched(newPid) =>
          framer.Empty();
          Begin(newPid);
          ok := true;
      }
    }

    /** The new process is in place of the old one; the request in hand stays. */
    method Begin(newPid: int)
      modifies this
      ensures View() == DnaSpec.Start(old(View()), Launched(newPid))
    {
      pid, started := newPid, false;
      stdinOpen, stdoutOpen, stderrOpen := true, true, true;
      watchingRequests, awaitingReply := false, false;
    }

    /** Put a request into the buffer, over one of which nothing has been sent. */
    method StoreRequest(request: Request<M>)
      modifies this
      ensures View() == Store(old(View()), request)
    {
      var text := request.sid + ['|'] + request.did + ['|', '\n'];
      if |text| >= REQUEST_BYTES {
        if requestPosition.None? {
          requestBuffer := text[..REQUEST_BYTES - 1];
        }
        requestPosition := None;
      } else {
        requestBuffer := text;
        requestPosition := Some(0);
        requester := request.requester;
        requestDid := if |request.did| > DID_MAXSIZE then request.did[..DID_MAXSIZE] else request.did;
      }
    }

    /** dna_helper_enqueue */
    method Enqueue(request: Request<M>, launch: Launch) returns (code: int)
      requires framer.Valid()
      modifies this, framer
      ensures framer.Valid()
      ensures View() == DnaSpec.Enqueue(old(View()), request, launch)
      ensures code == -1 <==> old(pid) != 0 && old(Gone(View())) && launch.LaunchFailed?
    {
      hide Store, DnaSpec.Start, ReplyFramer.Framer.Valid;
      if pid == 0 {
        return 0;
      }
      if pid == -1 && !stdinOpen && !stdoutOpen && !stderrOpen {
        var ok := Start(launch);
        if !ok {
          return -1;
        }
      }
      if !stdinOpen {
        return 0;
      }
      if requestPosition.Some? && requestPosition.value != 0 {
        return 0;
      }
      if awaitingReply {
        return 0;
      }
      StoreRequest(request);
      if started {
        watchingRequests := true;
      }
      return 1;
    }

    /** monitor_requests, when the pipe takes `written` bytes or is found broken */
    method MonitorRequests(hangup: bool, written: nat, broken: bool)
      requires Sound(View()) && (requestPosition.Some? ==> requestPosition.value + written <= |requestBuffer|)
      modifies this
      ensures View() == if hangup then RequestsClosed(old(View())) else Writable(old(View()), written, broken)
    {
      if hangup {
        stdinOpen := false;
        watchingRequests := false;
        Kill();
        return;
      }
      if requestPosition.Some? {
        if requestPosition.value < |requestBuffer| {
          if broken {
            Kill();
          } else if written > 0 {
            requestPosition := Some(requestPosition.value + written);
          }
        }
        if requestPosition.value >= |requestBuffer| {
          requestPosition := None;
          awaitingReply := true;
          timeoutPending := true;
        }
      }
      if requestPosition.None? {
        watchingRequests := false;
      }
    }

    /** handle_reply_line */
    method HandleReplyLine(line: string, c: Checks) returns (forward: Option<Forward<M>>)
      modifies this
      ensures (View(), forward) == ReplyLine(old(View()), line, c)
    {
      hide ParseReply;
      forward := None;
      if !started {
        if line == "STARTED\n" {
          started := true;
          if requestPosition.Some? && stdinOpen {
            watchingRequests := true;
          }
        } else {
          Kill();
        }
      } else if awaitingReply {
        if line == "DONE\n" {
          timeoutPending := false;
          awaitingReply := false;
        } else {
          var r := ParseDnaReply(line);
          if r.Some? && r.value.uri != [] && c.isUri(r.value.uri) && r.value.token != [] && c.isSid(r.value.token)
             && |requestBuffer| >= SID_STRLEN && r.value.token == requestBuffer[..SID_STRLEN]
             && r.value.did != [] && c.isDid(r.value.did) && r.value.did == requestDid
             && r.value.rest != [] && r.value.rest[0] == '\n' {
            forward := Some(Forward(requester, r.value.uri, r.value.did, r.value.name));
          }
        }
      }
    }

    /** monitor_replies: cut what has been read into lines, and handle each; and close the pipe if
        the helper has.  That is a run of the events of those lines. */
    method MonitorReplies(chunk: string, hangup: bool, c: Checks, ghost h: History<M>)
      returns (forwards: seq<Forward<M>>, ghost lines: seq<string>, ghost h': History<M>)
      requires framer.Valid() && framer.used + |chunk| <= ReplyFramer.BUFFER_SIZE
      requires h.state == View() && Faithful(h) && stdoutOpen
      modifies this, framer, framer.buffer
      ensures framer.Valid() && framer.stream == old(framer.stream) + chunk && framer.handled == old(framer.handled) + lines
      ensures LegalRun(h, ReadEvents<M>(lines, hangup), c) && h' == Run(h, ReadEvents(lines, hangup), c)
      ensures h'.state == View() && Faithful(h')
      ensures |h'.log| == |h.log| + |forwards| && h'.log[..|h.log|] == h.log
      ensures forall i :: 0 <= i < |forwards| ==> h'.log[|h.log| + i].1 == forwards[i]
    {
      hide ReplyLine, Faithful, Run, LegalRun, Advance, Step, ReadEvents, ReplyFramer.Framer.Valid;
      forwards := [];
      var cut := framer.Receive(chunk);
      lines, h' := cut, h;
      ghost var events := ReadEvents<M>(lines, hangup);
      EventsFrom<M>(lines, hangup, 0);
      for i := 0 to |cut|
        invariant framer.Valid() && framer.stream == old(framer.stream) + chunk && framer.handled == old(framer.handled) + cut
        invariant h'.state == View() && Faithful(h') && stdoutOpen
        invariant Run(h, events, c) == Run(h', events[i..], c)
        invariant LegalRun(h, events, c) <==> LegalRun(h', events[i..], c)
        invariant |h'.log| == |h.log| + |forwards| && h'.log[..|h.log|] == h.log
        invariant forall k :: 0 <= k < |forwards| ==> h'.log[|h.log| + k].1 == forwards[k]
      {
        EventsFrom<M>(lines, hangup, i);
        LineStep(h', events, i, cut[i], c);
        var forward := HandleReplyLine(cut[i], c);
        h' := Advance(h', events[i], c);
        if forward.Some? {
          forwards := forwards + [forward.value];
        }
      }
      EventsFrom<M>(lines, hangup, |lines|);
      if hangup {
        CloseStep(h', events, |lines|, c);
        CloseReplies();
        h' := Advance(h', EvRepliesClosed, c);
      }
      assert events[|events|..] == [];
      RunEnds(h', c);
    }

    method CloseReplies()
      modifies this
      ensures View() == RepliesClosed(old(View()))
    {
      stdoutOpen := false;
      Kill();
    }

    /** monitor_errors, when the helper has closed its end */
    method CloseErrors()
      modifies this`stderrOpen
      ensures View() == ErrorsClosed(old(View()))
    {
      stderrOpen := false;
    }

    /** reply_timeout */
    method ReplyTimeout()
      requires timeoutPending
      modifies this`awaitingReply, this`timeoutPending
      ensures View() == Timeout(old(View()))
    {
      timeoutPending := false;
      if awaitingReply {
        Kill();
      }
    }

    /** dna_helper_harvest, when the process has died */
    method Harvest()
      modifies this`pid, this`awaitingReply, this`timeoutPending
      ensures View() == DnaSpec.Harvest(old(View()))
    {
      pid := -1;
      if awaitingReply {
        timeoutPending := false;
        awaitingReply := false;
      }
    }

    /** harvester, when the process has died: no other one is launched for a while */
    method Harvester()
      modifies this`pid, this`awaitingReply, this`timeoutPending
      ensures View() == DnaSpec.Harvest(old(View())).(pid := 0)
    {
      Harvest();
      pid := 0;
    }

    /** restart_delayer */
    method RestartDelayer()
      modifies this`pid
      ensures View() == if old(pid) == 0 then old(View()).(pid := -1) else old(View())
    {
      if pid == 0 {
        pid := -1;
      }
    }

    /** dna_helper_shutdown */
    method Shutdown(reaped: bool)
      modifies this
      ensures View() == DnaSpec.Shutdown(old(View()), reaped)
    {
      stdinOpen, stdoutOpen, stderrOpen, watchingRequests := false, false, false, false;
      Kill();
      if pid > 0 && reaped {
        Harvest();
      }
    }

    /** One event of the event loop. */
    method Dispatch(e: Event<M>, c: Checks) returns (forward: Option<Forward<M>>)
      requires Sound(View()) && Enabled(View(), e) && framer.Valid()
      modifies this, framer
      ensures framer.Valid()
      ensures (View(), forward) == Step(old(View()), e, c)
    {
      hide ReplyFramer.Framer.Valid, DnaSpec.Enqueue, DnaSpec.Start, Writable, ReplyLine, DnaSpec.Harvest, DnaSpec.Shutdown, Timeout, RepliesClosed, RequestsClosed;
      forward := None;
      match e {
        case EvStart(launch) => var _ := Start(launch);
        case EvEnqueue(request, launch) => var _ := Enqueue(request, launch);
        case EvWritable(written, broken) => MonitorRequests(false, written, broken);
        case EvRequestsClosed => MonitorRequests(true, 0, false);
        case EvReplyLine(line) => forward := HandleReplyLine(line, c);
        case EvRepliesClosed => CloseReplies();
        case EvErrorsClosed => CloseErrors();
        case EvHarvest => Harvester();
        case EvRestart => RestartDelayer();
        case EvTimeout => ReplyTimeout();
        case EvShutdown(reaped) => Shutdown(reaped);
      }
    }

    /** Any run of events, with its history: whatever happens, the state is that of the request
        in hand, every byte sent is accounted for, and what is forwarded is what the history
        says, each answering a request of its requester. */
    method Drive(events: seq<Event<M>>, c: Checks, ghost h: History<M>)
      returns (forwards: seq<Forward<M>>, ghost h': History<M>)
      requires h.state == View() && Faithful(h) && LegalRun(h, events, c) && framer.Valid()
      modifies this, framer
      ensures framer.Valid()
      ensures h' == Run(h, events, c) && h'.state == View() && Faithful(h')
      ensures |h'.log| == |h.log| + |forwards| && h'.log[..|h.log|] == h.log
      ensures forall i :: 0 <= i < |forwards| ==> h'.log[|h.log| + i].1 == forwards[i]
    {
      hide Step, Run, LegalRun, Faithful, Enabled, Advance, ReplyFramer.Framer.Valid;
      forwards, h' := [], h;
      assert events[0..] == events;
      for i := 0 to |events|
        invariant h'.state == View() && Faithful(h') && framer.Valid()
        invariant Run(h, events, c) == Run(h', events[i..], c) && LegalRun(h', events[i..], c)
        invariant |h'.log| == |h.log| + |forwards| && h'.log[..|h.log|] == h.log
        invariant forall k :: 0 <= k < |forwards| ==> h'.log[|h.log| + k].1 == forwards[k]
      {
        RunStep(h', events, i, c);
        AdvanceIsFaithful(h', events[i], c);
        Logs(h', events[i], c);
        var forward := Dispatch(events[i], c);
        h' := Advance(h', events[i], c);
        if forward.Some? {
          forwards := forwards + [forward.value];
        }
      }
      assert events[|events|..] == [];
      RunEnds(h', c);
    }
  }

  lemma NothingYet<M>(nobody: M)
    ensures var s := State(-1, false, false, false, false, [], None, nobody, [], false, false, false);
      Sound(s) && Gone(s) && Faithful(Beginning(s)) && AllWhole(Beginning(s))
  {
  }

  lemma Logs<M>(h: History<M>, e: Event<M>, c: Checks)
    requires Faithful(h)
    ensures Sound(h.state)
    ensures var (s', forward), h' := Step(h.state, e, c), Advance(h, e, c);
      && h'.state == s'
      && (if forward.Some? then h.request.Some? && h'.log == h.log + [(h.request.value, forward.value)] else h'.log == h.log)
  {
    if e.EvReplyLine? && ReplyLine(h.state, e.line, c).1.Some? {
      ForwardAnswersRequest(h, e.line, c);
    }
    hide ParseReply, FeedAfter, Takes;
  }

  /** What one read amounts to. */
  ghost function ReadEvents<M>(lines: seq<string>, hangup: bool): seq<Event<M>>
  {
    seq(|lines|, i requires 0 <= i < |lines| => EvReplyLine(lines[i])) + if hangup then [EvRepliesClosed] else []
  }

  lemma EventsFrom<M>(lines: seq<string>, hangup: bool, i: nat)
    requires i <= |lines|
    ensures var events := ReadEvents<M>(lines, hangup);
      && |events| == |lines| + (if hangup then 1 else 0) && events[0..] == events
      && (i < |lines| ==> events[i] == EvReplyLine(lines[i]))
      && (i == |lines| && hangup ==> events[i] == EvRepliesClosed)
  {
  }

  /** One line: the event is enabled, and the pipe stays open. */
  lemma LineStep<M>(h: History<M>, events: seq<Event<M>>, i: nat, line: string, c: Checks)
    requires i < |events| && events[i] == EvReplyLine(line) && Faithful(h) && h.state.stdoutOpen
    ensures var h' := Advance(h, events[i], c);
      && Run(h, events[i..], c) == Run(h', events[i + 1..], c)
      && (LegalRun(h, events[i..], c) <==> LegalRun(h', events[i + 1..], c))
      && Faithful(h') && h'.state.stdoutOpen && h'.state == ReplyLine(h.state, line, c).0
      && (if ReplyLine(h.state, line, c).1.Some?
          then h.request.Some? && h'.log == h.log + [(h.request.value, ReplyLine(h.state, line, c).1.value)]
          else h'.log == h.log)
  {
    RunStep(h, events, i, c);
    AdvanceIsFaithful(h, events[i], c);
    Logs(h, events[i], c);
    hide ParseReply, Faithful, FeedAfter, Run, LegalRun;
  }

  lemma CloseStep<M>(h: History<M>, events: seq<Event<M>>, i: nat, c: Checks)
    requires i < |events| && events[i] == EvRepliesClosed && Faithful(h) && h.state.stdoutOpen
    ensures var h' := Advance(h, events[i], c);
      && Run(h, events[i..], c) == Run(h', events[i + 1..], c)
      && (LegalRun(h, events[i..], c) <==> LegalRun(h', events[i + 1..], c))
      && Faithful(h') && h'.state == RepliesClosed(h.state) && h'.log == h.log
  {
    RunStep(h, events, i, c);
    AdvanceIsFaithful(h, events[i], c);
    hide ParseReply, Faithful, FeedAfter, Run, LegalRun;
  }
}
