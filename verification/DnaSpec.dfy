/** The driver of the DNA helper process as a state machine over its events. */
module DnaSpec {
  import opened Wrappers

  const SID_STRLEN := 64
  const DID_MAXSIZE := 32
  /** SID|DID|\n and the end of the string. */
  const REQUEST_BYTES := 100

  // ----- replies -----

  /** The text before the first bar, if there is a bar within `most` characters, and what
      follows it. */
  function Field(s: string, most: nat): Option<(string, string)>
  {
    if s == [] then None
    else if s[0] == '|' then Some(([], s[1..]))
    else if most == 0 then None
    else
      var r := Field(s[1..], most - 1);
      if r.None? then None else Some(([s[0]] + r.value.0, r.value.1))
  }

  datatype Reply = Reply(token: string, uri: string, did: string, name: string, rest: string)

  /** parseDnaReply: TOKEN|URI|DID|NAME| */
  function ParseReply(s: string): Option<Reply>
  {
    var a := Field(s, SID_STRLEN);
    if a.None? then None
    else
      var b := Field(a.value.1, 511);
      if b.None? then None
      else
        var c := Field(b.value.1, DID_MAXSIZE);
        if c.None? then None
        else
          var d := Field(c.value.1, 63);
          if d.None? then None
          else Some(Reply(a.value.0, b.value.0, c.value.0, d.value.0, d.value.1))
  }

  predicate NoBar(s: string)
  {
    forall i :: 0 <= i < |s| ==> s[i] != '|'
  }

  lemma {:induction false} FieldReads(f: string, tail: string, most: nat)
    requires NoBar(f) && |f| <= most
    ensures Field(f + ['|'] + tail, most) == Some((f, tail))
  {
    var s := f + ['|'] + tail;
    if f == [] {
      assert s[1..] == tail;
    } else {
      assert s[1..] == f[1..] + ['|'] + tail && f == [f[0]] + f[1..];
      FieldReads(f[1..], tail, most - 1);
    }
  }

  lemma {:induction false} FieldIs(s: string, most: nat)
    ensures var r := Field(s, most);
            r.Some? ==> NoBar(r.value.0) && |r.value.0| <= most && s == r.value.0 + ['|'] + r.value.1
  {
    if s != [] && s[0] != '|' && most > 0 {
      FieldIs(s[1..], most - 1);
      assert s == [s[0]] + s[1..];
    }
  }

  function Print(r: Reply): string
  {
    r.token + ['|'] + (r.uri + ['|'] + (r.did + ['|'] + (r.name + ['|'] + r.rest)))
  }

  ghost predicate Proper(r: Reply)
  {
    && NoBar(r.token) && NoBar(r.uri) && NoBar(r.did) && NoBar(r.name)
    && |r.token| <= 64 && |r.uri| <= 511 && |r.did| <= 32 && |r.name| <= 63
  }

  /** A line parses if and only if it is a reply with fields that fit: such a reply
      parses to itself, and ParsedIsReply has the other half. */
  lemma ReplyParses(r: Reply)
    requires Proper(r)
    ensures ParseReply(Print(r)) == Some(r)
  {
    hide Field;
    var d := r.name + ['|'] + r.rest;
    var c := r.did + ['|'] + d;
    var b := r.uri + ['|'] + c;
    FieldReads(r.name, r.rest, 63);
    FieldReads(r.did, d, DID_MAXSIZE);
    FieldReads(r.uri, c, 511);
    FieldReads(r.token, b, SID_STRLEN);
  }

  lemma ParsedIsReply(s: string)
    ensures ParseReply(s).Some? ==> Proper(ParseReply(s).value) && Print(ParseReply(s).value) == s
  {
    hide Field;
    FieldIs(s, SID_STRLEN);
    var a := Field(s, SID_STRLEN);
    if a.Some? {
      FieldIs(a.value.1, 511);
      var b := Field(a.value.1, 511);
      if b.Some? {
        FieldIs(b.value.1, DID_MAXSIZE);
        var c := Field(b.value.1, DID_MAXSIZE);
        if c.Some? {
          FieldIs(c.value.1, 63);
        }
      }
    }
  }

  /** The checks of URIs, numbers and subscriber ids in dataformats.c. */
  datatype Checks = Checks(isUri: string -> bool, isDid: string -> bool, isSid: string -> bool)

  // ----- state -----

  /** The static variables: the process, its pipes, the request in hand and how much of it
      has been sent, and whether a reply is awaited.  `watching` means that the event loop
      watches the request pipe, `timeout` that the timeout alarm is pending. */
  datatype State<M> = State(
    pid: int, stdinOpen: bool, stdoutOpen: bool, stderrOpen: bool, started: bool,
    buffer: string, position: Option<nat>, requester: M, did: string,
    awaiting: bool, timeout: bool, watching: bool)

  datatype Request<M> = Request(sid: string, did: string, requester: M)

  function TextOf<M>(r: Request<M>): string
  {
    r.sid + ['|'] + r.did + ['|', '\n']
  }

  /** dna_helper_kill: the wait ends; the process is harvested later. */
  function Kill<M>(s: State<M>): State<M>
  {
    if s.awaiting then s.(awaiting := false, timeout := false) else s
  }

  datatype Launch = NoneConfigured | LaunchFailed | Launched(pid: int)

  /** dna_helper_start */
  function Start<M>(s: State<M>, l: Launch): State<M>
  {
    match l
    case NoneConfigured => s.(pid := 0)
    case LaunchFailed => s
    case Launched(pid) =>
      s.(pid := pid, stdinOpen := true, stdoutOpen := true, stderrOpen := true, started := false,
         watching := false, awaiting := false)
  }

  predicate Gone<M>(s: State<M>)
  {
    s.pid == -1 && !s.stdinOpen && !s.stdoutOpen && !s.stderrOpen
  }

  /** dna_helper_enqueue, up to the checks that can drop the request. */
  predicate Accepts<M>(s: State<M>)
  {
    s.stdinOpen && (s.position.None? || s.position.value == 0) && !s.awaiting
  }

  function Store<M>(s: State<M>, r: Request<M>): State<M>
  {
    if |TextOf(r)| < REQUEST_BYTES then
      s.(buffer := TextOf(r), position := Some(0), requester := r.requester,
         did := if |r.did| > DID_MAXSIZE then r.did[..DID_MAXSIZE] else r.did)
    else
      s.(position := None, buffer := if s.position.None? then TextOf(r)[..REQUEST_BYTES - 1] else s.buffer)
  }

  function Enqueue<M>(s: State<M>, r: Request<M>, l: Launch): State<M>
  {
    if s.pid == 0 then s
    else
      var s1 := if Gone(s) then Start(s, l) else s;
      if (Gone(s) && l.LaunchFailed?) || !Accepts(s1) then s1
      else
        var s2 := Store(s1, r);
        s2.(watching := s2.watching || s2.started)
  }

  function Sent<M>(s: State<M>, written: nat, broken: bool): State<M>
  {
    if s.position.None? then s
    else if broken then Kill(s)
    else s.(position := Some(s.position.value + written))
  }

  function Awaited<M>(s: State<M>): State<M>
  {
    if s.position.Some? && s.position.value >= |s.buffer| then s.(position := None, awaiting := true, timeout := true) else s
  }

  /** monitor_requests, when the pipe can be written to: `written` bytes are taken, or the
      pipe turns out to be broken. */
  function Writable<M>(s: State<M>, written: nat, broken: bool): State<M>
  {
    var s2 := Awaited(Sent(s, written, broken));
    if s2.position.None? then s2.(watching := false) else s2
  }

  /** monitor_requests, when the helper has closed its end. */
  function RequestsClosed<M>(s: State<M>): State<M>
  {
    Kill(s.(stdinOpen := false, watching := false))
  }

  datatype Forward<M> = Forward(requester: M, uri: string, did: string, name: string)

  predicate Answers<M>(s: State<M>, r: Reply, c: Checks)
  {
    && r.uri != [] && c.isUri(r.uri) && r.token != [] && c.isSid(r.token)
    && |s.buffer| >= SID_STRLEN && r.token == s.buffer[..SID_STRLEN]
    && r.did != [] && c.isDid(r.did) && r.did == s.did && r.rest != [] && r.rest[0] == '\n'
  }

  /** handle_reply_line */
  function ReplyLine<M>(s: State<M>, line: string, c: Checks): (State<M>, Option<Forward<M>>)
  {
    if !s.started then
      if line == "STARTED\n" then
        (s.(started := true, watching := s.watching || (s.position.Some? && s.stdinOpen)), None)
      else (Kill(s), None)
    else if s.awaiting then
      if line == "DONE\n" then (s.(awaiting := false, timeout := false), None)
      else
        var r := ParseReply(line);
        if r.Some? && Answers(s, r.value, c)
        then (s, Some(Forward(s.requester, r.value.uri, r.value.did, r.value.name)))
        else (s, None)
    else (s, None)
  }

  function RepliesClosed<M>(s: State<M>): State<M>
  {
    Kill(s.(stdoutOpen := false))
  }

  function ErrorsClosed<M>(s: State<M>): State<M>
  {
    s.(stderrOpen := false)
  }

  /** dna_helper_harvest: the process has been found dead. */
  function Harvest<M>(s: State<M>): State<M>
  {
    Kill(s.(pid := -1))
  }

  /** reply_timeout */
  function Timeout<M>(s: State<M>): State<M>
  {
    if s.awaiting then Kill(s.(timeout := false)) else s.(timeout := false)
  }

  /** dna_helper_shutdown; `reaped` says whether the wait for the process succeeds. */
  function Shutdown<M>(s: State<M>, reaped: bool): State<M>
  {
    var s1 := Kill(s.(stdinOpen := false, stdoutOpen := false, stderrOpen := false, watching := false));
    if s1.pid > 0 && reaped then s1.(pid := -1) else s1
  }

  // ----- events -----

  datatype Event<M> =
    | EvStart(launch: Launch)
    | EvEnqueue(request: Request<M>, launch: Launch)
    | EvWritable(written: nat, broken: bool)
    | EvRequestsClosed
    | EvReplyLine(line: string)
    | EvRepliesClosed
    | EvErrorsClosed
    | EvHarvest
    | EvRestart
    | EvTimeout
    | EvShutdown(reaped: bool)

  /** When the event loop can deliver an event: a pipe is watched, an alarm is pending, and
      no more is written than there is. */
  predicate Enabled<M>(s: State<M>, e: Event<M>)
  {
    match e
    case EvStart(l) => Gone(s) && (l.Launched? ==> l.pid > 0)
    case EvEnqueue(r, l) => |r.sid| == SID_STRLEN && (l.Launched? ==> l.pid > 0)
    case EvWritable(written, _) => s.watching && (s.position.Some? ==> s.position.value + written <= |s.buffer|)
    case EvRequestsClosed => s.watching
    case EvReplyLine(_) => s.stdoutOpen
    case EvRepliesClosed => s.stdoutOpen
    case EvErrorsClosed => s.stderrOpen
    case EvHarvest => s.pid > 0
    case EvRestart => true
    case EvTimeout => s.timeout
    case EvShutdown(_) => true
  }

  function Step<M>(s: State<M>, e: Event<M>, c: Checks): (State<M>, Option<Forward<M>>)
  {
    match e
    case EvStart(l) => (Start(s, l), None)
    case EvEnqueue(r, l) => (Enqueue(s, r, l), None)
    case EvWritable(written, broken) => (Writable(s, written, broken), None)
    case EvRequestsClosed => (RequestsClosed(s), None)
    case EvReplyLine(line) => ReplyLine(s, line, c)
    case EvRepliesClosed => (RepliesClosed(s), None)
    case EvErrorsClosed => (ErrorsClosed(s), None)
    case EvHarvest => (Harvest(s).(pid := 0), None)
    case EvRestart => (if s.pid == 0 then s.(pid := -1) else s, None)
    case EvTimeout => (Timeout(s), None)
    case EvShutdown(reaped) => (Shutdown(s, reaped), None)
  }

  /** At most one request is in hand, and the timeout alarm is pending exactly while a reply
      is awaited; and as long as there is something to be sent to a helper that has started,
      its pipe is watched. */
  ghost predicate Sound<M>(s: State<M>)
  {
    && (s.position.Some? ==> !s.awaiting && s.position.value < |s.buffer|)
    && (s.timeout <==> s.awaiting)
    && (s.awaiting ==> s.stdinOpen) && (s.watching ==> s.stdinOpen)
    && (s.position.Some? && s.started && s.stdinOpen ==> s.watching)
  }

  lemma StartKeepsSound<M>(s: State<M>, l: Launch)
    requires Sound(s) && Gone(s)
    ensures Sound(Start(s, l))
  {
  }

  lemma StoreKeepsSound<M>(s: State<M>, r: Request<M>)
    requires Sound(s) && Accepts(s)
    ensures var s' := Store(s, r); Sound(s'.(watching := s'.watching || s'.started)) && s'.stdinOpen
  {
  }

  lemma EnqueueKeepsSound<M>(s: State<M>, r: Request<M>, l: Launch)
    requires Sound(s)
    ensures Sound(Enqueue(s, r, l))
  {
    hide Store, Start;
    if Gone(s) {
      StartKeepsSound(s, l);
    }
    var s1 := if Gone(s) then Start(s, l) else s;
    if Accepts(s1) {
      StoreKeepsSound(s1, r);
    }
  }

  lemma WritableKeepsSound<M>(s: State<M>, written: nat, broken: bool)
    requires Sound(s) && s.watching && (s.position.Some? ==> s.position.value + written <= |s.buffer|)
    ensures Sound(Writable(s, written, broken))
  {
  }

  lemma ReplyKeepsSound<M>(s: State<M>, line: string, c: Checks)
    requires Sound(s)
    ensures Sound(ReplyLine(s, line, c).0)
  {
  }

  lemma StepKeepsSound<M>(s: State<M>, e: Event<M>, c: Checks)
    requires Sound(s) && Enabled(s, e)
    ensures Sound(Step(s, e, c).0)
  {
    hide Enqueue, Writable, ReplyLine, Start;
    match e
    case EvStart(l) => StartKeepsSound(s, l);
    case EvEnqueue(r, l) => EnqueueKeepsSound(s, r, l);
    case EvWritable(written, broken) => WritableKeepsSound(s, written, broken);
    case EvReplyLine(line) => ReplyKeepsSound(s, line, c);
    case _ =>
  }

  /** From the first byte sent until the wait for the reply ends. */
  predicate InFlight<M>(s: State<M>)
  {
    s.awaiting || (s.position.Some? && s.position.value > 0)
  }

  /** The request in hand is the same, and no less of it has been sent. */
  ghost predicate Frozen<M>(s: State<M>, s': State<M>)
  {
    && s'.buffer == s.buffer && s'.did == s.did && s'.requester == s.requester
    && (s.position.Some? && s'.position.Some? ==> s.position.value <= s'.position.value)
    && (s.awaiting && InFlight(s') ==> s'.awaiting)
  }

  lemma EnqueueIsFrozen<M>(s: State<M>, r: Request<M>, l: Launch)
    requires Sound(s) && InFlight(s)
    ensures Frozen(s, Enqueue(s, r, l))
  {
  }

  lemma WritableIsFrozen<M>(s: State<M>, written: nat, broken: bool)
    requires Sound(s) && InFlight(s)
    ensures Frozen(s, Writable(s, written, broken))
  {
  }

  lemma ReplyIsFrozen<M>(s: State<M>, line: string, c: Checks)
    requires Sound(s) && InFlight(s)
    ensures Frozen(s, ReplyLine(s, line, c).0)
  {
  }

  /** While a request is in flight, nothing changes its text, its number or its requester. */
  lemma InFlightIsFrozen<M>(s: State<M>, e: Event<M>, c: Checks)
    requires Sound(s) && Enabled(s, e) && InFlight(s)
    ensures Frozen(s, Step(s, e, c).0)
  {
    hide Enqueue, Writable, ReplyLine;
    match e
    case EvEnqueue(r, l) => EnqueueIsFrozen(s, r, l);
    case EvWritable(written, broken) => WritableIsFrozen(s, written, broken);
    case EvReplyLine(line) => ReplyIsFrozen(s, line, c);
    case _ =>
  }

  // ----- what events change -----

  /** A helper is launched, where the one before is well and truly gone. */
  predicate NewHelper<M>(s: State<M>, e: Event<M>)
  {
    && (e.EvStart? || e.EvEnqueue?) && e.launch.Launched?
    && s.pid == -1 && !(s.stdinOpen || s.stdoutOpen || s.stderrOpen)
  }

  /** The process and its pipes change with these events and no others. */
  lemma HelperChanges<M>(s: State<M>, e: Event<M>, c: Checks)
    requires Enabled(s, e)
    ensures var s' := Step(s, e, c).0;
      && (s'.stdinOpen <==> NewHelper(s, e) || (s.stdinOpen && !e.EvRequestsClosed? && !e.EvShutdown?))
      && (s'.stdoutOpen <==> NewHelper(s, e) || (s.stdoutOpen && !e.EvRepliesClosed? && !e.EvShutdown?))
      && (s'.stderrOpen <==> NewHelper(s, e) || (s.stderrOpen && !e.EvErrorsClosed? && !e.EvShutdown?))
      && (s'.started <==> !NewHelper(s, e) && (s.started || e == EvReplyLine("STARTED\n")))
  {
    HelperAfter(s, e, c);
    hide Step;
  }

  ghost predicate HelperIs<M>(s: State<M>, pid: int, stdinOpen: bool, stdoutOpen: bool, stderrOpen: bool, started: bool)
  {
    s.pid == pid && s.stdinOpen == stdinOpen && s.stdoutOpen == stdoutOpen && s.stderrOpen == stderrOpen && s.started == started
  }

  ghost predicate SameHelper<M>(s: State<M>, s': State<M>)
  {
    HelperIs(s', s.pid, s.stdinOpen, s.stdoutOpen, s.stderrOpen, s.started)
  }

  ghost predicate HelperLaunched<M>(s: State<M>, l: Launch, s': State<M>)
  {
    match l
    case Launched(pid) => HelperIs(s', pid, true, true, true, false)
    case NoneConfigured => HelperIs(s', 0, s.stdinOpen, s.stdoutOpen, s.stderrOpen, s.started)
    case LaunchFailed => SameHelper(s, s')
  }

  /** What becomes of the helper, event by event. */
  lemma HelperAfter<M>(s: State<M>, e: Event<M>, c: Checks)
    ensures var s' := Step(s, e, c).0;
      match e
      case EvStart(l) => HelperLaunched(s, l, s')
      case EvEnqueue(_, l) => if Gone(s) then HelperLaunched(s, l, s') else SameHelper(s, s')
      case EvRequestsClosed => HelperIs(s', s.pid, false, s.stdoutOpen, s.stderrOpen, s.started)
      case EvReplyLine(line) => HelperIs(s', s.pid, s.stdinOpen, s.stdoutOpen, s.stderrOpen, s.started || line == "STARTED\n")
      case EvRepliesClosed => HelperIs(s', s.pid, s.stdinOpen, false, s.stderrOpen, s.started)
      case EvErrorsClosed => HelperIs(s', s.pid, s.stdinOpen, s.stdoutOpen, false, s.started)
      case EvHarvest => HelperIs(s', 0, s.stdinOpen, s.stdoutOpen, s.stderrOpen, s.started)
      case EvRestart => HelperIs(s', if s.pid == 0 then -1 else s.pid, s.stdinOpen, s.stdoutOpen, s.stderrOpen, s.started)
      case EvShutdown(reaped) => HelperIs(s', if s.pid > 0 && reaped then -1 else s.pid, false, false, false, s.started)
      case _ => SameHelper(s, s')
  {
    hide Enqueue, Writable, ReplyLine;
    match e
    case EvEnqueue(r, l) => EnqueueHelper(s, r, l);
    case EvWritable(written, broken) => WritableHelper(s, written, broken);
    case EvReplyLine(line) => ReplyHelper(s, line, c);
    case _ =>
  }

  ghost predicate SameRequest<M>(s: State<M>, s': State<M>)
  {
    s'.buffer == s.buffer && s'.position == s.position && s'.requester == s.requester && s'.did == s.did
  }

  lemma EndsRequest<M>(s: State<M>)
    ensures SameRequest(s, RequestsClosed(s)) && SameRequest(s, RepliesClosed(s)) && SameRequest(s, Harvest(s))
    ensures SameRequest(s, Timeout(s)) && forall reaped :: SameRequest(s, Shutdown(s, reaped))
    ensures !RequestsClosed(s).awaiting && !RepliesClosed(s).awaiting && !Harvest(s).awaiting && !Timeout(s).awaiting
    ensures forall reaped :: !Shutdown(s, reaped).awaiting
  {
  }

  lemma WritableHelper<M>(s: State<M>, written: nat, broken: bool)
    ensures SameHelper(s, Writable(s, written, broken))
  {
    SentHelper(s, written, broken);
    AwaitedHelper(Sent(s, written, broken));
    hide Sent, Awaited;
  }

  lemma SentHelper<M>(s: State<M>, written: nat, broken: bool)
    ensures SameHelper(s, Sent(s, written, broken))
  {
  }

  lemma AwaitedHelper<M>(s: State<M>)
    ensures SameHelper(s, Awaited(s))
  {
  }

  lemma ReplyHelper<M>(s: State<M>, line: string, c: Checks)
    ensures HelperIs(ReplyLine(s, line, c).0, s.pid, s.stdinOpen, s.stdoutOpen, s.stderrOpen, s.started || line == "STARTED\n")
  {
    hide ParseReply, Answers;
  }

  lemma StoreKeepsHelper<M>(s: State<M>, r: Request<M>)
    ensures SameHelper(s, Store(s, r))
  {
    hide TextOf;
  }

  lemma EnqueueHelper<M>(s: State<M>, r: Request<M>, l: Launch)
    ensures if Gone(s) then HelperLaunched(s, l, Enqueue(s, r, l)) else SameHelper(s, Enqueue(s, r, l))
  {
    StoreKeepsHelper(if Gone(s) then Start(s, l) else s, r);
    StartHelper(s, l);
    hide Store, Accepts, Start;
  }

  lemma StartHelper<M>(s: State<M>, l: Launch)
    ensures HelperLaunched(s, l, Start(s, l))
  {
  }

  /** No helper is looked for any more when none is configured, and none for a while after one
      has died. */
  lemma ProcessChanges<M>(s: State<M>, e: Event<M>, c: Checks)
    requires Enabled(s, e)
    ensures Step(s, e, c).0.pid ==
              if NewHelper(s, e) then e.launch.pid
              else if (e.EvStart? || e.EvEnqueue?) && e.launch.NoneConfigured?
                      && s.pid == -1 && !(s.stdinOpen || s.stdoutOpen || s.stderrOpen) then 0
              else if e.EvHarvest? then 0
              else if s.pid == 0 && e.EvRestart? then -1
              else if s.pid > 0 && e == EvShutdown(true) then -1
              else s.pid
  {
    HelperAfter(s, e, c);
    hide Step;
  }

  /** The last byte of the request in hand goes out. */
  predicate SendsLast<M>(s: State<M>, e: Event<M>)
  {
    e.EvWritable? && !e.broken && s.position.Some? && s.position.value + e.written >= |s.buffer|
  }

  /** The mark behind the last reply, a line before the greeting, a pipe or the process gone,
      the timeout, and the end. */
  predicate EndsWait<M>(s: State<M>, e: Event<M>)
  {
    || e.EvRequestsClosed? || e.EvRepliesClosed? || e.EvHarvest? || e.EvTimeout? || e.EvShutdown?
    || (e.EvReplyLine? && if s.started then e.line == "DONE\n" else e.line != "STARTED\n")
  }

  /** A reply is awaited from the last byte of a request until one of those events. */
  lemma WaitChanges<M>(s: State<M>, e: Event<M>, c: Checks)
    requires Sound(s) && Enabled(s, e)
    ensures Step(s, e, c).0.awaiting <==> SendsLast(s, e) || (s.awaiting && !EndsWait(s, e))
  {
    hide ReplyLine, Enqueue, Writable, RequestsClosed, RepliesClosed, Harvest, Timeout, Shutdown;
    match e
    case EvEnqueue(r, l) => EnqueueRequest(s, r, l);
    case EvWritable(written, broken) => WritableRequest(s, written, broken);
    case EvReplyLine(line) => ReplyRequest(s, line, c);
    case EvStart(_) =>
    case _ => EndsRequest(s);
  }

  lemma WritableRequest<M>(s: State<M>, written: nat, broken: bool)
    requires Sound(s)
    ensures var s' := Writable(s, written, broken);
      && s'.buffer == s.buffer && s'.requester == s.requester && s'.did == s.did
      && (if s.position.None? || broken then s'.position == s.position && s'.awaiting == s.awaiting
          else if s.position.value + written >= |s.buffer| then s'.position == None && s'.awaiting
          else s'.position == Some(s.position.value + written) && !s'.awaiting)
  {
    WritableIs(s, written, broken);
    hide Writable;
  }

  lemma WritableIs<M>(s: State<M>, written: nat, broken: bool)
    requires Sound(s)
    ensures Writable(s, written, broken) ==
              if s.position.None? then s.(watching := false)
              else if broken then s
              else if s.position.value + written >= |s.buffer|
              then s.(position := None, awaiting := true, timeout := true, watching := false)
              else s.(position := Some(s.position.value + written))
  {
    var s1 := Sent(s, written, broken);
    if s.position.None? || broken {
      assert s1 == s;
      assert Awaited(s) == s;
    } else {
      assert s1 == s.(position := Some(s.position.value + written));
    }
    hide Sent;
  }

  lemma ReplyRequest<M>(s: State<M>, line: string, c: Checks)
    ensures var s' := ReplyLine(s, line, c).0;
      && SameRequest(s, s')
      && (s'.awaiting <==> s.awaiting && if s.started then line != "DONE\n" else line == "STARTED\n")
  {
    hide ParseReply, Answers;
  }

  /** A request is looked at only while nothing of another one has been sent. */
  predicate LooksAt<M>(s: State<M>, e: Event<M>)
  {
    e.EvEnqueue? && s.pid != 0 && (s.stdinOpen || NewHelper(s, e)) && !s.awaiting
    && (s.position.None? || s.position.value == 0)
  }

  /** The request in hand changes only to one that is looked at and short enough, takes the
      place of one of which nothing has been sent, and goes out byte by byte. */
  lemma RequestChanges<M>(s: State<M>, e: Event<M>, c: Checks)
    requires Sound(s) && Enabled(s, e)
    ensures var s' := Step(s, e, c).0;
      if LooksAt(s, e) then
        if |e.request.did| <= 32 then
          && s'.buffer == e.request.sid + "|" + e.request.did + "|\n" && s'.position == Some(0)
          && s'.requester == e.request.requester && s'.did == e.request.did
        else
          && s'.position == None && s'.requester == s.requester && s'.did == s.did
          && s'.buffer == if s.position.None? then (e.request.sid + "|" + e.request.did + "|\n")[..99] else s.buffer
      else
        && s'.buffer == s.buffer && s'.requester == s.requester && s'.did == s.did
        && s'.position == if SendsLast(s, e) then None
                          else if e.EvWritable? && !e.broken && s.position.Some? then Some(s.position.value + e.written)
                          else s.position
  {
    hide ReplyLine, Enqueue, Writable, RequestsClosed, RepliesClosed, Harvest, Timeout, Shutdown;
    match e
    case EvEnqueue(r, l) => EnqueueRequest(s, r, l);
    case EvWritable(written, broken) => WritableRequest(s, written, broken);
    case EvReplyLine(line) => ReplyRequest(s, line, c);
    case EvStart(_) =>
    case _ => EndsRequest(s);
  }

  lemma EnqueueRequest<M>(s: State<M>, r: Request<M>, l: Launch)
    requires Sound(s)
    ensures Enqueue(s, r, l).awaiting == s.awaiting
    ensures var s' := Enqueue(s, r, l);
      if s.pid == 0 || !(s.stdinOpen || (Gone(s) && l.Launched?)) || s.awaiting || (s.position.Some? && s.position.value != 0) then
        && s'.buffer == s.buffer && s'.requester == s.requester && s'.did == s.did && s'.position == s.position
        && (s'.watching <==> s.watching && !(Gone(s) && l.Launched?))
      else
        && (s'.watching <==> (s.watching || s.started) && !(Gone(s) && l.Launched?))
        && if |r.sid| + |r.did| + 3 < REQUEST_BYTES then
             && s'.buffer == TextOf(r) && s'.position == Some(0) && s'.requester == r.requester
             && (|r.did| <= DID_MAXSIZE ==> s'.did == r.did)
           else
             && s'.position == None && s'.requester == s.requester && s'.did == s.did
             && s'.buffer == if s.position.None? then TextOf(r)[..99] else s.buffer
  {
    var s1 := if Gone(s) then Start(s, l) else s;
    StartRequest(s, l);
    StoreIs(s1, r);
    hide Start, Store, TextOf;
  }

  lemma StartRequest<M>(s: State<M>, l: Launch)
    ensures SameRequest(s, Start(s, l)) && Start(s, l).stdinOpen == (s.stdinOpen || l.Launched?)
    ensures var s' := Start(s, l); if l.Launched? then !s'.awaiting && !s'.watching && !s'.started
                                   else s'.awaiting == s.awaiting && s'.watching == s.watching && s'.started == s.started
  {
  }

  lemma StoreIs<M>(s: State<M>, r: Request<M>)
    ensures var s' := Store(s, r);
      && s'.awaiting == s.awaiting && s'.watching == s.watching && s'.started == s.started
      && if |r.sid| + |r.did| + 3 < REQUEST_BYTES then
           && s'.buffer == TextOf(r) && s'.position == Some(0) && s'.requester == r.requester
           && (|r.did| <= DID_MAXSIZE ==> s'.did == r.did)
         else
           && s'.position == None && s'.requester == s.requester && s'.did == s.did
           && s'.buffer == if s.position.None? then TextOf(r)[..99] else s.buffer
  {
    assert |TextOf(r)| == |r.sid| + |r.did| + 3;
    hide TextOf;
  }

  /** The request pipe is watched from the greeting on, or from the next request, until there
      is nothing left to send. */
  lemma WatchChanges<M>(s: State<M>, e: Event<M>, c: Checks)
    requires Sound(s) && Enabled(s, e)
    ensures Step(s, e, c).0.watching <==>
              && !NewHelper(s, e) && !e.EvRequestsClosed? && !e.EvShutdown?
              && (e.EvWritable? ==> s.position.Some? && !SendsLast(s, e))
              && (|| s.watching || (LooksAt(s, e) && s.started)
                  || (!s.started && e == EvReplyLine("STARTED\n") && s.position.Some? && s.stdinOpen))
  {
    if e.EvEnqueue? {
      EnqueueRequest(s, e.request, e.launch);
    }
    hide ParseReply, TextOf, Answers, Enqueue;
  }

  /** A request that is in hand when the helper has started can go out, and then a reply is
      awaited. */
  lemma RequestGoesOut<M>(h: History<M>, c: Checks)
    requires Faithful(h) && h.state.position.Some? && h.state.started && h.state.stdinOpen
    ensures var e := EvWritable(|h.state.buffer| - h.state.position.value, false);
      && Enabled(h.state, e) && h.request.Some?
      && var h' := Advance(h, e, c);
         h'.state.awaiting && h'.request == h.request && h'.feed.done == h.feed.done + [h.request.value]
  {
    hide Accounts, Join;
  }

  // ----- whole runs -----

  /** What one helper process has been sent: `pipe`, the bytes; `done`, the requests of which
      the last byte was sent to it; `partial`, what has been sent of the one in hand; and
      `cut`, what had been sent of that one before the process was launched. */
  datatype Feed<M> = Feed(cut: string, pipe: string, done: seq<Request<M>>, partial: string)

  /** The state, the request in hand, what the present helper and those before it have been
      sent, and all that has been forwarded, each with the request it answers. */
  datatype History<M> = History(
    state: State<M>, request: Option<Request<M>>, feed: Feed<M>, past: seq<Feed<M>>,
    log: seq<(Request<M>, Forward<M>)>)

  /** Whether an event makes a request the one in hand. */
  predicate Takes<M>(s: State<M>, e: Event<M>)
  {
    && e.EvEnqueue? && s.pid != 0 && !(Gone(s) && e.launch.LaunchFailed?)
    && Accepts(if Gone(s) then Start(s, e.launch) else s) && |TextOf(e.request)| < REQUEST_BYTES
  }

  /** Whether an event launches a helper. */
  predicate Launches<M>(s: State<M>, e: Event<M>)
  {
    (e.EvStart? || e.EvEnqueue?) && Gone(s) && e.launch.Launched?
  }

  function Written<M>(s: State<M>, e: Event<M>): string
  {
    if e.EvWritable? && !e.broken && s.position.Some? && s.position.value + e.written <= |s.buffer|
    then s.buffer[s.position.value..s.position.value + e.written] else []
  }

  /** What has been sent of the request in hand. */
  function Partial<M>(s: State<M>): string
  {
    if s.position.Some? && s.position.value <= |s.buffer| then s.buffer[..s.position.value] else []
  }

  function FeedAfter<M>(h: History<M>, e: Event<M>, s': State<M>): Feed<M>
  {
    if Launches(h.state, e) then Feed(Partial(h.state), [], [], Partial(s'))
    else
      Feed(h.feed.cut, h.feed.pipe + Written(h.state, e),
           if e.EvWritable? && s'.awaiting && !h.state.awaiting && h.request.Some?
           then h.feed.done + [h.request.value] else h.feed.done,
           Partial(s'))
  }

  function Advance<M>(h: History<M>, e: Event<M>, c: Checks): History<M>
  {
    var (s', forward) := Step(h.state, e, c);
    History(s',
            if Takes(h.state, e) then Some(e.request) else h.request,
            FeedAfter(h, e, s'),
            if Launches(h.state, e) then h.past + [h.feed] else h.past,
            if forward.Some? && h.request.Some? then h.log + [(h.request.value, forward.value)] else h.log)
  }

  function Join<M>(requests: seq<Request<M>>): string
  {
    if requests == [] then [] else Join(requests[..|requests| - 1]) + TextOf(requests[|requests| - 1])
  }

  /** A helper has been sent its requests from the first byte to the last, except for what had
      been sent to the one before. */
  ghost predicate Accounts<M>(f: Feed<M>)
  {
    f.cut + f.pipe == Join(f.done) + f.partial
  }

  /** A helper has been sent whole requests, and the beginning of the one in hand. */
  ghost predicate Whole<M>(f: Feed<M>)
  {
    f.pipe == Join(f.done) + f.partial
  }

  /** The request in hand is the one that the state is about. */
  ghost predicate InHand<M>(s: State<M>, request: Option<Request<M>>)
  {
    s.position.Some? || s.awaiting ==>
      && request.Some? && |request.value.sid| == SID_STRLEN && |request.value.did| <= DID_MAXSIZE
      && s.buffer == TextOf(request.value) && s.did == request.value.did && s.requester == request.value.requester
  }

  /** The state is that of the request in hand, the bytes sent to every helper are accounted
      for, and every reply that was forwarded went to the requester of the request it
      answers, with the number asked for. */
  ghost predicate Faithful<M>(h: History<M>)
  {
    && Sound(h.state) && InHand(h.state, h.request)
    && Accounts(h.feed) && h.feed.partial == Partial(h.state) && (forall f :: f in h.past ==> Accounts(f))
    && (forall x :: x in h.log ==> x.1.requester == x.0.requester && x.1.did == x.0.did)
  }

  lemma KeepsInHand<M>(h: History<M>, e: Event<M>, c: Checks)
    requires Sound(h.state) && InHand(h.state, h.request) && Enabled(h.state, e) && !Takes(h.state, e)
    ensures var s' := Step(h.state, e, c).0;
      && InHand(s', h.request)
      && (!e.EvWritable? ==> Partial(s') == if s'.position == h.state.position then Partial(h.state) else [])
      && (!e.EvWritable? && s'.position != h.state.position ==> Partial(h.state) == [])
  {
    hide ParseReply, TextOf;
  }

  lemma TakesInHand<M>(h: History<M>, e: Event<M>, c: Checks)
    requires Sound(h.state) && Enabled(h.state, e) && Takes(h.state, e)
    ensures var s' := Step(h.state, e, c).0;
      InHand(s', Some(e.request)) && Partial(s') == [] && Partial(h.state) == []
  {
  }

  lemma WritesInHand<M>(h: History<M>, e: Event<M>, c: Checks)
    requires Sound(h.state) && InHand(h.state, h.request) && Enabled(h.state, e) && e.EvWritable?
    ensures var s, s' := h.state, Step(h.state, e, c).0;
      if !s.awaiting && s'.awaiting
      then h.request.Some? && Partial(s') == [] && Partial(s) + Written(s, e) == TextOf(h.request.value)
      else Partial(s') == Partial(s) + Written(s, e)
  {
    hide ParseReply, TextOf;
    var s := h.state;
    if s.position.Some? {
      var p, q := s.position.value, s.position.value + e.written;
      assert s.buffer[..p] + s.buffer[p..q] == s.buffer[..q];
      assert s.buffer[..|s.buffer|] == s.buffer;
    }
  }

  lemma JoinLast<M>(done: seq<Request<M>>, r: Request<M>)
    ensures Join(done + [r]) == Join(done) + TextOf(r)
  {
    assert (done + [r])[..|done|] == done;
  }

  lemma AccountsOn<M>(f: Feed<M>, more: string)
    requires Accounts(f)
    ensures Accounts(f.(pipe := f.pipe + more, partial := f.partial + more))
  {
    hide Join;
    assert (f.cut + f.pipe) + more == f.cut + (f.pipe + more);
    assert (Join(f.done) + f.partial) + more == Join(f.done) + (f.partial + more);
  }

  lemma AccountsDone<M>(f: Feed<M>, more: string, r: Request<M>)
    requires Accounts(f) && f.partial + more == TextOf(r)
    ensures Accounts(f.(pipe := f.pipe + more, done := f.done + [r], partial := []))
  {
    hide Join, TextOf;
    AccountsOn(f, more);
    JoinLast(f.done, r);
    assert Join(f.done) + TextOf(r) + [] == Join(f.done) + TextOf(r);
  }

  lemma FeedAccounts<M>(h: History<M>, e: Event<M>, c: Checks)
    requires Faithful(h) && Enabled(h.state, e)
    ensures var h' := Advance(h, e, c); Accounts(h'.feed) && h'.feed.partial == Partial(h'.state)
  {
    hide Step, TextOf, Takes, Enabled, Sound, Accounts, Join, InHand, Partial, Written, Gone;
    var f, s' := h.feed, Step(h.state, e, c).0;
    if e.EvWritable? {
      WritesInHand(h, e, c);
      if s'.awaiting && !h.state.awaiting {
        AccountsDone(f, Written(h.state, e), h.request.value);
      } else {
        AccountsOn(f, Written(h.state, e));
      }
    } else {
      NothingWritten(h.state, e);
      if Launches(h.state, e) {
        LaunchKeepsPartial(h.state, e, c);
        NewAccounts<M>(Partial(s'));
      } else if Takes(h.state, e) {
        TakesInHand(h, e, c);
        AccountsOn(f, []);
      } else {
        KeepsInHand(h, e, c);
        AccountsOn(f, []);
      }
    }
  }

  lemma NothingWritten<M>(s: State<M>, e: Event<M>)
    requires !e.EvWritable?
    ensures Written(s, e) == [] && forall x: string :: x + [] == x
  {
  }

  lemma NewAccounts<M>(partial: string)
    ensures Accounts<M>(Feed(partial, [], [], partial))
  {
  }

  lemma LaunchKeepsPartial<M>(s: State<M>, e: Event<M>, c: Checks)
    requires Sound(s) && Enabled(s, e)
    ensures Launches(s, e) ==> Partial(Step(s, e, c).0) == Partial(s)
  {
  }

  lemma AdvanceForwards<M>(h: History<M>, e: Event<M>, c: Checks)
    requires Faithful(h) && Enabled(h.state, e)
    ensures forall x :: x in Advance(h, e, c).log ==> x.1.requester == x.0.requester && x.1.did == x.0.did
  {
    hide ParseReply, TextOf, Accounts;
  }

  lemma AdvanceIsFaithful<M>(h: History<M>, e: Event<M>, c: Checks)
    requires Faithful(h) && Enabled(h.state, e)
    ensures Faithful(Advance(h, e, c))
  {
    hide Step, TextOf, Takes, Enabled, Sound, Accounts, FeedAfter, Partial, Launches;
    StepKeepsSound(h.state, e, c);
    if Takes(h.state, e) {
      TakesInHand(h, e, c);
    } else {
      KeepsInHand(h, e, c);
    }
    FeedAccounts(h, e, c);
    AdvanceForwards(h, e, c);
  }

  ghost predicate LegalRun<M>(h: History<M>, events: seq<Event<M>>, c: Checks)
    decreases |events|
  {
    events == [] || (Enabled(h.state, events[0]) && LegalRun(Advance(h, events[0], c), events[1..], c))
  }

  function Run<M>(h: History<M>, events: seq<Event<M>>, c: Checks): History<M>
    decreases |events|
  {
    if events == [] then h else Run(Advance(h, events[0], c), events[1..], c)
  }

  /** Over every interleaving of events. */
  lemma {:induction false} RunIsFaithful<M>(h: History<M>, events: seq<Event<M>>, c: Checks)
    requires Faithful(h) && LegalRun(h, events, c)
    ensures Faithful(Run(h, events, c))
    decreases |events|
  {
    hide Advance, Faithful;
    if events != [] {
      AdvanceIsFaithful(h, events[0], c);
      RunIsFaithful(Advance(h, events[0], c), events[1..], c);
    }
  }

  // ----- what each helper is sent -----

  ghost predicate AllWhole<M>(h: History<M>)
  {
    Whole(h.feed) && forall f :: f in h.past ==> Whole(f)
  }

  /** No helper is launched while a request has been sent in part. */
  ghost predicate CleanLaunches<M>(h: History<M>, events: seq<Event<M>>, c: Checks)
    decreases |events|
  {
    events == [] ||
    (&& (Launches(h.state, events[0]) ==> !(h.state.position.Some? && h.state.position.value > 0))
     && CleanLaunches(Advance(h, events[0], c), events[1..], c))
  }

  lemma WholeIffUncut<M>(f: Feed<M>)
    requires Accounts(f)
    ensures Whole(f) <==> f.cut == []
  {
    assert |f.cut| + |f.pipe| == |Join(f.done) + f.partial|;
    assert f.cut == [] ==> f.cut + f.pipe == f.pipe;
  }

  lemma StaysWhole<M>(h: History<M>, e: Event<M>, c: Checks)
    requires Faithful(h) && Enabled(h.state, e)
    ensures AllWhole(Advance(h, e, c)) <==>
            AllWhole(h) && (Launches(h.state, e) ==> !(h.state.position.Some? && h.state.position.value > 0))
  {
    var h' := Advance(h, e, c);
    AdvanceIsFaithful(h, e, c);
    WholeIffUncut(h.feed);
    WholeIffUncut(h'.feed);
    hide Step, Accounts, Whole, Takes, Enabled;
    if Launches(h.state, e) {
      assert h.feed in h'.past;
    }
  }

  /** Every helper of a run is sent whole requests, and the beginning of the one in hand, if and
      only if none was launched after a request had been sent in part: what has been sent to
      one helper is not sent again to the next. */
  lemma {:induction false} WholeIffCleanLaunches<M>(h: History<M>, events: seq<Event<M>>, c: Checks)
    requires Faithful(h) && LegalRun(h, events, c)
    ensures AllWhole(Run(h, events, c)) <==> AllWhole(h) && CleanLaunches(h, events, c)
    decreases |events|
  {
    hide Advance, Faithful, AllWhole, Launches;
    if events != [] {
      AdvanceIsFaithful(h, events[0], c);
      StaysWhole(h, events[0], c);
      WholeIffCleanLaunches(Advance(h, events[0], c), events[1..], c);
    }
  }

  /** Nothing has happened yet. */
  function Beginning<M>(s: State<M>): History<M>
  {
    History(s, None, Feed([], [], [], []), [], [])
  }

  /** A helper that dies in the middle of a request, and its successor. */
  function Relaunch<M>(r: Request<M>, pid: int, left: nat): seq<Event<M>>
  {
    [EvRequestsClosed, EvRepliesClosed, EvErrorsClosed, EvHarvest, EvRestart, EvEnqueue(r, Launched(pid)),
     EvReplyLine("STARTED\n"), EvWritable(left, false)]
  }

  /** Running, and in the middle of a request. */
  ghost predicate Midway<M>(s: State<M>)
  {
    && s.pid > 0 && s.watching && s.stdinOpen && s.stdoutOpen && s.stderrOpen && !s.awaiting
    && s.position.Some? && 0 < s.position.value < |s.buffer|
  }

  lemma {:induction false} RunStep<M>(h: History<M>, events: seq<Event<M>>, k: nat, c: Checks)
    requires k < |events|
    ensures Run(h, events[k..], c) == Run(Advance(h, events[k], c), events[k + 1..], c)
    ensures LegalRun(h, events[k..], c) <==> Enabled(h.state, events[k]) && LegalRun(Advance(h, events[k], c), events[k + 1..], c)
  {
    hide Advance, Enabled;
    assert events[k..][0] == events[k] && events[k..][1..] == events[k + 1..];
  }

  /** The helper dies, and is found dead. */
  lemma HelperDies<M>(h: History<M>, events: seq<Event<M>>, c: Checks) returns (h5: History<M>)
    requires Midway(h.state) && |events| > 5
    requires events[..5] == [EvRequestsClosed, EvRepliesClosed, EvErrorsClosed, EvHarvest, EvRestart]
    ensures h5.state == h.state.(stdinOpen := false, watching := false, stdoutOpen := false, stderrOpen := false, pid := -1)
    ensures h5.request == h.request
    ensures Run(h, events, c) == Run(h5, events[5..], c) && (LegalRun(h, events, c) <==> LegalRun(h5, events[5..], c))
  {
    hide Run, LegalRun, FeedAfter;
    assert events[0] == EvRequestsClosed && events[1] == EvRepliesClosed && events[2] == EvErrorsClosed
           && events[3] == EvHarvest && events[4] == EvRestart by {
      assert forall i :: 0 <= i < 5 ==> events[i] == events[..5][i];
    }
    assert events[0..] == events;
    RunStep(h, events, 0, c);
    var h1 := Advance(h, events[0], c);
    RunStep(h1, events, 1, c);
    var h2 := Advance(h1, events[1], c);
    RunStep(h2, events, 2, c);
    var h3 := Advance(h2, events[2], c);
    RunStep(h3, events, 3, c);
    var h4 := Advance(h3, events[3], c);
    RunStep(h4, events, 4, c);
    h5 := Advance(h4, events[4], c);
  }

  /** The next request launches another one, which gets what the first one did not. */
  lemma HelperFollows<M>(h: History<M>, events: seq<Event<M>>, r: Request<M>, pid: int, c: Checks) returns (h3: History<M>)
    requires Gone(h.state) && !h.state.awaiting && h.state.position.Some? && 0 < h.state.position.value < |h.state.buffer|
    requires |r.sid| == SID_STRLEN && pid > 0
    requires events == [EvEnqueue(r, Launched(pid)), EvReplyLine("STARTED\n"),
                        EvWritable(|h.state.buffer| - h.state.position.value, false)]
    ensures LegalRun(h, events, c) && Run(h, events, c) == h3
    ensures h3.state.awaiting && h3.request == h.request && h3.state.buffer == h.state.buffer
    ensures h3.feed.cut == h.state.buffer[..h.state.position.value]
    ensures h3.feed.pipe == h.state.buffer[h.state.position.value..]
  {
    hide Run, LegalRun, ParseReply;
    assert events[0..] == events && events[3..] == [];
    RunStep(h, events, 0, c);
    var h1 := Advance(h, events[0], c);
    assert h1.state == h.state.(pid := pid, stdinOpen := true, stdoutOpen := true, stderrOpen := true, started := false,
                                watching := false);
    assert h1.request == h.request && h1.feed.pipe == [] && h1.feed.cut == Partial(h.state);
    RunStep(h1, events, 1, c);
    var h2 := Advance(h1, events[1], c);
    assert h2.state == h1.state.(started := true, watching := true) && h2.feed.pipe == [] && h2.feed.cut == h1.feed.cut;
    RunStep(h2, events, 2, c);
    h3 := Advance(h2, events[2], c);
    RunEnds(h3, c);
  }

  lemma RunEnds<M>(h: History<M>, c: Checks)
    ensures Run(h, [], c) == h && LegalRun(h, [], c)
  {
  }

  /** So it does happen: a helper that dies in the middle of a request is followed by one that
      is sent the rest of it only, and of which a reply is then awaited. */
  lemma RestIsSentAlone<M>(h: History<M>, r: Request<M>, pid: int, c: Checks)
    requires Faithful(h) && Midway(h.state) && |r.sid| == SID_STRLEN && pid > 0
    ensures var k := h.state.position.value;
      var events := Relaunch(r, pid, |h.state.buffer| - k);
      var h' := Run(h, events, c);
      && LegalRun(h, events, c) && h'.state.awaiting && h'.request == h.request
      && h'.feed.pipe == h.state.buffer[k..] && !Whole(h'.feed)
  {
    hide Run, LegalRun, Advance, Faithful;
    var k := h.state.position.value;
    var events := Relaunch(r, pid, |h.state.buffer| - k);
    var h5 := HelperDies(h, events, c);
    var h8 := HelperFollows(h5, events[5..], r, pid, c);
    RunIsFaithful(h, events, c);
    assert Accounts(h8.feed) by { assert Faithful(h8); FaithfulAccounts(h8); }
    WholeIffUncut(h8.feed);
  }

  lemma FaithfulAccounts<M>(h: History<M>)
    requires Faithful(h)
    ensures Accounts(h.feed)
  {
  }

  // ----- replies -----

  /** What is forwarded answers the request in hand: the reply carries its SID and its
      number, and goes to its requester. */
  lemma ForwardAnswersRequest<M>(h: History<M>, line: string, c: Checks)
    requires Faithful(h) && ReplyLine(h.state, line, c).1.Some?
    ensures h.state.awaiting && h.request.Some? && ParseReply(line).Some?
    ensures var r, q, f := ParseReply(line).value, h.request.value, ReplyLine(h.state, line, c).1.value;
            r.token == q.sid && r.did == q.did && f == Forward(q.requester, r.uri, q.did, r.name)
  {
    hide Accounts;
  }

  /** SID|URI|DID|NAME| and the end of the line, for the request in hand. */
  ghost predicate AnswerTo<M>(q: Request<M>, c: Checks, line: string, uri: string, name: string, rest: string)
  {
    && line == q.sid + ['|'] + uri + ['|'] + q.did + ['|'] + name + ['|', '\n'] + rest
    && NoBar(q.sid) && NoBar(uri) && NoBar(q.did) && NoBar(name) && 0 < |uri| <= 511 && |name| <= 63 && q.did != []
    && c.isUri(uri) && c.isSid(q.sid) && c.isDid(q.did)
  }

  /** While a reply is awaited, a line is forwarded if and only if it answers the request in
      hand, and then it goes to the requester with what it says. */
  lemma ForwardedIff<M>(h: History<M>, line: string, c: Checks)
    requires Faithful(h) && h.state.started && h.state.awaiting
    ensures h.request.Some?
    ensures ReplyLine(h.state, line, c).1.Some? <==>
            exists uri, name, rest :: AnswerTo(h.request.value, c, line, uri, name, rest)
    ensures forall uri, name, rest :: AnswerTo(h.request.value, c, line, uri, name, rest) ==>
              ReplyLine(h.state, line, c) == (h.state, Some(Forward(h.request.value.requester, uri, h.request.value.did, name)))
  {
    var q := h.request.value;
    InHandParts(h);
    hide Faithful;
    forall uri, name, rest | AnswerTo(q, c, line, uri, name, rest)
      ensures ReplyLine(h.state, line, c) == (h.state, Some(Forward(q.requester, uri, q.did, name)))
    {
      AnswerIsForwarded(h.state, q, line, c, uri, name, rest);
    }
    if ReplyLine(h.state, line, c).1.Some? {
      ForwardIsAnswer(h.state, q, line, c);
    }
  }

  lemma InHandParts<M>(h: History<M>)
    requires Faithful(h) && h.state.awaiting
    ensures h.request.Some? && HasInHand(h.state, h.request.value)
  {
    var q := h.request.value;
    assert TextOf(q)[..SID_STRLEN] == q.sid;
  }

  ghost predicate HasInHand<M>(s: State<M>, q: Request<M>)
  {
    && |s.buffer| >= SID_STRLEN && s.buffer[..SID_STRLEN] == q.sid && |q.sid| == SID_STRLEN && |q.did| <= DID_MAXSIZE
    && s.did == q.did && s.requester == q.requester
  }

  lemma AnswerIsForwarded<M>(s: State<M>, q: Request<M>, line: string, c: Checks, uri: string, name: string, rest: string)
    requires s.started && s.awaiting && HasInHand(s, q) && AnswerTo(q, c, line, uri, name, rest)
    ensures ReplyLine(s, line, c) == (s, Some(Forward(q.requester, uri, q.did, name)))
  {
    var r := Reply(q.sid, uri, q.did, name, ['\n'] + rest);
    assert Print(r) == line;
    assert line[0] == q.sid[0] && |line| > 64;
    ReplyParses(r);
    hide ParseReply;
  }

  lemma ForwardIsAnswer<M>(s: State<M>, q: Request<M>, line: string, c: Checks)
    requires s.started && s.awaiting && HasInHand(s, q) && ReplyLine(s, line, c).1.Some?
    ensures exists uri, name, rest :: AnswerTo(q, c, line, uri, name, rest)
  {
    ParsedIsReply(line);
    hide ParseReply;
    var r := ParseReply(line).value;
    var rest := r.rest[1..];
    assert r.rest == ['\n'] + rest;
    assert Print(r) == q.sid + ['|'] + r.uri + ['|'] + q.did + ['|'] + r.name + ['|', '\n'] + rest;
    assert AnswerTo(q, c, line, r.uri, r.name, rest);
  }

  ghost predicate StaysInFlight<M>(h: History<M>, events: seq<Event<M>>, c: Checks)
    decreases |events|
  {
    InFlight(h.state) && (events == [] || StaysInFlight(Advance(h, events[0], c), events[1..], c))
  }

  /** As long as something is in flight it is the same request, and what has been written
      only grows. */
  lemma {:induction false} SameRequestInFlight<M>(h: History<M>, events: seq<Event<M>>, c: Checks)
    requires Faithful(h) && LegalRun(h, events, c) && StaysInFlight(h, events, c)
    ensures var h' := Run(h, events, c);
      && h'.request == h.request && h'.state.buffer == h.state.buffer && h'.state.requester == h.state.requester
      && h.past <= h'.past && (h'.past == h.past ==> h.feed.pipe <= h'.feed.pipe)
    decreases |events|
  {
    if events != [] {
      InFlightIsFrozen(h.state, events[0], c);
      NothingTaken(h.state, events[0]);
      AdvanceIsFaithful(h, events[0], c);
      hide Faithful, Step, Takes, Written, InFlight;
      SameRequestInFlight(Advance(h, events[0], c), events[1..], c);
    }
  }

  lemma NothingTaken<M>(s: State<M>, e: Event<M>)
    requires Sound(s) && InFlight(s)
    ensures !Takes(s, e)
  {
  }
}
