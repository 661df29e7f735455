/** What a receiver makes of a packet, told frame by frame in terms of what was put in,
    without the octets in between. */
module PacketHearing {
  import opened Bytes
  import opened Wrappers
  import opened TreeShape
  import opened AddressCodec
  import opened FrameCodec
  import Rfs

  // ----- one frame -----

  datatype HeardAddresses = HeardAddresses(nextHop: Parsed, destination: Parsed, source: Parsed, reader: Reader)

  ghost function HearDestination(w: Writer, r: Reader, d: Option<Sid>): Heard
    requires d.Some? ==> d.value in w.lens
  {
    if d.Some? then HearAddress(w, r, d.value) else HearRepeat(r)
  }

  ghost function HearAddresses(w: Writer, r: Reader, f: Frame, due: bool): HeardAddresses
    requires Normal(w.lens, f)
  {
    var w1 := AfterItem(w, f.nextHop);
    var w2 := Due(AfterDestination(w1, f.destination), f.source, due);
    var x := HearItem(w, r.(broadcastId := [0, 0, 0, 0, 0, 0, 0, 0]), f.nextHop);
    var y := HearDestination(w1, x.reader, f.destination);
    var z := HearAddress(w2, y.reader, f.source);
    HeardAddresses(x.what, y.what, z.what, z.reader)
  }

  ghost predicate Missed(a: HeardAddresses)
  {
    a.nextHop.Unresolved? || a.destination.Unresolved? || a.source.Unresolved?
  }

  datatype HeardFrame = Stopped | Lost | Skipped(reader: Reader) | Handed(frame: Received, reader: Reader)

  /** The receiver does not go on to the next frame. */
  predicate Over(h: HeardFrame)
  {
    h.Stopped? || h.Lost?
  }

  /** One round of the receive loop, for a frame as it was put in. */
  ghost function HearFrame(w: Writer, r: Reader, self: set<Sid>, f: Frame, due: bool): HeardFrame
    requires Normal(w.lens, f)
  {
    var a := HearAddresses(w, r, f, due);
    if Missed(a) then Skipped(a.reader)
    else if !a.source.Subscriber? then Lost
    else if f.kind == TYPE_SELFANNOUNCE && a.source.sid in self then Stopped
    else Handed(Received(Plain(f.kind), f.modifiers, f.ttl,
                         if a.nextHop.Subscriber? then ToSubscriber(a.nextHop.sid) else ToBroadcast(a.reader.broadcastId),
                         if a.destination.Subscriber? then Some(a.destination.sid) else None,
                         a.source.sid, f.payload),
                if f.kind == TYPE_SELFANNOUNCE then a.reader.(sender := Some(a.source.sid)) else a.reader)
  }

  ghost predicate SameRound(x: Round, h: HeardFrame, next: nat)
  {
    match h
    case Stopped => x == Stop
    case Lost => x == Sourceless
    case Skipped(r) => x == Skip(next, r)
    case Handed(f, r) => x == Hand(f, next, r)
  }

  lemma ItemNotFatal(w: Writer, r: Reader, a: Address)
    requires Writable(w.lens, a)
    ensures !HearItem(w, r, a).what.Fatal?
  {
    if a.ToSubscriber? {
      HearingLearns(w, r, a.sid);
    }
  }

  lemma DestinationIsHeard(w: Writer, r: Reader, d: Option<Sid>, mem: seq<byte>, len: nat, pos: nat)
    requires d.Some? ==> d.value in w.lens && Distinguishable(d.value)
    requires At(mem, len, pos, DestinationBytes(w, d))
    ensures var h := HearDestination(w, r, d);
      && ParseAddress(r, mem, len, pos, false) == ParseResult(h.what, pos + |DestinationBytes(w, d)|, h.reader)
      && !h.what.Fatal?
  {
    hide ParseAddress, AddressBytes;
    if d.Some? {
      AddressIsHeard(w, r, d.value, mem, len, pos, false);
      HearingLearns(w, r, d.value);
    } else {
      RepeatIsHeard(r, mem, len, pos, false);
    }
  }

  lemma AddressesAreHeard(w: Writer, r: Reader, f: Frame, due: bool, mem: seq<byte>, len: nat, pos: nat)
    requires Normal(w.lens, f) && At(mem, len, pos, FrameAddresses(w, f, due))
    ensures var a := HearAddresses(w, r, f, due);
      ReadAddresses(r, mem, len, pos) ==
      Addresses(Missed(a), a.nextHop, a.destination, a.source, a.reader.broadcastId,
                pos + |FrameAddresses(w, f, due)|, a.reader)
  {
    hide ParseAddress, ItemBytes, DestinationBytes, AddressBytes, HearAddress, HearItem, HearDestination;
    var w1 := AfterItem(w, f.nextHop);
    var w2 := Due(AfterDestination(w1, f.destination), f.source, due);
    SplitAt(mem, len, pos, ItemBytes(w, f.nextHop) + DestinationBytes(w1, f.destination), AddressBytes(w2, f.source));
    SplitAt(mem, len, pos, ItemBytes(w, f.nextHop), DestinationBytes(w1, f.destination));
    var r0 := r.(broadcastId := [0, 0, 0, 0, 0, 0, 0, 0]);
    var x := HearItem(w, r0, f.nextHop);
    ItemIsHeard(w, r0, f.nextHop, mem, len, pos);
    ItemNotFatal(w, r0, f.nextHop);
    var at := pos + |ItemBytes(w, f.nextHop)|;
    DestinationIsHeard(w1, x.reader, f.destination, mem, len, at);
    var y := HearDestination(w1, x.reader, f.destination);
    AddressIsHeard(w2, y.reader, f.source, mem, len, at + |DestinationBytes(w1, f.destination)|, false);
    HearingLearns(w2, y.reader, f.source);
  }

  /** The octets of a frame mean this to every receiver, and the next frame begins where
      they end. */
  lemma FrameIsHeard(w: Writer, r: Reader, self: set<Sid>, f: Frame, due: bool, mem: seq<byte>, len: nat, pos: nat)
    requires Normal(w.lens, f) && |FrameAddresses(w, f, due)| + |f.payload| <= Rfs.MAX_LENGTH
    requires At(mem, len, pos, FrameBytes(w, f, due)) && len + 3 <= |mem|
    ensures pos < len
    ensures SameRound(ReadFrame(r, self, mem, len, pos), HearFrame(w, r, self, f, due), pos + |FrameBytes(w, f, due)|)
  {
    hide ReadAddresses, FrameAddresses, ReadHeader, FrameBytes, HearAddresses;
    HeaderRoundTrip(w, f, due, mem, len, pos);
    var h := ReadHeader(mem, len, pos);
    AddressesAreHeard(w, r, f, due, mem, len, h.start);
  }

  // ----- a frame that can be understood -----

  ghost predicate FamiliarDestination(w: Writer, known: set<Sid>, d: Option<Sid>)
    requires d.Some? ==> d.value in w.lens
  {
    d.Some? ==> Familiar(w, known, d.value)
  }

  function LearnDestination(w: Writer, known: set<Sid>, d: Option<Sid>): set<Sid>
    requires d.Some? ==> d.value in w.lens
  {
    if d.Some? then Learn(w, known, d.value) else known
  }

  /** The receiver knows those whose SIDs are abbreviated in the frame, be it from the
      frame itself. */
  ghost predicate FamiliarFrame(w: Writer, known: set<Sid>, f: Frame, due: bool)
    requires Normal(w.lens, f)
  {
    var w1, k1 := AfterItem(w, f.nextHop), LearnItem(w, known, f.nextHop);
    var w2 := Due(AfterDestination(w1, f.destination), f.source, due);
    && FamiliarItem(w, known, f.nextHop) && FamiliarDestination(w1, k1, f.destination)
    && Familiar(w2, LearnDestination(w1, k1, f.destination), f.source)
  }

  function LearnFrame(w: Writer, known: set<Sid>, f: Frame, due: bool): set<Sid>
    requires Normal(w.lens, f)
  {
    var w1, k1 := AfterItem(w, f.nextHop), LearnItem(w, known, f.nextHop);
    Learn(Due(AfterDestination(w1, f.destination), f.source, due), LearnDestination(w1, k1, f.destination), f.source)
  }

  ghost predicate AgreeOnHop(w: Writer, r: Reader, a: Address)
  {
    SenderAgrees(w, r) && (w.previous == r.previous || !RepeatsHop(w, a))
  }

  ghost predicate HopRight(w: Writer, a: Address, h: Heard)
    requires Writable(w.lens, a)
  {
    && h.reader.previous == AfterItem(w, a).previous
    && (if a.ToSubscriber? then h.what == Subscriber(a.sid)
        else h.what == NoSubscriber && h.reader.broadcastId == a.id && h.reader.previousBroadcast)
  }

  lemma HopRoundTrip(w: Writer, r: Reader, a: Address)
    requires Writable(w.lens, a)
    ensures var h := HearItem(w, r, a);
      && h.reader.known == LearnItem(w, r.known, a) && h.reader.sender == r.sender
      && (AgreeOnHop(w, r, a) && FamiliarItem(w, r.known, a) ==>
            && (HopRight(w, a, h) || h.what.Unresolved?)
            && (WithinSids(w, r) && w.sender == r.sender ==> HopRight(w, a, h)))
      && (WithinSids(w, r) && !FamiliarItem(w, r.known, a) ==> h.what.Unresolved?)
      && (SenderAgrees(w, r) && !AgreeOnHop(w, r, a) ==> a.ToSubscriber? && h.what != Subscriber(a.sid))
  {
    hide HearAddress, LensExact;
    if a.ToSubscriber? {
      HearingLearns(w, r, a.sid);
      if AgreeOnHop(w, r, a) && FamiliarItem(w, r.known, a) {
        AddressRoundTrip(w, r, a.sid);
      }
      if WithinSids(w, r) && !FamiliarItem(w, r.known, a) {
        StrangerIsFlagged(w, r, a.sid);
      }
      if SenderAgrees(w, r) && !AgreeOnHop(w, r, a) {
        RepeatMisleads(w, r, a.sid);
      }
    }
  }

  ghost predicate DestinationRight(w: Writer, d: Option<Sid>, h: Heard)
    requires d.Some? ==> d.value in w.lens
  {
    && h.reader.previous == AfterDestination(w, d).previous
    && h.what == (if d.Some? then Subscriber(d.value) else NoSubscriber)
  }

  lemma DestinationRoundTrip(w: Writer, r: Reader, d: Option<Sid>)
    requires d.Some? ==> d.value in w.lens
    ensures var h := HearDestination(w, r, d);
      && h.reader.known == LearnDestination(w, r.known, d)
      && h.reader.sender == r.sender && h.reader.broadcastId == r.broadcastId
      && (SenderAgrees(w, r) && w.previous == r.previous && FamiliarDestination(w, r.known, d)
          && (d.None? ==> r.previous == None && r.previousBroadcast) ==>
            && (DestinationRight(w, d, h) || h.what.Unresolved?)
            && (WithinSids(w, r) && w.sender == r.sender ==> DestinationRight(w, d, h)))
      && (WithinSids(w, r) && !FamiliarDestination(w, r.known, d) ==> h.what.Unresolved?)
  {
    hide HearAddress, LensExact;
    if d.Some? {
      HearingLearns(w, r, d.value);
      if SenderAgrees(w, r) && w.previous == r.previous && FamiliarDestination(w, r.known, d) {
        AddressRoundTrip(w, r, d.value);
      }
      if WithinSids(w, r) && !FamiliarDestination(w, r.known, d) {
        StrangerIsFlagged(w, r, d.value);
      }
    }
  }

  lemma SourceRoundTrip(w: Writer, r: Reader, s: Sid)
    requires s in w.lens
    ensures var h := HearAddress(w, r, s);
      && h.reader.known == Learn(w, r.known, s)
      && h.reader.sender == r.sender && h.reader.broadcastId == r.broadcastId
      && (h.what == Subscriber(s) ==> HeardRight(w, s, h))
      && (SenderAgrees(w, r) && w.previous == r.previous && Familiar(w, r.known, s) ==>
            && (HeardRight(w, s, h) || h.what.Unresolved?)
            && (WithinSids(w, r) && w.sender == r.sender ==> HeardRight(w, s, h)))
      && (WithinSids(w, r) && !Familiar(w, r.known, s) ==> h.what.Unresolved?)
  {
    hide HearAddress, LensExact;
    HearingLearns(w, r, s);
    if SenderAgrees(w, r) && w.previous == r.previous && Familiar(w, r.known, s) {
      AddressRoundTrip(w, r, s);
    }
    if WithinSids(w, r) && !Familiar(w, r.known, s) {
      StrangerIsFlagged(w, r, s);
    }
  }

  lemma SidsStay(w: Writer, w': Writer)
    requires w.lens == w'.lens
    ensures LensExact(w) <==> LensExact(w')
  {
  }

  /** The frame came through as it was put in, and the next one may begin with its source. */
  ghost predicate CameThrough(w: Writer, r: Reader, f: Frame, due: bool, h: HeardFrame)
    requires Normal(w.lens, f)
  {
    && h.Handed? && h.frame == AsReceived(f)
    && h.reader.previous == AfterFrame(w, f, due).previous
    && h.reader.sender == if f.kind == TYPE_SELFANNOUNCE then Some(f.source) else r.sender
  }

  ghost predicate AllRight(w: Writer, f: Frame, a: HeardAddresses)
    requires Normal(w.lens, f)
  {
    && (if f.nextHop.ToSubscriber? then a.nextHop == Subscriber(f.nextHop.sid)
        else a.nextHop == NoSubscriber && a.reader.broadcastId == f.nextHop.id)
    && a.destination == (if f.destination.Some? then Subscriber(f.destination.value) else NoSubscriber)
    && a.source == Subscriber(f.source) && a.reader.previous == Some(f.source)
  }

  lemma AddressesRoundTrip(w: Writer, r: Reader, f: Frame, due: bool)
    requires Normal(w.lens, f) && SenderAgrees(w, r)
    ensures var a := HearAddresses(w, r, f, due);
      && a.reader.known == LearnFrame(w, r.known, f, due) && a.reader.sender == r.sender
      && (a.source == Subscriber(f.source) ==> a.reader.previous == Some(f.source))
      && (AgreeOnHop(w, r, f.nextHop) && FamiliarFrame(w, r.known, f, due) ==>
            && (AllRight(w, f, a) || Missed(a))
            && (WithinSids(w, r) && w.sender == r.sender ==> AllRight(w, f, a) && !Missed(a)))
      && (WithinSids(w, r) && AgreeOnHop(w, r, f.nextHop) && !FamiliarFrame(w, r.known, f, due) ==> Missed(a))
      && (!AgreeOnHop(w, r, f.nextHop) ==> f.nextHop.ToSubscriber? && a.nextHop != Subscriber(f.nextHop.sid))
  {
    hide HearAddress, HearItem, HearDestination, LensExact, Learn, LearnItem, LearnDestination;
    hide Familiar, FamiliarItem, FamiliarDestination;
    var r0 := r.(broadcastId := [0, 0, 0, 0, 0, 0, 0, 0]);
    var w1 := AfterItem(w, f.nextHop);
    var w2 := Due(AfterDestination(w1, f.destination), f.source, due);
    SidsStay(w, w1);
    SidsStay(w, w2);
    var x := HearItem(w, r0, f.nextHop);
    HopRoundTrip(w, r0, f.nextHop);
    LearnsWithin(w, r.known, f.nextHop);
    DestinationRoundTrip(w1, x.reader, f.destination);
    LearnsDestinationWithin(w1, x.reader.known, f.destination);
    SourceRoundTrip(w2, HearDestination(w1, x.reader, f.destination).reader, f.source);
  }

  lemma LearnsWithin(w: Writer, known: set<Sid>, a: Address)
    requires Writable(w.lens, a)
    ensures known <= w.lens.Keys ==> LearnItem(w, known, a) <= w.lens.Keys
  {
  }

  lemma LearnsDestinationWithin(w: Writer, known: set<Sid>, d: Option<Sid>)
    requires d.Some? ==> d.value in w.lens
    ensures known <= w.lens.Keys ==> LearnDestination(w, known, d) <= w.lens.Keys
  {
  }

  /** One frame: a receiver that agrees on the context and knows those who are abbreviated
      hands it on as it was put in, or skips it; and a skipped frame whose source was
      understood leaves the contexts in step.  A receiver that knows nobody else hands it on
      if and only if it agrees on the context and knows those who are abbreviated. */
  lemma FrameRoundTrip(w: Writer, r: Reader, self: set<Sid>, f: Frame, due: bool)
    requires Normal(w.lens, f) && SenderAgrees(w, r) && (f.kind == TYPE_SELFANNOUNCE ==> f.source !in self)
    ensures var h := HearFrame(w, r, self, f, due);
      && (!Over(h) ==> h.reader.known == LearnFrame(w, r.known, f, due))
      && (h.Skipped? ==> h.reader.sender == r.sender)
      && (h.Skipped? && HearAddresses(w, r, f, due).source == Subscriber(f.source) ==>
            h.reader.previous == AfterFrame(w, f, due).previous)
      && (AgreeOnHop(w, r, f.nextHop) && FamiliarFrame(w, r.known, f, due) ==>
            CameThrough(w, r, f, due, h) || h.Skipped?)
      && (WithinSids(w, r) && w.sender == r.sender ==>
            (CameThrough(w, r, f, due, h) <==> AgreeOnHop(w, r, f.nextHop) && FamiliarFrame(w, r.known, f, due)))
      && (h.Handed? && h.frame == AsReceived(f) ==> CameThrough(w, r, f, due, h) && AgreeOnHop(w, r, f.nextHop))
  {
    hide HearAddresses, FamiliarFrame, LearnFrame, WithinSids;
    AddressesRoundTrip(w, r, f, due);
  }

  // ----- whole packets -----

  /** What a receiver hands on of a run of frames, `None` for a frame that it skips. */
  ghost function HearFrames(w: Writer, r: Reader, self: set<Sid>, out: seq<Outgoing>): seq<Option<Received>>
    requires AllSendable(w.lens, out)
    decreases |out|
  {
    if out == [] then []
    else
      assert Sendable(w.lens, out[0]);
      var w' := AfterFrame(w, out[0].frame, out[0].due);
      if !out[0].fits then HearFrames(w', r, self, out[1..])
      else match HearFrame(w, r, self, out[0].frame, out[0].due)
        case Stopped => []
        case Lost => []
        case Skipped(r') => [None] + HearFrames(w', r', self, out[1..])
        case Handed(f, r') => [Some(f)] + HearFrames(w', r', self, out[1..])
  }

  /** The receiver comes upon a frame without a source. */
  ghost predicate FramesLost(w: Writer, r: Reader, self: set<Sid>, out: seq<Outgoing>)
    requires AllSendable(w.lens, out)
    decreases |out|
  {
    out != [] &&
    (assert Sendable(w.lens, out[0]);
     var w' := AfterFrame(w, out[0].frame, out[0].due);
     if !out[0].fits then FramesLost(w', r, self, out[1..])
     else match HearFrame(w, r, self, out[0].frame, out[0].due)
       case Stopped => false
       case Lost => true
       case Skipped(r') => FramesLost(w', r', self, out[1..])
       case Handed(_, r') => FramesLost(w', r', self, out[1..]))
  }

  lemma HearFramesStep(w: Writer, r: Reader, self: set<Sid>, out: seq<Outgoing>)
    requires AllSendable(w.lens, out) && out != []
    ensures Normal(w.lens, out[0].frame) && AllSendable(w.lens, out[1..])
    ensures var w', h := AfterFrame(w, out[0].frame, out[0].due), HearFrame(w, r, self, out[0].frame, out[0].due);
      HearFrames(w, r, self, out) ==
        if !out[0].fits then HearFrames(w', r, self, out[1..])
        else if Over(h) then []
        else [if h.Handed? then Some(h.frame) else None] + HearFrames(w', h.reader, self, out[1..])
    ensures var w', h := AfterFrame(w, out[0].frame, out[0].due), HearFrame(w, r, self, out[0].frame, out[0].due);
      FramesLost(w, r, self, out) <==>
        if !out[0].fits then FramesLost(w', r, self, out[1..])
        else h.Lost? || (!Over(h) && FramesLost(w', h.reader, self, out[1..]))
  {
    assert Sendable(w.lens, out[0]);
    hide HearFrame;
  }

  lemma {:induction false} ReadPacketStep(r: Reader, self: set<Sid>, mem: seq<byte>, len: nat, pos: nat, h: HeardFrame, next: nat)
    requires pos < len && len + 3 <= |mem| && SameRound(ReadFrame(r, self, mem, len, pos), h, next)
    ensures ReadPacket(r, self, mem, len, pos) ==
            if Over(h) then []
            else [if h.Handed? then Some(h.frame) else None] + ReadPacket(h.reader, self, mem, len, next)
    ensures LosesSource(r, self, mem, len, pos) <==>
            h.Lost? || (!Over(h) && LosesSource(h.reader, self, mem, len, next))
  {
    hide ReadFrame;
  }

  lemma NothingIsHeard(w: Writer, r: Reader, self: set<Sid>, mem: seq<byte>, len: nat)
    requires len + 3 <= |mem|
    ensures AllSendable(w.lens, []) && FramesBytes(w, []) == [] && HearFrames(w, r, self, []) == []
    ensures ReadPacket(r, self, mem, len, len) == []
    ensures !LosesSource(r, self, mem, len, len) && !FramesLost(w, r, self, [])
  {
  }

  /** The octets of a run of frames mean this to every receiver, whatever it knows. */
  lemma {:induction false} FramesAreHeard(w: Writer, r: Reader, self: set<Sid>, out: seq<Outgoing>,
                                          mem: seq<byte>, len: nat, pos: nat)
    requires AllSendable(w.lens, out) && At(mem, len, pos, FramesBytes(w, out))
    requires pos + |FramesBytes(w, out)| == len && len + 3 <= |mem|
    ensures ReadPacket(r, self, mem, len, pos) == HearFrames(w, r, self, out)
    ensures LosesSource(r, self, mem, len, pos) <==> FramesLost(w, r, self, out)
    decreases |out|
  {
    hide FrameBytes, AfterFrame, FramesBytes, Normal, HearFrame, HearFrames, ReadFrame, At, AllSendable, FrameAddresses;
    hide ReadPacket, SameRound, LosesSource, FramesLost;
    if out == [] {
      NothingIsHeard(w, r, self, mem, len);
    } else {
      var o := out[0];
      FramesStep(w, None, out);
      HearFramesStep(w, r, self, out);
      var w' := AfterFrame(w, o.frame, o.due);
      if o.fits {
        FitsField(w, o);
        var h, next := HearFrame(w, r, self, o.frame, o.due), pos + |FrameBytes(w, o.frame, o.due)|;
        SplitAt(mem, len, pos, FrameBytes(w, o.frame, o.due), FramesBytes(w', out[1..]));
        FrameIsHeard(w, r, self, o.frame, o.due, mem, len, pos);
        ReadPacketStep(r, self, mem, len, pos, h, next);
        if !Over(h) {
          FramesAreHeard(w', h.reader, self, out[1..], mem, len, next);
        }
      } else {
        FramesAreHeard(w', r, self, out[1..], mem, len, pos);
      }
    }
  }

  lemma FitsField(w: Writer, o: Outgoing)
    requires Sendable(w.lens, o) && o.fits
    ensures |FrameAddresses(w, o.frame, o.due)| + |o.frame.payload| <= Rfs.MAX_LENGTH
  {
  }

  /** Every frame that fitted is handed on as it was put in, or skipped. */
  ghost predicate Arrives(got: seq<Option<Received>>, out: seq<Outgoing>)
    decreases |out|
  {
    if out == [] then got == []
    else if !out[0].fits then Arrives(got, out[1..])
    else got != [] && (got[0] == None || got[0] == Some(AsReceived(out[0].frame))) && Arrives(got[1..], out[1..])
  }

  /** The receiver can follow the run, in spite of frames that it skips: it knows those who
      are abbreviated, and an address that it has missed is not repeated. */
  ghost predicate Tracks(w: Writer, r: Reader, self: set<Sid>, out: seq<Outgoing>)
    requires AllSendable(w.lens, out)
    decreases |out|
  {
    out == [] ||
    (assert Sendable(w.lens, out[0]);
     var w', h := AfterFrame(w, out[0].frame, out[0].due), HearFrame(w, r, self, out[0].frame, out[0].due);
     if !out[0].fits then Tracks(w', r, self, out[1..])
     else
       && AgreeOnHop(w, r, out[0].frame.nextHop) && FamiliarFrame(w, r.known, out[0].frame, out[0].due)
       && (!Over(h) ==> Tracks(w', h.reader, self, out[1..])))
  }

  /** Then every frame that found room arrives, or is skipped, and none is taken for
      another. */
  lemma {:induction false} TrackedArrives(w: Writer, r: Reader, self: set<Sid>, out: seq<Outgoing>)
    requires AllSendable(w.lens, out) && Tracks(w, r, self, out)
    ensures Arrives(HearFrames(w, r, self, out), out) && !FramesLost(w, r, self, out)
    decreases |out|
  {
    if out != [] {
      assert Sendable(w.lens, out[0]);
      HearFramesStep(w, r, self, out);
      hide FramesLost, HearFrame, HearFrames, FamiliarFrame, LearnFrame, WithinSids, AfterFrame, Normal;
      var w' := AfterFrame(w, out[0].frame, out[0].due);
      if out[0].fits {
        FrameRoundTrip(w, r, self, out[0].frame, out[0].due);
        var h := HearFrame(w, r, self, out[0].frame, out[0].due);
        TrackedArrives(w', h.reader, self, out[1..]);
        var got := HearFrames(w, r, self, out);
        assert got[1..] == HearFrames(w', h.reader, self, out[1..]);
      } else {
        TrackedArrives(w', r, self, out[1..]);
      }
    }
  }

  /** What a receiver that knows nobody else has to know, and what must not be repeated: `p`
      is the address before as the receiver has it, which a frame without room leaves as it
      was. */
  ghost predicate Follows(w: Writer, known: set<Sid>, p: Option<Sid>, out: seq<Outgoing>)
    requires AllSendable(w.lens, out)
    decreases |out|
  {
    out == [] ||
    (assert Sendable(w.lens, out[0]);
     var f, due := out[0].frame, out[0].due;
     var w' := AfterFrame(w, f, due);
     if !out[0].fits then Follows(w', known, p, out[1..])
     else
       && (w.previous == p || !RepeatsHop(w, f.nextHop)) && FamiliarFrame(w, known, f, due)
       && Follows(w', LearnFrame(w, known, f, due), w'.previous, out[1..]))
  }

  lemma FollowsStep(w: Writer, known: set<Sid>, p: Option<Sid>, out: seq<Outgoing>)
    requires AllSendable(w.lens, out) && out != []
    ensures Normal(w.lens, out[0].frame) && AllSendable(w.lens, out[1..])
    ensures var f, due := out[0].frame, out[0].due; var w' := AfterFrame(w, f, due);
      && w'.sender == w.sender
      && (Follows(w, known, p, out) <==>
            if !out[0].fits then Follows(w', known, p, out[1..])
            else
              && (w.previous == p || !RepeatsHop(w, f.nextHop)) && FamiliarFrame(w, known, f, due)
              && Follows(w', LearnFrame(w, known, f, due), w'.previous, out[1..]))
  {
    assert Sendable(w.lens, out[0]);
    hide FamiliarFrame, LearnFrame;
  }

  lemma LearnsFrameWithin(w: Writer, known: set<Sid>, f: Frame, due: bool)
    requires Normal(w.lens, f) && known <= w.lens.Keys
    ensures LearnFrame(w, known, f, due) <= w.lens.Keys
  {
    var w1, k1 := AfterItem(w, f.nextHop), LearnItem(w, known, f.nextHop);
    LearnsWithin(w, known, f.nextHop);
    LearnsDestinationWithin(w1, k1, f.destination);
    hide AfterItem, LearnItem, LearnDestination;
  }

  lemma DeliversStep(first: Option<Received>, rest: seq<Option<Received>>, out: seq<Outgoing>)
    requires out != [] && out[0].fits
    ensures DeliversAll([first] + rest, out) <==> first == Some(AsReceived(out[0].frame)) && DeliversAll(rest, out[1..])
    ensures !DeliversAll([], out)
  {
    assert ([first] + rest)[1..] == rest;
  }

  /** Such a receiver gets every frame that found room, in order, if and only if it
      follows. */
  lemma {:induction false} FollowedIffDelivered(w: Writer, r: Reader, self: set<Sid>, out: seq<Outgoing>)
    requires AllSendable(w.lens, out) && WithinSids(w, r) && w.sender == r.sender
    ensures DeliversAll(HearFrames(w, r, self, out), out) <==> Follows(w, r.known, r.previous, out)
    decreases |out|
  {
    if out != [] {
      hide HearFrame, HearFrames, FamiliarFrame, LearnFrame, AfterFrame, Normal, LensExact, Follows, AsReceived, AllSendable;
      HearFramesStep(w, r, self, out);
      FollowsStep(w, r.known, r.previous, out);
      var o := out[0];
      var w' := AfterFrame(w, o.frame, o.due);
      SidsStay(w, w');
      if !o.fits {
        FollowedIffDelivered(w', r, self, out[1..]);
      } else {
        NotAnnouncement(w, out);
        FrameRoundTrip(w, r, self, o.frame, o.due);
        var h := HearFrame(w, r, self, o.frame, o.due);
        hide DeliversAll, RepeatsHop;
        if Over(h) {
          DeliversStep(None, [], out);
        } else {
          DeliversStep(if h.Handed? then Some(h.frame) else None, HearFrames(w', h.reader, self, out[1..]), out);
          if CameThrough(w, r, o.frame, o.due, h) {
            LearnsFrameWithin(w, r.known, o.frame, o.due);
            FollowedIffDelivered(w', h.reader, self, out[1..]);
          }
        }
      }
    }
  }

  lemma NotAnnouncement(w: Writer, out: seq<Outgoing>)
    requires AllSendable(w.lens, out) && out != []
    ensures out[0].frame.kind != TYPE_SELFANNOUNCE
  {
    assert Sendable(w.lens, out[0]);
  }

  /** Among equal tables that only depends on what is repeated. */
  lemma {:induction false} SafeIffFollows(w: Writer, p: Option<Sid>, out: seq<Outgoing>)
    requires AllSendable(w.lens, out)
    ensures Follows(w, w.lens.Keys, p, out) <==> Safe(w, p, out)
    decreases |out|
  {
    if out != [] {
      hide Follows, Safe, FamiliarFrame, LearnFrame, AfterFrame, Normal, FramesBytes, AllSendable;
      FollowsStep(w, w.lens.Keys, p, out);
      FramesStep(w, p, out);
      var f, due := out[0].frame, out[0].due;
      var w' := AfterFrame(w, f, due);
      EveryoneKnown(w, f, due);
      SafeIffFollows(w', p, out[1..]);
      SafeIffFollows(w', w'.previous, out[1..]);
    }
  }

  lemma EveryoneKnown(w: Writer, f: Frame, due: bool)
    requires Normal(w.lens, f)
    ensures FamiliarFrame(w, w.lens.Keys, f, due) && LearnFrame(w, w.lens.Keys, f, due) == w.lens.Keys
  {
    var w1 := AfterItem(w, f.nextHop);
    assert LearnItem(w, w.lens.Keys, f.nextHop) == w.lens.Keys;
    assert LearnDestination(w1, w.lens.Keys, f.destination) == w.lens.Keys;
  }

  /** Two frames by which it fails: one without room, and then one whose next hop is the
      source of the first.  Whatever the receiver knows, it does not get the second as it
      was put in. */
  lemma RejectedSourceMisleads(w: Writer, r: Reader, self: set<Sid>, a: Outgoing, b: Outgoing)
    requires Sendable(w.lens, a) && Sendable(w.lens, b) && !a.fits && b.fits && SenderAgrees(w, r)
    requires b.frame.nextHop == ToSubscriber(a.frame.source) && w.sender != Some(a.frame.source)
    requires r.previous != Some(a.frame.source)
    ensures AllSendable(w.lens, [a, b]) && !DeliversAll(HearFrames(w, r, self, [a, b]), [a, b])
    ensures !Safe(w, r.previous, [a, b])
  {
    hide HearFrame, HearFrames, FamiliarFrame, LearnFrame, AfterFrame, AsReceived, Safe, FramesBytes;
    var out := [a, b];
    assert AllSendable(w.lens, out) && out[1..] == [b];
    var w' := AfterFrame(w, a.frame, a.due);
    FramesStep(w, r.previous, out);
    FramesStep(w', r.previous, [b]);
    HearFramesStep(w, r, self, out);
    HearFramesStep(w', r, self, [b]);
    FrameRoundTrip(w', r, self, b.frame, b.due);
    var h := HearFrame(w', r, self, b.frame, b.due);
    assert !AgreeOnHop(w', r, b.frame.nextHop);
    if Over(h) {
      DeliversStep(None, [], [b]);
    } else {
      DeliversStep(if h.Handed? then Some(h.frame) else None, HearFrames(AfterFrame(w', b.frame, b.due), h.reader, self, [b][1..]), [b]);
    }
  }

  // ----- frames without a source -----

  /** A frame from somebody to themselves by way of themselves, after another frame of theirs. */
  predicate Circular(w: Writer, f: Frame)
  {
    f.nextHop == ToSubscriber(f.source) && f.destination == Some(f.source) && Repeats(w, f.source)
  }

  /** Exactly when a frame that was written with a source is heard without one: it is such a
      frame, and what the receiver has heard last is a broadcast address. */
  lemma LostIff(w: Writer, r: Reader, self: set<Sid>, f: Frame, due: bool)
    requires Normal(w.lens, f)
    ensures HearFrame(w, r, self, f, due) == Lost <==> Circular(w, f) && r.previous.None? && r.previousBroadcast
  {
    hide Resolve, AddressBytes;
    var w1 := AfterItem(w, f.nextHop);
    var x := HearItem(w, r.(broadcastId := [0, 0, 0, 0, 0, 0, 0, 0]), f.nextHop);
    SourceWritten(w, f, due);
    DestinationHeard(w1, x.reader, f.destination);
  }

  /** The source is written as a repeat exactly after a destination that is the same. */
  lemma SourceWritten(w: Writer, f: Frame, due: bool)
    requires Normal(w.lens, f)
    ensures var w1 := AfterItem(w, f.nextHop); var w2 := Due(AfterDestination(w1, f.destination), f.source, due);
      && (Repeats(w2, f.source) <==> f.destination == Some(f.source) && w.sender != Some(f.source))
      && w2.sender == w.sender == w1.sender
      && (Repeats(w1, f.source) <==> f.nextHop == ToSubscriber(f.source) && w.sender != Some(f.source))
  {
  }

  /** A subscriber that is heard is the address before. */
  lemma DestinationHeard(w: Writer, r: Reader, d: Option<Sid>)
    requires d.Some? ==> d.value in w.lens
    ensures var y := HearDestination(w, r, d);
      && (y.what.Subscriber? ==> y.reader.previous.Some?)
      && (y.what.NoSubscriber? ==> y.reader == r)
      && (y.what.NoSubscriber? && d.Some? ==> Repeats(w, d.value) && r.previous.None? && r.previousBroadcast)
  {
  }

  /** So no receiver comes upon a frame without a source where every frame leads away from its
      source. */
  lemma {:induction false} OutwardIsNotLost(w: Writer, r: Reader, self: set<Sid>, out: seq<Outgoing>)
    requires AllSendable(w.lens, out)
    requires forall i :: 0 <= i < |out| && out[i].fits ==> out[i].frame.nextHop != ToSubscriber(out[i].frame.source)
    ensures !FramesLost(w, r, self, out)
    decreases |out|
  {
    if out != [] {
      hide HearFrame, HearFrames, FramesLost, AfterFrame, AllSendable, Normal;
      HearFramesStep(w, r, self, out);
      LostIff(w, r, self, out[0].frame, out[0].due);
      var w', h := AfterFrame(w, out[0].frame, out[0].due), HearFrame(w, r, self, out[0].frame, out[0].due);
      assert forall i :: 0 <= i < |out[1..]| ==> out[1..][i] == out[i + 1];
      OutwardIsNotLost(w', r, self, out[1..]);
      if !Over(h) {
        OutwardIsNotLost(w', h.reader, self, out[1..]);
      }
    }
  }

  /** It takes two frames: a broadcast of somebody whom the receiver does not know, and then
      such a frame. */
  lemma StrangerIsLost(w: Writer, r: Reader, self: set<Sid>, a: Outgoing, b: Outgoing)
    requires Sendable(w.lens, a) && Sendable(w.lens, b) && a.fits && b.fits && !a.due
    requires a.frame.nextHop.ToBroadcast? && a.frame.destination.None?
    requires var s := a.frame.source; Abbreviated(AfterBroadcast(w), s) && s !in r.known && WithinSids(w, r)
    requires b.frame.source == a.frame.source && b.frame.destination == Some(a.frame.source)
    requires b.frame.nextHop == ToSubscriber(a.frame.source)
    ensures AllSendable(w.lens, [a, b]) && FramesLost(w, r, self, [a, b])
  {
    var out, w', s := [a, b], AfterFrame(w, a.frame, a.due), a.frame.source;
    assert AllSendable(w.lens, out) && out[1..] == [b];
    BroadcastOfStranger(w, r, self, a);
    hide HearFrame, FramesLost, HearFrames, LensExact;
    HearFramesStep(w, r, self, out);
    var h := HearFrame(w, r, self, a.frame, a.due);
    HearFramesStep(w', h.reader, self, [b]);
    LostIff(w', h.reader, self, b.frame, b.due);
  }

  lemma BroadcastOfStranger(w: Writer, r: Reader, self: set<Sid>, a: Outgoing)
    requires Normal(w.lens, a.frame) && a.frame.nextHop.ToBroadcast? && a.frame.destination.None? && !a.due
    requires Abbreviated(AfterBroadcast(w), a.frame.source) && a.frame.source !in r.known && WithinSids(w, r)
    ensures var h := HearFrame(w, r, self, a.frame, a.due);
      h.Skipped? && h.reader.previous.None? && h.reader.previousBroadcast
  {
    hide LensExact, HearAddress;
    var w1 := AfterBroadcast(w);
    var x := HearBroadcast(r.(broadcastId := [0, 0, 0, 0, 0, 0, 0, 0]), a.frame.nextHop.id);
    SidsStay(w, w1);
    StrangerIsFlagged(w1, x.reader, a.frame.source);
  }

  // ----- a packet opened by a self-announcement -----

  ghost function HearPacket(w: Writer, r: Reader, self: set<Sid>, ann: Outgoing, out: seq<Outgoing>): seq<Option<Received>>
    requires Announcement(w.lens, ann) && AllSendable(w.lens, out)
  {
    var h := HearFrame(w, r, self, ann.frame, ann.due);
    if Over(h) then []
    else [if h.Handed? then Some(h.frame) else None] + HearFrames(AfterAnnouncement(w, ann), h.reader, self, out)
  }

  ghost predicate PacketLost(w: Writer, r: Reader, self: set<Sid>, ann: Outgoing, out: seq<Outgoing>)
    requires Announcement(w.lens, ann) && AllSendable(w.lens, out)
  {
    var h := HearFrame(w, r, self, ann.frame, ann.due);
    h.Lost? || (!Over(h) && FramesLost(AfterAnnouncement(w, ann), h.reader, self, out))
  }

  /** The octets of a packet mean this to every receiver, whatever it knows. */
  lemma PacketIsHeard(w: Writer, r: Reader, self: set<Sid>, ann: Outgoing, out: seq<Outgoing>,
                      mem: seq<byte>, len: nat, pos: nat)
    requires Announcement(w.lens, ann) && AllSendable(w.lens, out)
    requires At(mem, len, pos, PacketBytes(w, ann, out)) && pos + |PacketBytes(w, ann, out)| == len
    requires len + 3 <= |mem|
    ensures ReadPacket(r, self, mem, len, pos) == HearPacket(w, r, self, ann, out)
    ensures LosesSource(r, self, mem, len, pos) <==> PacketLost(w, r, self, ann, out)
  {
    hide FrameBytes, AfterFrame, FramesBytes, Normal, HearFrame, HearFrames, ReadFrame, At, AllSendable, ReadPacket;
    hide SameRound, FrameAddresses, LosesSource, FramesLost;
    var w' := AfterAnnouncement(w, ann);
    AnnouncementFits(w, ann);
    var h, next := HearFrame(w, r, self, ann.frame, ann.due), pos + |FrameBytes(w, ann.frame, ann.due)|;
    SplitAt(mem, len, pos, FrameBytes(w, ann.frame, ann.due), FramesBytes(w', out));
    FrameIsHeard(w, r, self, ann.frame, ann.due, mem, len, pos);
    ReadPacketStep(r, self, mem, len, pos, h, next);
    if !Over(h) {
      FramesAreHeard(w', h.reader, self, out, mem, len, next);
    }
  }

  lemma AnnouncementFits(w: Writer, ann: Outgoing)
    requires Announcement(w.lens, ann)
    ensures Normal(w.lens, ann.frame) && |FrameAddresses(w, ann.frame, ann.due)| + |ann.frame.payload| <= Rfs.MAX_LENGTH
  {
  }

  /** The receiver can follow the packet, in spite of frames that it skips. */
  ghost predicate TracksPacket(w: Writer, r: Reader, self: set<Sid>, ann: Outgoing, out: seq<Outgoing>)
    requires Announcement(w.lens, ann) && AllSendable(w.lens, out)
  {
    && ann.frame.source !in self && AgreeOnHop(w, r, ann.frame.nextHop)
    && FamiliarFrame(w, r.known, ann.frame, ann.due)
    && var h := HearFrame(w, r, self, ann.frame, ann.due);
       !Over(h) ==> Tracks(AfterAnnouncement(w, ann), h.reader, self, out)
  }

  lemma TrackedPacketArrives(w: Writer, r: Reader, self: set<Sid>, ann: Outgoing, out: seq<Outgoing>)
    requires Announcement(w.lens, ann) && AllSendable(w.lens, out) && TracksPacket(w, r, self, ann, out)
    ensures Arrives(HearPacket(w, r, self, ann, out), [ann] + out) && !PacketLost(w, r, self, ann, out)
  {
    hide FramesLost, HearFrame, HearFrames, FamiliarFrame, LearnFrame, WithinSids, AfterFrame, Normal, Tracks;
    FrameRoundTrip(w, r, self, ann.frame, ann.due);
    var h, w' := HearFrame(w, r, self, ann.frame, ann.due), AfterAnnouncement(w, ann);
    TrackedArrives(w', h.reader, self, out);
    var got := HearPacket(w, r, self, ann, out);
    assert got[1..] == HearFrames(w', h.reader, self, out) && ([ann] + out)[1..] == out;
  }

  /** A receiver that knows nobody else gets the whole packet, frame by frame, if and only
      if it knows those who are abbreviated and nothing is repeated that it has missed. */
  lemma PacketRoundTrip(w: Writer, r: Reader, self: set<Sid>, ann: Outgoing, out: seq<Outgoing>)
    requires Announcement(w.lens, ann) && AllSendable(w.lens, out) && ann.frame.source !in self
    requires Synced(w, r) && WithinSids(w, r)
    ensures DeliversAll(HearPacket(w, r, self, ann, out), [ann] + out) <==>
            && FamiliarFrame(w, r.known, ann.frame, ann.due)
            && Follows(AfterAnnouncement(w, ann), LearnFrame(w, r.known, ann.frame, ann.due), Some(ann.frame.source), out)
  {
    hide HearFrame, HearFrames, FamiliarFrame, LearnFrame, AfterFrame, Normal, LensExact, Follows, AsReceived, AllSendable;
    hide DeliversAll, RepeatsHop;
    var all, w' := [ann] + out, AfterAnnouncement(w, ann);
    assert all[0] == ann && all[1..] == out;
    SidsStay(w, w');
    AnnouncementIsLast(w, ann);
    FrameRoundTrip(w, r, self, ann.frame, ann.due);
    var h := HearFrame(w, r, self, ann.frame, ann.due);
    if Over(h) {
      DeliversStep(None, [], all);
    } else {
      DeliversStep(if h.Handed? then Some(h.frame) else None, HearFrames(w', h.reader, self, out), all);
      if CameThrough(w, r, ann.frame, ann.due, h) {
        LearnsFrameWithin(w, r.known, ann.frame, ann.due);
        FollowedIffDelivered(w', h.reader, self, out);
      }
    }
  }

  /** Among equal tables that only depends on what is repeated. */
  lemma PacketAmongEquals(w: Writer, r: Reader, self: set<Sid>, ann: Outgoing, out: seq<Outgoing>)
    requires Announcement(w.lens, ann) && AllSendable(w.lens, out) && ann.frame.source !in self
    requires Synced(w, r) && LensExact(w) && r.known == w.lens.Keys
    ensures DeliversAll(HearPacket(w, r, self, ann, out), [ann] + out) <==>
            Safe(AfterAnnouncement(w, ann), Some(ann.frame.source), out)
  {
    hide HearPacket, FamiliarFrame, LearnFrame, AfterFrame, LensExact, Follows, AllSendable, DeliversAll, Safe;
    PacketRoundTrip(w, r, self, ann, out);
    EveryoneKnown(w, ann.frame, ann.due);
    SafeIffFollows(AfterAnnouncement(w, ann), Some(ann.frame.source), out);
  }
}
