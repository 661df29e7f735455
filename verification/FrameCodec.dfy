/** Overlay frames on the wire: many frames per packet, each with a type, a time
    to live, a remaining-frame-size field, three abbreviated addresses and a
    payload (overlay_payload.c, overlay_packetformats.c). */
module FrameCodec {
  import opened Bytes
  import opened Wrappers
  import opened TreeShape
  import opened AddressCodec
  import Rfs

  const TYPE_SELFANNOUNCE := 0x10
  const TYPE_EXTENDED12 := 0xe0
  const TYPE_EXTENDED20 := 0xf0

  datatype Frame = Frame(kind: byte, modifiers: byte, ttl: byte, nextHop: Address,
                         destination: Option<Sid>, source: Sid, payload: seq<byte>)

  /** A frame of an ordinary type whose addresses are known to the writer; only
      broadcast frames may go without a destination. */
  predicate Normal(lens: map<Sid, nat>, f: Frame)
  {
    && f.kind % 0x10 == 0 && f.kind < TYPE_EXTENDED12 && f.modifiers < 0x10
    && Writable(lens, f.nextHop)
    && (f.destination.Some? ==> Writable(lens, ToSubscriber(f.destination.value)))
    && (f.destination.None? ==> f.nextHop.ToBroadcast?)
    && Writable(lens, ToSubscriber(f.source))
  }

  // ----- writing -----

  /** After the next hop, and after the destination; a missing destination is
      written as a bare repeat code. */
  function DestinationBytes(w: Writer, d: Option<Sid>): (e: seq<byte>)
    requires d.Some? ==> d.value in w.lens
    ensures 1 <= |e| <= SID_SIZE
  {
    if d.Some? then AddressBytes(w, d.value) else [CODE_PREVIOUS]
  }

  function AfterDestination(w: Writer, d: Option<Sid>): (w': Writer)
    requires d.Some? ==> d.value in w.lens
    ensures w'.lens == w.lens
  {
    if d.Some? then AfterAddress(w, d.value) else w
  }

  function FrameAddresses(w: Writer, f: Frame, due: bool): (e: seq<byte>)
    requires Normal(w.lens, f)
    ensures 3 <= |e| <= 3 * SID_SIZE
  {
    var w1 := AfterItem(w, f.nextHop);
    var w2 := Due(AfterDestination(w1, f.destination), f.source, due);
    ItemBytes(w, f.nextHop) + DestinationBytes(w1, f.destination) + AddressBytes(w2, f.source)
  }

  function AfterFrame(w: Writer, f: Frame, due: bool): (w': Writer)
    requires Normal(w.lens, f)
    ensures w'.lens == w.lens
  {
    var w1 := AfterItem(w, f.nextHop);
    AfterAddress(Due(AfterDestination(w1, f.destination), f.source, due), f.source)
  }

  /** The frame as the format has it. */
  function FrameBytes(w: Writer, f: Frame, due: bool): (e: seq<byte>)
    requires Normal(w.lens, f) && |FrameAddresses(w, f, due)| + |f.payload| <= Rfs.MAX_LENGTH
    ensures |e| >= 3
  {
    HeadBytes(f.kind, f.modifiers, f.ttl, |FrameAddresses(w, f, due)| + |f.payload|)
    + FrameAddresses(w, f, due) + f.payload
  }

  function HeadBytes(kind: byte, modifiers: byte, ttl: byte, l: nat): (e: seq<byte>)
    requires kind + modifiers < 0x100 && l <= Rfs.MAX_LENGTH
    ensures |e| == 2 + |Rfs.Encode(l)|
  {
    [kind + modifiers, ttl] + Rfs.Encode(l)
  }

  // ----- reading -----

  datatype Kind = Plain(code: byte) | Extended

  datatype Received = Received(kind: Kind, modifiers: byte, ttl: byte, nextHop: Address,
                               destination: Option<Sid>, source: Sid, payload: seq<byte>)

  /** What one round of the packet loop does: hand a frame on, skip one whose
      addresses could not all be understood, give up on the packet, or follow the source of
      a frame that has none. */
  datatype Round = Stop | Sourceless | Skip(next: nat, reader: Reader) | Hand(frame: Received, next: nat, reader: Reader)

  datatype Header = Header(kind: Kind, modifiers: byte, ttl: byte, length: nat, start: nat)

  /** Type, time to live and remaining size; reading past the end of the packet
      yields a time to live of 255 and does not advance. */
  function ReadHeader(mem: seq<byte>, len: nat, pos: nat): (h: Header)
    requires pos < len && len + 3 <= |mem|
    ensures pos < h.start
  {
    var flags := mem[pos];
    var kind := flags / 0x10 * 0x10;
    var extra := if kind == TYPE_EXTENDED20 then 2 else if kind == TYPE_EXTENDED12 then 1 else 0;
    var at := if pos + 1 + extra <= len then pos + 1 + extra else len;
    var ttl := if at < len then mem[at] else 0xff;
    var (length, start) := Rfs.Decode(mem, if at < len then at + 1 else at);
    Header(if extra == 0 then Plain(kind) else Extended, if extra == 0 then flags % 0x10 else 0, ttl, length, start)
  }

  datatype Addresses = Broken(reader: Reader)
                     | Addresses(flagged: bool, nextHop: Parsed, destination: Parsed, source: Parsed,
                                 broadcastId: BroadcastId, pos: nat, reader: Reader)

  ghost function ReadAddresses(r: Reader, mem: seq<byte>, len: nat, pos: nat): Addresses
    requires len <= |mem|
  {
    var x := ParseAddress(r.(broadcastId := [0, 0, 0, 0, 0, 0, 0, 0]), mem, len, pos, true);
    if x.what.Fatal? then Broken(x.reader)
    else
      var y := ParseAddress(x.reader, mem, len, x.pos, false);
      if y.what.Fatal? then Broken(y.reader)
      else
        var z := ParseAddress(y.reader, mem, len, y.pos, false);
        if z.what.Fatal? then Broken(z.reader)
        else Addresses(x.what.Unresolved? || y.what.Unresolved? || z.what.Unresolved?,
                       x.what, y.what, z.what, z.reader.broadcastId, z.pos, z.reader)
  }

  /** One round of the loop in packetOkOverlay; `self` are the SIDs of this
      node. */
  ghost function ReadFrame(r: Reader, self: set<Sid>, mem: seq<byte>, len: nat, pos: nat): (x: Round)
    requires pos < len && len + 3 <= |mem|
    ensures x.Skip? || x.Hand? ==> x.next > pos
  {
    var h := ReadHeader(mem, len, pos);
    if h.length == 0 then Stop
    else
      var next := h.start + h.length;
      match ReadAddresses(r, mem, len, h.start)
      case Broken(r') => Skip(next, r')
      case Addresses(flagged, nextHop, destination, source, id, at, r') =>
        if flagged then Skip(next, r')
        else if !source.Subscriber? then Sourceless
        else if next > len then Stop
        else
          var f := Received(h.kind, h.modifiers, h.ttl,
            if nextHop.Subscriber? then ToSubscriber(nextHop.sid) else ToBroadcast(id),
            if destination.Subscriber? then Some(destination.sid) else None,
            source.sid, if at <= next then mem[at..next] else []);
          if h.kind == Plain(TYPE_SELFANNOUNCE) then
            if source.sid in self then Stop else Hand(f, next, r'.(sender := Some(source.sid)))
          else Hand(f, next, r')
  }

  ghost function ReadPacket(r: Reader, self: set<Sid>, mem: seq<byte>, len: nat, pos: nat): seq<Option<Received>>
    requires len + 3 <= |mem|
    decreases len - pos
  {
    if pos >= len then []
    else match ReadFrame(r, self, mem, len, pos)
      case Stop => []
      case Sourceless => []
      case Skip(next, r') => [None] + ReadPacket(r', self, mem, len, next)
      case Hand(f, next, r') => [Some(f)] + ReadPacket(r', self, mem, len, next)
  }

  /** The packet holds a frame without a source, which some round follows all the same. */
  ghost predicate LosesSource(r: Reader, self: set<Sid>, mem: seq<byte>, len: nat, pos: nat)
    requires len + 3 <= |mem|
    decreases len - pos
  {
    pos < len &&
    match ReadFrame(r, self, mem, len, pos)
    case Stop => false
    case Sourceless => true
    case Skip(next, r') => LosesSource(r', self, mem, len, next)
    case Hand(_, next, r') => LosesSource(r', self, mem, len, next)
  }

  /** Broadcast, or the same broadcast as before, and then twice "the same". */
  predicate SameAgain(r: Reader, mem: seq<byte>, len: nat, at: nat)
    requires len <= |mem|
  {
    && at < len
    && (mem[at] == CODE_BROADCAST || (mem[at] == CODE_PREVIOUS && r.previous.None? && r.previousBroadcast))
    && var next := if mem[at] == CODE_BROADCAST && at + 1 + BROADCAST_LEN <= len then at + 1 + BROADCAST_LEN else at + 1;
       next + 1 < len && mem[next] == CODE_PREVIOUS && mem[next + 1] == CODE_PREVIOUS
  }

  /** Exactly when a frame has no source although all its addresses were understood. */
  lemma SourcelessIff(r: Reader, self: set<Sid>, mem: seq<byte>, len: nat, pos: nat)
    requires pos < len && len + 3 <= |mem|
    ensures ReadFrame(r, self, mem, len, pos) == Sourceless <==>
            ReadHeader(mem, len, pos).length != 0 && SameAgain(r, mem, len, ReadHeader(mem, len, pos).start)
  {
    hide ReadHeader, Resolve;
  }

  /** Such a frame, for every receiver: from a broadcast address to a broadcast address. */
  lemma SourcelessFrame(r: Reader, self: set<Sid>, kind: byte, ttl: byte, id: BroadcastId, before: seq<byte>, after: seq<byte>)
    requires kind < TYPE_EXTENDED12 && |after| >= 3
    ensures var packet := before + [kind, ttl, 11, CODE_BROADCAST] + id + [CODE_PREVIOUS, CODE_PREVIOUS];
      && ReadFrame(r, self, packet + after, |packet|, |before|) == Sourceless
      && LosesSource(r, self, packet + after, |packet|, |before|)
  {
    var packet := before + [kind, ttl, 11, CODE_BROADCAST] + id + [CODE_PREVIOUS, CODE_PREVIOUS];
    var mem, at := packet + after, |before|;
    assert mem[at] == kind && mem[at + 1] == ttl && mem[at + 2] == 11 && mem[at + 3] == CODE_BROADCAST;
    assert mem[at + 12] == CODE_PREVIOUS && mem[at + 13] == CODE_PREVIOUS;
    SourcelessIff(r, self, mem, |packet|, at);
    hide ReadFrame;
  }

  // ----- one frame -----

  function AsReceived(f: Frame): Received
  {
    Received(Plain(f.kind), f.modifiers, f.ttl, f.nextHop, f.destination, f.source, f.payload)
  }

  lemma HeadRoundTrip(kind: byte, modifiers: byte, ttl: byte, l: nat, mem: seq<byte>, len: nat, pos: nat)
    requires kind % 0x10 == 0 && kind < TYPE_EXTENDED12 && modifiers < 0x10 && l <= Rfs.MAX_LENGTH
    requires At(mem, len, pos, HeadBytes(kind, modifiers, ttl, l)) && len + 3 <= |mem|
    ensures ReadHeader(mem, len, pos) ==
            Header(Plain(kind), modifiers, ttl, l, pos + |HeadBytes(kind, modifiers, ttl, l)|)
  {
    var e := Rfs.Encode(l);
    SplitAt(mem, len, pos, [kind + modifiers, ttl], e);
    assert mem[pos] == mem[pos..pos + 2][0] && mem[pos + 1] == mem[pos..pos + 2][1];
    assert mem[pos + 2..][..|e|] == mem[pos + 2..pos + 2 + |e|];
    Rfs.DecodeEncoded(mem, pos + 2, l);
  }

  lemma HeaderRoundTrip(w: Writer, f: Frame, due: bool, mem: seq<byte>, len: nat, pos: nat)
    requires Normal(w.lens, f) && |FrameAddresses(w, f, due)| + |f.payload| <= Rfs.MAX_LENGTH
    requires At(mem, len, pos, FrameBytes(w, f, due)) && len + 3 <= |mem|
    ensures var h, a := ReadHeader(mem, len, pos), FrameAddresses(w, f, due);
      && h == Header(Plain(f.kind), f.modifiers, f.ttl, |a| + |f.payload|, h.start)
      && h.start + h.length == pos + |FrameBytes(w, f, due)|
      && At(mem, len, h.start, a)
      && At(mem, len, h.start + |a|, f.payload)
  {
    hide FrameAddresses, ReadHeader, HeadBytes;
    var a := FrameAddresses(w, f, due);
    var head := HeadBytes(f.kind, f.modifiers, f.ttl, |a| + |f.payload|);
    SplitAt(mem, len, pos, head + a, f.payload);
    SplitAt(mem, len, pos, head, a);
    HeadRoundTrip(f.kind, f.modifiers, f.ttl, |a| + |f.payload|, mem, len, pos);
  }

  // ----- whole packets -----

  /** A frame offered to a packet, and whether there was room for it. */
  datatype Outgoing = Outgoing(frame: Frame, due: bool, fits: bool)

  /** The longest payload whose length guess can still be written. */
  const MAX_PAYLOAD := 65428

  predicate Sendable(lens: map<Sid, nat>, o: Outgoing)
  {
    && Normal(lens, o.frame) && o.frame.kind != TYPE_SELFANNOUNCE
    && (o.fits ==> |o.frame.payload| <= MAX_PAYLOAD)
  }

  predicate AllSendable(lens: map<Sid, nat>, out: seq<Outgoing>)
  {
    forall i :: 0 <= i < |out| ==> Sendable(lens, out[i])
  }

  /** A frame without room adds nothing, but the writer's context moves on. */
  function FramesBytes(w: Writer, out: seq<Outgoing>): seq<byte>
    requires AllSendable(w.lens, out)
    decreases |out|
  {
    if out == [] then []
    else
      assert Sendable(w.lens, out[0]);
      (if out[0].fits then FrameBytes(w, out[0].frame, out[0].due) else [])
      + FramesBytes(AfterFrame(w, out[0].frame, out[0].due), out[1..])
  }

  predicate RepeatsHop(w: Writer, a: Address)
  {
    a.ToSubscriber? && Repeats(w, a.sid)
  }

  /** `p` is the address before as the reader has it: after a frame without room
      the next one must not have the rejected source as its next hop. */
  predicate Safe(w: Writer, p: Option<Sid>, out: seq<Outgoing>)
    requires AllSendable(w.lens, out)
    decreases |out|
  {
    out == [] ||
    (assert Sendable(w.lens, out[0]);
     var w' := AfterFrame(w, out[0].frame, out[0].due);
     if out[0].fits then (w.previous == p || !RepeatsHop(w, out[0].frame.nextHop)) && Safe(w', w'.previous, out[1..])
     else Safe(w', p, out[1..]))
  }

  /** Every frame that fitted comes out. */
  ghost predicate DeliversAll(got: seq<Option<Received>>, out: seq<Outgoing>)
    decreases |out|
  {
    if out == [] then got == []
    else if !out[0].fits then DeliversAll(got, out[1..])
    else got != [] && got[0] == Some(AsReceived(out[0].frame)) && DeliversAll(got[1..], out[1..])
  }

  lemma FramesStep(w: Writer, p: Option<Sid>, out: seq<Outgoing>)
    requires AllSendable(w.lens, out) && out != []
    ensures Sendable(w.lens, out[0]) && AllSendable(w.lens, out[1..]) && Normal(w.lens, out[0].frame)
    ensures var w' := AfterFrame(w, out[0].frame, out[0].due);
      && w'.sender == w.sender && w'.previous == Some(out[0].frame.source)
      && FramesBytes(w, out) == (if out[0].fits then FrameBytes(w, out[0].frame, out[0].due) else [])
                                + FramesBytes(w', out[1..])
      && (!out[0].fits ==> FramesBytes(w, out) == FramesBytes(w', out[1..]))
      && (Safe(w, p, out) <==>
            if out[0].fits then (w.previous == p || !RepeatsHop(w, out[0].frame.nextHop)) && Safe(w', w'.previous, out[1..])
            else Safe(w', p, out[1..]))
  {
  }

  function AfterFrames(w: Writer, out: seq<Outgoing>): (w': Writer)
    requires AllSendable(w.lens, out)
    ensures w'.lens == w.lens
    decreases |out|
  {
    if out == [] then w
    else
      assert Sendable(w.lens, out[0]);
      AfterFrames(AfterFrame(w, out[0].frame, out[0].due), out[1..])
  }

  /** Packets grow at their end. */
  lemma {:induction false} FramesAppend(w: Writer, out: seq<Outgoing>, o: Outgoing)
    requires AllSendable(w.lens, out) && Sendable(w.lens, o)
    ensures AllSendable(w.lens, out + [o])
    ensures var w' := AfterFrames(w, out);
      && AfterFrames(w, out + [o]) == AfterFrame(w', o.frame, o.due)
      && FramesBytes(w, out + [o]) == FramesBytes(w, out) + if o.fits then FrameBytes(w', o.frame, o.due) else []
    decreases |out|
  {
    hide FrameBytes, AfterFrame, Sendable;
    var all := out + [o];
    assert AllSendable(w.lens, all);
    FramesStep(w, None, all);
    if out == [] {
      assert all[1..] == [];
    } else {
      FramesStep(w, None, out);
      assert all[1..] == out[1..] + [o];
      FramesAppend(AfterFrame(w, out[0].frame, out[0].due), out[1..], o);
    }
  }

  predicate AllFit(out: seq<Outgoing>)
  {
    forall i :: 0 <= i < |out| ==> out[i].fits
  }

  /** As long as every frame finds room the contexts stay in step. */
  lemma {:induction false} AllFitIsSafe(w: Writer, out: seq<Outgoing>)
    requires AllSendable(w.lens, out) && AllFit(out)
    ensures Safe(w, w.previous, out)
    decreases |out|
  {
    if out != [] {
      FramesStep(w, w.previous, out);
      AllFitIsSafe(AfterFrame(w, out[0].frame, out[0].due), out[1..]);
    }
  }

  // ----- a packet opened by a self-announcement -----

  predicate Announcement(lens: map<Sid, nat>, o: Outgoing)
  {
    Normal(lens, o.frame) && o.frame.kind == TYPE_SELFANNOUNCE && o.fits && |o.frame.payload| <= MAX_PAYLOAD
  }

  /** After the announcement both ends write and read the announced SID as
      "self". */
  function AfterAnnouncement(w: Writer, ann: Outgoing): (w': Writer)
    requires Announcement(w.lens, ann)
    ensures w'.lens == w.lens
  {
    AfterFrame(w, ann.frame, ann.due).(sender := Some(ann.frame.source))
  }

  function PacketBytes(w: Writer, ann: Outgoing, out: seq<Outgoing>): seq<byte>
    requires Announcement(w.lens, ann) && AllSendable(w.lens, out)
  {
    FrameBytes(w, ann.frame, ann.due) + FramesBytes(AfterAnnouncement(w, ann), out)
  }

  lemma AnnouncementIsLast(w: Writer, ann: Outgoing)
    requires Announcement(w.lens, ann)
    ensures AfterFrame(w, ann.frame, ann.due).previous == Some(ann.frame.source)
  {
  }
}
