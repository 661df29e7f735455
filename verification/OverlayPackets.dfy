/** Frames appended to and taken from packets as the daemon does it:
    overlay_frame_append_payload, overlay_add_selfannouncement and the slicing
    loop of packetOkOverlay. */
module OverlayPackets {
  import opened Bytes
  import opened Wrappers
  import opened TreeShape
  import opened TreeStore
  import opened OverlayBuffers
  import opened OverlayAddress
  import Codec = AddressCodec
  import Frames = FrameCodec
  import Hearing = PacketHearing
  import Rfs

  /** A frame to be sent; `broadcast` stands for sendBroadcast and broadcast_id. */
  datatype FrameOut = FrameOut(kind: byte, modifiers: byte, ttl: byte, broadcast: Option<Codec.BroadcastId>,
                               nextHop: SubPtr, destination: Option<SubPtr>, source: SubPtr, payload: seq<byte>)

  predicate InTable(subs: Subs, p: SubPtr)
  {
    p < |subs| && Codec.Distinguishable(subs[p].sid)
  }

  predicate FrameOk(subs: Subs, p: FrameOut)
  {
    && p.kind % 0x10 == 0 && p.kind < Frames.TYPE_EXTENDED12 && p.modifiers < 0x10
    && (p.broadcast.None? ==> InTable(subs, p.nextHop) && p.destination.Some?)
    && (p.destination.Some? ==> InTable(subs, p.destination.value))
    && InTable(subs, p.source)
  }

  ghost function AsFrame(subs: Subs, p: FrameOut): Frames.Frame
    requires FrameOk(subs, p)
  {
    Frames.Frame(p.kind, p.modifiers, p.ttl,
      if p.broadcast.Some? then Codec.ToBroadcast(p.broadcast.value) else Codec.ToSubscriber(subs[p.nextHop].sid),
      SidAt(subs, p.destination), subs[p.source].sid, p.payload)
  }

  lemma FrameIsNormal(table: SubscriberTable, p: FrameOut)
    requires table.Valid() && FrameOk(table.subs, p)
    ensures Frames.Normal(table.lay.depths, AsFrame(table.subs, p))
  {
  }

  /** A writable buffer that never runs out. */
  ghost predicate Unbounded(b: OverlayBuffer)
    reads b
  {
    b.Valid() && b.sizeLimit == UNLIMITED && (b.bytes == null || b.owned)
  }

  method AppendNextHop(ctx: AddressContext, b: OverlayBuffer, p: FrameOut)
    requires ctx.Valid() && Unbounded(b) && FrameOk(ctx.table.subs, p)
    modifies ctx`previous, ctx.table`subs, b`bytes, b`owned, b`position, b.bytes
    ensures ctx.Valid() && Unbounded(b) && b.SameOrMoved() && SameButFlags(old(ctx.table.subs), ctx.table.subs)
    ensures var w, a := old(ctx.AsWriter()), AsFrame(old(ctx.table.subs), p).nextHop;
      && Codec.Writable(w.lens, a)
      && ctx.AsWriter() == Codec.AfterItem(w, a)
      && b.Contents() == old(b.Contents()) + Codec.ItemBytes(w, a)
  {
    hide ValidTable, Codec.AddressBytes, Codec.AfterAddress;
    FrameIsNormal(ctx.table, p);
    if p.broadcast.Some? {
      var _ := ctx.AppendBroadcast(b, p.broadcast.value);
    } else {
      ctx.AppendAddress(b, p.nextHop);
    }
  }

  method AppendDestination(ctx: AddressContext, b: OverlayBuffer, p: FrameOut)
    requires ctx.Valid() && Unbounded(b) && FrameOk(ctx.table.subs, p)
    modifies ctx`previous, ctx.table`subs, b`bytes, b`owned, b`position, b.bytes
    ensures ctx.Valid() && Unbounded(b) && b.SameOrMoved() && SameButFlags(old(ctx.table.subs), ctx.table.subs)
    ensures var w, d := old(ctx.AsWriter()), AsFrame(old(ctx.table.subs), p).destination;
      && (d.Some? ==> d.value in w.lens)
      && ctx.AsWriter() == Frames.AfterDestination(w, d)
      && b.Contents() == old(b.Contents()) + Frames.DestinationBytes(w, d)
  {
    hide ValidTable, Codec.AddressBytes, Codec.AfterAddress;
    FrameIsNormal(ctx.table, p);
    if p.destination.Some? {
      ctx.AppendAddress(b, p.destination.value);
    } else {
      var _ := b.AppendBytes([Codec.CODE_PREVIOUS]);
    }
  }

  method AppendSource(ctx: AddressContext, b: OverlayBuffer, p: FrameOut, ticks: nat, ticksPerFullAddress: nat)
    returns (due: bool, ticks': nat)
    requires ctx.Valid() && Unbounded(b) && FrameOk(ctx.table.subs, p)
    modifies ctx`previous, ctx.table`subs, b`bytes, b`owned, b`position, b.bytes
    ensures ctx.Valid() && Unbounded(b) && b.SameOrMoved() && SameButFlags(old(ctx.table.subs), ctx.table.subs)
    ensures var s := AsFrame(old(ctx.table.subs), p).source; var w := Codec.Due(old(ctx.AsWriter()), s, due);
      && s in w.lens
      && ctx.AsWriter() == Codec.AfterAddress(w, s)
      && b.Contents() == old(b.Contents()) + Codec.AddressBytes(w, s)
  {
    hide ValidTable, Codec.AddressBytes, Codec.AfterAddress;
    FrameIsNormal(ctx.table, p);
    due, ticks' := false, ticks;
    if ctx.table.mySubscriber == Some(p.source) {
      var ok;
      ok, due, ticks' := ctx.AppendSelf(b, ticks, ticksPerFullAddress);
    } else {
      ctx.AppendAddress(b, p.source);
    }
  }

  /** The three addresses of a frame, in order.  `due` reports whether our own
      SID was marked to go out in full. */
  method AppendAddresses(ctx: AddressContext, b: OverlayBuffer, p: FrameOut, ticks: nat, ticksPerFullAddress: nat)
    returns (due: bool, ticks': nat)
    requires ctx.Valid() && Unbounded(b) && FrameOk(ctx.table.subs, p)
    modifies ctx`previous, ctx.table`subs, b`bytes, b`owned, b`position, b.bytes
    ensures ctx.Valid() && Unbounded(b) && b.SameOrMoved() && SameButFlags(old(ctx.table.subs), ctx.table.subs)
    ensures var w, f := old(ctx.AsWriter()), AsFrame(old(ctx.table.subs), p);
      && Frames.Normal(w.lens, f)
      && ctx.AsWriter() == Frames.AfterFrame(w, f, due)
      && b.Contents() == old(b.Contents()) + Frames.FrameAddresses(w, f, due)
  {
    hide ValidTable, AsFrame, FrameOk, SameButFlags, Codec.AddressBytes, Codec.AfterAddress, Codec.ItemBytes;
    hide Codec.AfterItem, Frames.DestinationBytes, Frames.AfterDestination, Frames.Normal, Frames.FrameAddresses;
    hide Frames.AfterFrame, Codec.Due, FullSet;
    FrameIsNormal(ctx.table, p);
    ghost var w, f, start := ctx.AsWriter(), AsFrame(ctx.table.subs, p), b.Contents();
    AppendNextHop(ctx, b, p);
    ghost var subs1 := ctx.table.subs;
    FrameStays(old(ctx.table.subs), old(ctx.table.subs), subs1, p);
    AppendDestination(ctx, b, p);
    ghost var subs2 := ctx.table.subs;
    FrameStays(old(ctx.table.subs), subs1, subs2, p);
    due, ticks' := AppendSource(ctx, b, p, ticks, ticksPerFullAddress);
    FrameStays(old(ctx.table.subs), subs2, ctx.table.subs, p);
    AddressesJoin(w, f, due, start);
  }

  lemma AddressesJoin(w: Codec.Writer, f: Frames.Frame, due: bool, start: seq<byte>)
    requires Frames.Normal(w.lens, f)
    ensures var w1 := Codec.AfterItem(w, f.nextHop);
      var w2 := Codec.Due(Frames.AfterDestination(w1, f.destination), f.source, due);
      && start + Codec.ItemBytes(w, f.nextHop) + Frames.DestinationBytes(w1, f.destination) + Codec.AddressBytes(w2, f.source)
         == start + Frames.FrameAddresses(w, f, due)
      && Frames.AfterFrame(w, f, due) == Codec.AfterAddress(w2, f.source)
  {
    hide Codec.ItemBytes, Frames.DestinationBytes, Codec.AddressBytes;
  }

  lemma FrameStays(a: Subs, b: Subs, c: Subs, p: FrameOut)
    requires FrameOk(a, p) && (a == b || SameButFlags(a, b)) && SameButFlags(b, c)
    ensures SameButFlags(a, c) && FrameOk(c, p) && AsFrame(c, p) == AsFrame(a, p)
  {
  }

  // ----- headers -----

  /** The length written before the addresses are known: an upper bound. */
  function GuessLength(payload: nat): nat
  {
    (SID_SIZE + 3) * 3 + 2 + payload
  }

  /** What ends up in front of the payload.  When the guess is too long to be
      written no field is reserved, and the later patch either puts the length in
      front of the type or is refused. */
  function HeaderWritten(kind: byte, modifiers: byte, ttl: byte, addresses: seq<byte>, payload: nat): seq<byte>
    requires kind + modifiers < 0x100 && |addresses| <= 3 * SID_SIZE
  {
    var l := |addresses| + payload;
    if GuessLength(payload) <= Rfs.MAX_LENGTH then Frames.HeadBytes(kind, modifiers, ttl, l) + addresses
    else if l <= Rfs.MAX_LENGTH then Rfs.Encode(l) + [kind + modifiers, ttl] + addresses
    else [kind + modifiers, ttl] + addresses
  }

  /** The bytes of a frame as overlay_frame_append_payload leaves them. */
  ghost function Written(w: Codec.Writer, f: Frames.Frame, due: bool): seq<byte>
    requires Frames.Normal(w.lens, f)
  {
    HeaderWritten(f.kind, f.modifiers, f.ttl, Frames.FrameAddresses(w, f, due), |f.payload|)
  }

  /** The header has the format's form exactly up to the longest payload whose
      guess fits the field. */
  lemma WrittenIsFrame(w: Codec.Writer, f: Frames.Frame, due: bool)
    requires Frames.Normal(w.lens, f)
    ensures |f.payload| <= Frames.MAX_PAYLOAD <==>
            && |Frames.FrameAddresses(w, f, due)| + |f.payload| <= Rfs.MAX_LENGTH
            && Written(w, f, due) + f.payload == Frames.FrameBytes(w, f, due)
  {
    var a := Frames.FrameAddresses(w, f, due);
    var l := |a| + |f.payload|;
    if |f.payload| > Frames.MAX_PAYLOAD && l <= Rfs.MAX_LENGTH {
      assert Rfs.Encode(l)[0] == 0xff;
      assert (Written(w, f, due) + f.payload)[0] == 0xff;
      assert Frames.FrameBytes(w, f, due)[0] == f.kind + f.modifiers;
    }
  }

  /** Type and time to live, and room for the length if the guess can be
      written. */
  ghost function Field(payload: nat): seq<byte>
  {
    if GuessLength(payload) <= Rfs.MAX_LENGTH then Rfs.Encode(GuessLength(payload)) else []
  }

  ghost predicate FieldReserved(b: OverlayBuffer, payload: nat)
    reads b
  {
    && b.varLengthBytes == |Field(payload)|
    && b.varLengthOffset == if GuessLength(payload) <= Rfs.MAX_LENGTH then 2 else 0
  }

  method StartHeaders(p: FrameOut) returns (headers: OverlayBuffer)
    requires p.kind + p.modifiers < 0x100
    ensures fresh(headers) && Unbounded(headers) && headers.bytes != null && fresh(headers.bytes)
    ensures FieldReserved(headers, |p.payload|)
    ensures headers.Contents() == [p.kind + p.modifiers, p.ttl] + Field(|p.payload|)
  {
    headers := new OverlayBuffer();
    var _ := headers.AppendBytes([p.kind + p.modifiers]);
    var _ := headers.AppendBytes([p.ttl]);
    var _ := headers.AppendRfs(GuessLength(|p.payload|));
  }

  method FinishHeaders(headers: OverlayBuffer, p: FrameOut, actual: nat, ghost a: seq<byte>)
    requires p.kind + p.modifiers < 0x100 && 1 <= |a| <= 3 * SID_SIZE && actual == |a| + |p.payload|
    requires Unbounded(headers) && headers.bytes != null && FieldReserved(headers, |p.payload|)
    requires headers.Contents() == [p.kind + p.modifiers, p.ttl] + Field(|p.payload|) + a
    modifies headers`bytes, headers`owned, headers`position, headers.bytes
    ensures headers.Valid() && headers.SameOrMoved() && headers.bytes != null
    ensures headers.Contents() == HeaderWritten(p.kind, p.modifiers, p.ttl, a, |p.payload|)
  {
    HeaderPatched(p, a, headers.Contents());
    hide HeaderWritten, Field, Rfs.Encode;
    var _ := headers.PatchRfs(actual);
  }

  lemma HeaderPatched(p: FrameOut, a: seq<byte>, c: seq<byte>)
    requires p.kind + p.modifiers < 0x100 && |a| <= 3 * SID_SIZE
    requires c == [p.kind + p.modifiers, p.ttl] + Field(|p.payload|) + a
    ensures var l := |a| + |p.payload|;
      var at := if GuessLength(|p.payload|) <= Rfs.MAX_LENGTH then 2 else 0;
      var written := HeaderWritten(p.kind, p.modifiers, p.ttl, a, |p.payload|);
      if l <= Rfs.MAX_LENGTH then c[..at] + Rfs.Encode(l) + c[at + |Field(|p.payload|)|..] == written else c == written
  {
    var head, field := [p.kind + p.modifiers, p.ttl], Field(|p.payload|);
    assert c == head + (field + a) && c[..2] == head && c[2 + |field|..] == a;
  }

  method BuildHeaders(ctx: AddressContext, p: FrameOut, ticks: nat, ticksPerFullAddress: nat)
    returns (headers: OverlayBuffer, due: bool, ticks': nat)
    requires ctx.Valid() && FrameOk(ctx.table.subs, p)
    modifies ctx`previous, ctx.table`subs
    ensures ctx.Valid() && SameButFlags(old(ctx.table.subs), ctx.table.subs)
    ensures fresh(headers) && headers.Valid() && headers.bytes != null && fresh(headers.bytes)
    ensures var w, f := old(ctx.AsWriter()), AsFrame(old(ctx.table.subs), p);
      && Frames.Normal(w.lens, f)
      && ctx.AsWriter() == Frames.AfterFrame(w, f, due)
      && headers.Contents() == Written(w, f, due)
  {
    hide ValidTable, SameButFlags, Codec.AddressBytes, Frames.FrameAddresses, Frames.AfterFrame, Frames.Normal;
    hide HeaderWritten, Field;
    FrameIsNormal(ctx.table, p);
    ghost var w, f := ctx.AsWriter(), AsFrame(ctx.table.subs, p);
    headers := StartHeaders(p);
    var start := headers.position;
    due, ticks' := AppendAddresses(ctx, headers, p, ticks, ticksPerFullAddress);
    FinishHeaders(headers, p, headers.position - start + |p.payload|, Frames.FrameAddresses(w, f, due));
  }

  /** overlay_frame_append_payload.  A frame that does not fit leaves the packet
      as it was, but the address context has moved on all the same. */
  method AppendPayload(ctx: AddressContext, p: FrameOut, ticks: nat, ticksPerFullAddress: nat, b: OverlayBuffer)
    returns (ok: bool, due: bool, ticks': nat)
    requires ctx.Valid() && FrameOk(ctx.table.subs, p) && b.Valid()
    modifies ctx`previous, ctx.table`subs, b`checkpointLength, b`bytes, b`owned, b`position, b.bytes
    ensures ctx.Valid() && b.Valid() && SameButFlags(old(ctx.table.subs), ctx.table.subs)
    ensures b.bytes == old(b.bytes) || fresh(b.bytes)
    ensures var w, f := old(ctx.AsWriter()), AsFrame(old(ctx.table.subs), p);
      && Frames.Normal(w.lens, f)
      && ctx.AsWriter() == Frames.AfterFrame(w, f, due)
      && ok == old(b.HasRoom(2 + |Written(w, f, due)| + |p.payload|))
      && b.Contents() == if ok then old(b.Contents()) + Written(w, f, due) + p.payload else old(b.Contents())
  {
    hide ValidTable, SameButFlags, Frames.FrameAddresses, Frames.AfterFrame, Frames.Normal, Written;
    b.Checkpoint();
    var headers;
    headers, due, ticks' := BuildHeaders(ctx, p, ticks, ticksPerFullAddress);
    ok := b.MakeSpace(2 + headers.position + |p.payload|);
    if ok {
      ok := b.AppendBytes(headers.bytes[..headers.position]);
      if ok {
        ok := b.AppendBytes(p.payload);
      }
    }
    if !ok {
      b.Rewind();
    }
  }

  // ----- putting packets together -----

  predicate Offerable(subs: Subs, p: FrameOut)
  {
    FrameOk(subs, p) && p.kind != Frames.TYPE_SELFANNOUNCE && |p.payload| <= Frames.MAX_PAYLOAD
  }

  predicate AllOfferable(subs: Subs, ps: seq<FrameOut>)
  {
    forall i :: 0 <= i < |ps| ==> Offerable(subs, ps[i])
  }

  /** What was offered and what became of it. */
  ghost predicate Offered(subs: Subs, ps: seq<FrameOut>, fits: seq<bool>, out: seq<Frames.Outgoing>)
  {
    |ps| == |fits| == |out| && forall i :: 0 <= i < |ps| ==>
      FrameOk(subs, ps[i]) && out[i].frame == AsFrame(subs, ps[i]) && out[i].fits == fits[i]
  }

  lemma OfferStays(a: Subs, b: Subs, p: FrameOut)
    requires (a == b || SameButFlags(a, b)) && Offerable(a, p)
    ensures FrameOk(a, p) && FrameOk(b, p) && AsFrame(b, p) == AsFrame(a, p)
    ensures AsFrame(a, p).payload == p.payload && |p.payload| <= Frames.MAX_PAYLOAD
    ensures AsFrame(a, p).kind != Frames.TYPE_SELFANNOUNCE
  {
  }

  /** One frame offered to a packet, in terms of the wire format. */
  method OfferFrame(ctx: AddressContext, p: FrameOut, ticks: nat, ticksPerFullAddress: nat, b: OverlayBuffer,
                    ghost subs: Subs)
    returns (ok: bool, due: bool, ticks': nat, ghost o: Frames.Outgoing)
    requires ctx.Valid() && b.Valid() && Offerable(subs, p)
    requires subs == ctx.table.subs || SameButFlags(subs, ctx.table.subs)
    modifies ctx`previous, ctx.table`subs, b`checkpointLength, b`bytes, b`owned, b`position, b.bytes
    ensures ctx.Valid() && b.Valid() && SameButFlags(subs, ctx.table.subs)
    ensures b.bytes == old(b.bytes) || fresh(b.bytes)
    ensures var w := old(ctx.AsWriter());
      && FrameOk(subs, p) && o == Frames.Outgoing(AsFrame(subs, p), due, ok)
      && Frames.Sendable(w.lens, o) && ctx.AsWriter() == Frames.AfterFrame(w, o.frame, due)
      && b.Contents() == old(b.Contents()) + if ok then Frames.FrameBytes(w, o.frame, due) else []
  {
    hide ValidTable, SameButFlags, FrameOk, AsFrame, Offerable, Written, FullSet;
    hide Frames.FrameAddresses, Frames.AfterFrame, Frames.Normal, Frames.FrameBytes, Frames.Sendable;
    ghost var w, before, start := ctx.AsWriter(), ctx.table.subs, b.Contents();
    OfferStays(subs, before, p);
    ok, due, ticks' := AppendPayload(ctx, p, ticks, ticksPerFullAddress, b);
    o := Frames.Outgoing(AsFrame(subs, p), due, ok);
    OfferIsFrame(w, o, start, b.Contents());
    FlagsChain(subs, before, ctx.table.subs);
  }

  lemma OfferIsFrame(w: Codec.Writer, o: Frames.Outgoing, start: seq<byte>, after: seq<byte>)
    requires Frames.Normal(w.lens, o.frame) && o.frame.kind != Frames.TYPE_SELFANNOUNCE
    requires |o.frame.payload| <= Frames.MAX_PAYLOAD
    requires after == if o.fits then start + Written(w, o.frame, o.due) + o.frame.payload else start
    ensures Frames.Sendable(w.lens, o) && |Frames.FrameAddresses(w, o.frame, o.due)| + |o.frame.payload| <= Rfs.MAX_LENGTH
    ensures after == start + if o.fits then Frames.FrameBytes(w, o.frame, o.due) else []
  {
    hide Frames.FrameAddresses, Frames.Normal, Frames.FrameBytes, Written;
    WrittenIsFrame(w, o.frame, o.due);
    assert start + Written(w, o.frame, o.due) + o.frame.payload == start + (Written(w, o.frame, o.due) + o.frame.payload);
  }

  lemma OfferedAppend(subs: Subs, ps: seq<FrameOut>, i: nat, fits: seq<bool>, out: seq<Frames.Outgoing>,
                      o: Frames.Outgoing)
    requires i < |ps| && Offered(subs, ps[..i], fits, out) && FrameOk(subs, ps[i]) && o.frame == AsFrame(subs, ps[i])
    ensures Offered(subs, ps[..i + 1], fits + [o.fits], out + [o])
  {
  }

  /** Frames offered one after the other to the same packet. */
  method FillPacket(ctx: AddressContext, ps: seq<FrameOut>, ticks: nat, ticksPerFullAddress: nat, b: OverlayBuffer)
    returns (fits: seq<bool>, ghost out: seq<Frames.Outgoing>)
    requires ctx.Valid() && b.Valid() && AllOfferable(ctx.table.subs, ps)
    modifies ctx`previous, ctx.table`subs, b`checkpointLength, b`bytes, b`owned, b`position, b.bytes
    ensures ctx.Valid() && b.Valid() && Offered(old(ctx.table.subs), ps, fits, out)
    ensures var w := old(ctx.AsWriter());
      && Frames.AllSendable(w.lens, out)
      && ctx.AsWriter() == Frames.AfterFrames(w, out)
      && b.Contents() == old(b.Contents()) + Frames.FramesBytes(w, out)
  {
    hide ValidTable, SameButFlags, FrameOk, AsFrame, Offerable, Offered, Frames.AllSendable, Frames.Sendable;
    hide Frames.AfterFrame, Frames.FrameBytes, Frames.FramesBytes, Frames.AfterFrames;
    ghost var w, subs := ctx.AsWriter(), ctx.table.subs;
    var t := ticks;
    fits, out := [], [];
    NothingOffered(w, subs, ps);
    for i := 0 to |ps|
      invariant ctx.Valid() && b.Valid() && (subs == ctx.table.subs || SameButFlags(subs, ctx.table.subs))
      invariant b.bytes == old(b.bytes) || fresh(b.bytes)
      invariant Offered(subs, ps[..i], fits, out)
      invariant Frames.AllSendable(w.lens, out) && ctx.AsWriter() == Frames.AfterFrames(w, out)
      invariant b.Contents() == old(b.Contents()) + Frames.FramesBytes(w, out)
    {
      var ok, due;
      ghost var o;
      ok, due, t, o := OfferFrame(ctx, ps[i], t, ticksPerFullAddress, b, subs);
      Frames.FramesAppend(w, out, o);
      OfferedAppend(subs, ps, i, fits, out, o);
      fits, out := fits + [ok], out + [o];
    }
    assert ps[..|ps|] == ps;
  }

  lemma FlagsChain(a: Subs, b: Subs, c: Subs)
    requires (a == b || SameButFlags(a, b)) && SameButFlags(b, c)
    ensures SameButFlags(a, c)
  {
  }

  lemma NothingOffered(w: Codec.Writer, subs: Subs, ps: seq<FrameOut>)
    ensures Frames.AllSendable(w.lens, []) && Frames.FramesBytes(w, []) == [] && Frames.AfterFrames(w, []) == w
    ensures Offered(subs, ps[..0], [], [])
  {
  }

  // ----- the announcement that opens a packet -----

  /** The longest announcement: fixed fields, broadcast, repeat code, whole SID. */
  const ANNOUNCEMENT_ROOM := 3 + 1 + Codec.BROADCAST_LEN + 1 + SID_SIZE + 9

  function AnnouncementPayload(last: nat, now: nat, iface: byte): (e: seq<byte>)
    requires last < 0x1_0000_0000 && now < 0x1_0000_0000
    ensures |e| == 9
  {
    Ui32(last) + Ui32(now) + [iface]
  }

  function AnnouncementFrame(me: Sid, id: Codec.BroadcastId, payload: seq<byte>): Frames.Frame
  {
    Frames.Frame(Frames.TYPE_SELFANNOUNCE, 0, 1, Codec.ToBroadcast(id), None, me, payload)
  }

  method AppendAnnouncementHead(b: OverlayBuffer, guess: nat)
    requires b.Valid() && b.HasRoom(3) && guess < 250
    modifies b`bytes, b`owned, b`position, b`varLengthOffset, b`varLengthBytes, b.bytes
    ensures b.Valid() && b.SameOrMoved() && b.bytes != null
    ensures b.varLengthOffset == old(b.position) + 2 && b.varLengthBytes == 1
    ensures b.Contents() == old(b.Contents()) + [Frames.TYPE_SELFANNOUNCE, 1, guess]
  {
    var _ := b.AppendBytes([Frames.TYPE_SELFANNOUNCE]);
    var _ := b.AppendBytes([1]);
    var _ := b.AppendRfs(guess);
  }

  method AppendAnnouncementTail(b: OverlayBuffer, last: nat, now: nat, iface: byte)
    requires b.Valid() && b.HasRoom(9) && last < 0x1_0000_0000 && now < 0x1_0000_0000
    modifies b`bytes, b`owned, b`position, b.bytes
    ensures b.Valid() && b.SameOrMoved() && b.bytes != null
    ensures b.Contents() == old(b.Contents()) + AnnouncementPayload(last, now, iface)
  {
    hide Ui32;
    ghost var start := b.Contents();
    var _ := b.AppendUi32(last);
    var _ := b.AppendUi32(now);
    var _ := b.AppendBytes([iface]);
    assert start + Ui32(last) + Ui32(now) + [iface] == start + (Ui32(last) + Ui32(now) + [iface]);
  }

  method AppendAnnouncementAddresses(ctx: AddressContext, b: OverlayBuffer, id: Codec.BroadcastId,
                                     ticks: nat, ticksPerFullAddress: nat, ghost payload: seq<byte>)
    returns (due: bool, ticks': nat)
    requires ctx.Valid() && b.Valid() && b.HasRoom(1 + Codec.BROADCAST_LEN + 1 + SID_SIZE)
    requires ctx.table.mySubscriber.Some? && InTable(ctx.table.subs, ctx.table.mySubscriber.value)
    modifies ctx`previous, ctx.table`subs, b`bytes, b`owned, b`position, b.bytes
    ensures ctx.Valid() && SameButFlags(old(ctx.table.subs), ctx.table.subs)
    ensures b.Valid() && b.SameOrMoved() && b.bytes != null
    ensures var w := old(ctx.AsWriter());
      var f := AnnouncementFrame(old(ctx.table.subs[ctx.table.mySubscriber.value].sid), id, payload);
      && Frames.Normal(w.lens, f)
      && ctx.AsWriter() == Frames.AfterFrame(w, f, due)
      && |Frames.FrameAddresses(w, f, due)| <= 1 + Codec.BROADCAST_LEN + 1 + SID_SIZE
      && b.Contents() == old(b.Contents()) + Frames.FrameAddresses(w, f, due)
  {
    hide ValidTable, FullSet, Codec.AddressBytes, Codec.AfterAddress, Codec.Due, Codec.AfterBroadcast;
    hide Frames.FrameAddresses, Frames.AfterFrame, Frames.Normal, SameButFlags, Codec.BroadcastBytes;
    ghost var w, me := ctx.AsWriter(), ctx.table.subs[ctx.table.mySubscriber.value].sid;
    RecordIsItself(ctx.table.nodes, ctx.table.subs, ctx.table.lay, ctx.table.Known(), ctx.table.mySubscriber.value);
    AppendAnnouncementPlace(ctx, b, id);
    var ok;
    ok, due, ticks' := ctx.AppendSelf(b, ticks, ticksPerFullAddress);
    AnnouncementParts(w, me, id, payload, due);
  }

  /** Broadcast, and the code for "the same" in place of a destination. */
  method AppendAnnouncementPlace(ctx: AddressContext, b: OverlayBuffer, id: Codec.BroadcastId)
    requires ctx.Valid() && b.Valid() && b.HasRoom(1 + Codec.BROADCAST_LEN + 1 + SID_SIZE)
    modifies ctx`previous, b`bytes, b`owned, b`position, b.bytes
    ensures ctx.Valid() && b.Valid() && b.SameOrMoved() && b.HasRoom(SID_SIZE) && b.bytes != null
    ensures ctx.AsWriter() == Codec.AfterBroadcast(old(ctx.AsWriter()))
    ensures b.Contents() == old(b.Contents()) + (Codec.BroadcastBytes(id) + [Codec.CODE_PREVIOUS])
  {
    hide ValidTable, Codec.AfterBroadcast, Codec.BroadcastBytes;
    BroadcastSize(id);
    var ok := ctx.AppendBroadcast(b, id);
    ok := b.AppendBytes([Codec.CODE_PREVIOUS]);
  }

  lemma BroadcastSize(id: Codec.BroadcastId)
    ensures |Codec.BroadcastBytes(id)| == 1 + Codec.BROADCAST_LEN
  {
  }

  lemma AnnouncementParts(w: Codec.Writer, me: Sid, id: Codec.BroadcastId, payload: seq<byte>, due: bool)
    requires me in w.lens && Codec.Distinguishable(me)
    ensures var f, w' := AnnouncementFrame(me, id, payload), Codec.Due(Codec.AfterBroadcast(w), me, due);
      && Frames.Normal(w.lens, f) && me in w'.lens
      && Frames.FrameAddresses(w, f, due) ==
           Codec.BroadcastBytes(id) + [Codec.CODE_PREVIOUS] + Codec.AddressBytes(w', me)
      && |Codec.BroadcastBytes(id)| == 1 + Codec.BROADCAST_LEN
      && Frames.AfterFrame(w, f, due) == Codec.AfterAddress(w', me)
  {
  }

  /** The length guessed for an announcement with a whole SID. */
  const ANNOUNCEMENT_GUESS := 1 + Codec.BROADCAST_LEN + 1 + SID_SIZE + 4 + 4 + 1

  /** Everything up to the final patch of the length. */
  method WriteAnnouncement(ctx: AddressContext, b: OverlayBuffer, id: Codec.BroadcastId, ticks: nat,
                           ticksPerFullAddress: nat, last: nat, now: nat, iface: byte, ghost f: Frames.Frame)
    returns (due: bool, ticks': nat)
    requires ctx.Valid() && b.Valid() && b.HasRoom(ANNOUNCEMENT_ROOM)
    requires ctx.table.mySubscriber.Some? && InTable(ctx.table.subs, ctx.table.mySubscriber.value)
    requires last < 0x1_0000_0000 && now < 0x1_0000_0000
    requires f == AnnouncementFrame(ctx.table.subs[ctx.table.mySubscriber.value].sid, id,
                                    AnnouncementPayload(last, now, iface))
    modifies ctx`previous, ctx.table`subs
    modifies b`bytes, b`owned, b`position, b`varLengthOffset, b`varLengthBytes, b.bytes
    ensures ctx.Valid() && b.Valid() && SameButFlags(old(ctx.table.subs), ctx.table.subs)
    ensures b.bytes != null && b.SameOrMoved()
    ensures b.varLengthOffset == |old(b.Contents())| + 2 && b.varLengthBytes == 1
    ensures var w := old(ctx.AsWriter());
      && Frames.Normal(w.lens, f)
      && |Frames.FrameAddresses(w, f, due)| + |f.payload| < 250
      && ctx.AsWriter() == Frames.AfterFrame(w, f, due)
      && b.Contents() == old(b.Contents()) + [Frames.TYPE_SELFANNOUNCE, 1, ANNOUNCEMENT_GUESS]
                         + Frames.FrameAddresses(w, f, due) + f.payload
  {
    hide ValidTable, Frames.FrameAddresses, Frames.AfterFrame, Frames.Normal, AnnouncementPayload, FullSet;
    hide SameButFlags;
    AppendAnnouncementHead(b, ANNOUNCEMENT_GUESS);
    due, ticks' := AppendAnnouncementAddresses(ctx, b, id, ticks, ticksPerFullAddress, f.payload);
    AppendAnnouncementTail(b, last, now, iface);
  }

  /** overlay_add_selfannouncement, with room for the longest announcement. */
  method AddSelfAnnouncement(ctx: AddressContext, b: OverlayBuffer, id: Codec.BroadcastId,
                             ticks: nat, ticksPerFullAddress: nat, last: nat, now: nat, iface: byte)
    returns (due: bool, ticks': nat, ghost ann: Frames.Outgoing)
    requires ctx.Valid() && b.Valid() && b.HasRoom(ANNOUNCEMENT_ROOM)
    requires ctx.table.mySubscriber.Some? && InTable(ctx.table.subs, ctx.table.mySubscriber.value)
    requires last < 0x1_0000_0000 && now < 0x1_0000_0000
    modifies ctx`previous, ctx`sender, ctx.table`subs
    modifies b`bytes, b`owned, b`position, b`varLengthOffset, b`varLengthBytes, b.bytes
    ensures ctx.Valid() && b.Valid() && SameButFlags(old(ctx.table.subs), ctx.table.subs) && b.SameOrMoved()
    ensures var w, me := old(ctx.AsWriter()), old(ctx.table.subs[ctx.table.mySubscriber.value].sid);
      && ann == Frames.Outgoing(AnnouncementFrame(me, id, AnnouncementPayload(last, now, iface)), due, true)
      && Frames.Announcement(w.lens, ann)
      && ctx.AsWriter() == Frames.AfterAnnouncement(w, ann)
      && b.Contents() == old(b.Contents()) + Frames.FrameBytes(w, ann.frame, due)
  {
    hide ValidTable, Frames.FrameAddresses, Frames.AfterFrame, Frames.Normal, AnnouncementPayload, FullSet;
    hide Frames.HeadBytes;
    ghost var w, start := ctx.AsWriter(), b.Contents();
    ghost var f := AnnouncementFrame(ctx.table.subs[ctx.table.mySubscriber.value].sid, id,
                                     AnnouncementPayload(last, now, iface));
    due, ticks' := WriteAnnouncement(ctx, b, id, ticks, ticksPerFullAddress, last, now, iface, f);
    ctx.sender := ctx.table.mySubscriber;
    PatchAnnouncement(b, ANNOUNCEMENT_GUESS, start, Frames.FrameAddresses(w, f, due), f.payload);
    ann := Frames.Outgoing(f, due, true);
  }

  method PatchAnnouncement(b: OverlayBuffer, ghost guess: byte, ghost start: seq<byte>, ghost a: seq<byte>,
                           ghost payload: seq<byte>)
    requires b.Valid() && b.bytes != null && 1 <= |a| && |a| + |payload| < 250
    requires b.Contents() == start + [Frames.TYPE_SELFANNOUNCE, 1, guess] + a + payload
    requires b.varLengthOffset == |start| + 2 && b.varLengthBytes == 1
    modifies b`bytes, b`owned, b`position, b.bytes
    ensures b.Valid() && b.SameOrMoved()
    ensures b.Contents() ==
            start + (Frames.HeadBytes(Frames.TYPE_SELFANNOUNCE, 0, 1, |a| + |payload|) + a + payload)
  {
    assert b.Contents()[|start| + 3..] == a + payload;
    assert b.Contents()[..|start| + 2] == start + [Frames.TYPE_SELFANNOUNCE, 1];
    var _ := b.PatchRfs(COMPUTE_RFS_LENGTH);
  }

  /** What opens a packet between ticks: an announcement without a body, from us to us by way
      of us. */
  function PresenceFrame(me: Sid): Frames.Frame
  {
    Frames.Frame(Frames.TYPE_SELFANNOUNCE, 0, 1, Codec.ToSubscriber(me), Some(me), me, [])
  }

  lemma PresenceParts(w: Codec.Writer, me: Sid)
    requires me in w.lens && Codec.Distinguishable(me) && w.sender == None
    ensures var f := PresenceFrame(me);
      && Frames.Announcement(w.lens, Frames.Outgoing(f, false, true))
      && Frames.FrameAddresses(w, f, false) == Codec.AddressBytes(w, me) + [Codec.CODE_PREVIOUS, Codec.CODE_PREVIOUS]
      && Frames.AfterFrame(w, f, false) == Codec.AfterAddress(w, me)
  {
    var w1 := Codec.AfterAddress(w, me);
    assert Codec.AfterAddress(w1, me) == w1;
    assert Codec.AddressBytes(w1, me) == [Codec.CODE_PREVIOUS];
  }

  /** The addresses of such an announcement. */
  method AppendPresence(ctx: AddressContext, b: OverlayBuffer, ticks: nat, ticksPerFullAddress: nat)
    returns (due: bool, ticks': nat)
    requires ctx.Valid() && b.Valid() && b.HasRoom(SID_SIZE + 2)
    requires ctx.table.mySubscriber.Some? && ctx.table.mySubscriber.value < |ctx.table.subs|
    modifies ctx`previous, ctx`sender, ctx.table`subs, b`bytes, b`owned, b`position, b.bytes
    ensures ctx.Valid() && SameButFlags(old(ctx.table.subs), ctx.table.subs)
    ensures b.Valid() && b.SameOrMoved() && b.bytes != null
    ensures var me := old(ctx.table.subs[ctx.table.mySubscriber.value].sid); var w := Codec.Due(old(ctx.AsWriter()), me, due);
      && me in w.lens && ctx.AsWriter() == Codec.AfterAddress(w, me).(sender := Some(me))
      && b.Contents() == old(b.Contents()) + (Codec.AddressBytes(w, me) + [Codec.CODE_PREVIOUS, Codec.CODE_PREVIOUS])
  {
    hide ValidTable, FullSet, Codec.AddressBytes, Codec.AfterAddress, Codec.Due;
    var ok;
    ok, due, ticks' := ctx.AppendSelf(b, ticks, ticksPerFullAddress);
    ctx.sender := ctx.table.mySubscriber;
    AppendRepeats(b);
  }

  method AppendRepeats(b: OverlayBuffer)
    requires b.Valid() && b.HasRoom(2)
    modifies b`bytes, b`owned, b`position, b.bytes
    ensures b.Valid() && b.SameOrMoved() && b.bytes != null
    ensures b.Contents() == old(b.Contents()) + [Codec.CODE_PREVIOUS, Codec.CODE_PREVIOUS]
  {
    var _ := b.AppendBytes([Codec.CODE_PREVIOUS]);
    var _ := b.AppendBytes([Codec.CODE_PREVIOUS]);
  }

  /** The dummy announcement of overlay_init_packet. */
  method AddPresence(ctx: AddressContext, b: OverlayBuffer, ticks: nat, ticksPerFullAddress: nat)
    returns (due: bool, ticks': nat, ghost ann: Frames.Outgoing)
    requires ctx.Valid() && b.Valid() && b.HasRoom(3 + SID_SIZE + 2) && ctx.sender.None?
    requires ctx.table.mySubscriber.Some? && InTable(ctx.table.subs, ctx.table.mySubscriber.value)
    modifies ctx`previous, ctx`sender, ctx.table`subs
    modifies b`bytes, b`owned, b`position, b`varLengthOffset, b`varLengthBytes, b.bytes
    ensures ctx.Valid() && b.Valid() && SameButFlags(old(ctx.table.subs), ctx.table.subs) && b.SameOrMoved()
    ensures var me := old(ctx.table.subs[ctx.table.mySubscriber.value].sid); var w := Codec.Due(old(ctx.AsWriter()), me, due);
      && ann == Frames.Outgoing(PresenceFrame(me), false, true)
      && Frames.Announcement(w.lens, ann)
      && ctx.AsWriter() == Frames.AfterAnnouncement(w, ann)
      && b.Contents() == old(b.Contents()) + Frames.FrameBytes(w, ann.frame, false)
  {
    hide ValidTable, Frames.FrameAddresses, Frames.AfterFrame, Frames.Normal, FullSet, Frames.HeadBytes;
    hide SameButFlags, Codec.Due;
    ghost var start, w := b.Contents(), ctx.AsWriter();
    ghost var f := PresenceFrame(ctx.table.subs[ctx.table.mySubscriber.value].sid);
    due, ticks' := WritePresence(ctx, b, ticks, ticksPerFullAddress, f);
    PatchAnnouncement(b, SID_SIZE + 2, start, Frames.FrameAddresses(Codec.Due(w, f.source, due), f, false), []);
    ann := Frames.Outgoing(f, false, true);
  }

  /** Everything up to the final patch of the length. */
  method WritePresence(ctx: AddressContext, b: OverlayBuffer, ticks: nat, ticksPerFullAddress: nat, ghost f: Frames.Frame)
    returns (due: bool, ticks': nat)
    requires ctx.Valid() && b.Valid() && b.HasRoom(3 + SID_SIZE + 2) && ctx.sender.None?
    requires ctx.table.mySubscriber.Some? && InTable(ctx.table.subs, ctx.table.mySubscriber.value)
    requires f == PresenceFrame(ctx.table.subs[ctx.table.mySubscriber.value].sid)
    modifies ctx`previous, ctx`sender, ctx.table`subs
    modifies b`bytes, b`owned, b`position, b`varLengthOffset, b`varLengthBytes, b.bytes
    ensures ctx.Valid() && b.Valid() && SameButFlags(old(ctx.table.subs), ctx.table.subs)
    ensures b.bytes != null && b.SameOrMoved()
    ensures b.varLengthOffset == |old(b.Contents())| + 2 && b.varLengthBytes == 1
    ensures var w := Codec.Due(old(ctx.AsWriter()), f.source, due);
      && Frames.Announcement(w.lens, Frames.Outgoing(f, false, true)) && |Frames.FrameAddresses(w, f, false)| < 250
      && ctx.AsWriter() == Frames.AfterAnnouncement(w, Frames.Outgoing(f, false, true))
      && b.Contents() == old(b.Contents()) + [Frames.TYPE_SELFANNOUNCE, 1, SID_SIZE + 2] + Frames.FrameAddresses(w, f, false) + []
  {
    hide ValidTable, Frames.FrameAddresses, Frames.AfterFrame, Frames.Normal, FullSet, Codec.AddressBytes;
    hide Codec.AfterAddress, SameButFlags;
    ghost var w := ctx.AsWriter();
    RecordIsItself(ctx.table.nodes, ctx.table.subs, ctx.table.lay, ctx.table.Known(), ctx.table.mySubscriber.value);
    AppendAnnouncementHead(b, SID_SIZE + 2);
    due, ticks' := AppendPresence(ctx, b, ticks, ticksPerFullAddress);
    PresenceParts(Codec.Due(w, f.source, due), f.source);
  }

  // ----- taking packets apart -----

  datatype AddressesFound = Broken
                          | AddressesFound(flagged: bool, nextHop: Found, destination: Found, source: Found, pos: nat)

  ghost predicate SameAddresses(subs: Subs, a: AddressesFound, x: Frames.Addresses, id: Codec.BroadcastId)
  {
    if a.Broken? then x.Broken?
    else
      && x.Addresses? && a.flagged == x.flagged && a.pos == x.pos && id == x.broadcastId
      && SameFinding(subs, a.nextHop, x.nextHop)
      && SameFinding(subs, a.destination, x.destination)
      && SameFinding(subs, a.source, x.source)
  }

  lemma FindingStays(a: Subs, b: Subs, found: Found, what: Codec.Parsed)
    requires SameFinding(a, found, what) && KeepsRecords(a, b)
    ensures SameFinding(b, found, what)
  {
  }

  method ParseAddresses(ctx: AddressContext, mem: seq<byte>, len: nat, pos: nat) returns (a: AddressesFound)
    requires ctx.Valid() && len <= |mem|
    modifies ctx`previous, ctx`previousBroadcast, ctx`broadcastId, ctx.table
    ensures ctx.Valid() && KeepsRecords(old(ctx.table.subs), ctx.table.subs)
    ensures var x := Frames.ReadAddresses(old(ctx.AsReader()), mem, len, pos);
      SameAddresses(ctx.table.subs, a, x, ctx.broadcastId) && ctx.AsReader() == x.reader
  {
    hide ValidTable, Codec.ParseAddress, SameFinding;
    ctx.broadcastId := [0, 0, 0, 0, 0, 0, 0, 0];
    ghost var x := Codec.ParseAddress(ctx.AsReader(), mem, len, pos, true);
    var nextHop, at := ctx.ParseAddress(mem, len, pos, true);
    ghost var subs1 := ctx.table.subs;
    FatalIsFatal(subs1, nextHop, x.what);
    if nextHop.Fatal? {
      return Broken;
    }
    ghost var y := Codec.ParseAddress(ctx.AsReader(), mem, len, at, false);
    var destination, at2 := ctx.ParseAddress(mem, len, at, false);
    ghost var subs2 := ctx.table.subs;
    FatalIsFatal(subs2, destination, y.what);
    if destination.Fatal? {
      return Broken;
    }
    ghost var z := Codec.ParseAddress(ctx.AsReader(), mem, len, at2, false);
    var source, at3 := ctx.ParseAddress(mem, len, at2, false);
    FatalIsFatal(ctx.table.subs, source, z.what);
    if source.Fatal? {
      return Broken;
    }
    FindingStays(subs1, ctx.table.subs, nextHop, x.what);
    FindingStays(subs2, ctx.table.subs, destination, y.what);
    a := AddressesFound(nextHop.Unresolved? || destination.Unresolved? || source.Unresolved?,
                        nextHop, destination, source, at3);
  }

  lemma FatalIsFatal(subs: Subs, found: Found, what: Codec.Parsed)
    requires SameFinding(subs, found, what)
    ensures found.Fatal? <==> what.Fatal?
    ensures found.Unresolved? <==> what.Unresolved?
  {
  }

  datatype RoundDone = Stop | Sourceless | Skip(next: nat) | Hand(frame: Frames.Received, next: nat)

  ghost predicate SameRound(d: RoundDone, x: Frames.Round, r: Codec.Reader)
  {
    match d
    case Stop => x.Stop?
    case Sourceless => x.Sourceless?
    case Skip(next) => x == Frames.Skip(next, r)
    case Hand(f, next) => x == Frames.Hand(f, next, r)
  }

  /** The frame handed on, with SIDs in place of record pointers. */
  function Assemble(subs: Subs, h: Frames.Header, a: AddressesFound, id: Codec.BroadcastId,
                    payload: seq<byte>): Frames.Received
    requires a.AddressesFound? && a.source.Subscriber? && a.source.ptr < |subs|
    requires a.nextHop.Subscriber? ==> a.nextHop.ptr < |subs|
    requires a.destination.Subscriber? ==> a.destination.ptr < |subs|
  {
    Frames.Received(h.kind, h.modifiers, h.ttl,
      if a.nextHop.Subscriber? then Codec.ToSubscriber(subs[a.nextHop.ptr].sid) else Codec.ToBroadcast(id),
      if a.destination.Subscriber? then Some(subs[a.destination.ptr].sid) else None,
      subs[a.source.ptr].sid, payload)
  }

  /** One round of the loop in packetOkOverlay. */
  method TakeFrame(ctx: AddressContext, self: set<Sid>, mem: seq<byte>, len: nat, pos: nat) returns (d: RoundDone)
    requires ctx.Valid() && pos < len && len + 3 <= |mem|
    modifies ctx, ctx.table
    ensures ctx.Valid()
    ensures SameRound(d, Frames.ReadFrame(old(ctx.AsReader()), self, mem, len, pos), ctx.AsReader())
    ensures d == Sourceless <==>
            var h := Frames.ReadHeader(mem, len, pos);
            h.length != 0 && Frames.SameAgain(old(ctx.AsReader()), mem, len, h.start)
  {
    hide ValidTable, Frames.ReadHeader, Frames.ReadAddresses, Frames.SameAgain;
    Frames.SourcelessIff(ctx.AsReader(), self, mem, len, pos);
    var h := Frames.ReadHeader(mem, len, pos);
    if h.length == 0 {
      return Stop;
    }
    var next := h.start + h.length;
    var a := ParseAddresses(ctx, mem, len, h.start);
    if a.Broken? || a.flagged {
      return Skip(next);
    }
    if !a.source.Subscriber? {
      return Sourceless;
    }
    if next > len {
      return Stop;
    }
    var f := Assemble(ctx.table.subs, h, a, ctx.broadcastId, if a.pos <= next then mem[a.pos..next] else []);
    if h.kind == Frames.Plain(Frames.TYPE_SELFANNOUNCE) {
      if f.source in self {
        return Stop;
      }
      ctx.sender := Some(a.source.ptr);
    }
    d := Hand(f, next);
  }

  /** The reader's context at the start of a packet. */
  ghost function Fresh(r: Codec.Reader): Codec.Reader
  {
    r.(sender := None, previous := None, previousBroadcast := false)
  }

  function Brought(d: RoundDone): seq<Option<Frames.Received>>
    requires d.Skip? || d.Hand?
  {
    if d.Skip? then [None] else [Some(d.frame)]
  }

  /** What one round adds to the frames of a packet, and where it goes on. */
  lemma PacketGoesOn(got: seq<Option<Frames.Received>>, d: RoundDone, r: Codec.Reader, r': Codec.Reader, self: set<Sid>,
                     mem: seq<byte>, len: nat, pos: nat)
    requires pos < len && len + 3 <= |mem| && SameRound(d, Frames.ReadFrame(r, self, mem, len, pos), r')
    ensures got + Frames.ReadPacket(r, self, mem, len, pos) ==
            if d.Stop? || d.Sourceless? then got
            else got + Brought(d) + Frames.ReadPacket(r', self, mem, len, d.next)
    ensures Frames.LosesSource(r, self, mem, len, pos) <==>
            d.Sourceless? || (!d.Stop? && Frames.LosesSource(r', self, mem, len, d.next))
  {
    hide Frames.ReadFrame;
    assert got + [] == got;
    if d.Skip? || d.Hand? {
      var first := Brought(d);
      var rest := Frames.ReadPacket(r', self, mem, len, d.next);
      assert got + (first + rest) == (got + first) + rest;
    }
  }

  /** packetOkOverlay: every frame of a packet, after its four octets of magic
      and version; `lost` says that a frame without a source was come upon. */
  method TakePacket(ctx: AddressContext, self: set<Sid>, mem: seq<byte>, len: nat)
    returns (got: seq<Option<Frames.Received>>, lost: bool)
    requires ctx.Valid() && len + 3 <= |mem|
    modifies ctx, ctx.table
    ensures ctx.Valid()
    ensures got == Frames.ReadPacket(Fresh(old(ctx.AsReader())), self, mem, len, 4)
    ensures lost <==> Frames.LosesSource(Fresh(old(ctx.AsReader())), self, mem, len, 4)
  {
    hide ValidTable, Frames.ReadFrame, Frames.ReadPacket, Frames.LosesSource;
    ctx.Clear();
    var pos, stop := 4, false;
    got, lost := [], false;
    ghost var loses := Frames.LosesSource(ctx.AsReader(), self, mem, len, pos);
    ghost var whole := Frames.ReadPacket(ctx.AsReader(), self, mem, len, pos);
    assert [] + whole == whole;
    while pos < len && !stop
      invariant ctx.Valid()
      invariant whole == if stop then got else got + Frames.ReadPacket(ctx.AsReader(), self, mem, len, pos)
      invariant loses <==> lost || (!stop && Frames.LosesSource(ctx.AsReader(), self, mem, len, pos))
      decreases len - pos, !stop
    {
      ghost var r := ctx.AsReader();
      var d := TakeFrame(ctx, self, mem, len, pos);
      PacketGoesOn(got, d, r, ctx.AsReader(), self, mem, len, pos);
      FrameMovesOn(r, self, mem, len, pos);
      match d
      case Stop =>
        stop := true;
      case Sourceless =>
        stop, lost := true, true;
      case Skip(next) =>
        got, pos := got + [None], next;
      case Hand(f, next) =>
        got, pos := got + [Some(f)], next;
    }
    PacketIsOver(got, ctx.AsReader(), self, mem, len, pos);
  }

  lemma FrameMovesOn(r: Codec.Reader, self: set<Sid>, mem: seq<byte>, len: nat, pos: nat)
    requires pos < len && len + 3 <= |mem|
    ensures var d := Frames.ReadFrame(r, self, mem, len, pos); d.Skip? || d.Hand? ==> d.next > pos
  {
  }

  lemma PacketIsOver(got: seq<Option<Frames.Received>>, r: Codec.Reader, self: set<Sid>, mem: seq<byte>, len: nat, pos: nat)
    requires len + 3 <= |mem|
    ensures pos >= len ==> got + Frames.ReadPacket(r, self, mem, len, pos) == got && !Frames.LosesSource(r, self, mem, len, pos)
  {
  }

  // ----- from one daemon to another -----

  /** The abbreviation lengths of a table are those of its set of SIDs. */
  lemma WriterIsExact(ctx: AddressContext)
    requires ctx.Valid()
    ensures Codec.LensExact(ctx.AsWriter()) && ctx.AsWriter().lens.Keys == ctx.table.Known()
  {
    forall s | s in ctx.AsWriter().lens
      ensures IsAbbreviation(ctx.AsWriter().lens.Keys, s, ctx.AsWriter().lens[s])
    {
      DepthIsAbbreviation(ctx.table.lay.shape, ctx.table.lay.depths, s);
    }
  }

  lemma OffersStay(a: Subs, b: Subs, ps: seq<FrameOut>)
    requires SameButFlags(a, b) && AllOfferable(a, ps)
    ensures AllOfferable(b, ps)
    ensures forall fits, out :: Offered(b, ps, fits, out) ==> Offered(a, ps, fits, out)
  {
  }

  /** The writer that a packet is opened with: a cleared context, and between ticks our own SID
      may be due to go out whole. */
  ghost predicate Opens(tick: bool, before: Codec.Writer, me: Sid, w: Codec.Writer)
  {
    var clear := before.(sender := None, previous := None);
    w == clear || (!tick && w == Codec.Due(clear, me, true))
  }

  /** The announcement that opens a packet on a tick, or the dummy one between ticks. */
  method OpenPacket(tx: AddressContext, b: OverlayBuffer, tick: bool, id: Codec.BroadcastId, ticks: nat,
                    ticksPerFullAddress: nat, last: nat, now: nat, iface: byte)
    returns (t: nat, ghost w: Codec.Writer, ghost ann: Frames.Outgoing)
    requires tx.Valid() && b.Valid() && b.HasRoom(ANNOUNCEMENT_ROOM)
    requires tx.table.mySubscriber.Some? && InTable(tx.table.subs, tx.table.mySubscriber.value)
    requires last < 0x1_0000_0000 && now < 0x1_0000_0000
    modifies tx, tx.table`subs
    modifies b`bytes, b`owned, b`position, b`varLengthOffset, b`varLengthBytes, b.bytes
    ensures tx.Valid() && b.Valid() && SameButFlags(old(tx.table.subs), tx.table.subs) && b.SameOrMoved()
    ensures Opens(tick, old(tx.AsWriter()), old(tx.table.subs[tx.table.mySubscriber.value].sid), w)
    ensures Frames.Announcement(w.lens, ann) && tx.AsWriter() == Frames.AfterAnnouncement(w, ann)
    ensures b.Contents() == old(b.Contents()) + Frames.FrameBytes(w, ann.frame, ann.due)
  {
    hide ValidTable, SameButFlags, AnnouncementPayload, FullSet, Frames.Announcement, Frames.AfterAnnouncement, Frames.FrameBytes;
    tx.Clear();
    w := tx.AsWriter();
    ghost var me := tx.table.subs[tx.table.mySubscriber.value].sid;
    var due;
    if tick {
      due, t, ann := AddSelfAnnouncement(tx, b, id, ticks, ticksPerFullAddress, last, now, iface);
    } else {
      due, t, ann := AddPresence(tx, b, ticks, ticksPerFullAddress);
      w := Codec.Due(w, me, due);
    }
  }

  /** The sender's half: clear the context, announce, and offer the frames. */
  method BuildPacket(tx: AddressContext, b: OverlayBuffer, tick: bool, id: Codec.BroadcastId, ticks: nat,
                     ticksPerFullAddress: nat, last: nat, now: nat, iface: byte, ps: seq<FrameOut>)
    returns (fits: seq<bool>, ghost w: Codec.Writer, ghost ann: Frames.Outgoing, ghost out: seq<Frames.Outgoing>)
    requires tx.Valid() && b.Valid() && b.HasRoom(ANNOUNCEMENT_ROOM)
    requires tx.table.mySubscriber.Some? && InTable(tx.table.subs, tx.table.mySubscriber.value)
    requires last < 0x1_0000_0000 && now < 0x1_0000_0000 && AllOfferable(tx.table.subs, ps)
    modifies tx, tx.table`subs, b, b.bytes
    ensures tx.Valid() && b.Valid() && Offered(old(tx.table.subs), ps, fits, out)
    ensures Opens(tick, old(tx.AsWriter()), old(tx.table.subs[tx.table.mySubscriber.value].sid), w)
    ensures Frames.Announcement(w.lens, ann) && Frames.AllSendable(w.lens, out)
    ensures b.Contents() == old(b.Contents()) + Frames.PacketBytes(w, ann, out)
  {
    hide ValidTable, SameButFlags, FrameOk, AllOfferable, Offered, AnnouncementPayload, FullSet, Opens;
    hide Frames.Announcement, Frames.AllSendable, Frames.AfterAnnouncement, Frames.FrameBytes, Frames.FramesBytes;
    var t;
    t, w, ann := OpenPacket(tx, b, tick, id, ticks, ticksPerFullAddress, last, now, iface);
    OffersStay(old(tx.table.subs), tx.table.subs, ps);
    fits, out := FillPacket(tx, ps, t, ticksPerFullAddress, b);
  }

  /** What a receiver makes of a packet built like that. */
  lemma PacketArrives(w: Codec.Writer, r: Codec.Reader, self: set<Sid>, ann: Frames.Outgoing,
                      out: seq<Frames.Outgoing>, magic: seq<byte>, beyond: seq<byte>)
    requires Frames.Announcement(w.lens, ann) && Frames.AllSendable(w.lens, out)
    requires |magic| == 4 && |beyond| >= 3
    ensures var packet := magic + Frames.PacketBytes(w, ann, out);
      && Frames.ReadPacket(r, self, packet + beyond, |packet|, 4) == Hearing.HearPacket(w, r, self, ann, out)
      && (Frames.LosesSource(r, self, packet + beyond, |packet|, 4) <==> Hearing.PacketLost(w, r, self, ann, out))
  {
    hide *;
    var e := Frames.PacketBytes(w, ann, out);
    var packet := magic + e;
    assert Codec.At(packet + beyond, |packet|, 4, e) by {
      PacketIsThere(magic, e, beyond);
    }
    Hearing.PacketIsHeard(w, r, self, ann, out, packet + beyond, |packet|, 4);
  }

  /** What a packet is worth to a receiver: if it can follow, every frame arrives or is
      skipped; and if it knows nobody that the sender does not know, every frame arrives if
      and only if those who are abbreviated are known and nothing missed is repeated. */
  ghost predicate Understood(w: Codec.Writer, r: Codec.Reader, self: set<Sid>, ann: Frames.Outgoing,
                             out: seq<Frames.Outgoing>, got: seq<Option<Frames.Received>>)
    requires Frames.Announcement(w.lens, ann) && Frames.AllSendable(w.lens, out)
  {
    && (Hearing.TracksPacket(w, r, self, ann, out) ==>
          Hearing.Arrives(got, [ann] + out) && !Hearing.PacketLost(w, r, self, ann, out))
    && (r.known <= w.lens.Keys && ann.frame.source !in self ==>
          (Frames.DeliversAll(got, [ann] + out) <==>
             && Hearing.FamiliarFrame(w, r.known, ann.frame, ann.due)
             && Hearing.Follows(Frames.AfterAnnouncement(w, ann), Hearing.LearnFrame(w, r.known, ann.frame, ann.due),
                                Some(ann.frame.source), out)))
  }

  lemma PacketUnderstood(w: Codec.Writer, r: Codec.Reader, self: set<Sid>, ann: Frames.Outgoing, out: seq<Frames.Outgoing>)
    requires Frames.Announcement(w.lens, ann) && Frames.AllSendable(w.lens, out)
    requires Codec.Synced(w, r) && Codec.LensExact(w)
    ensures Understood(w, r, self, ann, out, Hearing.HearPacket(w, r, self, ann, out))
  {
    hide Hearing.HearPacket, Hearing.PacketLost, Hearing.TracksPacket, Hearing.Arrives, Hearing.FamiliarFrame, Hearing.LearnFrame, Hearing.Follows;
    hide Frames.DeliversAll, Frames.AllSendable, Frames.AfterAnnouncement, Codec.LensExact;
    if Hearing.TracksPacket(w, r, self, ann, out) {
      Hearing.TrackedPacketArrives(w, r, self, ann, out);
    }
    if r.known <= w.lens.Keys && ann.frame.source !in self {
      Hearing.PacketRoundTrip(w, r, self, ann, out);
    }
  }

  lemma PacketIsThere(magic: seq<byte>, e: seq<byte>, beyond: seq<byte>)
    requires |magic| == 4
    ensures Codec.At(magic + e + beyond, |magic + e|, 4, e)
  {
  }

  lemma OpenedWriter(tick: bool, before: Codec.Writer, me: Sid, w: Codec.Writer)
    requires Opens(tick, before, me, w)
    ensures w.lens == before.lens && w.sender == None && w.previous == None
    ensures Codec.LensExact(before) ==> Codec.LensExact(w)
  {
  }

  /** Build a packet on one side and take it apart on the other.  `beyond` is whatever
      follows the packet in the receive buffer. */
  method Exchange(tx: AddressContext, rx: AddressContext, b: OverlayBuffer, tick: bool, id: Codec.BroadcastId,
                  ticks: nat, ticksPerFullAddress: nat, last: nat, now: nat, iface: byte,
                  ps: seq<FrameOut>, self: set<Sid>, beyond: seq<byte>)
    returns (fits: seq<bool>, got: seq<Option<Frames.Received>>, lost: bool,
             ghost w: Codec.Writer, ghost ann: Frames.Outgoing, ghost out: seq<Frames.Outgoing>)
    requires tx.Valid() && rx.Valid() && tx != rx && tx.table != rx.table && |beyond| >= 3
    requires b.Valid() && |b.Contents()| == 4 && b.HasRoom(ANNOUNCEMENT_ROOM)
    requires tx.table.mySubscriber.Some? && InTable(tx.table.subs, tx.table.mySubscriber.value)
    requires last < 0x1_0000_0000 && now < 0x1_0000_0000 && AllOfferable(tx.table.subs, ps)
    modifies tx, tx.table`subs, rx, rx.table, b, b.bytes
    ensures Offered(old(tx.table.subs), ps, fits, out)
    ensures Opens(tick, old(tx.AsWriter()), old(tx.table.subs[tx.table.mySubscriber.value].sid), w)
    ensures w.lens.Keys == old(tx.table.Known())
    ensures Frames.Announcement(w.lens, ann) && Frames.AllSendable(w.lens, out)
    ensures var r := Fresh(old(rx.AsReader()));
      && r.known == old(rx.table.Known())
      && got == Hearing.HearPacket(w, r, self, ann, out)
      && (lost <==> Hearing.PacketLost(w, r, self, ann, out))
      && Understood(w, r, self, ann, out, got)
  {
    hide ValidTable, SameButFlags, FrameOk, AllOfferable, Offered, FullSet, Codec.LensExact, Opens;
    hide Frames.Announcement, Frames.AllSendable, Frames.AfterAnnouncement, Frames.PacketBytes, Frames.ReadPacket;
    hide Understood, Hearing.HearPacket, Hearing.PacketLost, Frames.LosesSource;
    WriterIsExact(tx);
    ghost var r, magic := Fresh(rx.AsReader()), b.Contents();
    fits, w, ann, out := BuildPacket(tx, b, tick, id, ticks, ticksPerFullAddress, last, now, iface, ps);
    OpenedWriter(tick, old(tx.AsWriter()), old(tx.table.subs[tx.table.mySubscriber.value].sid), w);
    var packet := b.Contents();
    got, lost := TakePacket(rx, self, packet + beyond, |packet|);
    PacketArrives(w, r, self, ann, out, magic, beyond);
    PacketUnderstood(w, r, self, ann, out);
  }
}
