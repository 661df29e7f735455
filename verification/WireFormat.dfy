/** The formats of the overlay octet by octet: what is written, and what octets that may come
    from anywhere are taken for. */
module WireFormat {
  import opened Bytes
  import opened Wrappers
  import opened TreeShape
  import opened AddressCodec
  import opened BigEndian
  import opened FrameCodec
  import OverlayBuffers
  import OverlayPackets
  import Rfs

  // ----- lengths -----

  /** The first octet of a length says how many there are. */
  lemma LengthOctets(mem: seq<byte>, ofs: nat)
    requires ofs + 3 <= |mem|
    ensures var a, b, c := mem[ofs] as int, mem[ofs + 1] as int, mem[ofs + 2] as int;
      Rfs.Decode(mem, ofs) == if a < 250 then (a, ofs + 1)
                              else if a < 255 then (250 + 256 * (a - 250) + b, ofs + 2)
                              else (256 * b + c, ofs + 3)
  {
  }

  /** These octets stand for the length, and are fewer than are written for it. */
  ghost predicate Shorter(mem: seq<byte>, ofs: nat, l: nat)
    requires l <= 0xffff
  {
    ofs + 3 <= |mem| && Rfs.Decode(mem, ofs).0 == l && Rfs.Decode(mem, ofs).1 < ofs + |Rfs.Encode(l)|
  }

  /** No length is written with more octets than it needs, except for 1529. */
  lemma LengthIsShortest(l: nat)
    requires l <= 0xffff
    ensures |Rfs.Encode(l)| == if l < 250 then 1 else if l < 1529 then 2 else 3
    ensures (exists mem, ofs :: Shorter(mem, ofs, l)) <==> l == 1529
  {
    if l == 1529 {
      assert Shorter([254, 255, 0], 0, l);
    }
  }

  // ----- addresses -----

  /** What is written for a subscriber.  An abbreviation is the shortest of 3, 7 and 11 bytes
      with a byte to spare over what tells the SID from all others. */
  lemma AddressOctets(w: Writer, s: Sid)
    requires s in w.lens
    ensures var e, k := AddressBytes(w, s), w.lens[s];
      if w.sender == Some(s) then e == [0x00]
      else if w.previous == Some(s) then e == [0x03]
      else if s in w.full || k >= 20 then e == s
      else
        var n := |e| - 1;
        && e == [if n == 3 then 0x05 else if n == 7 then 0x06 else 0x07] + s[..n]
        && n in {3, 7, 11} && 2 * n >= k + 2 && (n > 3 ==> 2 * (n - 4) < k + 2)
  {
  }

  /** Octets that are not an address at all. */
  ghost predicate NoAddress(mem: seq<byte>, len: nat, pos: nat)
    requires len <= |mem|
  {
    pos >= len ||
    match mem[pos] {
      case 0x00 => false
      case 0x03 => false
      case 0x05 => pos + 4 > len
      case 0x06 => pos + 8 > len
      case 0x07 => pos + 12 > len
      case 0x0f => false
      case code => code < 0x10 || pos + 32 > len
    }
  }

  /** Octets that are an address which this reader cannot resolve. */
  ghost predicate Unclear(r: Reader, mem: seq<byte>, len: nat, pos: nat, wanted: bool)
    requires len <= |mem| && !NoAddress(mem, len, pos)
  {
    match mem[pos]
    case 0x00 => r.sender.None?
    case 0x03 => r.previous.None? && !r.previousBroadcast
    case 0x05 => Resolve(r.known, mem[pos + 1..pos + 4]).None?
    case 0x06 => Resolve(r.known, mem[pos + 1..pos + 8]).None?
    case 0x07 => Resolve(r.known, mem[pos + 1..pos + 12]).None?
    case 0x0f => !wanted
    case _ => false
  }

  /** The SID that an address stands for, if it is not a broadcast address. */
  ghost function Meaning(r: Reader, mem: seq<byte>, len: nat, pos: nat): Option<Sid>
    requires len <= |mem| && !NoAddress(mem, len, pos)
  {
    match mem[pos]
    case 0x00 => r.sender
    case 0x03 => r.previous
    case 0x05 => Resolve(r.known, mem[pos + 1..pos + 4])
    case 0x06 => Resolve(r.known, mem[pos + 1..pos + 8])
    case 0x07 => Resolve(r.known, mem[pos + 1..pos + 12])
    case 0x0f => None
    case _ => Some(mem[pos..pos + 32])
  }

  /** For all octets and all readers: what is no address, which address cannot be resolved, whom
      it stands for otherwise, where the next one begins, and what the reader keeps of it. */
  lemma AddressesAreTold(r: Reader, mem: seq<byte>, len: nat, pos: nat, wanted: bool)
    requires len <= |mem|
    ensures var x := ParseAddress(r, mem, len, pos, wanted);
      && (x.what.Fatal? <==> NoAddress(mem, len, pos))
      && (x.what.Fatal? ==> x.reader == r)
      && (!x.what.Fatal? ==>
            && var code, s := mem[pos], Meaning(r, mem, len, pos);
            && (x.what.Unresolved? <==> Unclear(r, mem, len, pos, wanted))
            && (forall t :: x.what == Subscriber(t) <==> s == Some(t))
            && x.pos == pos + (match code { case 0x05 => 4 case 0x06 => 8 case 0x07 => 12
                                            case 0x0f => if wanted && pos + 9 <= len then 9 else 1
                                            case _ => if code < 0x10 then 1 else 32 })
            && x.reader.previous == (if code == 0x0f then None else if s.Some? then s else r.previous)
            && x.reader.known == r.known + (if code >= 0x10 then {mem[pos..pos + 32]} else {})
            && x.reader.sender == r.sender
            && x.reader.broadcastId == if code == 0x0f && wanted && pos + 9 <= len then mem[pos + 1..pos + 9] else r.broadcastId)
  {
    hide Resolve;
  }

  // ----- frames -----

  /** Type and modifiers, time to live, the length of the rest, next hop, destination, source and
      payload. */
  lemma FrameOctets(w: Writer, f: Frame, due: bool)
    requires Normal(w.lens, f) && |FrameAddresses(w, f, due)| + |f.payload| <= 0xffff
    ensures var w1 := if f.nextHop.ToSubscriber? then AfterAddress(w, f.nextHop.sid) else w.(previous := None);
      var hop := if f.nextHop.ToSubscriber? then AddressBytes(w, f.nextHop.sid) else [0x0f] + f.nextHop.id;
      var to := if f.destination.Some? then AddressBytes(w1, f.destination.value) else [0x03];
      var w2 := Due(if f.destination.Some? then AfterAddress(w1, f.destination.value) else w1, f.source, due);
      var rest := hop + to + AddressBytes(w2, f.source) + f.payload;
      FrameBytes(w, f, due) == [f.kind + f.modifiers, f.ttl] + Rfs.Encode(|rest|) + rest
  {
    hide AddressBytes, AfterAddress, Rfs.Encode;
  }

  /** Types of 0xe0 and 0xf0 have one and two octets more.  A packet that ends there has a time to
      live of 255. */
  lemma HeaderOctets(mem: seq<byte>, len: nat, pos: nat)
    requires pos < len && len + 3 <= |mem|
    ensures var h, flags := ReadHeader(mem, len, pos), mem[pos] as int;
      var at := pos + if flags < 0xe0 then 1 else if flags < 0xf0 then 2 else 3;
      && (h.kind == if flags < 0xe0 then Plain(flags / 16 * 16) else Extended)
      && h.modifiers == (if flags < 0xe0 then flags % 16 else 0)
      && if at < len then h.ttl == mem[at] && (h.length, h.start) == Rfs.Decode(mem, at + 1)
         else h.ttl == 255 && (h.length, h.start) == Rfs.Decode(mem, len)
  {
    hide Rfs.Decode;
  }

  /** For all octets: a frame is handed on if and only if it has a length, all three addresses, a
      source, and does not reach beyond the packet, and it is not an announcement of our own;
      it is skipped if and only if it has a length and an address that is none or cannot be
      resolved. */
  lemma FramesAreTold(r: Reader, self: set<Sid>, mem: seq<byte>, len: nat, pos: nat)
    requires pos < len && len + 3 <= |mem|
    ensures var h, x := ReadHeader(mem, len, pos), ReadFrame(r, self, mem, len, pos);
      var a, next := ReadAddresses(r, mem, len, h.start), h.start + h.length;
      && (x.Skip? <==> h.length > 0 && (a.Broken? || a.flagged))
      && (x.Hand? <==>
            && h.length > 0 && a.Addresses? && !a.flagged && a.source.Subscriber? && next <= len
            && !(h.kind == Plain(0x10) && a.source.sid in self))
      && (x.Skip? || x.Hand? ==> x.next == next)
      && (x.Hand? ==>
            && x.frame.kind == h.kind && x.frame.modifiers == h.modifiers && x.frame.ttl == h.ttl
            && x.frame.nextHop == (if a.nextHop.Subscriber? then ToSubscriber(a.nextHop.sid) else ToBroadcast(a.broadcastId))
            && x.frame.destination == (if a.destination.Subscriber? then Some(a.destination.sid) else None)
            && x.frame.source == a.source.sid && x.frame.payload == (if a.pos <= next then mem[a.pos..next] else [])
            && x.reader == if h.kind == Plain(0x10) then a.reader.(sender := Some(a.source.sid)) else a.reader)
  {
    hide ReadAddresses, ReadHeader;
  }

  // ----- announcements -----

  /** The announcement that opens a packet on a tick: type 0x10, one hop, to everybody, and the
      times between which we have been on that interface. */
  lemma AnnouncementOctets(w: Writer, me: Sid, id: BroadcastId, payload: seq<byte>, due: bool)
    requires |payload| == 9 && Normal(w.lens, OverlayPackets.AnnouncementFrame(me, id, payload))
    ensures var f := OverlayPackets.AnnouncementFrame(me, id, payload);
      var sid := AddressBytes(Due(w.(previous := None), me, due), me);
      && |FrameAddresses(w, f, due)| + |f.payload| <= 0xffff
      && FrameBytes(w, f, due) == [0x10, 1, 19 + |sid|, 0x0f] + id + [0x03] + sid + payload
  {
    hide AddressBytes;
  }

  /** And between ticks: from us to us by way of us, and nothing behind it. */
  lemma PresenceOctets(w: Writer, me: Sid)
    requires w.sender == None && Normal(w.lens, OverlayPackets.PresenceFrame(me))
    ensures var f, sid := OverlayPackets.PresenceFrame(me), AddressBytes(w, me);
      && |FrameAddresses(w, f, false)| + |f.payload| <= 0xffff
      && FrameBytes(w, f, false) == [0x10, 1, |sid| + 2] + sid + [0x03, 0x03]
  {
  }

  lemma TwoOctets(n: nat)
    requires n < 0x1_0000
    ensures Value(OverlayBuffers.Ui16(n)) == n
  {
    var s := OverlayBuffers.Ui16(n);
    assert s[..1][..0] == [] && Value(s[..1]) == s[0] as int;
  }

  lemma AnnouncedTimes(last: nat, now: nat, iface: byte)
    requires last < 0x1_0000_0000 && now < 0x1_0000_0000
    ensures var payload := OverlayPackets.AnnouncementPayload(last, now, iface);
      Value(payload[..4]) == last && Value(payload[4..8]) == now && payload[8] == iface
  {
    var payload := OverlayPackets.AnnouncementPayload(last, now, iface);
    FourOctets(payload[..4], last);
    FourOctets(payload[4..8], now);
  }

  lemma Digits(n: nat)
    ensures n == 256 * (n / 0x100) + n % 0x100
    ensures n / 0x100 == 256 * (n / 0x1_0000) + n / 0x100 % 0x100
    ensures n / 0x1_0000 == 256 * (n / 0x100_0000) + n / 0x1_0000 % 0x100
  {
  }

  lemma ValueOfLast(s: seq<byte>)
    requires s != []
    ensures Value(s) == 256 * Value(s[..|s| - 1]) + s[|s| - 1] as int && Value([]) == 0
  {
  }

  lemma FourOctets(s: seq<byte>, n: nat)
    requires n < 0x1_0000_0000 && s == OverlayBuffers.Ui32(n)
    ensures Value(s) == n
  {
    Digits(n);
    var t, u, v := s[..3], s[..2], s[..1];
    assert t[..2] == u && u[..1] == v && v[..0] == [];
    hide OverlayBuffers.Ui32;
    ValueOfLast(s);
    ValueOfLast(t);
    ValueOfLast(u);
    ValueOfLast(v);
    hide Value;
  }
}
