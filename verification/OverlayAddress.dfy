/** overlay_address.c as it runs: the address context lives in file-level
    variables and addresses are appended to and parsed from buffers. */
module OverlayAddress {
  import opened Bytes
  import opened Wrappers
  import opened TreeShape
  import opened TreeStore
  import opened OverlayBuffers
  import Codec = AddressCodec

  ghost function FullSet(subs: Subs): set<Sid>
  {
    set k | 0 <= k < |subs| && subs[k].sendFull :: subs[k].sid
  }

  ghost function SidAt(subs: Subs, p: Option<SubPtr>): Option<Sid>
  {
    if p.Some? && p.value < |subs| then Some(subs[p.value].sid) else None
  }

  /** Comparing record pointers is comparing SIDs. */
  lemma PointerIsSid(table: SubscriberTable, p: Option<SubPtr>, sub: SubPtr)
    requires table.Valid() && sub < |table.subs| && (p.Some? ==> p.value < |table.subs|)
    ensures SidAt(table.subs, p) == Some(table.subs[sub].sid) <==> p == Some(sub)
  {
  }

  lemma FlagIsMember(table: SubscriberTable, sub: SubPtr)
    requires table.Valid() && sub < |table.subs|
    ensures var subs, rec := table.subs, table.subs[sub];
      && (rec.sid in FullSet(subs) <==> rec.sendFull)
      && FullSet(subs[sub := rec.(sendFull := false)]) == FullSet(subs) - {rec.sid}
      && FullSet(subs[sub := rec.(sendFull := true)]) == FullSet(subs) + {rec.sid}
  {
    hide ValidTable;
    var subs, rec := table.subs, table.subs[sub];
    forall k | 0 <= k < |subs| && subs[k].sid == rec.sid
      ensures k == sub
    {
      RecordIsItself(table.nodes, subs, table.lay, table.Known(), sub);
      RecordIsItself(table.nodes, subs, table.lay, table.Known(), k);
    }
    var off, on := subs[sub := rec.(sendFull := false)], subs[sub := rec.(sendFull := true)];
    assert forall k :: 0 <= k < |subs| && k != sub ==> off[k] == subs[k] && on[k] == subs[k];
    assert on[sub].sendFull;
  }

  /** A one-octet code and then some octets, each appended on its own. */
  method AppendCoded(b: OverlayBuffer, code: byte, octets: seq<byte>)
    requires b.Valid() && octets != []
    modifies b`bytes, b`owned, b`position, b.bytes
    ensures b.Valid() && b.SameOrMoved()
    ensures b.Contents() == old(b.Contents()) + if old(b.HasRoom(1 + |octets|)) then [code] + octets
                                                else if old(b.HasRoom(1)) then [code] else []
  {
    var _ := b.AppendBytes([code]);
    var _ := b.AppendBytes(octets);
  }

  method AppendAbbreviation(b: OverlayBuffer, rec: Subscriber)
    requires b.Valid()
    modifies b`bytes, b`owned, b`position, b.bytes
    ensures b.Valid() && b.SameOrMoved()
    ensures var e := Codec.AbbreviationBytes(rec.abbreviateLen, rec.sid);
      b.Contents() == old(b.Contents()) + if old(b.HasRoom(|e|)) then e else if old(b.HasRoom(1)) then e[..1] else []
  {
    if rec.abbreviateLen <= 4 {
      AppendCoded(b, Codec.CODE_PREFIX3, rec.sid[..3]);
    } else if rec.abbreviateLen <= 12 {
      AppendCoded(b, Codec.CODE_PREFIX7, rec.sid[..7]);
    } else {
      AppendCoded(b, Codec.CODE_PREFIX11, rec.sid[..11]);
    }
  }

  /** The octets for a record, given how it relates to the context. */
  function Form(rec: Subscriber, self: bool, repeat: bool): (e: seq<byte>)
    ensures |e| > 0
  {
    if self then [Codec.CODE_SELF]
    else if repeat then [Codec.CODE_PREVIOUS]
    else if rec.sendFull || rec.abbreviateLen >= 20 then rec.sid
    else Codec.AbbreviationBytes(rec.abbreviateLen, rec.sid)
  }

  predicate IsPrefix(rec: Subscriber, self: bool, repeat: bool)
  {
    !self && !repeat && !rec.sendFull && rec.abbreviateLen < 20
  }

  method AppendForm(b: OverlayBuffer, rec: Subscriber, self: bool, repeat: bool)
    requires b.Valid()
    modifies b`bytes, b`owned, b`position, b.bytes
    ensures b.Valid() && b.SameOrMoved()
    ensures var e := Form(rec, self, repeat);
      b.Contents() == old(b.Contents()) + if old(b.HasRoom(|e|)) then e
                                          else if IsPrefix(rec, self, repeat) && old(b.HasRoom(1)) then e[..1] else []
  {
    if self {
      var _ := b.AppendBytes([Codec.CODE_SELF]);
    } else if repeat {
      var _ := b.AppendBytes([Codec.CODE_PREVIOUS]);
    } else if rec.sendFull || rec.abbreviateLen >= 20 {
      var _ := b.AppendBytes(rec.sid);
    } else {
      AppendAbbreviation(b, rec);
    }
  }

  /** A code and then some octets, unless the code has failed. */
  method AppendBoth(b: OverlayBuffer, code: byte, octets: seq<byte>) returns (ok: bool)
    requires b.Valid() && octets != []
    modifies b`bytes, b`owned, b`position, b.bytes
    ensures b.Valid() && b.SameOrMoved() && ok == old(b.HasRoom(1 + |octets|))
    ensures b.Contents() == old(b.Contents()) + if ok then [code] + octets
                                                else if old(b.HasRoom(1)) then [code] else []
  {
    ok := b.AppendBytes([code]);
    if ok {
      ok := b.AppendBytes(octets);
    }
  }

  /** What parsing an address yields: a record pointer where the codec has a
      SID. */
  datatype Found = Fatal | Unresolved | Subscriber(ptr: SubPtr) | NoSubscriber

  ghost predicate SameFinding(subs: Subs, found: Found, what: Codec.Parsed)
  {
    match found
    case Fatal => what == Codec.Fatal
    case Unresolved => what == Codec.Unresolved
    case NoSubscriber => what == Codec.NoSubscriber
    case Subscriber(p) => p < |subs| && what == Codec.Subscriber(subs[p].sid)
  }

  /** Records are never removed and keep their SIDs. */
  predicate KeepsRecords(a: Subs, b: Subs)
  {
    |a| <= |b| && forall k :: 0 <= k < |a| ==> b[k].sid == a[k].sid
  }

  class AddressContext {
    const table: SubscriberTable
    var sender: Option<SubPtr>
    var previous: Option<SubPtr>
    var broadcastId: Codec.BroadcastId
    var previousBroadcast: bool

    ghost predicate Valid()
      reads this, table
    {
      && table.Valid()
      && (sender.Some? ==> sender.value < |table.subs|)
      && (previous.Some? ==> previous.value < |table.subs|)
    }

    ghost function AsWriter(): Codec.Writer
      reads this, table
    {
      Codec.Writer(table.lay.depths, FullSet(table.subs), SidAt(table.subs, sender), SidAt(table.subs, previous))
    }

    ghost function AsReader(): Codec.Reader
      reads this, table
    {
      Codec.Reader(table.Known(), SidAt(table.subs, sender), SidAt(table.subs, previous),
                   broadcastId, previousBroadcast)
    }

    constructor (table: SubscriberTable)
      requires table.Valid()
      ensures Valid() && this.table == table
      ensures sender == None && previous == None && !previousBroadcast
    {
      this.table := table;
      sender, previous, previousBroadcast := None, None, false;
      broadcastId := [0, 0, 0, 0, 0, 0, 0, 0];
    }

    /** overlay_address_clear. */
    method Clear()
      requires Valid()
      modifies this`sender, this`previous, this`previousBroadcast
      ensures Valid() && sender == None && previous == None && !previousBroadcast
    {
      sender, previous, previousBroadcast := None, None, false;
    }

    /** overlay_address_append.  Failures to append are not noticed: the context
        moves on all the same. */
    method AppendAddress(b: OverlayBuffer, sub: SubPtr)
      requires Valid() && b.Valid() && sub < |table.subs|
      modifies this`previous, table`subs, b`bytes, b`owned, b`position, b.bytes
      ensures Valid() && b.Valid() && b.SameOrMoved()
      ensures SameButFlags(old(table.subs), table.subs)
      ensures var w, s := old(AsWriter()), old(table.subs[sub].sid);
        && s in w.lens
        && AsWriter() == Codec.AfterAddress(w, s)
        && var e := Codec.AddressBytes(w, s);
           b.Contents() == old(b.Contents()) + if old(b.HasRoom(|e|)) then e
                                               else if Codec.Abbreviated(w, s) && old(b.HasRoom(1)) then e[..1] else []
    {
      hide ValidTable, FullSet;
      RecordIsItself(table.nodes, table.subs, table.lay, table.Known(), sub);
      PointerIsSid(table, sender, sub);
      PointerIsSid(table, previous, sub);
      FlagIsMember(table, sub);
      var rec := table.subs[sub];
      AppendForm(b, rec, sender == Some(sub), previous == Some(sub));
      if sender != Some(sub) && previous != Some(sub) && (rec.sendFull || rec.abbreviateLen >= 20) {
        table.subs := table.subs[sub := rec.(sendFull := false)];
        FlagsKeepTable(table.nodes, old(table.subs), table.subs, table.lay, table.Known());
      }
      previous := Some(sub);
    }

    /** overlay_broadcast_append. */
    method AppendBroadcast(b: OverlayBuffer, id: Codec.BroadcastId) returns (ok: bool)
      requires Valid() && b.Valid()
      modifies this`previous, b`bytes, b`owned, b`position, b.bytes
      ensures Valid() && b.Valid() && b.SameOrMoved()
      ensures ok == old(b.HasRoom(1 + Codec.BROADCAST_LEN))
      ensures b.Contents() == old(b.Contents()) + if ok then Codec.BroadcastBytes(id)
                                                  else if old(b.HasRoom(1)) then [Codec.CODE_BROADCAST] else []
      ensures AsWriter() == if ok then Codec.AfterBroadcast(old(AsWriter())) else old(AsWriter())
    {
      hide ValidTable;
      ok := AppendBoth(b, Codec.CODE_BROADCAST, id);
      if ok {
        previous := None;
      }
    }

    /** overlay_address_append_self: every so often our own SID is due to go out
        whole. */
    method AppendSelf(b: OverlayBuffer, ticks: nat, ticksPerFullAddress: nat)
      returns (ok: bool, due: bool, ticks': nat)
      requires Valid() && b.Valid()
      modifies this`previous, table`subs, b`bytes, b`owned, b`position, b.bytes
      ensures Valid() && b.Valid() && b.SameOrMoved()
      ensures SameButFlags(old(table.subs), table.subs)
      ensures ok <==> table.mySubscriber.Some?
      ensures due <==> ok && ticks + 1 > ticksPerFullAddress
      ensures ticks' == if !ok then ticks else if due then 0 else ticks + 1
      ensures ok ==>
        var me := old(table.subs[table.mySubscriber.value].sid);
        var w := Codec.Due(old(AsWriter()), me, due);
        && me in w.lens
        && AsWriter() == Codec.AfterAddress(w, me)
        && var e := Codec.AddressBytes(w, me);
           b.Contents() == old(b.Contents()) + if old(b.HasRoom(|e|)) then e
                                               else if Codec.Abbreviated(w, me) && old(b.HasRoom(1)) then e[..1] else []
      ensures !ok ==> b.Contents() == old(b.Contents()) && AsWriter() == old(AsWriter())
    {
      hide ValidTable, FullSet;
      if table.mySubscriber.None? {
        return false, false, ticks;
      }
      var me := table.mySubscriber.value;
      ticks' := ticks + 1;
      due := ticks' > ticksPerFullAddress;
      if due {
        ticks' := 0;
        FlagIsMember(table, me);
        table.subs := table.subs[me := table.subs[me].(sendFull := true)];
        FlagsKeepTable(table.nodes, old(table.subs), table.subs, table.lay, table.Known());
      }
      assert AsWriter() == Codec.Due(old(AsWriter()), old(table.subs[table.mySubscriber.value].sid), due);
      AppendAddress(b, me);
      ok := true;
    }

    /** find_subscr_buffer. */
    method FindInBuffer(mem: seq<byte>, len: nat, pos: nat, count: nat, create: bool) returns (found: Found, pos': nat)
      requires Valid() && len <= |mem| && 1 <= count <= SID_SIZE && (create ==> count == SID_SIZE)
      modifies this`previous, this`previousBroadcast, table
      ensures Valid() && KeepsRecords(old(table.subs), table.subs)
      ensures var x := if create then Codec.ParseFull(old(AsReader()), mem, len, pos)
                       else Codec.ParsePrefix(old(AsReader()), mem, len, pos, count);
        SameFinding(table.subs, found, x.what) && pos' == x.pos && AsReader() == x.reader
    {
      hide ValidTable;
      if !Codec.InPacket(len, pos, count) {
        return Fatal, pos;
      }
      var id := mem[pos..pos + count];
      var p := table.FindSubscriber(id, create);
      pos' := pos + count;
      if p.None? {
        return Unresolved, pos';
      }
      previous, previousBroadcast := p, false;
      found := Found.Subscriber(p.value);
    }

    /** overlay_address_parse: `wanted` says whether the caller's broadcast
        buffer was passed. */
    method ParseAddress(mem: seq<byte>, len: nat, pos: nat, wanted: bool) returns (found: Found, pos': nat)
      requires Valid() && len <= |mem|
      modifies this`previous, this`previousBroadcast, this`broadcastId, table
      ensures Valid() && KeepsRecords(old(table.subs), table.subs)
      ensures var x := Codec.ParseAddress(old(AsReader()), mem, len, pos, wanted);
        SameFinding(table.subs, found, x.what) && pos' == x.pos && AsReader() == x.reader
    {
      hide ValidTable, Resolve;
      if !Codec.InPacket(len, pos, 1) {
        return Fatal, pos;
      }
      var code := mem[pos];
      if code == Codec.CODE_BROADCAST {
        found, pos' := if wanted then NoSubscriber else Unresolved, pos + 1;
        if wanted && Codec.InPacket(len, pos', Codec.BROADCAST_LEN) {
          broadcastId := mem[pos'..pos' + Codec.BROADCAST_LEN];
          pos' := pos' + Codec.BROADCAST_LEN;
        }
        previousBroadcast := wanted;
        previous := None;
      } else if code == Codec.CODE_SELF {
        pos' := pos + 1;
        if sender.None? {
          return Unresolved, pos';
        }
        found := Found.Subscriber(sender.value);
        previous := sender;
      } else if code == Codec.CODE_PREVIOUS {
        pos' := pos + 1;
        found := if previous.Some? then Found.Subscriber(previous.value)
                 else if previousBroadcast then NoSubscriber else Unresolved;
      } else if Codec.PrefixLength(code) != 0 {
        found, pos' := FindInBuffer(mem, len, pos + 1, Codec.PrefixLength(code), false);
      } else if code <= 0x0f {
        return Fatal, pos;
      } else {
        found, pos' := FindInBuffer(mem, len, pos, SID_SIZE, true);
      }
    }
  }
}
