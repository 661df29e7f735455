/** Address abbreviation on the wire (overlay_address.c): what is written for a
    subscriber depends on what both ends are assumed to know and on the address
    written just before. */
module AddressCodec {
  import opened Bytes
  import opened Wrappers
  import opened TreeShape

  const CODE_SELF := 0x00
  const CODE_PREVIOUS := 0x03
  const CODE_PREFIX3 := 0x05
  const CODE_PREFIX7 := 0x06
  const CODE_PREFIX11 := 0x07
  const CODE_BROADCAST := 0x0f
  const BROADCAST_LEN := 8

  type BroadcastId = s: seq<byte> | |s| == BROADCAST_LEN witness [0, 0, 0, 0, 0, 0, 0, 0]

  // ----- writing -----

  /** The writer's side: the length of the shortest abbreviation of every known
      SID, the SIDs to be sent in full next time, and the running context. */
  datatype Writer = Writer(lens: map<Sid, nat>, full: set<Sid>, sender: Option<Sid>, previous: Option<Sid>)

  /** overlay_address_append. */
  function AddressBytes(w: Writer, s: Sid): (e: seq<byte>)
    requires s in w.lens
    ensures 1 <= |e| <= SID_SIZE
  {
    if w.sender == Some(s) then [CODE_SELF]
    else if w.previous == Some(s) then [CODE_PREVIOUS]
    else if s in w.full || w.lens[s] >= 20 then s
    else AbbreviationBytes(w.lens[s], s)
  }

  function AbbreviationBytes(k: nat, s: Sid): (e: seq<byte>)
    ensures 4 <= |e| <= 12
  {
    if k <= 4 then [CODE_PREFIX3] + s[..3]
    else if k <= 12 then [CODE_PREFIX7] + s[..7]
    else [CODE_PREFIX11] + s[..11]
  }

  predicate SentInFull(w: Writer, s: Sid)
    requires s in w.lens
  {
    w.sender != Some(s) && w.previous != Some(s) && (s in w.full || w.lens[s] >= 20)
  }

  function AfterAddress(w: Writer, s: Sid): Writer
    requires s in w.lens
  {
    w.(previous := Some(s), full := if SentInFull(w, s) then w.full - {s} else w.full)
  }

  /** Our own SID is due to be sent in full again. */
  function Due(w: Writer, s: Sid, due: bool): (w': Writer)
    ensures w'.lens == w.lens
  {
    if due then w.(full := w.full + {s}) else w
  }

  /** overlay_broadcast_append. */
  function BroadcastBytes(id: BroadcastId): seq<byte>
  {
    [CODE_BROADCAST] + id
  }

  function AfterBroadcast(w: Writer): Writer
  {
    w.(previous := None)
  }

  // ----- reading -----

  /** The reader's side.  `broadcastId` is the caller's broadcast buffer and
      `previousBroadcast` says whether previous_broadcast points at it. */
  datatype Reader = Reader(known: set<Sid>, sender: Option<Sid>, previous: Option<Sid>,
                           broadcastId: BroadcastId, previousBroadcast: bool)

  /** What one address turns out to be.  `Unresolved` sets invalid_addresses and
      lets parsing go on; `Fatal` does not. */
  datatype Parsed = Fatal | Unresolved | Subscriber(sid: Sid) | NoSubscriber

  datatype ParseResult = ParseResult(what: Parsed, pos: nat, reader: Reader)

  /** test_offset for a packet of `len` octets. */
  predicate InPacket(len: nat, start: nat, count: nat)
  {
    start + count <= len
  }

  function PrefixLength(code: byte): nat
  {
    if code == CODE_PREFIX3 then 3 else if code == CODE_PREFIX7 then 7
    else if code == CODE_PREFIX11 then 11 else 0
  }

  /** find_subscr_buffer with an abbreviated address. */
  ghost function ParsePrefix(r: Reader, mem: seq<byte>, len: nat, pos: nat, count: nat): ParseResult
    requires len <= |mem|
  {
    if !InPacket(len, pos, count) then ParseResult(Fatal, pos, r)
    else match Resolve(r.known, mem[pos..pos + count])
      case None => ParseResult(Unresolved, pos + count, r)
      case Some(s) =>
        ParseResult(Subscriber(s), pos + count, r.(previous := Some(s), previousBroadcast := false))
  }

  /** find_subscr_buffer with a whole SID, which becomes known. */
  ghost function ParseFull(r: Reader, mem: seq<byte>, len: nat, pos: nat): ParseResult
    requires len <= |mem|
  {
    if !InPacket(len, pos, SID_SIZE) then ParseResult(Fatal, pos, r)
    else
      var s: Sid := mem[pos..pos + SID_SIZE];
      ParseResult(Subscriber(s), pos + SID_SIZE,
                  r.(known := r.known + {s}, previous := Some(s), previousBroadcast := false))
  }

  ghost function ParseBroadcast(r: Reader, mem: seq<byte>, len: nat, pos: nat, wanted: bool): ParseResult
    requires len <= |mem|
  {
    var r' := r.(previous := None, previousBroadcast := wanted);
    if !wanted then ParseResult(Unresolved, pos, r')
    else if !InPacket(len, pos, BROADCAST_LEN) then ParseResult(NoSubscriber, pos, r')
    else ParseResult(NoSubscriber, pos + BROADCAST_LEN,
                     r'.(broadcastId := mem[pos..pos + BROADCAST_LEN]))
  }

  /** overlay_address_parse: `wanted` says whether the caller passed its
      broadcast buffer. */
  ghost function ParseAddress(r: Reader, mem: seq<byte>, len: nat, pos: nat, wanted: bool): ParseResult
    requires len <= |mem|
  {
    if !InPacket(len, pos, 1) then ParseResult(Fatal, pos, r)
    else
      var code := mem[pos];
      if code == CODE_BROADCAST then ParseBroadcast(r, mem, len, pos + 1, wanted)
      else if code == CODE_SELF then
        match r.sender
        case None => ParseResult(Unresolved, pos + 1, r)
        case Some(s) => ParseResult(Subscriber(s), pos + 1, r.(previous := Some(s)))
      else if code == CODE_PREVIOUS then
        match r.previous
        case Some(s) => ParseResult(Subscriber(s), pos + 1, r)
        case None => ParseResult(if r.previousBroadcast then NoSubscriber else Unresolved, pos + 1, r)
      else if PrefixLength(code) != 0 then ParsePrefix(r, mem, len, pos + 1, PrefixLength(code))
      else if code <= 0x0f then ParseResult(Fatal, pos, r)
      else ParseFull(r, mem, len, pos)
  }

  // ----- one address -----

  ghost predicate LensExact(w: Writer)
  {
    forall s :: s in w.lens ==> IsAbbreviation(w.lens.Keys, s, w.lens[s])
  }

  /** Both ends agree on what the context codes mean. */
  ghost predicate Synced(w: Writer, r: Reader)
  {
    w.sender == r.sender && w.previous == r.previous
  }

  /** The address would be written as a repeat of the one before. */
  predicate Repeats(w: Writer, s: Sid)
  {
    w.sender != Some(s) && w.previous == Some(s)
  }

  /** The reader has heard of the sender, or takes nobody else for it. */
  ghost predicate SenderAgrees(w: Writer, r: Reader)
  {
    w.sender == r.sender || r.sender == None
  }

  /** Both ends agree on what matters for this address: a context that differs
      only in the address before is harmless unless that address is repeated. */
  ghost predicate Agree(w: Writer, r: Reader, s: Sid)
  {
    SenderAgrees(w, r) && (w.previous == r.previous || !Repeats(w, s))
  }

  /** Whole SIDs never look like a code. */
  predicate Distinguishable(s: Sid)
  {
    s[0] >= 0x10
  }

  ghost predicate At(mem: seq<byte>, len: nat, pos: nat, e: seq<byte>)
  {
    pos + |e| <= len <= |mem| && mem[pos..pos + |e|] == e
  }

  /** An abbreviation of a SID the reader knows is never taken for another. */
  lemma PrefixResolvesOrNot(known: set<Sid>, s: Sid, p: seq<byte>)
    requires s in known && p <= s
    ensures Resolve(known, p) == Some(s) || Resolve(known, p) == None
  {
    assert s in Matches(known, p);
    assert forall t :: Matches(known, p) == {t} ==> s in {t};
  }

  /** The abbreviation chosen by a writer is long enough for its own table, and for every
      part of it. */
  lemma PrefixIsLongEnough(all: set<Sid>, known: set<Sid>, s: Sid, k: nat, n: nat)
    requires IsAbbreviation(all, s, k) && known <= all && n <= SID_SIZE && k <= 2 * n
    ensures Resolve(known, s[..n]) == if s in known then Some(s) else None
  {
    assert forall t :: t in known && t != s ==> !(s[..n] <= t);
    assert Matches(known, s[..n]) == if s in known then {s} else {};
    assert forall t: Sid :: {} != {t};
  }

  // ----- what a reader makes of a written address -----

  datatype Heard = Heard(what: Parsed, reader: Reader)

  /** The address is written as a prefix. */
  predicate Abbreviated(w: Writer, s: Sid)
    requires s in w.lens
  {
    w.sender != Some(s) && w.previous != Some(s) && !SentInFull(w, s)
  }

  /** What a reader, whatever it knows and whatever its context, takes the address of `s`
      for. */
  ghost function HearAddress(w: Writer, r: Reader, s: Sid): Heard
    requires s in w.lens
  {
    if w.sender == Some(s) then HearSelf(r)
    else if w.previous == Some(s) then HearRepeat(r)
    else if SentInFull(w, s) then
      Heard(Subscriber(s), r.(known := r.known + {s}, previous := Some(s), previousBroadcast := false))
    else match Resolve(r.known, s[..|AddressBytes(w, s)| - 1])
      case None => Heard(Unresolved, r)
      case Some(t) => Heard(Subscriber(t), r.(previous := Some(t), previousBroadcast := false))
  }

  function HearSelf(r: Reader): Heard
  {
    if r.sender.Some? then Heard(Subscriber(r.sender.value), r.(previous := r.sender)) else Heard(Unresolved, r)
  }

  function HearRepeat(r: Reader): Heard
  {
    if r.previous.Some? then Heard(Subscriber(r.previous.value), r)
    else Heard(if r.previousBroadcast then NoSubscriber else Unresolved, r)
  }

  /** The octets of an address mean this to every reader, and are all consumed. */
  lemma AddressIsHeard(w: Writer, r: Reader, s: Sid, mem: seq<byte>, len: nat, pos: nat, wanted: bool)
    requires s in w.lens && Distinguishable(s) && At(mem, len, pos, AddressBytes(w, s))
    ensures var h := HearAddress(w, r, s);
      ParseAddress(r, mem, len, pos, wanted) == ParseResult(h.what, pos + |AddressBytes(w, s)|, h.reader)
  {
    var e := AddressBytes(w, s);
    assert mem[pos..pos + |e|][0] == mem[pos];
    if Abbreviated(w, s) {
      var n := |e| - 1;
      assert mem[pos + 1..pos + 1 + n] == mem[pos..pos + |e|][1..] == s[..n];
    }
  }

  /** A whole SID is taken for itself if and only if it does not look like a code. */
  lemma WholeIsHeardIff(r: Reader, s: Sid, mem: seq<byte>, len: nat, pos: nat, wanted: bool)
    requires At(mem, len, pos, s)
    ensures var x := ParseAddress(r, mem, len, pos, wanted);
      x.what == Subscriber(s) && x.pos == pos + SID_SIZE <==> Distinguishable(s)
  {
    hide Resolve;
    assert mem[pos..pos + SID_SIZE][0] == mem[pos];
  }

  /** A bare repeat code. */
  lemma RepeatIsHeard(r: Reader, mem: seq<byte>, len: nat, pos: nat, wanted: bool)
    requires At(mem, len, pos, [CODE_PREVIOUS])
    ensures ParseAddress(r, mem, len, pos, wanted) == ParseResult(HearRepeat(r).what, pos + 1, HearRepeat(r).reader)
  {
    assert mem[pos..pos + 1][0] == mem[pos];
  }

  function HearBroadcast(r: Reader, id: BroadcastId): Heard
  {
    Heard(NoSubscriber, r.(previous := None, previousBroadcast := true, broadcastId := id))
  }

  /** A broadcast address always reads back where one is expected. */
  lemma BroadcastIsHeard(r: Reader, id: BroadcastId, mem: seq<byte>, len: nat, pos: nat)
    requires At(mem, len, pos, BroadcastBytes(id))
    ensures var h := HearBroadcast(r, id);
      ParseAddress(r, mem, len, pos, true) == ParseResult(h.what, pos + |BroadcastBytes(id)|, h.reader)
  {
    var e := BroadcastBytes(id);
    assert mem[pos..pos + |e|][0] == mem[pos];
    assert mem[pos + 1..pos + 1 + BROADCAST_LEN] == mem[pos..pos + |e|][1..] == id;
  }

  /** Whoever is sent an abbreviation has to know what is abbreviated; a SID that is sent
      whole becomes known. */
  ghost predicate Familiar(w: Writer, known: set<Sid>, s: Sid)
    requires s in w.lens
  {
    Abbreviated(w, s) ==> s in known
  }

  function Learn(w: Writer, known: set<Sid>, s: Sid): set<Sid>
    requires s in w.lens
  {
    if SentInFull(w, s) then known + {s} else known
  }

  ghost predicate HeardRight(w: Writer, s: Sid, h: Heard)
    requires s in w.lens
  {
    h.what == Subscriber(s) && h.reader.previous == AfterAddress(w, s).previous
  }

  /** The reader knows nobody that the writer does not know, and the writer's abbreviations
      are unambiguous. */
  ghost predicate WithinSids(w: Writer, r: Reader)
  {
    LensExact(w) && r.known <= w.lens.Keys
  }

  /** One address: a reader that is familiar with what is abbreviated, and agrees on the
      context, takes the address for what it is or notices that it is ambiguous; nobody
      takes it for another.  If the reader knows nobody else than the writer does, it is
      taken for what it is. */
  lemma AddressRoundTrip(w: Writer, r: Reader, s: Sid)
    requires s in w.lens && Agree(w, r, s) && Familiar(w, r.known, s)
    ensures var h := HearAddress(w, r, s);
      && (HeardRight(w, s, h) || (h.what == Unresolved && h.reader == r))
      && (WithinSids(w, r) && w.sender == r.sender ==> HeardRight(w, s, h))
  {
    if Abbreviated(w, s) {
      hide AddressBytes, Resolve, IsAbbreviation, SentInFull;
      PrefixIsUsed(w, s);
      var n := |AddressBytes(w, s)| - 1;
      PrefixResolvesOrNot(r.known, s, s[..n]);
      if WithinSids(w, r) {
        PrefixIsLongEnough(w.lens.Keys, r.known, s, w.lens[s], n);
      }
    }
  }

  lemma PrefixIsUsed(w: Writer, s: Sid)
    requires s in w.lens && Abbreviated(w, s)
    ensures var n := |AddressBytes(w, s)| - 1; 0 <= n <= SID_SIZE && w.lens[s] <= 2 * n
  {
  }

  /** Whatever it is taken for, a SID that is sent whole becomes known, nothing else does, and
      the address before is the one that was heard. */
  lemma HearingLearns(w: Writer, r: Reader, s: Sid)
    requires s in w.lens
    ensures var h := HearAddress(w, r, s);
      && h.reader.known == Learn(w, r.known, s) && h.reader.sender == r.sender && h.reader.broadcastId == r.broadcastId
      && !h.what.Fatal? && (h.what.Subscriber? ==> h.reader.previous == Some(h.what.sid))
  {
  }

  /** A reader that knows nobody else flags every abbreviation that it is not familiar
      with. */
  lemma StrangerIsFlagged(w: Writer, r: Reader, s: Sid)
    requires s in w.lens && WithinSids(w, r) && !Familiar(w, r.known, s)
    ensures HearAddress(w, r, s) == Heard(Unresolved, r)
  {
    hide AddressBytes, Resolve, IsAbbreviation, SentInFull;
    PrefixIsUsed(w, s);
    PrefixIsLongEnough(w.lens.Keys, r.known, s, w.lens[s], |AddressBytes(w, s)| - 1);
  }

  /** Where the contexts differ in the address before, and that address is
      repeated, the reader takes it for another or flags it. */
  lemma RepeatMisleads(w: Writer, r: Reader, s: Sid)
    requires s in w.lens && !Agree(w, r, s) && SenderAgrees(w, r)
    ensures HearAddress(w, r, s).what != Subscriber(s)
    ensures r.previous.Some? ==> HearAddress(w, r, s).what == Subscriber(r.previous.value)
  {
  }

  // ----- runs of addresses -----

  datatype Address = ToSubscriber(sid: Sid) | ToBroadcast(id: BroadcastId)

  predicate Writable(lens: map<Sid, nat>, a: Address)
  {
    a.ToSubscriber? ==> a.sid in lens && Distinguishable(a.sid)
  }

  predicate AllWritable(lens: map<Sid, nat>, items: seq<Address>)
  {
    forall i :: 0 <= i < |items| ==> Writable(lens, items[i])
  }

  function ItemBytes(w: Writer, a: Address): seq<byte>
    requires Writable(w.lens, a)
  {
    if a.ToBroadcast? then BroadcastBytes(a.id) else AddressBytes(w, a.sid)
  }

  function AfterItem(w: Writer, a: Address): (w': Writer)
    requires Writable(w.lens, a)
    ensures w'.lens == w.lens
  {
    if a.ToBroadcast? then AfterBroadcast(w) else AfterAddress(w, a.sid)
  }

  function RunBytes(w: Writer, items: seq<Address>): seq<byte>
    requires AllWritable(w.lens, items)
    decreases |items|
  {
    if items == [] then []
    else ItemBytes(w, items[0]) + RunBytes(AfterItem(w, items[0]), items[1..])
  }

  ghost predicate Flagged(x: ParseResult)
  {
    x.what.Fatal? || x.what.Unresolved?
  }

  ghost function ItemRead(x: ParseResult): Address
    requires !Flagged(x)
  {
    if x.what.NoSubscriber? then ToBroadcast(x.reader.broadcastId) else ToSubscriber(x.what.sid)
  }

  /** The addresses read back before the first one that is flagged. */
  datatype Run = Run(got: seq<Address>, flagged: bool, pos: nat)

  ghost function ReadRun(r: Reader, mem: seq<byte>, len: nat, pos: nat, n: nat): Run
    requires len <= |mem|
    decreases n
  {
    if n == 0 then Run([], false, pos)
    else
      var x := ParseAddress(r, mem, len, pos, true);
      if Flagged(x) then Run([], true, x.pos)
      else
        var rest := ReadRun(x.reader, mem, len, x.pos, n - 1);
        rest.(got := [ItemRead(x)] + rest.got)
  }

  lemma ReadRunStep(r: Reader, mem: seq<byte>, len: nat, pos: nat, n: nat)
    requires len <= |mem| && n > 0
    ensures var x := ParseAddress(r, mem, len, pos, true);
      if Flagged(x) then ReadRun(r, mem, len, pos, n) == Run([], true, x.pos)
      else
        var rest := ReadRun(x.reader, mem, len, x.pos, n - 1);
        ReadRun(r, mem, len, pos, n) == Run([ItemRead(x)] + rest.got, rest.flagged, rest.pos)
  {
  }

  function LearnItem(w: Writer, known: set<Sid>, a: Address): set<Sid>
    requires Writable(w.lens, a)
  {
    if a.ToSubscriber? then Learn(w, known, a.sid) else known
  }

  ghost predicate FamiliarItem(w: Writer, known: set<Sid>, a: Address)
    requires Writable(w.lens, a)
  {
    a.ToSubscriber? ==> Familiar(w, known, a.sid)
  }

  /** The reader knows what is abbreviated, be it from an earlier address of the run. */
  ghost predicate FamiliarRun(w: Writer, known: set<Sid>, items: seq<Address>)
    requires AllWritable(w.lens, items)
    decreases |items|
  {
    items == [] ||
    (FamiliarItem(w, known, items[0])
     && FamiliarRun(AfterItem(w, items[0]), LearnItem(w, known, items[0]), items[1..]))
  }

  ghost function HearItem(w: Writer, r: Reader, a: Address): Heard
    requires Writable(w.lens, a)
  {
    if a.ToBroadcast? then HearBroadcast(r, a.id) else HearAddress(w, r, a.sid)
  }

  lemma ItemIsHeard(w: Writer, r: Reader, a: Address, mem: seq<byte>, len: nat, pos: nat)
    requires Writable(w.lens, a) && At(mem, len, pos, ItemBytes(w, a))
    ensures var h := HearItem(w, r, a);
      ParseAddress(r, mem, len, pos, true) == ParseResult(h.what, pos + |ItemBytes(w, a)|, h.reader)
  {
    hide ParseAddress, HearAddress;
    if a.ToBroadcast? {
      BroadcastIsHeard(r, a.id, mem, len, pos);
    } else {
      AddressIsHeard(w, r, a.sid, mem, len, pos, true);
    }
  }

  lemma ItemRoundTrip(w: Writer, r: Reader, a: Address, mem: seq<byte>, len: nat, pos: nat)
    requires Writable(w.lens, a) && FamiliarItem(w, r.known, a)
    requires Synced(w, r) && At(mem, len, pos, ItemBytes(w, a))
    ensures var x := ParseAddress(r, mem, len, pos, true);
      && x.pos == pos + |ItemBytes(w, a)| && x.reader.known == LearnItem(w, r.known, a)
      && (!Flagged(x) ==> ItemRead(x) == a && Synced(AfterItem(w, a), x.reader))
      && (WithinSids(w, r) ==> !Flagged(x) && WithinSids(AfterItem(w, a), x.reader))
  {
    hide ParseAddress, HearAddress, LensExact;
    ItemIsHeard(w, r, a, mem, len, pos);
    if a.ToSubscriber? {
      AddressRoundTrip(w, r, a.sid);
      HearingLearns(w, r, a.sid);
    }
    LensExactAfter(w, a);
  }

  lemma SplitAt(mem: seq<byte>, len: nat, pos: nat, a: seq<byte>, b: seq<byte>)
    requires At(mem, len, pos, a + b)
    ensures At(mem, len, pos, a) && At(mem, len, pos + |a|, b)
  {
    assert mem[pos..pos + |a + b|][..|a|] == mem[pos..pos + |a|];
    assert mem[pos..pos + |a + b|][|a|..] == mem[pos + |a|..pos + |a + b|];
  }

  /** Any run of addresses written in one context reads back in order, up to the
      first address that the reader flags as ambiguous.  A reader that knows nobody else
      than the writer does flags nothing, and ends where the octets end. */
  lemma {:induction false} RunRoundTrip(w: Writer, r: Reader, items: seq<Address>, mem: seq<byte>, len: nat, pos: nat)
    requires AllWritable(w.lens, items) && FamiliarRun(w, r.known, items)
    requires Synced(w, r) && At(mem, len, pos, RunBytes(w, items))
    ensures var run := ReadRun(r, mem, len, pos, |items|);
      && run.got <= items
      && (run.flagged <==> |run.got| < |items|)
      && (!run.flagged ==> run.pos == pos + |RunBytes(w, items)|)
      && (WithinSids(w, r) ==> run.got == items)
    decreases |items|
  {
    hide ParseAddress, ItemBytes, AfterItem, Synced, WithinSids, Flagged, LearnItem, FamiliarItem;
    if items != [] {
      var a, rest := items[0], items[1..];
      assert Writable(w.lens, a);
      SplitAt(mem, len, pos, ItemBytes(w, a), RunBytes(AfterItem(w, a), rest));
      ItemRoundTrip(w, r, a, mem, len, pos);
      var x := ParseAddress(r, mem, len, pos, true);
      ReadRunStep(r, mem, len, pos, |items|);
      hide ReadRun, RunBytes, FamiliarRun;
      if !Flagged(x) {
        RunRoundTrip(AfterItem(w, a), x.reader, rest, mem, len, x.pos);
        assert items == [a] + rest;
      }
    }
  }

  lemma LensExactAfter(w: Writer, a: Address)
    requires Writable(w.lens, a)
    ensures LensExact(AfterItem(w, a)) <==> LensExact(w)
  {
  }
}
