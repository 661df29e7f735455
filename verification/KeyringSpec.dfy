/** The pages of a keyring file on values: packing an identity, rotating, encrypting,
    and the way back. */
module KeyringSpec {
  import opened Wrappers
  import opened Bytes

  const PAGE_SIZE := 4096
  const SALT_BYTES := 32
  const MAC_BYTES := 64
  const HEAD_BYTES := 98
  const BODY_BYTES := 3998
  const MAX_KEYPAIRS := 64
  const WORK_BYTES := 65536

  const CRYPTOBOX := 0x01
  const CRYPTOSIGN := 0x02
  const RHIZOME := 0x03
  const DID := 0x04

  // ----- primitives -----

  /** The primitives of the NaCl library, as functions. */
  datatype Crypto = Crypto(
    hash: seq<byte> -> seq<byte>,
    stream: (seq<byte>, seq<byte>, nat) -> seq<byte>,
    publicOf: seq<byte> -> seq<byte>)

  ghost predicate Sized(c: Crypto)
  {
    && (forall x :: |c.hash(x)| == MAC_BYTES)
    && (forall nonce, key, n :: |c.stream(nonce, key, n)| == n)
    && (forall x :: |c.publicOf(x)| == 32)
  }

  function XorBits(a: nat, b: nat, bits: nat): nat
  {
    if bits == 0 then 0
    else 2 * XorBits(a / 2, b / 2, bits - 1) + if a % 2 != b % 2 then 1 else 0
  }

  lemma {:induction false} XorTwice(a: nat, b: nat, bits: nat)
    requires a < Power(bits)
    ensures XorBits(a, b, bits) < Power(bits)
    ensures XorBits(XorBits(a, b, bits), b, bits) == a
  {
    if bits > 0 {
      XorTwice(a / 2, b / 2, bits - 1);
      var h, x := XorBits(a / 2, b / 2, bits - 1), XorBits(a, b, bits);
      assert x / 2 == h && (x % 2 == 1 <==> a % 2 != b % 2);
    }
  }

  function Power(bits: nat): nat
  {
    if bits == 0 then 1 else 2 * Power(bits - 1)
  }

  function Xor(a: byte, b: byte): byte
  {
    assert Power(3) == 8 && Power(6) == 64 && Power(8) == 0x100;
    XorTwice(a, b, 8);
    XorBits(a, b, 8)
  }

  lemma XorUndoes(a: byte, b: byte)
    ensures Xor(Xor(a, b), b) == a
  {
    assert Power(3) == 8 && Power(6) == 64 && Power(8) == 0x100;
    XorTwice(a, b, 8);
  }

  function Bit(n: nat, k: nat): nat
  {
    if k == 0 then n % 2 else Bit(n / 2, k - 1)
  }

  /** Bit by bit: one where the bits differ. */
  lemma XorIsBitwise(a: byte, b: byte, k: nat)
    requires k < 8
    ensures Bit(Xor(a, b), k) == if Bit(a, k) == Bit(b, k) then 0 else 1
  {
    XorBit(a, b, 8, k);
  }

  lemma {:induction false} XorBit(a: nat, b: nat, bits: nat, k: nat)
    requires k < bits
    ensures Bit(XorBits(a, b, bits), k) == if Bit(a, k) == Bit(b, k) then 0 else 1
  {
    var x := XorBits(a, b, bits);
    assert x / 2 == XorBits(a / 2, b / 2, bits - 1) && x % 2 == if a % 2 != b % 2 then 1 else 0;
    if k > 0 {
      XorBit(a / 2, b / 2, bits - 1, k - 1);
    }
  }

  function XorAll(s: seq<byte>, t: seq<byte>): (r: seq<byte>)
    requires |s| <= |t|
    ensures |r| == |s| && forall i :: 0 <= i < |s| ==> r[i] == Xor(s[i], t[i])
  {
    seq(|s|, i requires 0 <= i < |s| => Xor(s[i], t[i]))
  }

  lemma XorAllUndoes(s: seq<byte>, t: seq<byte>)
    requires |s| <= |t|
    ensures XorAll(XorAll(s, t), t) == s
  {
    forall i | 0 <= i < |s| ensures Xor(Xor(s[i], t[i]), t[i]) == s[i] {
      XorUndoes(s[i], t[i]);
    }
  }

  // ----- encryption -----

  /** Whether the parts can be appended one by one to a work buffer. */
  predicate Fits(parts: seq<seq<byte>>, ofs: nat)
  {
    parts == [] || (ofs + |parts[0]| < WORK_BYTES && Fits(parts[1..], ofs + |parts[0]|))
  }

  function Joined(parts: seq<seq<byte>>): seq<byte>
  {
    if parts == [] then [] else parts[0] + Joined(parts[1..])
  }

  function KeyParts(salt: seq<byte>, krPin: seq<byte>, pkrPin: seq<byte>): seq<seq<byte>>
  {
    [salt, pkrPin, salt, krPin]
  }

  function NonceParts(krSalt: seq<byte>, krPin: seq<byte>, pkrPin: seq<byte>): seq<seq<byte>>
  {
    [krPin, krSalt, krPin, pkrPin]
  }

  datatype Pins = Pins(krSalt: seq<byte>, krPin: seq<byte>, pkrPin: seq<byte>)

  /** keyring_munge_block. */
  function Munge(c: Crypto, block: seq<byte>, pins: Pins): Option<seq<byte>>
    requires Sized(c)
  {
    if |block| < SALT_BYTES + MAC_BYTES then None
    else
      var head, tail := block[..SALT_BYTES + MAC_BYTES], block[SALT_BYTES + MAC_BYTES..];
      var keyParts := KeyParts(block[..SALT_BYTES], pins.krPin, pins.pkrPin);
      var nonceParts := NonceParts(pins.krSalt, pins.krPin, pins.pkrPin);
      if Fits(keyParts, 0) && Fits(nonceParts, 0) then
        Some(head + XorAll(tail, c.stream(c.hash(Joined(nonceParts)), c.hash(Joined(keyParts)), |tail|)))
      else None
  }

  /** Munging is its own inverse, since it leaves alone what its key is made of. */
  lemma MungeUndoes(c: Crypto, block: seq<byte>, pins: Pins)
    requires Sized(c) && Munge(c, block, pins).Some?
    ensures Munge(c, Munge(c, block, pins).value, pins) == Some(block)
  {
    var n := SALT_BYTES + MAC_BYTES;
    var once := Munge(c, block, pins).value;
    var tail := block[n..];
    var stream := c.stream(c.hash(Joined(NonceParts(pins.krSalt, pins.krPin, pins.pkrPin))),
                           c.hash(Joined(KeyParts(block[..SALT_BYTES], pins.krPin, pins.pkrPin))), |tail|);
    assert once[..n] == block[..n] && once[n..] == XorAll(tail, stream);
    assert once[..SALT_BYTES] == block[..SALT_BYTES] by {
      assert once[..SALT_BYTES] == once[..n][..SALT_BYTES] && block[..SALT_BYTES] == block[..n][..SALT_BYTES];
    }
    XorAllUndoes(tail, stream);
    assert block == block[..n] + tail;
  }

  /** Salt and MAC stay as they are, and every other byte is under a byte of a key stream, whose
      key is made of the salt and the pins and whose nonce of the salt of the file and the pins. */
  lemma MungedBytes(c: Crypto, block: seq<byte>, pins: Pins)
    requires Sized(c) && Munge(c, block, pins).Some?
    ensures var page, salt := Munge(c, block, pins).value, block[..32];
      var stream := c.stream(c.hash(pins.krPin + pins.krSalt + pins.krPin + pins.pkrPin),
                             c.hash(salt + pins.pkrPin + salt + pins.krPin), |block| - 96);
      && |page| == |block| >= 96 && page[..96] == block[..96]
      && forall i :: 96 <= i < |block| ==> page[i] == Xor(block[i], stream[i - 96])
  {
    JoinedFour(pins.krPin, pins.krSalt, pins.krPin, pins.pkrPin);
    JoinedFour(block[..32], pins.pkrPin, block[..32], pins.krPin);
    hide Joined, Fits;
  }

  lemma JoinedFour(a: seq<byte>, b: seq<byte>, c: seq<byte>, d: seq<byte>)
    ensures Joined([a, b, c, d]) == a + b + c + d
  {
    assert [a, b, c, d][1..] == [b, c, d] && [b, c, d][1..] == [c, d] && [c, d][1..] == [d] && [d][1..] == [];
    assert Joined([d]) == d + [];
    assert Joined([c, d]) == c + Joined([d]);
    assert Joined([b, c, d]) == b + Joined([c, d]);
  }

  /** Exactly when it succeeds: the pins and the salt are not too long. */
  lemma MungeSucceeds(c: Crypto, block: seq<byte>, pins: Pins)
    requires Sized(c) && |block| >= SALT_BYTES + MAC_BYTES
    ensures Munge(c, block, pins).Some? <==>
            && 2 * SALT_BYTES + |pins.pkrPin| + |pins.krPin| < WORK_BYTES
            && 2 * |pins.krPin| + |pins.krSalt| + |pins.pkrPin| < WORK_BYTES
  {
    FitsFour(block[..SALT_BYTES], pins.pkrPin, block[..SALT_BYTES], pins.krPin);
    FitsFour(pins.krPin, pins.krSalt, pins.krPin, pins.pkrPin);
  }

  lemma FitsFour(a: seq<byte>, b: seq<byte>, c: seq<byte>, d: seq<byte>)
    ensures Fits([a, b, c, d], 0) <==> |a| + |b| + |c| + |d| < WORK_BYTES
  {
    assert [a, b, c, d][1..] == [b, c, d] && [b, c, d][1..] == [c, d] && [c, d][1..] == [d] && [d][1..] == [];
    var n := |a| + |b|;
    assert Fits([d], n + |c|) <==> n + |c| + |d| < WORK_BYTES;
    assert Fits([c, d], n) <==> n + |c| + |d| < WORK_BYTES;
  }

  // ----- identities -----

  datatype Keypair = Keypair(kind: byte, secret: seq<byte>, open: seq<byte>)

  function SecretLength(kind: byte): nat
  {
    if kind == CRYPTOSIGN then 64 else 32
  }

  function OpenLength(kind: byte): nat
  {
    if kind == RHIZOME then 0 else if kind == DID then 64 else 32
  }

  predicate Known(kind: byte)
  {
    CRYPTOBOX <= kind <= DID
  }

  /** Key lengths are those of their kind. */
  ghost predicate Regular(kp: Keypair)
  {
    Known(kp.kind) ==> |kp.secret| == SecretLength(kp.kind) && |kp.open| == OpenLength(kp.kind)
  }

  ghost predicate AllRegular(kps: seq<Keypair>)
  {
    forall i :: 0 <= i < |kps| ==> Regular(kps[i])
  }

  /** The part of the public half that is read back from the page. */
  function StoredOpen(kind: byte): nat
  {
    if kind == CRYPTOSIGN then 32 else if kind == DID then 64 else 0
  }

  /** How many bytes of the page a key pair takes. */
  function Span(kind: byte): nat
  {
    1 + SecretLength(kind) + StoredOpen(kind)
  }

  /** What is in those bytes of a page that was `was` before: of a name only as many bytes
      are copied as its number has, and the rest stays as it was. */
  function KeyBytes(kp: Keypair, was: seq<byte>): (b: seq<byte>)
    requires Known(kp.kind) && Regular(kp) && |was| == Span(kp.kind)
    ensures |b| == Span(kp.kind)
  {
    if kp.kind == DID then [kp.kind] + kp.secret + kp.open[..32] + was[65..]
    else if kp.kind == CRYPTOSIGN then [kp.kind] + kp.secret + kp.open
    else [kp.kind] + kp.secret
  }

  /** The key pairs from offset `ofs` of a page on, and the end mark. */
  function Encode(kps: seq<Keypair>, page: seq<byte>, ofs: nat): (r: Option<seq<byte>>)
    requires |page| == PAGE_SIZE && AllRegular(kps)
    ensures r.Some? ==> 0 < |r.value| && ofs + |r.value| <= PAGE_SIZE
  {
    if ofs >= PAGE_SIZE then None
    else if kps == [] then Some([0])
    else
      var kp := kps[0];
      if !Known(kp.kind) || ofs + Span(kp.kind) >= PAGE_SIZE then None
      else
        var rest := Encode(kps[1..], page, ofs + Span(kp.kind));
        if rest.None? then None
        else Some(KeyBytes(kp, page[ofs..ofs + Span(kp.kind)]) + rest.value)
  }

  function Length(kps: seq<Keypair>): nat
  {
    if kps == [] then 1 else Span(kps[0].kind) + Length(kps[1..])
  }

  /** Exactly when an identity can be packed. */
  lemma {:induction false} EncodeSucceeds(kps: seq<Keypair>, page: seq<byte>, ofs: nat)
    requires |page| == PAGE_SIZE && AllRegular(kps)
    ensures Encode(kps, page, ofs).Some? <==>
            ofs + Length(kps) <= PAGE_SIZE && forall i :: 0 <= i < |kps| ==> Known(kps[i].kind)
    ensures Encode(kps, page, ofs).Some? ==> |Encode(kps, page, ofs).value| == Length(kps)
  {
    if kps != [] {
      EncodeSucceeds(kps[1..], page, ofs + Span(kps[0].kind));
      hide KeyBytes;
      assert 0 < Length(kps[1..]);
      assert forall i :: 1 <= i < |kps| ==> kps[i] == kps[1..][i - 1];
      assert forall i :: 0 <= i < |kps| - 1 ==> kps[1..][i] == kps[i + 1];
    }
  }

  /** What comes back of a key pair: a name loses its last 32 bytes to what the page held before. */
  function Readback(kp: Keypair, was: seq<byte>): Keypair
    requires Known(kp.kind) && Regular(kp) && |was| == Span(kp.kind)
  {
    if kp.kind == DID then kp.(open := kp.open[..32] + was[65..]) else kp
  }

  function ReadbackAll(kps: seq<Keypair>, page: seq<byte>, ofs: nat): (r: seq<Keypair>)
    requires |page| == PAGE_SIZE && AllRegular(kps) && Encode(kps, page, ofs).Some?
    ensures |r| == |kps|
  {
    if kps == [] then []
    else
      var n := Span(kps[0].kind);
      [Readback(kps[0], page[ofs..ofs + n])] + ReadbackAll(kps[1..], page, ofs + n)
  }

  // ----- unpacking -----

  /** Where rotation puts byte `n` of the body. */
  function Place(n: nat, rotation: nat): (m: nat)
    ensures m < BODY_BYTES
  {
    (n + rotation) % BODY_BYTES
  }

  function BodyByte(slot: seq<byte>, rotation: nat, n: nat): byte
    requires |slot| == PAGE_SIZE
  {
    slot[HEAD_BYTES + Place(n, rotation)]
  }

  function BodyBytes(slot: seq<byte>, rotation: nat, from: nat, n: nat): (b: seq<byte>)
    requires |slot| == PAGE_SIZE
    ensures |b| == n && forall i :: 0 <= i < n ==> b[i] == BodyByte(slot, rotation, from + i)
  {
    seq<byte>(n, i requires 0 <= i < n => BodyByte(slot, rotation, from + i))
  }

  function ReadKey(c: Crypto, slot: seq<byte>, rotation: nat, ofs: nat): Keypair
    requires |slot| == PAGE_SIZE
  {
    var kind := BodyByte(slot, rotation, ofs);
    var secret := BodyBytes(slot, rotation, ofs + 1, SecretLength(kind));
    Keypair(kind, secret,
            if kind == CRYPTOBOX then c.publicOf(secret)
            else BodyBytes(slot, rotation, ofs + 1 + SecretLength(kind), StoredOpen(kind)))
  }

  /** Key pairs from offset `ofs` of the body on, when `count` have been read before. */
  function Parse(c: Crypto, slot: seq<byte>, rotation: nat, ofs: nat, count: nat): Option<seq<Keypair>>
    requires |slot| == PAGE_SIZE
    decreases BODY_BYTES - ofs
  {
    if ofs >= BODY_BYTES then Some([])
    else
      var kind := BodyByte(slot, rotation, ofs);
      if kind == 0 then Some([])
      else if !Known(kind) || count >= MAX_KEYPAIRS then None
      else
        var rest := Parse(c, slot, rotation, ofs + Span(kind), count + 1);
        if rest.None? then None
        else Some([ReadKey(c, slot, rotation, ofs)] + rest.value)
  }

  /** Public halves of box keys are computed, so they have to be the right ones. */
  ghost predicate Genuine(c: Crypto, kps: seq<Keypair>)
  {
    forall i :: 0 <= i < |kps| && kps[i].kind == CRYPTOBOX ==> kps[i].open == c.publicOf(kps[i].secret)
  }

  /** `bytes` are in the body from offset `at` on. */
  ghost predicate Holds(slot: seq<byte>, rotation: nat, at: nat, bytes: seq<byte>)
    requires |slot| == PAGE_SIZE
  {
    forall i :: 0 <= i < |bytes| ==> BodyByte(slot, rotation, at + i) == bytes[i]
  }

  lemma HoldsParts(slot: seq<byte>, rotation: nat, at: nat, a: seq<byte>, b: seq<byte>)
    requires |slot| == PAGE_SIZE && Holds(slot, rotation, at, a + b)
    ensures Holds(slot, rotation, at, a) && Holds(slot, rotation, at + |a|, b)
  {
    hide BodyByte;
    assert forall i :: 0 <= i < |a| ==> (a + b)[i] == a[i];
    assert forall i :: 0 <= i < |b| ==> (a + b)[|a| + i] == b[i];
  }

  lemma HeldBytes(slot: seq<byte>, rotation: nat, at: nat, bytes: seq<byte>)
    requires |slot| == PAGE_SIZE && Holds(slot, rotation, at, bytes)
    ensures BodyBytes(slot, rotation, at, |bytes|) == bytes
  {
  }

  lemma FirstHeld(slot: seq<byte>, rotation: nat, at: nat, bytes: seq<byte>)
    requires |slot| == PAGE_SIZE && Holds(slot, rotation, at, bytes) && bytes != []
    ensures BodyByte(slot, rotation, at) == bytes[0]
  {
  }

  /** A packed key pair reads back. */
  lemma KeyReadsBack(c: Crypto, kp: Keypair, was: seq<byte>, slot: seq<byte>, rotation: nat, at: nat)
    requires Sized(c) && Known(kp.kind) && Regular(kp) && |was| == Span(kp.kind) && |slot| == PAGE_SIZE
    requires kp.kind == CRYPTOBOX ==> kp.open == c.publicOf(kp.secret)
    requires Holds(slot, rotation, at, KeyBytes(kp, was))
    ensures BodyByte(slot, rotation, at) == kp.kind && ReadKey(c, slot, rotation, at) == Readback(kp, was)
  {
    hide BodyByte;
    var tail := if kp.kind == DID then kp.open[..32] + was[65..] else if kp.kind == CRYPTOSIGN then kp.open else [];
    assert KeyBytes(kp, was) == [kp.kind] + (kp.secret + tail);
    HoldsParts(slot, rotation, at, [kp.kind], kp.secret + tail);
    HoldsParts(slot, rotation, at + 1, kp.secret, tail);
    HeldBytes(slot, rotation, at + 1, kp.secret);
    HeldBytes(slot, rotation, at + 1 + |kp.secret|, tail);
    FirstHeld(slot, rotation, at, [kp.kind]);
  }

  /** Unpacking what has been packed gives the key pairs, in order. */
  lemma {:induction false} ParseEncoded(c: Crypto, kps: seq<Keypair>, page: seq<byte>, slot: seq<byte>,
                                        rotation: nat, ofs: nat, count: nat)
    requires Sized(c) && |page| == PAGE_SIZE && |slot| == PAGE_SIZE && AllRegular(kps) && Genuine(c, kps)
    requires ofs >= HEAD_BYTES && Encode(kps, page, ofs).Some? && count + |kps| <= MAX_KEYPAIRS
    requires Holds(slot, rotation, ofs - HEAD_BYTES, Encode(kps, page, ofs).value)
    ensures Parse(c, slot, rotation, ofs - HEAD_BYTES, count) == Some(ReadbackAll(kps, page, ofs))
    decreases |kps|
  {
    var at := ofs - HEAD_BYTES;
    hide BodyByte, ReadKey, KeyBytes, Readback;
    if kps == [] {
      FirstHeld(slot, rotation, at, [0]);
    } else {
      var kp := kps[0];
      var n := Span(kp.kind);
      var was := page[ofs..ofs + n];
      var rest := Encode(kps[1..], page, ofs + n).value;
      HoldsParts(slot, rotation, at, KeyBytes(kp, was), rest);
      KeyReadsBack(c, kp, was, slot, rotation, at);
      ParseEncoded(c, kps[1..], page, slot, rotation, ofs + n, count + 1);
    }
  }

  // ----- rotation -----

  function Unwound(m: nat, rotation: nat): (n: nat)
    requires m < BODY_BYTES
    ensures n < BODY_BYTES && Place(n, rotation) == m
  {
    var r := rotation % BODY_BYTES;
    var n := if m >= r then m - r else m - r + BODY_BYTES;
    Wind(n, rotation);
    n
  }

  lemma Wind(n: nat, rotation: nat)
    requires n < BODY_BYTES
    ensures var r := rotation % BODY_BYTES;
            Place(n, rotation) == if n + r < BODY_BYTES then n + r else n + r - BODY_BYTES
  {
  }

  /** Byte n of the body goes to place n + rotation. */
  function Rotated(body: seq<byte>, rotation: nat): (r: seq<byte>)
    requires |body| == BODY_BYTES
    ensures |r| == BODY_BYTES
  {
    seq<byte>(BODY_BYTES, m requires 0 <= m < BODY_BYTES => body[Unwound(m, rotation)])
  }

  lemma RotatedAt(body: seq<byte>, rotation: nat, n: nat)
    requires |body| == BODY_BYTES && n < BODY_BYTES
    ensures Rotated(body, rotation)[Place(n, rotation)] == body[n]
  {
  }

  // ----- whole pages -----

  function MacParts(salt: seq<byte>, kp: Keypair, pin: seq<byte>): seq<seq<byte>>
  {
    [salt, kp.secret, kp.open, pin]
  }

  /** keyring_identity_mac: computed from the salt, the first key pair and the pin. */
  function Mac(c: Crypto, salt: seq<byte>, kp: Keypair, pin: seq<byte>): Option<seq<byte>>
  {
    var parts := MacParts(salt, kp, pin);
    if Fits(parts, 0) then Some(c.hash(Joined(parts))) else None
  }

  lemma MacIs(c: Crypto, salt: seq<byte>, kp: Keypair, pin: seq<byte>)
    ensures Mac(c, salt, kp, pin) == if |salt| + |kp.secret| + |kp.open| + |pin| < WORK_BYTES
                                     then Some(c.hash(salt + kp.secret + kp.open + pin)) else None
  {
    hide Fits, Joined;
    FitsFour(salt, kp.secret, kp.open, pin);
    JoinedFour(salt, kp.secret, kp.open, pin);
  }

  /** What randomness contributes to a page. */
  datatype Chance = Chance(salt: seq<byte>, filler: seq<byte>, rotation: nat)

  ghost predicate Enough(r: Chance)
  {
    |r.salt| == SALT_BYTES && |r.filler| == BODY_BYTES && r.rotation < 0x1_0000
  }

  /** keyring_pack_identity into a page that was `was` before; a MAC that cannot be
      computed leaves the old bytes in its place. */
  function Pack(c: Crypto, kps: seq<Keypair>, pin: seq<byte>, r: Chance, was: seq<byte>): (page: Option<seq<byte>>)
    requires Sized(c) && AllRegular(kps) && kps != [] && Enough(r) && |was| == PAGE_SIZE
    ensures page.Some? ==> |page.value| == PAGE_SIZE
  {
    var enc := Encode(kps, was, HEAD_BYTES);
    if enc.None? then None
    else
      var mac := Mac(c, r.salt, kps[0], pin);
      var macBytes := if mac.Some? then mac.value else was[SALT_BYTES..SALT_BYTES + MAC_BYTES];
      Some(r.salt + macBytes + [r.rotation / 0x100, r.rotation % 0x100] +
           Rotated(enc.value + r.filler[|enc.value|..], r.rotation))
  }

  function RotationOf(slot: seq<byte>): nat
    requires |slot| == PAGE_SIZE
  {
    (slot[SALT_BYTES + MAC_BYTES] as int) * 0x100 + slot[SALT_BYTES + MAC_BYTES + 1] as int
  }

  function Unpack(c: Crypto, slot: seq<byte>): Option<seq<Keypair>>
    requires |slot| == PAGE_SIZE
  {
    Parse(c, slot, RotationOf(slot), 0, 0)
  }

  /** The bytes of the body from `at` on spell a key pair: its kind, its secret half, and the
      public half of a signing key or a name; the public half of a box key is computed. */
  ghost predicate Spells(c: Crypto, slot: seq<byte>, rotation: nat, at: nat, kp: Keypair)
    requires |slot| == PAGE_SIZE
  {
    && at < BODY_BYTES && 0x01 <= kp.kind <= 0x04
    && |kp.secret| == (if kp.kind == 0x02 then 64 else 32)
    && Holds(slot, rotation, at, [kp.kind] + kp.secret)
    && match kp.kind {
         case 0x01 => kp.open == c.publicOf(kp.secret)
         case 0x02 => |kp.open| == 32 && Holds(slot, rotation, at + 65, kp.open)
         case 0x03 => kp.open == []
         case _ => |kp.open| == 64 && Holds(slot, rotation, at + 33, kp.open)
       }
  }

  /** Where key pair `i` begins, behind those before it. */
  function Offset(kps: seq<Keypair>, i: nat): nat
    requires i <= |kps|
  {
    if i == 0 then 0
    else
      var kind := kps[i - 1].kind;
      Offset(kps, i - 1) + if kind == 0x02 || kind == 0x04 then 97 else 33
  }

  ghost predicate SpellsAll(c: Crypto, slot: seq<byte>, rotation: nat, at: nat, kps: seq<Keypair>)
    requires |slot| == PAGE_SIZE
  {
    && (forall i :: 0 <= i < |kps| ==> Spells(c, slot, rotation, at + Offset(kps, i), kps[i]))
    && var end := at + Offset(kps, |kps|);
       end >= BODY_BYTES || BodyByte(slot, rotation, end) == 0
  }

  /** A page unpacks to up to 64 key pairs if and only if its body, read from its rotation on,
      spells them one behind the other up to the end mark or the end of the page; and to
      nothing if there are no such key pairs. */
  lemma UnpackedIff(c: Crypto, slot: seq<byte>, kps: seq<Keypair>)
    requires |slot| == PAGE_SIZE
    ensures Unpack(c, slot) == Some(kps) <==> |kps| <= 64 && SpellsAll(c, slot, 0x100 * slot[96] as int + slot[97] as int, 0, kps)
  {
    hide Parse, SpellsAll;
    ParsedIff(c, slot, RotationOf(slot), 0, 0, kps);
  }

  lemma {:induction false} ParsedIff(c: Crypto, slot: seq<byte>, rotation: nat, ofs: nat, count: nat, kps: seq<Keypair>)
    requires |slot| == PAGE_SIZE && count <= MAX_KEYPAIRS
    ensures Parse(c, slot, rotation, ofs, count) == Some(kps) <==>
            count + |kps| <= MAX_KEYPAIRS && SpellsAll(c, slot, rotation, ofs, kps)
    decreases BODY_BYTES - ofs
  {
    hide ReadKey, Spells, BodyByte, Parse, SpellsAll, Known;
    var kind := BodyByte(slot, rotation, ofs);
    if kps == [] {
      SpellsNone(c, slot, rotation, ofs);
    } else {
      SpellsFirst(c, slot, rotation, ofs, kps);
      KeyIsSpelled(c, slot, rotation, ofs, kps[0]);
    }
    if ofs >= BODY_BYTES {
      ParseEnds(c, slot, rotation, ofs, count);
    } else {
      ParseUnfolds(c, slot, rotation, ofs, count);
      assert !Known(0) && (kind == 0 ==> !Known(kind)) by { NoneKnown(); }
      if Known(kind) && count < MAX_KEYPAIRS && kps != [] {
        var key, rest := ReadKey(c, slot, rotation, ofs), Parse(c, slot, rotation, ofs + Span(kind), count + 1);
        ParsedIff(c, slot, rotation, ofs + Span(kind), count + 1, kps[1..]);
        ReadKind(c, slot, rotation, ofs);
        assert rest.Some? ==> (kps == [key] + rest.value <==> kps[0] == key && kps[1..] == rest.value);
      }
    }
  }

  lemma NoneKnown()
    ensures !Known(0)
  {
  }

  lemma ReadKind(c: Crypto, slot: seq<byte>, rotation: nat, ofs: nat)
    requires |slot| == PAGE_SIZE
    ensures ReadKey(c, slot, rotation, ofs).kind == BodyByte(slot, rotation, ofs)
  {
  }

  lemma ParseEnds(c: Crypto, slot: seq<byte>, rotation: nat, ofs: nat, count: nat)
    requires |slot| == PAGE_SIZE && ofs >= BODY_BYTES
    ensures Parse(c, slot, rotation, ofs, count) == Some([])
  {
  }

  lemma SpellsNone(c: Crypto, slot: seq<byte>, rotation: nat, at: nat)
    requires |slot| == PAGE_SIZE
    ensures SpellsAll(c, slot, rotation, at, []) <==> at >= BODY_BYTES || BodyByte(slot, rotation, at) == 0
  {
  }

  lemma ParseUnfolds(c: Crypto, slot: seq<byte>, rotation: nat, ofs: nat, count: nat)
    requires |slot| == PAGE_SIZE && ofs < BODY_BYTES
    ensures var kind := BodyByte(slot, rotation, ofs);
            var rest := Parse(c, slot, rotation, ofs + Span(kind), count + 1);
            Parse(c, slot, rotation, ofs, count) ==
              if kind == 0 then Some([])
              else if !Known(kind) || count >= MAX_KEYPAIRS then None
              else if rest.None? then None
              else Some([ReadKey(c, slot, rotation, ofs)] + rest.value)
  {
    hide ReadKey, Place, BodyByte, Known, Span;
  }

  lemma KeyIsSpelled(c: Crypto, slot: seq<byte>, rotation: nat, at: nat, kp: Keypair)
    requires |slot| == PAGE_SIZE
    ensures Spells(c, slot, rotation, at, kp) <==>
            at < BODY_BYTES && Known(BodyByte(slot, rotation, at)) && kp == ReadKey(c, slot, rotation, at)
  {
    hide BodyByte;
    var whole := [kp.kind] + kp.secret;
    assert forall i :: 0 < i < |whole| ==> whole[i] == kp.secret[i - 1];
    if Spells(c, slot, rotation, at, kp) {
      HoldsParts(slot, rotation, at, [kp.kind], kp.secret);
      FirstHeld(slot, rotation, at, [kp.kind]);
      HeldBytes(slot, rotation, at + 1, kp.secret);
      if kp.kind == 2 || kp.kind == 4 {
        HeldBytes(slot, rotation, at + 1 + |kp.secret|, kp.open);
      }
    }
  }

  lemma SpellsFirst(c: Crypto, slot: seq<byte>, rotation: nat, at: nat, kps: seq<Keypair>)
    requires |slot| == PAGE_SIZE && kps != []
    ensures SpellsAll(c, slot, rotation, at, kps) <==>
            Spells(c, slot, rotation, at, kps[0]) && SpellsAll(c, slot, rotation, at + Span(kps[0].kind), kps[1..])
  {
    hide Spells, SpellsAll, Span;
    if SpellsAll(c, slot, rotation, at, kps) {
      SpellsRest(c, slot, rotation, at, kps);
    }
    if Spells(c, slot, rotation, at, kps[0]) && SpellsAll(c, slot, rotation, at + Span(kps[0].kind), kps[1..]) {
      SpellsMore(c, slot, rotation, at, kps);
    }
  }

  lemma SpellsRest(c: Crypto, slot: seq<byte>, rotation: nat, at: nat, kps: seq<Keypair>)
    requires |slot| == PAGE_SIZE && kps != [] && SpellsAll(c, slot, rotation, at, kps)
    ensures Spells(c, slot, rotation, at, kps[0]) && SpellsAll(c, slot, rotation, at + Span(kps[0].kind), kps[1..])
  {
    hide Spells, BodyByte, Span, Offset;
    var n, rest := Span(kps[0].kind), kps[1..];
    OffsetNone(kps);
    OffsetTail(kps, |rest|);
    assert Spells(c, slot, rotation, at + Offset(kps, 0), kps[0]);
    forall i | 0 <= i < |rest| ensures Spells(c, slot, rotation, at + n + Offset(rest, i), rest[i]) {
      OffsetTail(kps, i);
      assert Spells(c, slot, rotation, at + Offset(kps, i + 1), kps[i + 1]);
    }
  }

  lemma SpellsMore(c: Crypto, slot: seq<byte>, rotation: nat, at: nat, kps: seq<Keypair>)
    requires |slot| == PAGE_SIZE && kps != []
    requires Spells(c, slot, rotation, at, kps[0]) && SpellsAll(c, slot, rotation, at + Span(kps[0].kind), kps[1..])
    ensures SpellsAll(c, slot, rotation, at, kps)
  {
    hide Spells, BodyByte, Span, Offset;
    var n, rest := Span(kps[0].kind), kps[1..];
    OffsetNone(kps);
    OffsetTail(kps, |rest|);
    forall i | 0 <= i < |kps| ensures Spells(c, slot, rotation, at + Offset(kps, i), kps[i]) {
      if i > 0 {
        OffsetTail(kps, i - 1);
        assert Spells(c, slot, rotation, at + n + Offset(rest, i - 1), rest[i - 1]);
      }
    }
  }

  lemma OffsetNone(kps: seq<Keypair>)
    ensures Offset(kps, 0) == 0
  {
  }

  lemma {:induction false} OffsetTail(kps: seq<Keypair>, i: nat)
    requires i + 1 <= |kps|
    ensures Offset(kps, i + 1) == Span(kps[0].kind) + Offset(kps[1..], i)
  {
    if i > 0 {
      OffsetTail(kps, i - 1);
    }
  }

  lemma PageParts(page: seq<byte>, salt: seq<byte>, mac: seq<byte>, rotation: seq<byte>, body: seq<byte>)
    requires |salt| == SALT_BYTES && |mac| == MAC_BYTES && |rotation| == 2 && |body| == BODY_BYTES
    requires page == salt + mac + rotation + body
    ensures |page| == PAGE_SIZE && page[..SALT_BYTES] == salt && page[SALT_BYTES..SALT_BYTES + MAC_BYTES] == mac
    ensures page[SALT_BYTES + MAC_BYTES] == rotation[0] && page[SALT_BYTES + MAC_BYTES + 1] == rotation[1]
    ensures forall i :: 0 <= i < BODY_BYTES ==> page[HEAD_BYTES + i] == body[i]
  {
  }

  lemma RotatedHolds(page: seq<byte>, body: seq<byte>, rotation: nat, enc: seq<byte>)
    requires |page| == PAGE_SIZE && |body| == BODY_BYTES && enc <= body
    requires forall i :: 0 <= i < BODY_BYTES ==> page[HEAD_BYTES + i] == Rotated(body, rotation)[i]
    ensures Holds(page, rotation, 0, enc)
  {
    hide Rotated;
    forall i | 0 <= i < |enc| ensures BodyByte(page, rotation, 0 + i) == enc[i] {
      RotatedAt(body, rotation, i);
    }
  }

  lemma PackedHolds(c: Crypto, kps: seq<Keypair>, pin: seq<byte>, r: Chance, was: seq<byte>)
    requires Sized(c) && AllRegular(kps) && kps != [] && Enough(r) && |was| == PAGE_SIZE
    requires Pack(c, kps, pin, r, was).Some?
    ensures var page := Pack(c, kps, pin, r, was).value;
            && RotationOf(page) == r.rotation && page[..SALT_BYTES] == r.salt
            && Holds(page, r.rotation, 0, Encode(kps, was, HEAD_BYTES).value)
            && page[32..96] == (if 32 + |kps[0].secret| + |kps[0].open| + |pin| < 65536
                                then c.hash(r.salt + kps[0].secret + kps[0].open + pin) else was[32..96])
            && forall n :: |Encode(kps, was, HEAD_BYTES).value| <= n < BODY_BYTES ==>
                 BodyByte(page, r.rotation, n) == r.filler[n]
  {
    MacIs(c, r.salt, kps[0], pin);
    hide Encode, Rotated, Holds, Mac;
    var page := Pack(c, kps, pin, r, was).value;
    var enc := Encode(kps, was, HEAD_BYTES).value;
    var body := enc + r.filler[|enc|..];
    var mac := Mac(c, r.salt, kps[0], pin);
    var macBytes := if mac.Some? then mac.value else was[SALT_BYTES..SALT_BYTES + MAC_BYTES];
    PageParts(page, r.salt, macBytes, [r.rotation / 0x100, r.rotation % 0x100], Rotated(body, r.rotation));
    RotatedHolds(page, body, r.rotation, enc);
    RotatedHolds(page, body, r.rotation, body);
    HeldAt(page, r.rotation, body);
  }

  lemma HeldAt(page: seq<byte>, rotation: nat, body: seq<byte>)
    requires |page| == PAGE_SIZE && Holds(page, rotation, 0, body)
    ensures forall n :: 0 <= n < |body| ==> BodyByte(page, rotation, n) == body[n]
  {
    hide BodyByte;
    assert forall n :: 0 <= n < |body| ==> BodyByte(page, rotation, 0 + n) == body[n];
  }

  /** What becomes of a slot: `NoKeyPair` is a record that ends before its first key pair, of
      which the MAC would have to be made. */
  datatype Opening = Opened(kps: seq<Keypair>) | Refused | NoKeyPair

  /** keyring_decrypt_pkr: decrypt, unpack and check the MAC. */
  function Decrypt(c: Crypto, slot: seq<byte>, pins: Pins): Opening
    requires Sized(c) && |slot| == PAGE_SIZE
  {
    var page := Munge(c, slot, pins);
    if page.None? then Refused
    else
      var kps := Unpack(c, page.value);
      if kps.None? then Refused
      else if kps.value == [] then NoKeyPair
      else
        var mac := Mac(c, page.value[..SALT_BYTES], kps.value[0], pins.pkrPin);
        if mac.Some? && mac.value == page.value[SALT_BYTES..SALT_BYTES + MAC_BYTES] then Opened(kps.value) else Refused
  }

  /** The hash of the salt, the key pair and the pin, within the work buffer, is the MAC. */
  ghost predicate MacMatches(c: Crypto, slot: seq<byte>, kp: Keypair, pin: seq<byte>)
    requires |slot| == PAGE_SIZE
  {
    32 + |kp.secret| + |kp.open| + |pin| < 65536 && c.hash(slot[..32] + kp.secret + kp.open + pin) == slot[32..96]
  }

  /** A slot opens if and only if it decrypts to key pairs, the first of which makes the MAC
      that the slot holds. */
  lemma OpenedIff(c: Crypto, slot: seq<byte>, pins: Pins, kps: seq<Keypair>)
    requires Sized(c) && |slot| == PAGE_SIZE
    ensures var page := Munge(c, slot, pins);
      && (page.Some? ==> |page.value| == PAGE_SIZE)
      && (Decrypt(c, slot, pins) == Opened(kps) <==>
            page.Some? && kps != [] && Unpack(c, page.value) == Some(kps) && MacMatches(c, slot, kps[0], pins.pkrPin))
  {
    hide Parse, Fits, Joined;
    if Munge(c, slot, pins).Some? {
      MungedBytes(c, slot, pins);
      hide Munge, XorAll;
      var page := Munge(c, slot, pins).value;
      assert page[..32] == slot[..32] && page[32..96] == slot[32..96];
      var all := Unpack(c, page);
      if all.Some? && all.value != [] {
        MacIs(c, page[..32], all.value[0], pins.pkrPin);
      }
    }
  }

  /** With any byte of its MAC changed, a slot that opened is refused. */
  lemma TamperedIsRefused(c: Crypto, slot: seq<byte>, slot': seq<byte>, pins: Pins)
    requires Sized(c) && |slot| == |slot'| == PAGE_SIZE && Decrypt(c, slot, pins).Opened?
    requires slot'[..32] == slot[..32] && slot'[96..] == slot[96..] && slot'[32..96] != slot[32..96]
    ensures Decrypt(c, slot', pins) == Refused
  {
    var kps := Decrypt(c, slot, pins).kps;
    OpenedIff(c, slot, pins, kps);
    hide Munge, Decrypt, Unpack, Blank;
    SameInside(c, slot, slot', pins);
    NoKeyPairIff(c, slot', pins);
    NoKeyPairIff(c, slot, pins);
    if Decrypt(c, slot', pins).Opened? {
      OpenedIff(c, slot', pins, Decrypt(c, slot', pins).kps);
    }
  }

  /** What is behind the MAC decrypts to the same, whatever the MAC. */
  lemma SameInside(c: Crypto, slot: seq<byte>, slot': seq<byte>, pins: Pins)
    requires Sized(c) && |slot| == |slot'| == PAGE_SIZE && Munge(c, slot, pins).Some?
    requires slot'[..32] == slot[..32] && slot'[96..] == slot[96..]
    ensures Munge(c, slot', pins).Some?
    ensures var page, page' := Munge(c, slot, pins).value, Munge(c, slot', pins).value;
      |page| == |page'| == PAGE_SIZE && Unpack(c, page) == Unpack(c, page') && (Blank(page) <==> Blank(page'))
  {
    SameMunge(c, slot, slot', pins);
    hide Munge, Unpack, Blank;
    SameUnpacked(c, Munge(c, slot, pins).value, Munge(c, slot', pins).value);
  }

  lemma SameUnpacked(c: Crypto, a: seq<byte>, b: seq<byte>)
    requires |a| == |b| == PAGE_SIZE && forall i :: 96 <= i < PAGE_SIZE ==> a[i] == b[i]
    ensures Unpack(c, a) == Unpack(c, b) && (Blank(a) <==> Blank(b))
  {
    hide Parse, Place;
    SameBody(c, a, b, RotationOf(a), 0, 0);
  }

  lemma SameMunge(c: Crypto, slot: seq<byte>, slot': seq<byte>, pins: Pins)
    requires Sized(c) && |slot| == |slot'| == PAGE_SIZE && Munge(c, slot, pins).Some?
    requires slot'[..32] == slot[..32] && slot'[96..] == slot[96..]
    ensures Munge(c, slot', pins).Some?
    ensures var page, page' := Munge(c, slot, pins).value, Munge(c, slot', pins).value;
      |page| == |page'| == PAGE_SIZE && forall i :: 96 <= i < PAGE_SIZE ==> page[i] == page'[i]
  {
    MungeSucceeds(c, slot, pins);
    MungeSucceeds(c, slot', pins);
    MungedBytes(c, slot, pins);
    MungedBytes(c, slot', pins);
    hide Munge, Xor;
    SameTails(slot, slot');
  }

  lemma SameTails(a: seq<byte>, b: seq<byte>)
    requires |a| == |b| == PAGE_SIZE && a[96..] == b[96..]
    ensures forall i :: 96 <= i < PAGE_SIZE ==> a[i] == b[i]
  {
    assert forall i :: 96 <= i < PAGE_SIZE ==> a[i] == a[96..][i - 96] && b[i] == b[96..][i - 96];
  }

  /** Unpacking looks at nothing in front of the body. */
  lemma {:induction false} SameBody(c: Crypto, a: seq<byte>, b: seq<byte>, rotation: nat, ofs: nat, count: nat)
    requires |a| == |b| == PAGE_SIZE && forall i :: HEAD_BYTES <= i < PAGE_SIZE ==> a[i] == b[i]
    ensures Parse(c, a, rotation, ofs, count) == Parse(c, b, rotation, ofs, count)
    decreases BODY_BYTES - ofs
  {
    hide ReadKey, Known, Place;
    if ofs < BODY_BYTES {
      SameBody(c, a, b, rotation, ofs + Span(BodyByte(a, rotation, ofs)), count + 1);
      SameReading(c, a, b, rotation, ofs);
    }
  }

  lemma SameReading(c: Crypto, a: seq<byte>, b: seq<byte>, rotation: nat, ofs: nat)
    requires |a| == |b| == PAGE_SIZE && forall i :: HEAD_BYTES <= i < PAGE_SIZE ==> a[i] == b[i]
    ensures ReadKey(c, a, rotation, ofs) == ReadKey(c, b, rotation, ofs)
  {
    hide Place;
    var kind := BodyByte(a, rotation, ofs);
    assert BodyBytes(a, rotation, ofs + 1, SecretLength(kind)) == BodyBytes(b, rotation, ofs + 1, SecretLength(kind));
  }

  /** A page that begins with the end mark. */
  ghost predicate Blank(page: seq<byte>)
    requires |page| == PAGE_SIZE
  {
    BodyByte(page, RotationOf(page), 0) == 0
  }

  /** There is no key pair to make a MAC of if and only if the slot decrypts to a page that
      begins with the end mark. */
  lemma NoKeyPairIff(c: Crypto, slot: seq<byte>, pins: Pins)
    requires Sized(c) && |slot| == PAGE_SIZE
    ensures Munge(c, slot, pins).Some? ==> |Munge(c, slot, pins).value| == PAGE_SIZE
    ensures Decrypt(c, slot, pins) == NoKeyPair <==> Munge(c, slot, pins).Some? && Blank(Munge(c, slot, pins).value)
  {
    hide Munge, ReadKey, Mac;
    if Munge(c, slot, pins).Some? {
      MungedSize(c, slot, pins);
    }
  }

  /** Every pair of pins that fit has such slots: one for each such page. */
  lemma BlankSlots(c: Crypto, page: seq<byte>, pins: Pins)
    requires Sized(c) && |page| == PAGE_SIZE && Blank(page)
    requires 2 * SALT_BYTES + |pins.pkrPin| + |pins.krPin| < WORK_BYTES
    requires 2 * |pins.krPin| + |pins.krSalt| + |pins.pkrPin| < WORK_BYTES
    ensures Munge(c, page, pins).Some? && |Munge(c, page, pins).value| == PAGE_SIZE
    ensures Decrypt(c, Munge(c, page, pins).value, pins) == NoKeyPair
  {
    MungeSucceeds(c, page, pins);
    hide Munge, Decrypt, Blank;
    MungedSize(c, page, pins);
    MungeUndoes(c, page, pins);
    NoKeyPairIff(c, Munge(c, page, pins).value, pins);
  }

  /** What keyring_commit writes. */
  function Written(c: Crypto, kps: seq<Keypair>, r: Chance, was: seq<byte>, pins: Pins): Option<seq<byte>>
    requires Sized(c) && AllRegular(kps) && kps != [] && Enough(r) && |was| == PAGE_SIZE
  {
    var page := Pack(c, kps, pins.pkrPin, r, was);
    if page.None? then None else Munge(c, page.value, pins)
  }

  /** A written slot, decrypted with the same pins, gives back the key pairs that were
      packed, in order, if and only if the MAC could be computed and the first key pair
      reads back to one with the same MAC. */
  lemma SlotRoundTrip(c: Crypto, kps: seq<Keypair>, r: Chance, was: seq<byte>, pins: Pins)
    requires Sized(c) && AllRegular(kps) && Genuine(c, kps) && 0 < |kps| <= MAX_KEYPAIRS && Enough(r) && |was| == PAGE_SIZE
    requires Written(c, kps, r, was, pins).Some?
    ensures Encode(kps, was, HEAD_BYTES).Some? && |Written(c, kps, r, was, pins).value| == PAGE_SIZE
    ensures var back := ReadbackAll(kps, was, HEAD_BYTES);
            Decrypt(c, Written(c, kps, r, was, pins).value, pins) ==
              if Mac(c, r.salt, kps[0], pins.pkrPin).Some?
                 && Mac(c, r.salt, back[0], pins.pkrPin) == Mac(c, r.salt, kps[0], pins.pkrPin)
              then Opened(back) else Refused
  {
    hide Encode, Parse, Munge, Joined, ReadbackAll, Pack, Holds;
    var page := Pack(c, kps, pins.pkrPin, r, was).value;
    PackSucceeds(c, kps, pins.pkrPin, r, was);
    PackedHolds(c, kps, pins.pkrPin, r, was);
    MungedSize(c, page, pins);
    MungeUndoes(c, page, pins);
    ParseEncoded(c, kps, was, page, r.rotation, HEAD_BYTES, 0);
    var back := ReadbackAll(kps, was, HEAD_BYTES);
    FirstReadback(kps, was, HEAD_BYTES);
    MacIs(c, r.salt, kps[0], pins.pkrPin);
    MacIs(c, r.salt, back[0], pins.pkrPin);
    hide Mac;
  }

  lemma PackSucceeds(c: Crypto, kps: seq<Keypair>, pin: seq<byte>, r: Chance, was: seq<byte>)
    requires Sized(c) && AllRegular(kps) && kps != [] && Enough(r) && |was| == PAGE_SIZE
    ensures Pack(c, kps, pin, r, was).Some? <==> Encode(kps, was, HEAD_BYTES).Some?
  {
  }

  lemma MungedSize(c: Crypto, block: seq<byte>, pins: Pins)
    requires Sized(c) && Munge(c, block, pins).Some?
    ensures |Munge(c, block, pins).value| == |block|
  {
  }

  lemma FirstReadback(kps: seq<Keypair>, page: seq<byte>, ofs: nat)
    requires |page| == PAGE_SIZE && AllRegular(kps) && Encode(kps, page, ofs).Some? && kps != []
    ensures var back := ReadbackAll(kps, page, ofs)[0];
            |back.secret| == |kps[0].secret| && |back.open| == |kps[0].open| && (kps[0].kind != DID ==> back == kps[0])
  {
  }

  /** With a key pair other than a name in front, as every identity is created, the slot
      reads back exactly when the inputs of its MAC are not too long. */
  lemma SlotReadsBack(c: Crypto, kps: seq<Keypair>, r: Chance, was: seq<byte>, pins: Pins)
    requires Sized(c) && AllRegular(kps) && Genuine(c, kps) && 0 < |kps| <= MAX_KEYPAIRS && Enough(r) && |was| == PAGE_SIZE
    requires Written(c, kps, r, was, pins).Some? && kps[0].kind != DID
    ensures Encode(kps, was, HEAD_BYTES).Some? && |Written(c, kps, r, was, pins).value| == PAGE_SIZE
    ensures Decrypt(c, Written(c, kps, r, was, pins).value, pins) ==
              if SALT_BYTES + |kps[0].secret| + |kps[0].open| + |pins.pkrPin| < WORK_BYTES
              then Opened(ReadbackAll(kps, was, HEAD_BYTES)) else Refused
  {
    hide Encode, Decrypt, Written, ReadbackAll, Joined, Fits;
    SlotRoundTrip(c, kps, r, was, pins);
    FirstReadback(kps, was, HEAD_BYTES);
    FitsFour(r.salt, kps[0].secret, kps[0].open, pins.pkrPin);
  }

  /** A name is a string that ends with a zero byte. */
  function NameOf(open: seq<byte>): seq<byte>
  {
    if open == [] || open[0] == 0 then [] else [open[0]] + NameOf(open[1..])
  }

  lemma {:induction false} NameEnds(a: seq<byte>, b: seq<byte>)
    requires 0 in a
    ensures NameOf(a + b) == NameOf(a)
  {
    if a[0] != 0 {
      assert (a + b)[1..] == a[1..] + b;
      NameEnds(a[1..], b);
    }
  }

  /** A key pair as its user sees it. */
  ghost predicate SameKey(a: Keypair, b: Keypair)
  {
    a.kind == b.kind && a.secret == b.secret && if a.kind == DID then NameOf(a.open) == NameOf(b.open) else a.open == b.open
  }

  /** Names of up to 31 characters, and all other keys, come back as they were. */
  lemma {:induction false} NamesReadBack(kps: seq<Keypair>, page: seq<byte>, ofs: nat)
    requires |page| == PAGE_SIZE && AllRegular(kps) && Encode(kps, page, ofs).Some?
    requires forall i :: 0 <= i < |kps| && kps[i].kind == DID ==> 0 in kps[i].open[..32]
    ensures forall i :: 0 <= i < |kps| ==> SameKey(ReadbackAll(kps, page, ofs)[i], kps[i])
  {
    if kps != [] {
      var kp, n := kps[0], Span(kps[0].kind);
      assert forall i :: 0 <= i < |kps[1..]| ==> kps[1..][i] == kps[i + 1];
      NamesReadBack(kps[1..], page, ofs + n);
      if kp.kind == DID {
        NameEnds(kp.open[..32], kp.open[32..]);
        NameEnds(kp.open[..32], page[ofs..ofs + n][65..]);
        assert kp.open == kp.open[..32] + kp.open[32..];
      }
    }
  }

  lemma {:induction false} WholeName(a: seq<byte>, b: seq<byte>)
    requires 0 !in a
    ensures NameOf(a + b) == a + NameOf(b)
  {
    if a == [] {
      assert a + b == b;
    } else {
      assert (a + b)[1..] == a[1..] + b;
      WholeName(a[1..], b);
    }
  }

  /** The name comes back from a page that held `was` in its place. */
  ghost predicate NameKept(kp: Keypair, was: seq<byte>)
    requires Regular(kp) && kp.kind == DID && |was| == Span(DID)
  {
    0 in kp.open[..32] || NameOf(was[65..]) == NameOf(kp.open[32..])
  }

  /** A name of up to 31 characters comes back from every page, and a longer one if and only
      if the page happened to hold the rest of it. */
  lemma NameKeptIff(kp: Keypair, was: seq<byte>)
    requires Regular(kp) && kp.kind == DID && |was| == Span(DID)
    ensures NameOf(Readback(kp, was).open) == NameOf(kp.open) <==> NameKept(kp, was)
  {
    var head := kp.open[..32];
    assert kp.open == head + kp.open[32..];
    if 0 in head {
      NameEnds(head, kp.open[32..]);
      NameEnds(head, was[65..]);
    } else {
      WholeName(head, kp.open[32..]);
      WholeName(head, was[65..]);
      var x, y := NameOf(was[65..]), NameOf(kp.open[32..]);
      assert (head + x)[32..] == x && (head + y)[32..] == y;
    }
  }

  ghost predicate NamesKept(kps: seq<Keypair>, page: seq<byte>, ofs: nat)
    requires |page| == PAGE_SIZE && AllRegular(kps) && Encode(kps, page, ofs).Some?
  {
    kps == [] ||
    (&& (kps[0].kind == DID ==> NameKept(kps[0], page[ofs..ofs + Span(DID)]))
     && NamesKept(kps[1..], page, ofs + Span(kps[0].kind)))
  }

  /** So the key pairs of an identity come back as their user sees them if and only if that
      holds of each name. */
  lemma {:induction false} NamesReadBackIff(kps: seq<Keypair>, page: seq<byte>, ofs: nat)
    requires |page| == PAGE_SIZE && AllRegular(kps) && Encode(kps, page, ofs).Some?
    ensures (forall i :: 0 <= i < |kps| ==> SameKey(ReadbackAll(kps, page, ofs)[i], kps[i])) <==> NamesKept(kps, page, ofs)
  {
    if kps != [] {
      var n := Span(kps[0].kind);
      NamesReadBackIff(kps[1..], page, ofs + n);
      if kps[0].kind == DID {
        NameKeptIff(kps[0], page[ofs..ofs + n]);
      }
      ReadbackTail(kps, page, ofs);
      SameKeysSplit(ReadbackAll(kps, page, ofs), kps);
      hide ReadbackAll, Encode, NameOf;
    }
  }

  lemma SameKeysSplit(a: seq<Keypair>, b: seq<Keypair>)
    requires |a| == |b| > 0
    ensures (forall i :: 0 <= i < |b| ==> SameKey(a[i], b[i])) <==>
            SameKey(a[0], b[0]) && forall i :: 0 <= i < |b[1..]| ==> SameKey(a[1..][i], b[1..][i])
  {
    hide SameKey;
    assert forall i :: 0 <= i < |b| - 1 ==> a[1..][i] == a[i + 1] && b[1..][i] == b[i + 1];
    assert forall i :: 1 <= i < |b| ==> a[i] == a[1..][i - 1] && b[i] == b[1..][i - 1];
  }

  lemma ReadbackTail(kps: seq<Keypair>, page: seq<byte>, ofs: nat)
    requires |page| == PAGE_SIZE && AllRegular(kps) && Encode(kps, page, ofs).Some? && kps != []
    ensures var n := Span(kps[0].kind);
      && ofs + n <= PAGE_SIZE && Encode(kps[1..], page, ofs + n).Some?
      && ReadbackAll(kps, page, ofs) ==
           [Readback(kps[0], page[ofs..ofs + n])] + ReadbackAll(kps[1..], page, ofs + n)
      && ReadbackAll(kps, page, ofs)[1..] == ReadbackAll(kps[1..], page, ofs + n)
  {
  }

  /** A longer name does not: on some page it comes back as another one. */
  lemma LongNameChanges(kp: Keypair)
    requires kp.kind == DID && Regular(kp) && 0 !in kp.open[..32]
    ensures exists was :: |was| == Span(DID) && NameOf(Readback(kp, was).open) != NameOf(kp.open)
  {
    var head := kp.open[..32];
    var blank: seq<byte> := seq<byte>(97, _ => 0);
    var other := blank[65 := 1];
    WholeName(head, blank[65..]);
    WholeName(head, other[65..]);
    assert blank[65..][0] == 0 && other[65..][0] == 1;
    assert NameOf(Readback(kp, blank).open) == head + [];
    assert NameOf(Readback(kp, other).open) == head + ([1] + NameOf(other[65..][1..]));
    assert |NameOf(Readback(kp, blank).open)| < |NameOf(Readback(kp, other).open)|;
  }
}
