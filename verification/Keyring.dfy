/** keyring.c: packing identities into pages in place, and reading them back. */
module Keyring {
  import opened Wrappers
  import opened Bytes
  import opened KeyringSpec

  /** One step of filling a work buffer. */
  method Append(work: seq<byte>, part: seq<byte>) returns (ok: bool, work': seq<byte>)
    ensures ok <==> |work| + |part| < WORK_BYTES
    ensures work' == if ok then work + part else work
  {
    ok := |work| + |part| < WORK_BYTES;
    work' := if ok then work + part else work;
  }

  /** Append four parts, and give up at the first one that does not fit. */
  method Gather(a: seq<byte>, b: seq<byte>, c: seq<byte>, d: seq<byte>) returns (ok: bool, work: seq<byte>)
    ensures ok <==> Fits([a, b, c, d], 0)
    ensures ok ==> work == Joined([a, b, c, d])
  {
    hide Fits, Joined;
    FitsFour(a, b, c, d);
    JoinedFour(a, b, c, d);
    ok, work := Append([], a);
    assert [] + a == a;
    if ok {
      ok, work := Append(work, b);
      if ok {
        ok, work := Append(work, c);
        if ok {
          ok, work := Append(work, d);
        }
      }
    }
  }

  /** keyring_identity_mac */
  method IdentityMac(c: Crypto, salt: seq<byte>, kp: Keypair, pin: seq<byte>) returns (mac: Option<seq<byte>>)
    ensures mac == if |salt| + |kp.secret| + |kp.open| + |pin| < WORK_BYTES
                   then Some(c.hash(salt + kp.secret + kp.open + pin)) else None
  {
    hide Fits, Joined;
    FitsFour(salt, kp.secret, kp.open, pin);
    JoinedFour(salt, kp.secret, kp.open, pin);
    var ok, work := Gather(salt, kp.secret, kp.open, pin);
    if ok {
      mac := Some(c.hash(work));
    } else {
      mac := None;
    }
  }

  /** XOR the end of a block with a key stream. */
  method XorInPlace(block: array<byte>, from: nat, stream: seq<byte>)
    requires from + |stream| == block.Length
    modifies block
    ensures block[..] == old(block[..from]) + XorAll(old(block[from..]), stream)
  {
    for i := from to block.Length
      invariant forall j :: 0 <= j < from ==> block[j] == old(block[j])
      invariant forall j :: i <= j < block.Length ==> block[j] == old(block[j])
      invariant forall j :: from <= j < i ==> block[j] == Xor(old(block[j]), stream[j - from])
    {
      block[i] := Xor(block[i], stream[i - from]);
    }
  }

  /** keyring_munge_block */
  method MungeBlock(c: Crypto, block: array<byte>, pins: Pins) returns (ok: bool)
    requires Sized(c)
    modifies block
    ensures ok <==> Munge(c, old(block[..]), pins).Some?
    ensures block[..] == if ok then Munge(c, old(block[..]), pins).value else old(block[..])
  {
    hide Joined, Fits, Xor;
    if block.Length < SALT_BYTES + MAC_BYTES {
      return false;
    }
    var salt := block[..SALT_BYTES];
    assert salt == block[..][..SALT_BYTES];
    var hashed, work := Gather(salt, pins.pkrPin, salt, pins.krPin);
    if !hashed {
      return false;
    }
    var hashKey := c.hash(work);
    hashed, work := Gather(pins.krPin, pins.krSalt, pins.krPin, pins.pkrPin);
    if !hashed {
      return false;
    }
    var hashNonce := c.hash(work);
    var n := SALT_BYTES + MAC_BYTES;
    assert block[..][..n] == block[..n] && block[..][n..] == block[n..];
    XorInPlace(block, n, c.stream(hashNonce, hashKey, block.Length - n));
    return true;
  }

  /** A page after bytes have been written into it. */
  ghost function Write(page: seq<byte>, ofs: nat, bytes: seq<byte>): (r: seq<byte>)
    requires ofs + |bytes| <= |page|
    ensures |r| == |page|
  {
    page[..ofs] + bytes + page[ofs + |bytes|..]
  }

  lemma WriteTwo(page: seq<byte>, ofs: nat, a: seq<byte>, b: seq<byte>)
    requires ofs + |a| + |b| <= |page|
    ensures Write(Write(page, ofs, a), ofs + |a|, b) == Write(page, ofs, a + b)
  {
  }

  lemma WriteSame(page: seq<byte>, ofs: nat, a: seq<byte>, n: nat)
    requires ofs + |a| + n <= |page|
    ensures Write(page, ofs, a) == Write(page, ofs, a + page[ofs + |a|..ofs + |a| + n])
  {
  }

  method Put(page: array<byte>, ofs: nat, bytes: seq<byte>)
    requires ofs + |bytes| <= page.Length
    modifies page
    ensures page[..] == Write(old(page[..]), ofs, bytes)
  {
    for i := 0 to |bytes|
      invariant forall j :: 0 <= j < ofs ==> page[j] == old(page[j])
      invariant forall j :: 0 <= j < i ==> page[ofs + j] == bytes[j]
      invariant forall j :: ofs + i <= j < page.Length ==> page[j] == old(page[j])
    {
      page[ofs + i] := bytes[i];
    }
  }

  /** Write one key pair at `ofs`: its kind, then as much of its halves as are stored. */
  method PutKey(page: array<byte>, ofs: nat, kp: Keypair) returns (ok: bool, ofs': nat)
    requires page.Length == PAGE_SIZE && Regular(kp)
    modifies page
    ensures ok <==> Known(kp.kind) && ofs + Span(kp.kind) < PAGE_SIZE
    ensures ok ==> ofs' == ofs + Span(kp.kind)
    ensures ok ==> page[..] == Write(old(page[..]), ofs, KeyBytes(kp, old(page[..])[ofs..ofs + Span(kp.kind)]))
  {
    hide Write;
    ofs' := ofs;
    if ofs >= PAGE_SIZE || !Known(kp.kind) || ofs + Span(kp.kind) >= PAGE_SIZE {
      return false, ofs;
    }
    ghost var was := page[..];
    var a := [kp.kind] + kp.secret;
    Put(page, ofs, a);
    ofs' := ofs + |a|;
    if kp.kind == DID {
      var b := kp.open[..|kp.secret|];
      Put(page, ofs', b);
      WriteTwo(was, ofs, a, b);
      WriteSame(was, ofs, a + b, 32);
      assert was[ofs + 65..ofs + 97] == was[ofs..ofs + 97][65..];
      ofs' := ofs' + |kp.open|;
    } else if kp.kind == CRYPTOSIGN {
      Put(page, ofs', kp.open);
      WriteTwo(was, ofs, a, kp.open);
      ofs' := ofs' + |kp.open|;
    }
    return true, ofs';
  }

  /** Where a page is packed up to `ofs`, the rest of it is as it was. */
  ghost predicate Packing(kps: seq<Keypair>, done: nat, was: seq<byte>, page: seq<byte>, ofs: nat)
    requires |was| == |page| == PAGE_SIZE && AllRegular(kps) && done <= |kps|
  {
    && HEAD_BYTES <= ofs <= PAGE_SIZE && page[ofs..] == was[ofs..]
    && Encode(kps, was, HEAD_BYTES) ==
       var rest := Encode(kps[done..], was, ofs);
       if rest.None? then None else Some(page[HEAD_BYTES..ofs] + rest.value)
  }

  lemma WriteSlices(page: seq<byte>, from: nat, ofs: nat, bytes: seq<byte>)
    requires from <= ofs && ofs + |bytes| <= |page|
    ensures Write(page, ofs, bytes)[from..ofs + |bytes|] == page[from..ofs] + bytes
    ensures Write(page, ofs, bytes)[ofs + |bytes|..] == page[ofs + |bytes|..]
  {
  }

  lemma EncodeStep(kps: seq<Keypair>, done: nat, was: seq<byte>, ofs: nat)
    requires |was| == PAGE_SIZE && AllRegular(kps) && done < |kps|
    requires Known(kps[done].kind) && ofs + Span(kps[done].kind) < PAGE_SIZE
    ensures var n := Span(kps[done].kind);
            var rest := Encode(kps[done + 1..], was, ofs + n);
            Encode(kps[done..], was, ofs) ==
              if rest.None? then None else Some(KeyBytes(kps[done], was[ofs..ofs + n]) + rest.value)
  {
  }

  lemma SameTail(a: seq<byte>, b: seq<byte>, ofs: nat, n: nat)
    requires ofs + n <= |a| == |b| && a[ofs..] == b[ofs..]
    ensures a[ofs..ofs + n] == b[ofs..ofs + n] && a[ofs + n..] == b[ofs + n..]
  {
  }

  lemma PackingGoesOn(kps: seq<Keypair>, done: nat, was: seq<byte>, page: seq<byte>, ofs: nat, page': seq<byte>)
    requires |was| == |page| == |page'| == PAGE_SIZE && AllRegular(kps) && done < |kps|
    requires Packing(kps, done, was, page, ofs)
    requires var kp := kps[done];
             Known(kp.kind) && ofs + Span(kp.kind) < PAGE_SIZE &&
             page' == Write(page, ofs, KeyBytes(kp, page[ofs..ofs + Span(kp.kind)]))
    ensures Packing(kps, done + 1, was, page', ofs + Span(kps[done].kind))
  {
    hide KeyBytes, Encode, Write;
    var n := Span(kps[done].kind);
    SameTail(page, was, ofs, n);
    var b := KeyBytes(kps[done], was[ofs..ofs + n]);
    WriteSlices(page, HEAD_BYTES, ofs, b);
    EncodeStep(kps, done, was, ofs);
    var rest := Encode(kps[done + 1..], was, ofs + n);
    if rest.Some? {
      assert (page[HEAD_BYTES..ofs] + b) + rest.value == page[HEAD_BYTES..ofs] + (b + rest.value);
    }
  }

  /** Write the next key pair, if there is room for it. */
  method PutNext(page: array<byte>, kps: seq<Keypair>, done: nat, ghost was: seq<byte>, ofs: nat) returns (ok: bool, ofs': nat)
    requires page.Length == |was| == PAGE_SIZE && AllRegular(kps) && done < |kps| && Packing(kps, done, was, page[..], ofs)
    modifies page
    ensures !ok ==> Encode(kps, was, HEAD_BYTES).None?
    ensures ok ==> Packing(kps, done + 1, was, page[..], ofs') && page[..HEAD_BYTES] == old(page[..HEAD_BYTES])
  {
    ghost var before := page[..];
    PackingStuck(kps, done, was, before, ofs);
    hide Encode, KeyBytes;
    ok, ofs' := PutKey(page, ofs, kps[done]);
    if ok {
      PackingGoesOn(kps, done, was, before, ofs, page[..]);
      HeadStays(before, ofs, KeyBytes(kps[done], before[ofs..ofs']), page[..]);
    }
  }

  /** Write all key pairs behind the head of the page, and the end mark. */
  method PutKeys(page: array<byte>, kps: seq<Keypair>, ghost was: seq<byte>) returns (ok: bool, ofs: nat)
    requires page.Length == |was| == PAGE_SIZE && AllRegular(kps) && page[HEAD_BYTES..] == was[HEAD_BYTES..]
    modifies page
    ensures ok <==> Encode(kps, was, HEAD_BYTES).Some?
    ensures ok ==> HEAD_BYTES <= ofs <= PAGE_SIZE && page[HEAD_BYTES..ofs] == Encode(kps, was, HEAD_BYTES).value
    ensures ok ==> page[..HEAD_BYTES] == old(page[..HEAD_BYTES])
  {
    ofs := HEAD_BYTES;
    PackingStarts(kps, was, page[..]);
    for done := 0 to |kps|
      invariant Packing(kps, done, was, page[..], ofs)
      invariant page[..HEAD_BYTES] == old(page[..HEAD_BYTES])
    {
      hide Packing, Encode;
      ok, ofs := PutNext(page, kps, done, was, ofs);
      if !ok {
        return;
      }
    }
    PackingEnds(kps, was, page[..], ofs);
    if ofs >= PAGE_SIZE {
      return false, ofs;
    }
    page[ofs] := 0;
    ofs := ofs + 1;
    ok := true;
  }

  lemma HeadStays(page: seq<byte>, ofs: nat, bytes: seq<byte>, page': seq<byte>)
    requires ofs + |bytes| <= |page| && page' == Write(page, ofs, bytes) && ofs >= HEAD_BYTES
    ensures page'[..HEAD_BYTES] == page[..HEAD_BYTES]
  {
  }

  lemma PackingStarts(kps: seq<Keypair>, was: seq<byte>, page: seq<byte>)
    requires |was| == |page| == PAGE_SIZE && AllRegular(kps) && page[HEAD_BYTES..] == was[HEAD_BYTES..]
    ensures Packing(kps, 0, was, page, HEAD_BYTES)
  {
    assert kps[0..] == kps && page[HEAD_BYTES..HEAD_BYTES] == [];
    var rest := Encode(kps, was, HEAD_BYTES);
    assert rest.Some? ==> [] + rest.value == rest.value;
  }

  lemma PackingStuck(kps: seq<Keypair>, done: nat, was: seq<byte>, page: seq<byte>, ofs: nat)
    requires |was| == |page| == PAGE_SIZE && AllRegular(kps) && done < |kps| && Packing(kps, done, was, page, ofs)
    ensures !Known(kps[done].kind) || ofs + Span(kps[done].kind) >= PAGE_SIZE ==> Encode(kps, was, HEAD_BYTES).None?
  {
  }

  lemma PackingEnds(kps: seq<Keypair>, was: seq<byte>, page: seq<byte>, ofs: nat)
    requires |was| == |page| == PAGE_SIZE && AllRegular(kps) && Packing(kps, |kps|, was, page, ofs)
    ensures Encode(kps, was, HEAD_BYTES) == if ofs >= PAGE_SIZE then None else Some(page[HEAD_BYTES..ofs] + [0])
  {
  }

  /** Rotate the body of a page, by way of a second page. */
  method RotateBody(page: array<byte>, rotation: nat)
    requires page.Length == PAGE_SIZE
    modifies page
    ensures page[..HEAD_BYTES] == old(page[..HEAD_BYTES])
    ensures page[HEAD_BYTES..] == Rotated(old(page[HEAD_BYTES..]), rotation)
  {
    hide Place;
    var slot := new byte[PAGE_SIZE];
    ghost var body := page[HEAD_BYTES..];
    for n := 0 to BODY_BYTES
      invariant forall j :: 0 <= j < n ==> slot[HEAD_BYTES + Place(j, rotation)] == body[j]
      invariant page[..] == old(page[..])
    {
      Apart(n, rotation);
      slot[HEAD_BYTES + Place(n, rotation)] := page[HEAD_BYTES + n];
    }
    for n := HEAD_BYTES to PAGE_SIZE
      invariant forall j :: 0 <= j < BODY_BYTES ==> slot[HEAD_BYTES + Place(j, rotation)] == body[j]
      invariant forall j :: HEAD_BYTES <= j < n ==> page[j] == slot[j]
      invariant page[..HEAD_BYTES] == old(page[..HEAD_BYTES])
    {
      page[n] := slot[n];
    }
    forall m | 0 <= m < BODY_BYTES ensures slot[HEAD_BYTES + m] == body[Unwound(m, rotation)] {
      var n := Unwound(m, rotation);
      assert slot[HEAD_BYTES + Place(n, rotation)] == body[n];
    }
  }

  /** Different bytes of the body go to different places. */
  lemma Apart(n: nat, rotation: nat)
    requires n < BODY_BYTES
    ensures forall j :: 0 <= j < n ==> Place(j, rotation) != Place(n, rotation)
  {
  }

  /** Salt, MAC (if there is one) and two bytes for the rotation. */
  method PutHead(packed: array<byte>, salt: seq<byte>, mac: Option<seq<byte>>)
    requires packed.Length == PAGE_SIZE && |salt| == SALT_BYTES && (mac.Some? ==> |mac.value| == MAC_BYTES)
    modifies packed
    ensures packed[..HEAD_BYTES] ==
            salt + (if mac.Some? then mac.value else old(packed[..])[SALT_BYTES..SALT_BYTES + MAC_BYTES]) + [0, 0]
    ensures packed[HEAD_BYTES..] == old(packed[..])[HEAD_BYTES..]
  {
    hide Write;
    ghost var was := packed[..];
    ghost var macBytes := if mac.Some? then mac.value else was[SALT_BYTES..SALT_BYTES + MAC_BYTES];
    Put(packed, 0, salt);
    if mac.Some? {
      Put(packed, SALT_BYTES, mac.value);
      WriteTwo(was, 0, salt, mac.value);
    } else {
      WriteSame(was, 0, salt, MAC_BYTES);
    }
    Put(packed, SALT_BYTES + MAC_BYTES, [0, 0]);
    WriteTwo(was, 0, salt + macBytes, [0, 0]);
    WriteSlices(was, 0, 0, salt + macBytes + [0, 0]);
    assert packed[..HEAD_BYTES] == packed[..][0..HEAD_BYTES] && packed[HEAD_BYTES..] == packed[..][HEAD_BYTES..];
    assert was[0..0] + (salt + macBytes + [0, 0]) == salt + macBytes + [0, 0];
  }

  /** Fill the rest of the page, rotate, and note the rotation. */
  method FinishPage(packed: array<byte>, ofs: nat, r: Chance)
    requires packed.Length == PAGE_SIZE && HEAD_BYTES <= ofs <= PAGE_SIZE && Enough(r)
    modifies packed
    ensures packed[..] == old(packed[..SALT_BYTES + MAC_BYTES]) + [r.rotation / 0x100, r.rotation % 0x100] +
                          Rotated(old(packed[HEAD_BYTES..ofs]) + r.filler[ofs - HEAD_BYTES..], r.rotation)
  {
    hide Rotated;
    Put(packed, ofs, r.filler[ofs - HEAD_BYTES..]);
    assert packed[HEAD_BYTES..] == old(packed[HEAD_BYTES..ofs]) + r.filler[ofs - HEAD_BYTES..];
    assert packed[..HEAD_BYTES] == old(packed[..HEAD_BYTES]);
    RotateBody(packed, r.rotation);
    ghost var body := packed[HEAD_BYTES..];
    Put(packed, SALT_BYTES + MAC_BYTES, [r.rotation / 0x100, r.rotation % 0x100]);
    assert packed[HEAD_BYTES..] == body;
    assert packed[..SALT_BYTES + MAC_BYTES] == old(packed[..HEAD_BYTES])[..SALT_BYTES + MAC_BYTES];
  }

  /** keyring_pack_identity */
  method PackIdentity(c: Crypto, kps: seq<Keypair>, pin: seq<byte>, r: Chance, packed: array<byte>) returns (ok: bool)
    requires Sized(c) && AllRegular(kps) && kps != [] && Enough(r) && packed.Length == PAGE_SIZE
    modifies packed
    ensures ok <==> Pack(c, kps, pin, r, old(packed[..])).Some?
    ensures ok ==> packed[..] == Pack(c, kps, pin, r, old(packed[..])).value
  {
    hide Encode, Mac, Rotated;
    ghost var was := packed[..];
    var mac := IdentityMac(c, r.salt, kps[0], pin);
    MacIs(c, r.salt, kps[0], pin);
    MacSize(c, r.salt, kps[0], pin);
    PutHead(packed, r.salt, mac);
    ghost var macBytes := if mac.Some? then mac.value else was[SALT_BYTES..SALT_BYTES + MAC_BYTES];
    ghost var head := packed[..HEAD_BYTES];
    var ofs;
    ok, ofs := PutKeys(packed, kps, was);
    if ok {
      assert packed[..SALT_BYTES + MAC_BYTES] == packed[..HEAD_BYTES][..SALT_BYTES + MAC_BYTES];
      assert head[..SALT_BYTES + MAC_BYTES] == r.salt + macBytes;
      FinishPage(packed, ofs, r);
    }
  }

  lemma MacSize(c: Crypto, salt: seq<byte>, kp: Keypair, pin: seq<byte>)
    requires Sized(c)
    ensures Mac(c, salt, kp, pin).Some? ==> |Mac(c, salt, kp, pin).value| == MAC_BYTES
  {
  }

  /** Copy bytes out of a rotated body. */
  method ReadBody(slot: array<byte>, rotation: nat, from: nat, n: nat) returns (b: seq<byte>)
    requires slot.Length == PAGE_SIZE
    ensures b == BodyBytes(slot[..], rotation, from, n)
  {
    b := [];
    for i := 0 to n
      invariant |b| == i && forall j :: 0 <= j < i ==> b[j] == BodyByte(slot[..], rotation, from + j)
    {
      b := b + [slot[HEAD_BYTES + Place(from + i, rotation)]];
    }
  }

  /** Read one key pair. */
  method ReadPair(c: Crypto, slot: array<byte>, rotation: nat, ofs: nat) returns (kp: Keypair, ofs': nat)
    requires slot.Length == PAGE_SIZE && Known(BodyByte(slot[..], rotation, ofs))
    ensures kp == ReadKey(c, slot[..], rotation, ofs) && ofs' == ofs + Span(BodyByte(slot[..], rotation, ofs))
  {
    hide Place;
    var kind := slot[HEAD_BYTES + Place(ofs, rotation)];
    var secret := ReadBody(slot, rotation, ofs + 1, SecretLength(kind));
    ofs' := ofs + 1 + SecretLength(kind);
    var open;
    if kind == CRYPTOBOX {
      open := c.publicOf(secret);
    } else {
      open := ReadBody(slot, rotation, ofs', StoredOpen(kind));
      ofs' := ofs' + StoredOpen(kind);
    }
    kp := Keypair(kind, secret, open);
  }

  /** keyring_unpack_identity */
  method UnpackIdentity(c: Crypto, slot: array<byte>) returns (r: Option<seq<Keypair>>)
    requires slot.Length == PAGE_SIZE
    ensures r == Unpack(c, slot[..])
  {
    hide Parse, ReadKey, Place;
    var rotation := (slot[SALT_BYTES + MAC_BYTES] as int) * 0x100 + slot[SALT_BYTES + MAC_BYTES + 1] as int;
    var kps: seq<Keypair> := [];
    var ofs := 0;
    ghost var page := slot[..];
    ParseStarts(c, page, rotation);
    while ofs < BODY_BYTES
      invariant Unpack(c, page) == Onto(kps, Parse(c, page, rotation, ofs, |kps|))
      decreases BODY_BYTES - ofs
    {
      ParseStep(c, page, rotation, ofs, kps);
      var kind := slot[HEAD_BYTES + Place(ofs, rotation)];
      assert kind == BodyByte(page, rotation, ofs);
      if kind == 0 {
        return Some(kps);
      }
      if !Known(kind) || |kps| >= MAX_KEYPAIRS {
        return None;
      }
      var kp;
      kp, ofs := ReadPair(c, slot, rotation, ofs);
      kps := kps + [kp];
    }
    ParseDone(c, page, rotation, ofs, kps);
    r := Some(kps);
  }

  lemma ParseStarts(c: Crypto, slot: seq<byte>, rotation: nat)
    requires |slot| == PAGE_SIZE && rotation == RotationOf(slot)
    ensures Unpack(c, slot) == Onto([], Parse(c, slot, rotation, 0, 0))
  {
    hide Parse;
    var r := Parse(c, slot, rotation, 0, 0);
    assert r.Some? ==> [] + r.value == r.value;
  }

  ghost function Onto(kps: seq<Keypair>, rest: Option<seq<Keypair>>): Option<seq<Keypair>>
  {
    if rest.None? then None else Some(kps + rest.value)
  }

  lemma ParseDone(c: Crypto, slot: seq<byte>, rotation: nat, ofs: nat, kps: seq<Keypair>)
    requires |slot| == PAGE_SIZE && ofs >= BODY_BYTES
    ensures Onto(kps, Parse(c, slot, rotation, ofs, |kps|)) == Some(kps)
  {
    assert kps + [] == kps;
  }

  lemma ParseStep(c: Crypto, slot: seq<byte>, rotation: nat, ofs: nat, kps: seq<Keypair>)
    requires |slot| == PAGE_SIZE && ofs < BODY_BYTES
    ensures var kind := BodyByte(slot, rotation, ofs);
            Onto(kps, Parse(c, slot, rotation, ofs, |kps|)) ==
              if kind == 0 then Some(kps)
              else if !Known(kind) || |kps| >= MAX_KEYPAIRS then None
              else Onto(kps + [ReadKey(c, slot, rotation, ofs)], Parse(c, slot, rotation, ofs + Span(kind), |kps| + 1))
  {
    hide ReadKey, Place, BodyByte, Known, Span, Parse;
    ParseUnfolds(c, slot, rotation, ofs, |kps|);
    assert kps + [] == kps;
    var kind := BodyByte(slot, rotation, ofs);
    var rest := Parse(c, slot, rotation, ofs + Span(kind), |kps| + 1);
    if rest.Some? {
      var key := ReadKey(c, slot, rotation, ofs);
      assert kps + ([key] + rest.value) == (kps + [key]) + rest.value;
    }
  }

  /** The write path of keyring_commit for one identity. */
  method CommitIdentity(c: Crypto, kps: seq<Keypair>, r: Chance, pkr: array<byte>, pins: Pins) returns (ok: bool)
    requires Sized(c) && AllRegular(kps) && kps != [] && Enough(r) && pkr.Length == PAGE_SIZE
    modifies pkr
    ensures ok <==> Written(c, kps, r, old(pkr[..]), pins).Some?
    ensures ok ==> pkr[..] == Written(c, kps, r, old(pkr[..]), pins).value
  {
    hide Pack, Munge;
    ok := PackIdentity(c, kps, pins.pkrPin, r, pkr);
    if ok {
      ok := MungeBlock(c, pkr, pins);
    }
  }

  /** keyring_decrypt_pkr, on the page that has been read. */
  method DecryptPkr(c: Crypto, slot: array<byte>, pins: Pins) returns (r: Opening)
    requires Sized(c) && slot.Length == PAGE_SIZE
    modifies slot
    ensures r == Decrypt(c, old(slot[..]), pins)
    ensures Munge(c, old(slot[..]), pins) == Some(slot[..]) || (r == Refused && slot[..] == old(slot[..]))
    ensures r == NoKeyPair <==> Munge(c, old(slot[..]), pins).Some? && Blank(slot[..])
    ensures forall kps :: r == Opened(kps) <==>
              && Munge(c, old(slot[..]), pins).Some? && kps != []
              && Unpack(c, slot[..]) == Some(kps) && MacMatches(c, old(slot[..]), kps[0], pins.pkrPin)
  {
    NoKeyPairIff(c, slot[..], pins);
    forall kps {
      OpenedIff(c, slot[..], pins, kps);
    }
    hide Unpack, Munge, Mac, Blank, MacMatches;
    r := Refused;
    var ok := MungeBlock(c, slot, pins);
    if ok {
      var kps := UnpackIdentity(c, slot);
      if kps.Some? && kps.value == [] {
        r := NoKeyPair;
      } else if kps.Some? {
        var mac := IdentityMac(c, slot[..SALT_BYTES], kps.value[0], pins.pkrPin);
        MacIs(c, slot[..SALT_BYTES], kps.value[0], pins.pkrPin);
        assert slot[..][..SALT_BYTES] == slot[..SALT_BYTES];
        assert slot[..][SALT_BYTES..SALT_BYTES + MAC_BYTES] == slot[SALT_BYTES..SALT_BYTES + MAC_BYTES];
        if mac.Some? && mac.value == slot[SALT_BYTES..SALT_BYTES + MAC_BYTES] {
          r := Opened(kps.value);
        }
      }
    }
  }

  /** What can be written: the kinds are known, they fit the page, and the pins fit the work
      buffers. */
  ghost predicate Writable(kps: seq<Keypair>, pins: Pins)
    requires AllRegular(kps)
  {
    && HEAD_BYTES + Length(kps) <= PAGE_SIZE && (forall i :: 0 <= i < |kps| ==> Known(kps[i].kind))
    && 2 * SALT_BYTES + |pins.pkrPin| + |pins.krPin| < WORK_BYTES
    && 2 * |pins.krPin| + |pins.krSalt| + |pins.pkrPin| < WORK_BYTES
  }

  /** An identity that has been written, read back with the same pins.  With a name in front,
      of which not all bytes are packed, it is up to what comes back of the name. */
  method Reopen(c: Crypto, kps: seq<Keypair>, r: Chance, page: array<byte>, pins: Pins) returns (back: Opening)
    requires Sized(c) && AllRegular(kps) && Genuine(c, kps) && 0 < |kps| <= MAX_KEYPAIRS && Enough(r)
    requires page.Length == PAGE_SIZE
    modifies page
    ensures back != NoKeyPair
    ensures Encode(kps, old(page[..]), HEAD_BYTES).None? ==> back == Refused
    ensures kps[0].kind != DID ==>
              (back.Opened? <==>
                 Writable(kps, pins) && SALT_BYTES + |kps[0].secret| + |kps[0].open| + |pins.pkrPin| < WORK_BYTES)
    ensures kps[0].kind == DID && Encode(kps, old(page[..]), HEAD_BYTES).Some? ==>
              (back.Opened? <==>
                 && Writable(kps, pins) && Mac(c, r.salt, kps[0], pins.pkrPin).Some?
                 && Mac(c, r.salt, ReadbackAll(kps, old(page[..]), HEAD_BYTES)[0], pins.pkrPin)
                    == Mac(c, r.salt, kps[0], pins.pkrPin))
    ensures back.Opened? ==> back.kps == ReadbackAll(kps, old(page[..]), HEAD_BYTES)
  {
    hide Encode, ReadbackAll, Decrypt, Munge, Length, Mac;
    ghost var was := page[..];
    EncodeSucceeds(kps, was, HEAD_BYTES);
    WrittenIff(c, kps, r, was, pins);
    hide Written;
    var ok := CommitIdentity(c, kps, r, page, pins);
    back := Refused;
    if ok {
      SlotRoundTrip(c, kps, r, was, pins);
      if kps[0].kind != DID {
        SlotReadsBack(c, kps, r, was, pins);
      }
      back := DecryptPkr(c, page, pins);
    }
  }

  lemma WrittenIff(c: Crypto, kps: seq<Keypair>, r: Chance, was: seq<byte>, pins: Pins)
    requires Sized(c) && AllRegular(kps) && kps != [] && Enough(r) && |was| == PAGE_SIZE
    ensures Written(c, kps, r, was, pins).Some? <==>
            && Encode(kps, was, HEAD_BYTES).Some?
            && 2 * SALT_BYTES + |pins.pkrPin| + |pins.krPin| < WORK_BYTES
            && 2 * |pins.krPin| + |pins.krSalt| + |pins.pkrPin| < WORK_BYTES
  {
    PackSucceeds(c, kps, pins.pkrPin, r, was);
    hide Encode, Munge, Pack;
    if Encode(kps, was, HEAD_BYTES).Some? {
      MungeSucceeds(c, Pack(c, kps, pins.pkrPin, r, was).value, pins);
    }
  }
}
