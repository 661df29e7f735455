/** The cache of signature verdicts in rhizome_crypto.c.  Its key is written along the
    diagonal of the table, one byte in each entry, and its verdict into one fixed entry. */
module SignatureCache {
  import opened Bytes

  const HASH_BYTES := 64
  const SIGNATURE_BYTES := 96
  const CACHE_SIZE := 1024

  /** Opening a signed message of 128 bytes with a public key: true if it is genuine. */
  type Opener = (seq<byte>, seq<byte>) -> bool

  /** The verdict of a direct verification: the manifest hash goes between the two halves
      of the signature, and the public key follows them. */
  function Verdict(open: Opener, hash: seq<byte>, sig: seq<byte>): int
    requires |sig| == SIGNATURE_BYTES
  {
    if open(sig[..32] + hash + sig[32..64], sig[64..]) then 0 else -1
  }

  const WORD := 0x1_0000_0000

  /** Rotate left by one bit and add a byte, on 32 bits. */
  function Mix(slot: nat, b: byte): nat
  {
    ((2 * slot) % WORD + (if slot % WORD >= 0x8000_0000 then 1 else 0) + b) % WORD
  }

  function MixAll(slot: nat, s: seq<byte>): nat
  {
    if s == [] then slot else Mix(MixAll(slot, s[..|s| - 1]), s[|s| - 1])
  }

  /** The entry whose length is looked at. */
  function SlotOf(hash: seq<byte>, sig: seq<byte>): nat
  {
    MixAll(MixAll(0, hash), sig) % CACHE_SIZE
  }

  method MixBytes(start: nat, s: seq<byte>) returns (slot: nat)
    ensures slot == MixAll(start, s)
  {
    slot := start;
    for i := 0 to |s|
      invariant slot == MixAll(start, s[..i])
    {
      assert s[..i + 1][..i] == s[..i];
      slot := Mix(slot, s[i]);
    }
    assert s[..|s|] == s;
  }

  class Cache {
    const hashes: array2<byte>
    const signatures: array2<byte>
    const lengths: array<int>
    const valid: array<int>
    ghost const open: Opener

    ghost predicate Shaped()
    {
      && hashes.Length0 == signatures.Length0 == lengths.Length == valid.Length == CACHE_SIZE
      && hashes.Length1 == HASH_BYTES && signatures.Length1 == 256
      && hashes != signatures && lengths != valid
    }

    /** The key that the diagonal holds. */
    ghost predicate Keyed(hash: seq<byte>, sig: seq<byte>)
      requires Shaped()
      reads hashes, signatures
    {
      && |hash| == HASH_BYTES && |sig| == SIGNATURE_BYTES
      && (forall i :: 0 <= i < HASH_BYTES ==> hashes[i, i] == hash[i])
      && (forall i :: 0 <= i < SIGNATURE_BYTES ==> signatures[i, i] == sig[i])
    }

    /** Only entry 96 is ever given a length, and then its verdict is that of the
        diagonal. */
    ghost predicate Valid()
      reads hashes, signatures, lengths, valid
    {
      && Shaped()
      && (forall i :: 0 <= i < CACHE_SIZE && i != SIGNATURE_BYTES ==> lengths[i] == 0)
      && lengths[SIGNATURE_BYTES] in {0, SIGNATURE_BYTES}
      && (lengths[SIGNATURE_BYTES] == SIGNATURE_BYTES ==>
            forall hash, sig :: Keyed(hash, sig) ==> valid[SIGNATURE_BYTES] == Verdict(open, hash, sig))
    }

    constructor (open: Opener)
      ensures Valid() && this.open == open
      ensures fresh(hashes) && fresh(signatures) && fresh(lengths) && fresh(valid)
      ensures lengths[SIGNATURE_BYTES] == 0
    {
      hashes := new byte[CACHE_SIZE, HASH_BYTES]((_, _) => 0);
      signatures := new byte[CACHE_SIZE, 256]((_, _) => 0);
      lengths := new int[CACHE_SIZE](_ => 0);
      valid := new int[CACHE_SIZE](_ => 0);
      this.open := open;
    }

    /** Compare a key with the diagonal. */
    method Matches(hash: seq<byte>, sig: seq<byte>) returns (same: bool)
      requires Shaped() && |hash| == HASH_BYTES && |sig| == SIGNATURE_BYTES
      ensures same <==> Keyed(hash, sig)
    {
      same := true;
      for i := 0 to HASH_BYTES
        invariant same <==> forall j :: 0 <= j < i ==> hashes[j, j] == hash[j]
      {
        if hash[i] != hashes[i, i] {
          return false;
        }
      }
      for i := 0 to SIGNATURE_BYTES
        invariant same <==> forall j :: 0 <= j < i ==> signatures[j, j] == sig[j]
      {
        if sig[i] != signatures[i, i] {
          return false;
        }
      }
    }

    /** Write a key along the diagonal. */
    method Store(hash: seq<byte>, sig: seq<byte>)
      requires Shaped() && |hash| == HASH_BYTES && |sig| == SIGNATURE_BYTES
      modifies hashes, signatures
      ensures Keyed(hash, sig)
    {
      for i := 0 to HASH_BYTES
        invariant forall j :: 0 <= j < i ==> hashes[j, j] == hash[j]
      {
        hashes[i, i] := hash[i];
      }
      for i := 0 to SIGNATURE_BYTES
        invariant forall j :: 0 <= j < HASH_BYTES ==> hashes[j, j] == hash[j]
        invariant forall j :: 0 <= j < i ==> signatures[j, j] == sig[j]
      {
        signatures[i, i] := sig[i];
      }
    }

    /** rhizome_manifest_lookup_signature_validity: whatever was looked up before, the
        verdict is that of a direct verification.  It comes from the cache exactly when
        the key is the one looked up last and hashes to entry 96. */
    method Lookup(opener: Opener, hash: seq<byte>, sig: seq<byte>) returns (verdict: int, ghost cached: bool)
      requires Valid() && opener == open && |hash| == HASH_BYTES && |sig| == SIGNATURE_BYTES
      modifies hashes, signatures, lengths, valid
      ensures Valid() && verdict == Verdict(open, hash, sig)
      ensures verdict == if open(sig[..32] + hash + sig[32..64], sig[64..]) then 0 else -1
      ensures cached <==> SlotOf(hash, sig) == SIGNATURE_BYTES && old(lengths[SIGNATURE_BYTES]) == SIGNATURE_BYTES
                          && old(Keyed(hash, sig))
      ensures Keyed(hash, sig) && lengths[SIGNATURE_BYTES] == SIGNATURE_BYTES
    {
      var slot := MixBytes(0, hash);
      slot := MixBytes(slot, sig);
      slot := slot % CACHE_SIZE;
      var same := Matches(hash, sig);
      var replace := lengths[slot] != SIGNATURE_BYTES || !same;
      cached := !replace;
      if replace {
        Store(hash, sig);
        lengths[SIGNATURE_BYTES] := SIGNATURE_BYTES;
        valid[SIGNATURE_BYTES] := if opener(sig[..32] + hash + sig[32..64], sig[64..96]) then 0 else -1;
        SameKey(hash, sig);
        assert sig[64..96] == sig[64..];
      }
      verdict := valid[SIGNATURE_BYTES];
    }

    /** The diagonal holds one key only. */
    lemma SameKey(hash: seq<byte>, sig: seq<byte>)
      requires Shaped() && Keyed(hash, sig)
      ensures forall h, s :: Keyed(h, s) ==> h == hash && s == sig
    {
    }
  }

  /** A run of lookups from an empty cache. */
  method LookupAll(open: Opener, keys: seq<(seq<byte>, seq<byte>)>) returns (verdicts: seq<int>)
    requires forall k :: k in keys ==> |k.0| == HASH_BYTES && |k.1| == SIGNATURE_BYTES
    ensures |verdicts| == |keys| && forall i :: 0 <= i < |keys| ==> verdicts[i] == Verdict(open, keys[i].0, keys[i].1)
  {
    var cache := new Cache(open);
    verdicts := [];
    for i := 0 to |keys|
      invariant cache.Valid() && cache.open == open
      invariant fresh(cache.hashes) && fresh(cache.signatures) && fresh(cache.lengths) && fresh(cache.valid)
      invariant |verdicts| == i && forall j :: 0 <= j < i ==> verdicts[j] == Verdict(open, keys[j].0, keys[j].1)
    {
      hide Verdict;
      var (hash, sig) := keys[i];
      assert keys[i] in keys;
      var verdict, _ := cache.Lookup(open, hash, sig);
      verdicts := verdicts + [verdict];
    }
  }
}
