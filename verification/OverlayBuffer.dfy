/** The variable-width remaining-frame-size (RFS) field of overlay_buffer.c. */
module Rfs {
  import opened Bytes

  const RFS_PLUS250 := 0xfa
  const RFS_3BYTE := 0xff
  const MAX_LENGTH := 0xffff

  /** rfs_length, with -1 for lengths that cannot be written. */
  function Length(l: int): (n: int)
    ensures n == -1 || 1 <= n <= 3
    ensures n == -1 <==> !(0 <= l <= MAX_LENGTH)
  {
    if l < 0 then -1
    else if l < 250 then 1
    else if l < 255 + 250 + 256 * 4 then 2
    else if l <= MAX_LENGTH then 3
    else -1
  }

  function Encode(l: nat): (e: seq<byte>)
    requires l <= MAX_LENGTH
    ensures |e| == Length(l)
  {
    if l < 250 then [l]
    else if l < 255 + 250 + 256 * 4 then [RFS_PLUS250 + (l - 250) / 256, (l - 250) % 256]
    else [RFS_3BYTE, l / 256, l % 256]
  }

  /** rfs_decode reads up to three octets and does not look at any limit. */
  function Decode(mem: seq<byte>, ofs: nat): (r: (nat, nat))
    requires ofs + 3 <= |mem|
    ensures ofs < r.1 <= ofs + 3 && r.0 <= MAX_LENGTH
  {
    var rfs := mem[ofs];
    if RFS_PLUS250 <= rfs < RFS_3BYTE then (250 + 256 * (rfs - RFS_PLUS250) + mem[ofs + 1], ofs + 2)
    else if rfs == RFS_3BYTE then (256 * (mem[ofs + 1] as int) + mem[ofs + 2], ofs + 3)
    else (rfs, ofs + 1)
  }

  /** Every length reads back, whatever follows the field. */
  lemma DecodeEncoded(mem: seq<byte>, ofs: nat, l: nat)
    requires l <= MAX_LENGTH && ofs + 3 <= |mem| && Encode(l) <= mem[ofs..]
    ensures Decode(mem, ofs) == (l, ofs + |Encode(l)|)
  {
  }

  /** A body written behind its own length is found again, whole, by reading the
      length first. */
  lemma FieldFindsBody(before: seq<byte>, body: seq<byte>, after: seq<byte>)
    requires |body| <= MAX_LENGTH && |after| >= 2
    ensures var mem, (l, start) := before + Encode(|body|) + body + after,
                                   Decode(before + Encode(|body|) + body + after, |before|);
      l == |body| && start == |before| + |Encode(|body|)| && mem[start..start + l] == body
  {
  }
}

/** The growable, size-limited buffer of overlay_buffer.c. */
module OverlayBuffers {
  import opened Bytes
  import Rfs

  const UNLIMITED := -1
  const COMPUTE_RFS_LENGTH := -1

  function Align(n: nat, unit: nat): (r: nat)
    requires unit > 0
    ensures n <= r < n + unit
  {
    if n % unit != 0 then n + unit - n % unit else n
  }

  /** The allocation size chosen for at least `need` octets. */
  function RoundUp(need: nat): (size: nat)
    ensures size >= need && size >= 64
  {
    var a := Align(if need < 64 then 64 else need, 64);
    var b := if a > 1024 then Align(a, 1024) else a;
    if b > 65536 then Align(b, 65536) else b
  }

  /** Allocations are multiples of 64 octets, above 1024 of 1024 and above 65536 of 65536, and
      no larger than they have to be. */
  lemma RoundsUp(need: nat)
    ensures var size := RoundUp(need);
      var unit := if need <= 1024 then 64 else if need <= 65536 then 1024 else 65536;
      size % unit == 0 && size >= need && (size < need + unit || (need == 0 && size == 64))
  {
    if need > 0 {
      var a := Align(if need < 64 then 64 else need, 64);
      Aligned(if need < 64 then 64 else need, 64);
      Nested(need, a, 64, 1024);
      if a > 1024 {
        var b := Align(a, 1024);
        Aligned(a, 1024);
        Nested(need, b, 1024, 65536);
        Aligned(b, 65536);
        hide Align;
      }
    }
  }

  lemma Aligned(n: nat, unit: nat)
    requires unit in {64, 1024, 65536}
    ensures Align(n, unit) % unit == 0
  {
  }

  /** Between a number and the multiple of a unit above it there is no multiple of a larger unit
      that it divides. */
  lemma Nested(need: nat, a: nat, unit: nat, larger: nat)
    requires (unit, larger) in {(64, 1024), (1024, 65536)} && a % unit == 0 && need <= a < need + unit
    ensures need <= larger <==> a <= larger
    ensures Align(a, larger) < need + larger
  {
  }

  /** Unsigned integers are written most significant octet first. */
  function Ui16(v: nat): (s: seq<byte>)
    requires v < 0x1_0000
  {
    [v / 0x100, v % 0x100]
  }

  function Ui32(v: nat): (s: seq<byte>)
    requires v < 0x1_0000_0000
    ensures |s| == 4
  {
    [v / 0x100_0000, v / 0x1_0000 % 0x100, v / 0x100 % 0x100, v % 0x100]
  }

  /** bcopy: overwrite part of an array. */
  method Copy(dst: array<byte>, at: nat, data: seq<byte>)
    requires at + |data| <= dst.Length
    modifies dst
    ensures dst[..] == old(dst[..at]) + data + old(dst[at + |data|..])
  {
    for i := 0 to |data|
      invariant dst[..at] == old(dst[..at]) && dst[at + i..] == old(dst[at + i..])
      invariant dst[at..at + i] == data[..i]
    {
      dst[at + i] := data[i];
    }
  }

  class OverlayBuffer {
    var bytes: array?<byte>
    var checkpointLength: nat
    var position: nat
    var sizeLimit: int
    var owned: bool
    var varLengthOffset: nat
    var varLengthBytes: nat

    function AllocSize(): nat
      reads this
    {
      if bytes == null then 0 else bytes.Length
    }

    /** Neither what is written nor what a rewind restores lies beyond the
        allocation or the size limit. */
    predicate Valid()
      reads this
    {
      && position <= AllocSize() && checkpointLength <= AllocSize()
      && (sizeLimit != UNLIMITED ==> position <= sizeLimit && checkpointLength <= sizeLimit)
      && (bytes == null ==> !owned)
    }

    function Contents(): (s: seq<byte>)
      requires Valid()
      reads this, bytes
    {
      if bytes == null then [] else bytes[..position]
    }

    /** Whether `count` more octets may be written here. */
    predicate HasRoom(count: nat)
      reads this
    {
      && (sizeLimit != UNLIMITED ==> position + count <= sizeLimit)
      && (position + count < AllocSize() || bytes == null || owned)
    }

    /** The octets stay where they were or move to a buffer of our own, which
        memory of the caller never does. */
    twostate predicate SameOrMoved()
      reads this
    {
      if bytes == old(bytes) then owned == old(owned)
      else fresh(bytes) && owned && (old(bytes) == null || old(owned))
    }

    /** ob_new. */
    constructor ()
      ensures Valid() && bytes == null && position == 0 && checkpointLength == 0 && sizeLimit == UNLIMITED
      ensures varLengthOffset == 0 && varLengthBytes == 0
    {
      bytes, checkpointLength, position, sizeLimit := null, 0, 0, UNLIMITED;
      owned, varLengthOffset, varLengthBytes := false, 0, 0;
    }

    /** ob_static: write into memory owned by the caller. */
    constructor Static(memory: array<byte>)
      ensures Valid() && bytes == memory && !owned && position == 0 && checkpointLength == 0
      ensures sizeLimit == UNLIMITED
    {
      bytes, checkpointLength, position, sizeLimit := memory, 0, 0, UNLIMITED;
      owned, varLengthOffset, varLengthBytes := false, 0, 0;
    }

    method Checkpoint()
      requires Valid()
      modifies this`checkpointLength
      ensures Valid() && checkpointLength == position
    {
      checkpointLength := position;
    }

    method Rewind()
      requires Valid()
      modifies this`position
      ensures Valid() && position == checkpointLength
    {
      position := checkpointLength;
    }

    /** ob_limitsize refuses a limit that the buffer could not honour. */
    method LimitSize(limit: int) returns (ok: bool)
      requires Valid()
      modifies this`sizeLimit
      ensures Valid()
      ensures ok <==> position <= limit && checkpointLength <= limit
                      && (bytes == null || owned || limit <= AllocSize())
      ensures sizeLimit == if ok then limit else old(sizeLimit)
    {
      ok := position <= limit && checkpointLength <= limit
            && !(bytes != null && !owned && limit > AllocSize()) && limit >= 0;
      if ok {
        sizeLimit := limit;
      }
    }

    /** ob_makespace: on success the octets fit, and moving to a larger
        allocation keeps everything written so far. */
    method MakeSpace(count: nat) returns (ok: bool)
      requires Valid()
      modifies this`bytes, this`owned
      ensures Valid() && ok == old(HasRoom(count))
      ensures ok <==>
        && (sizeLimit == -1 || position + count <= sizeLimit)
        && (old(bytes) == null || old(owned) || position + count < old(bytes).Length)
      ensures bytes != old(bytes) ==> bytes != null && bytes.Length == RoundUp(position + count)
      ensures bytes != old(bytes) <==> ok && (old(bytes) == null || position + count >= old(bytes).Length)
      ensures !ok ==> bytes == old(bytes) && owned == old(owned)
      ensures ok ==> bytes != null && position + count <= AllocSize()
      ensures Contents() == old(Contents())
      ensures SameOrMoved()
      ensures forall i :: 0 <= i < old(position) ==> bytes != null && bytes[i] == old(bytes[i])
    {
      if sizeLimit != UNLIMITED && position + count > sizeLimit {
        return false;
      }
      if position + count < AllocSize() {
        return true;
      }
      if bytes != null && !owned {
        return false;
      }
      var newSize := RoundUp(position + count);
      var larger := new byte[newSize];
      Copy(larger, 0, if bytes == null then [] else bytes[..position]);
      bytes := larger;
      owned := true;
      ok := true;
    }

    /** ob_append_bytes; ob_append_byte is the case of one octet. */
    method AppendBytes(data: seq<byte>) returns (ok: bool)
      requires Valid()
      modifies this`bytes, this`owned, this`position, bytes
      ensures Valid() && ok == old(HasRoom(|data|))
      ensures Contents() == if ok then old(Contents()) + data else old(Contents())
      ensures !ok ==> position == old(position) && bytes == old(bytes) && owned == old(owned)
      ensures SameOrMoved()
    {
      ok := MakeSpace(|data|);
      if ok {
        Copy(bytes, position, data);
        position := position + |data|;
      }
    }

    method AppendUi16(v: nat) returns (ok: bool)
      requires Valid() && v < 0x1_0000
      modifies this`bytes, this`owned, this`position, bytes
      ensures Valid() && ok == old(HasRoom(2)) && SameOrMoved()
      ensures Contents() == if ok then old(Contents()) + Ui16(v) else old(Contents())
    {
      ok := AppendBytes(Ui16(v));
    }

    method AppendUi32(v: nat) returns (ok: bool)
      requires Valid() && v < 0x1_0000_0000
      modifies this`bytes, this`owned, this`position, bytes
      ensures Valid() && ok == old(HasRoom(4)) && SameOrMoved()
      ensures Contents() == if ok then old(Contents()) + Ui32(v) else old(Contents())
    {
      ok := AppendBytes(Ui32(v));
    }

    /** ob_append_rfs: a length field wide enough for `l`. */
    method AppendRfs(l: int) returns (ok: bool)
      requires Valid()
      modifies this`bytes, this`owned, this`position, this`varLengthOffset, this`varLengthBytes, bytes
      ensures Valid()
      ensures ok <==> 0 <= l <= Rfs.MAX_LENGTH && old(HasRoom(Rfs.Length(l)))
      ensures Contents() == if ok then old(Contents()) + Rfs.Encode(l) else old(Contents())
      ensures ok ==> varLengthOffset == old(position) && varLengthBytes == Rfs.Length(l)
      ensures Rfs.Length(l) == -1 ==> varLengthOffset == old(varLengthOffset) && varLengthBytes == old(varLengthBytes)
      ensures SameOrMoved()
    {
      if l < 0 || l > Rfs.MAX_LENGTH {
        return false;
      }
      varLengthOffset := position;
      varLengthBytes := Rfs.Length(l);
      ghost var written := Contents();
      ok := AppendBytes([0, 0, 0][..varLengthBytes]);
      if !ok {
        varLengthOffset := 0;
        return false;
      }
      assert Contents()[..varLengthOffset] == written;
      ok := PatchRfs(l);
    }

    /** Replace octets that have been written before. */
    method Overwrite(at: nat, data: seq<byte>)
      requires Valid() && bytes != null && at + |data| <= position
      modifies bytes
      ensures Contents() == old(Contents()[..at]) + data + old(Contents()[at + |data|..])
    {
      Copy(bytes, at, data);
    }

    /** ob_patch_rfs: rewrite the length field in front of what has been written
        since, widening or narrowing it as needed. */
    method PatchRfs(l: int) returns (ok: bool)
      requires Valid() && varLengthOffset + varLengthBytes <= position && bytes != null
      modifies this`bytes, this`owned, this`position, bytes
      ensures Valid()
      ensures var len := old(PatchLength(l)); ok == old(Patchable(len))
      ensures var len := old(PatchLength(l));
        Contents() == if ok then old(Contents()[..varLengthOffset]) + Rfs.Encode(len)
                                 + old(Contents()[varLengthOffset + varLengthBytes..])
                      else old(Contents())
      ensures SameOrMoved()
      ensures var body := old(position) - varLengthOffset - varLengthBytes;
        var len := if l == -1 then body else l;
        var wider := Rfs.Length(len) - varLengthBytes;
        ok <==> && 0 <= len <= 0xffff && (wider != 0 ==> body > 0)
                && (wider > 0 ==> && (sizeLimit == -1 || old(position) + wider <= sizeLimit)
                                  && (old(owned) || old(position) + wider < old(bytes).Length))
    {
      hide Rfs.Encode;
      var len := PatchLength(l);
      if len < 0 || len > Rfs.MAX_LENGTH {
        return false;
      }
      var field := Rfs.Encode(len);
      hide Rfs.Length;
      ghost var before := Contents();
      ok := Widen(|field|);
      if ok {
        ghost var head, tail := before[..varLengthOffset], before[varLengthOffset + varLengthBytes..];
        assert Contents()[..varLengthOffset] == head && Contents()[varLengthOffset + |field|..] == tail;
        Overwrite(varLengthOffset, field);
      }
    }

    /** Make the length field that wide. */
    method Widen(newSize: nat) returns (ok: bool)
      requires Valid() && varLengthOffset + varLengthBytes <= position && bytes != null
      modifies this`bytes, this`owned, this`position, bytes
      ensures Valid() && bytes != null && SameOrMoved()
      ensures var body := varLengthOffset + varLengthBytes;
        var wider := newSize - varLengthBytes;
        ok <==> && (wider != 0 ==> body < old(position))
                && (wider > 0 ==> && (sizeLimit == -1 || old(position) + wider <= sizeLimit)
                                  && (old(owned) || old(position) + wider < old(bytes).Length))
      ensures !ok ==> Contents() == old(Contents())
      ensures ok ==>
        && |Contents()| == |old(Contents())| + newSize - varLengthBytes >= varLengthOffset + newSize
        && Contents()[..varLengthOffset] == old(Contents())[..varLengthOffset]
        && Contents()[varLengthOffset + newSize..] == old(Contents())[varLengthOffset + varLengthBytes..]
    {
      ghost var before := Contents();
      var body := varLengthOffset + varLengthBytes;
      var shift := newSize - varLengthBytes;
      ok := true;
      if shift != 0 {
        ok := IndelSpace(body, shift);
        ghost var after := Contents();
        assert ok ==> after[..varLengthOffset] == before[..varLengthOffset];
        assert ok ==> after[varLengthOffset + newSize..] == before[body..];
      }
    }

    /** The length a patch writes: as asked, or whatever follows the field. */
    function PatchLength(l: int): int
      reads this
    {
      if l == COMPUTE_RFS_LENGTH then position - (varLengthOffset + varLengthBytes) else l
    }

    /** A field keeps its width, or the body is not empty and the wider field
        fits. */
    predicate Patchable(len: int)
      reads this
    {
      && 0 <= len <= Rfs.MAX_LENGTH
      && (Rfs.Length(len) != varLengthBytes ==> varLengthOffset + varLengthBytes < position)
      && (Rfs.Length(len) > varLengthBytes ==> HasRoom(Rfs.Length(len) - varLengthBytes))
    }

    /** ob_indel_space: move everything from `offset` on by `shift` octets. */
    method IndelSpace(offset: nat, shift: int) returns (ok: bool)
      requires Valid() && 0 <= offset + shift
      modifies this`bytes, this`owned, this`position, bytes
      ensures Valid()
      ensures ok <==> offset < old(position) && (shift > 0 ==> old(HasRoom(shift)))
      ensures !ok ==> Contents() == old(Contents()) && bytes == old(bytes) && owned == old(owned)
      ensures position == old(position) + if ok then shift else 0
      ensures ok ==> Contents()[offset + shift..] == old(Contents()[offset..])
      ensures ok ==> forall i :: 0 <= i < offset && i < offset + shift ==> Contents()[i] == old(Contents()[i])
      ensures SameOrMoved()
    {
      if offset >= position {
        return false;
      }
      if shift > 0 {
        var fits := MakeSpace(shift);
        if !fits {
          return false;
        }
      }
      ghost var before := Contents();
      Copy(bytes, offset + shift, bytes[offset..position]);
      position := position + shift;
      ok := true;
    }
  }
}
