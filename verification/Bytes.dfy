/** Octets and nibbles, shared by every component. */
module Bytes {

  type byte = x: int | 0 <= x < 0x100

  type Nibble = x: int | 0 <= x < 0x10

  /** Half an octet: position 2k is the high nibble of octet k (get_nibble). */
  function GetNibble(s: seq<byte>, pos: nat): Nibble
    requires pos < 2 * |s|
  {
    if pos % 2 == 0 then s[pos / 2] / 16 else s[pos / 2] % 16
  }

  function Nibbles(s: seq<byte>): (n: seq<Nibble>)
    ensures |n| == 2 * |s|
    ensures forall i :: 0 <= i < |n| ==> n[i] == GetNibble(s, i)
  {
    seq(2 * |s|, i requires 0 <= i < 2 * |s| => GetNibble(s, i))
  }

  /** Comparing whole octets is the same as comparing their nibbles. */
  lemma PrefixOfNibbles(a: seq<byte>, b: seq<byte>)
    requires |a| <= |b|
    ensures a <= b <==> Nibbles(a) <= Nibbles(b)
  {
    var na, nb := Nibbles(a), Nibbles(b);
    if na <= nb {
      forall i | 0 <= i < |a|
        ensures a[i] == b[i]
      {
        assert na[2 * i] == nb[2 * i] && na[2 * i + 1] == nb[2 * i + 1];
      }
    }
    if a <= b {
      forall i | 0 <= i < |na|
        ensures na[i] == nb[i]
      {
        assert a[i / 2] == b[i / 2];
      }
    }
  }
}
