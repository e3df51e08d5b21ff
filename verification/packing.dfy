/** Packing of a character position into a `uint64` and back, through the 8-byte big-endian
    buffer of `encoding/binary` (`Uint64`, cipher/cipher.go:29-41; `FromBase77`,
    cipher/cipher.go:113-128; `toUint64`, main.go:67-79). */
module Packing {
  import opened Types
  import Arith

  /** One element of the `[]byte` buffer the packing goes through. */
  type octet = n: nat | n < 256

  const Pow16: nat := 0x1_0000
  const Pow32: nat := 0x1_0000_0000
  const Pow48: nat := 0x1_0000_0000_0000

  /** `binary.BigEndian.PutUint16`: high byte first. */
  function PutUint16(v: u16): (b: seq<octet>)
    ensures |b| == 2
  {
    [v / 256, v % 256]
  }

  /** `binary.BigEndian.Uint16` on the first two bytes. */
  function GetUint16(b: seq<octet>): u16
    requires |b| >= 2
  {
    b[0] as nat * 256 + b[1]
  }

  /** `binary.BigEndian.PutUint64`: most significant byte first. */
  function PutUint64(v: u64): (b: seq<octet>)
    ensures |b| == 8
  {
    [ v / 0x100_0000_0000_0000 % 256, v / 0x1_0000_0000_0000 % 256,
      v / 0x100_0000_0000 % 256, v / 0x1_0000_0000 % 256,
      v / 0x100_0000 % 256, v / 0x1_0000 % 256,
      v / 0x100 % 256, v % 256 ]
  }

  /** `binary.BigEndian.Uint64` on the first eight bytes. */
  function GetUint64(b: seq<octet>): u64
    requires |b| >= 8
  {
    b[0] as nat * 0x100_0000_0000_0000 + b[1] as nat * 0x1_0000_0000_0000
    + b[2] as nat * 0x100_0000_0000 + b[3] as nat * 0x1_0000_0000 + b[4] as nat * 0x100_0000
    + b[5] as nat * 0x1_0000 + b[6] as nat * 0x100 + b[7]
  }

  /** `(*EncodedReference).Uint64`: Url, CharIndex, Level and Index written as four big-endian
      16-bit fields of one buffer, which is then read as a single `uint64`. A nil receiver packs
      to 0. The result places Url in bits 48-63, CharIndex in 32-47, Level in 16-31, Index in 0-15. */
  function Uint64(e: Option<EncodedReference>): (v: u64)
    ensures e.None? ==> v == 0
    ensures e.Some? ==>
      v == e.value.reference.url * Pow48 + e.value.charIndex * Pow32
           + e.value.reference.level * Pow16 + e.value.reference.index
  {
    match e
    case None => 0
    case Some(enc) =>
      GetUint64(PutUint16(enc.reference.url) + PutUint16(enc.charIndex)
                + PutUint16(enc.reference.level) + PutUint16(enc.reference.index))
  }

  /** The part of `FromBase77` after the digits are read: the value is written into a big-endian
      buffer and its four 16-bit fields are read back. The text of the reference is empty and
      `Ch` is the zero byte, as in the composite literal of the source. */
  function FromUint64(v: u64): (e: EncodedReference)
    ensures e.reference.url == v / Pow48
    ensures e.charIndex == v / Pow32 % Pow16
    ensures e.reference.level == v / Pow16 % Pow16
    ensures e.reference.index == v % Pow16
    ensures e.reference.text == [] && e.ch == 0 as char
  {
    var buf := PutUint64(v);
    TopField(v); FieldAt(v, Pow32); FieldAt(v, Pow16); BottomField(v);
    EncodedReference(
      GetUint16(buf[2..]), 0 as char,
      PageReference([], GetUint16(buf[4..]), GetUint16(buf[6..]), GetUint16(buf)))
  }

  /** Reading the two bytes at a 16-bit field boundary `shift` of the big-endian buffer gives the
      16-bit field of `v` that starts at bit position log2(shift). */
  lemma FieldAt(v: u64, shift: nat)
    requires shift in {Pow16, Pow32}
    ensures (v / (shift * 256) % 256) * 256 + v / shift % 256 == v / shift % Pow16
  {
    Arith.DivDiv(v, shift, 256);
    Arith.DivDiv(v / shift, 256, 256);
  }

  /** The first two bytes of the buffer hold the top 16 bits, which are all of `v / 2^48`. */
  lemma TopField(v: u64)
    ensures (v / 0x100_0000_0000_0000 % 256) * 256 + v / Pow48 % 256 == v / Pow48
  {
    Arith.DivDiv(v, Pow48, 256);
    Arith.DivDiv(v / Pow48, 256, 256);
    Arith.DivBelow(v, Pow48 * Pow16);
    Arith.DivDiv(v, Pow48, Pow16);
    Arith.DivBelow(v / Pow48, Pow16);
  }

  /** The last two bytes of the buffer hold the low 16 bits. */
  lemma BottomField(v: u64)
    ensures (v / 256 % 256) * 256 + v % 256 == v % Pow16
  {
    Arith.DivDiv(v, 256, 256);
  }

  /** Unpacking a packed position restores all four fields: CharIndex and the (Index, Url, Level)
      identity of the text node. */
  lemma UnpackPack(e: EncodedReference)
    ensures FromUint64(Uint64(Some(e))).charIndex == e.charIndex
    ensures SameNode(FromUint64(Uint64(Some(e))).reference, e.reference)
  {
    var r := e.reference;
    var v := Uint64(Some(e));
    Arith.DivModUnique(v, Pow48, r.url, e.charIndex * Pow32 + r.level * Pow16 + r.index);
    Arith.DivModUnique(v, Pow32, r.url * Pow16 + e.charIndex, r.level * Pow16 + r.index);
    Arith.DivModUnique(v / Pow32, Pow16, r.url, e.charIndex);
    Arith.DivModUnique(v, Pow16, r.url * Pow32 + e.charIndex * Pow16 + r.level, r.index);
    Arith.DivModUnique(v / Pow16, Pow16, r.url * Pow16 + e.charIndex, r.level);
  }

  /** Every `uint64` is the packing of the fields it unpacks to, so packing is a bijection
      between four 16-bit fields and 64-bit values. */
  lemma PackUnpack(v: u64)
    ensures Uint64(Some(FromUint64(v))) == v
  {
    Arith.DivDiv(v, Pow16, Pow16);
    Arith.DivDiv(v, Pow32, Pow16);
    var x := v / Pow16;
    var y := v / Pow32;
    assert v == x * Pow16 + v % Pow16;
    assert x == y * Pow16 + x % Pow16;
    assert y == v / Pow48 * Pow16 + y % Pow16;
  }
}
