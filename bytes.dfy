/** Machine integers, fixed-size byte arrays and the little-endian
    conversions (`u16::from_le_bytes`, `u32::from_le_bytes`) the report
    decoders use. */
module Bytes {

  newtype u8 = x: int | 0 <= x < 0x100
  newtype u16 = x: int | 0 <= x < 0x1_0000
  newtype u32 = x: int | 0 <= x < 0x1_0000_0000

  // The fixed-size arrays `[u8; N]` of the report structures.
  type Bytes16 = s: seq<u8> | |s| == 16 witness seq(16, _ => 0)
  type Bytes20 = s: seq<u8> | |s| == 20 witness seq(20, _ => 0)
  type Bytes28 = s: seq<u8> | |s| == 28 witness seq(28, _ => 0)
  type Bytes32 = s: seq<u8> | |s| == 32 witness seq(32, _ => 0)
  type Bytes60 = s: seq<u8> | |s| == 60 witness seq(60, _ => 0)
  type Bytes64 = s: seq<u8> | |s| == 64 witness seq(64, _ => 0)
  type Bytes96 = s: seq<u8> | |s| == 96 witness seq(96, _ => 0)

  /** 256 to the power n: the number of values n bytes can hold. */
  function Pow256(n: nat): (r: nat)
    ensures r > 0
  {
    if n == 0 then 1 else 0x100 * Pow256(n - 1)
  }

  /** The unsigned number whose little-endian encoding is s (least
      significant byte first). */
  function LittleEndian(s: seq<u8>): (r: nat)
    ensures r < Pow256(|s|)
  {
    if s == [] then 0 else s[0] as nat + 0x100 * LittleEndian(s[1..])
  }

  /** The n-byte little-endian encoding of x. */
  function ToLittleEndian(x: nat, n: nat): (s: seq<u8>)
    requires x < Pow256(n)
    ensures |s| == n
  {
    if n == 0 then [] else [(x % 0x100) as u8] + ToLittleEndian(x / 0x100, n - 1)
  }

  /** Encoding and then decoding gives the number back. */
  lemma {:induction false} LittleEndianOfEncoding(x: nat, n: nat)
    requires x < Pow256(n)
    ensures LittleEndian(ToLittleEndian(x, n)) == x
  {
    if n > 0 {
      var s := ToLittleEndian(x, n);
      assert s[1..] == ToLittleEndian(x / 0x100, n - 1);
      LittleEndianOfEncoding(x / 0x100, n - 1);
    }
  }

  /** Decoding and then re-encoding at the same width gives the bytes back. */
  lemma {:induction false} EncodingOfLittleEndian(s: seq<u8>)
    ensures ToLittleEndian(LittleEndian(s), |s|) == s
  {
    if s != [] {
      var x := LittleEndian(s);
      var rest := LittleEndian(s[1..]);
      assert x % 0x100 == s[0] as nat && x / 0x100 == rest;
      EncodingOfLittleEndian(s[1..]);
    }
  }

  /** `u16::from_le_bytes`. */
  function LE16(s: seq<u8>): u16
    requires |s| == 2
  {
    assert Pow256(2) == 0x1_0000;
    LittleEndian(s) as u16
  }

  /** `u32::from_le_bytes`. */
  function LE32(s: seq<u8>): u32
    requires |s| == 4
  {
    assert Pow256(4) == 0x1_0000_0000;
    LittleEndian(s) as u32
  }

  /** LE16 reads the first byte as the low one. */
  lemma LE16Bytes(s: seq<u8>)
    requires |s| == 2
    ensures LE16(s) as int == s[0] as int + 0x100 * s[1] as int
  {
    assert LittleEndian(s[1..]) == s[1] as nat + 0x100 * LittleEndian(s[2..]);
    assert s[2..] == [];
  }

  /** LE32 reads the bytes from the lowest to the highest. */
  lemma LE32Bytes(s: seq<u8>)
    requires |s| == 4
    ensures LE32(s) as int == s[0] as int + 0x100 * s[1] as int
                            + 0x1_0000 * s[2] as int + 0x100_0000 * s[3] as int
  {
    assert LittleEndian(s[1..]) == s[1] as nat + 0x100 * LittleEndian(s[2..]);
    assert LittleEndian(s[2..]) == s[2] as nat + 0x100 * LittleEndian(s[3..]);
    assert LittleEndian(s[3..]) == s[3] as nat + 0x100 * LittleEndian(s[4..]);
    assert s[4..] == [];
  }

  /** `u16::to_le_bytes`, the inverse of LE16. */
  function EncodeLE16(x: u16): (s: seq<u8>)
    ensures |s| == 2 && LE16(s) == x
  {
    assert Pow256(2) == 0x1_0000;
    LittleEndianOfEncoding(x as nat, 2);
    ToLittleEndian(x as nat, 2)
  }

  /** `u32::to_le_bytes`, the inverse of LE32. */
  function EncodeLE32(x: u32): (s: seq<u8>)
    ensures |s| == 4 && LE32(s) == x
  {
    assert Pow256(4) == 0x1_0000_0000;
    LittleEndianOfEncoding(x as nat, 4);
    ToLittleEndian(x as nat, 4)
  }

  /** Two bytes are determined by the u16 they encode. */
  lemma EncodeLE16OfLE16(s: seq<u8>)
    requires |s| == 2
    ensures EncodeLE16(LE16(s)) == s
  {
    EncodingOfLittleEndian(s);
  }

  /** Four bytes are determined by the u32 they encode. */
  lemma EncodeLE32OfLE32(s: seq<u8>)
    requires |s| == 4
    ensures EncodeLE32(LE32(s)) == s
  {
    EncodingOfLittleEndian(s);
  }
}
