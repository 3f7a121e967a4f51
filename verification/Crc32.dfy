/**
 The checksum of a packed stage: table-driven by nibbles in the packer (crc32_nibble in
 tools/limlzpack.c), bit by bit in the decompressor (stage1/decompressor.asm).
 */
module Crc32 {

  const POLY: bv32 := 0xEDB8_8320

  /** One shift of the reflected CRC-32 (section 8 of RFC 1952). */
  function BitStep(c: bv32): bv32 {
    (c >> 1) ^ if c & 1 == 1 then POLY else 0
  }

  function FourBits(c: bv32): bv32 {
    BitStep(BitStep(BitStep(BitStep(c))))
  }

  /** One byte, bit by bit. */
  function ByteStep(c: bv32, b: bv8): bv32 {
    FourBits(FourBits(c ^ (b as bv32)))
  }

  /** The table of the packer. */
  function Table(n: bv32): bv32 {
    if n == 0 then 0x0000_0000 else if n == 1 then 0x1DB7_1064 else if n == 2 then 0x3B6E_20C8
    else if n == 3 then 0x26D9_30AC else if n == 4 then 0x76DC_4190 else if n == 5 then 0x6B6B_51F4
    else if n == 6 then 0x4DB2_6158 else if n == 7 then 0x5005_713C else if n == 8 then 0xEDB8_8320
    else if n == 9 then 0xF00F_9344 else if n == 10 then 0xD6D6_A3E8 else if n == 11 then 0xCB61_B38C
    else if n == 12 then 0x9B64_C2B0 else if n == 13 then 0x86D3_D2D4 else if n == 14 then 0xA00A_E278
    else 0xBDBD_F21C
  }

  function NibbleStep(c: bv32): bv32 {
    (c >> 4) ^ Table(c & 0xF)
  }

  /** Every entry of the table is right, one entry at a time. */
  lemma NibbleIsFourBits(c: bv32)
    ensures NibbleStep(c) == FourBits(c)
  {
    assert c & 0xF == 0 ==> NibbleStep(c) == FourBits(c);
    assert c & 0xF == 1 ==> NibbleStep(c) == FourBits(c);
    assert c & 0xF == 2 ==> NibbleStep(c) == FourBits(c);
    assert c & 0xF == 3 ==> NibbleStep(c) == FourBits(c);
    assert c & 0xF == 4 ==> NibbleStep(c) == FourBits(c);
    assert c & 0xF == 5 ==> NibbleStep(c) == FourBits(c);
    assert c & 0xF == 6 ==> NibbleStep(c) == FourBits(c);
    assert c & 0xF == 7 ==> NibbleStep(c) == FourBits(c);
    assert c & 0xF == 8 ==> NibbleStep(c) == FourBits(c);
    assert c & 0xF == 9 ==> NibbleStep(c) == FourBits(c);
    assert c & 0xF == 10 ==> NibbleStep(c) == FourBits(c);
    assert c & 0xF == 11 ==> NibbleStep(c) == FourBits(c);
    assert c & 0xF == 12 ==> NibbleStep(c) == FourBits(c);
    assert c & 0xF == 13 ==> NibbleStep(c) == FourBits(c);
    assert c & 0xF == 14 ==> NibbleStep(c) == FourBits(c);
    assert c & 0xF == 15 ==> NibbleStep(c) == FourBits(c);
  }

  /** The register after all bytes, given what one byte does to it. */
  function Fold(step: (bv32, bv8) -> bv32, data: seq<bv8>, c: bv32): bv32 {
    if data == [] then c else step(Fold(step, data[..|data| - 1], c), data[|data| - 1])
  }

  /** The bit-by-bit checksum. */
  function Checksum(data: seq<bv8>): bv32 {
    !Fold(ByteStep, data, 0xFFFF_FFFF)
  }

  /** Two table steps are one byte. */
  method NibbleTwice(c: bv32, b: bv8) returns (r: bv32)
    ensures r == ByteStep(c, b)
  {
    var x := c ^ (b as bv32);
    NibbleIsFourBits(x);
    NibbleIsFourBits(NibbleStep(x));
    r := NibbleStep(NibbleStep(x));
  }

  lemma {:induction false} FoldNext(step: (bv32, bv8) -> bv32, data: seq<bv8>, i: nat, c: bv32)
    requires i < |data|
    ensures Fold(step, data[..i + 1], c) == step(Fold(step, data[..i], c), data[i])
  {
    assert data[..i + 1][..i] == data[..i];
  }

  /** The bytes of a word, lowest first. */
  function BytesOf(w: bv32): (r: seq<bv8>)
    ensures |r| == 4
  {
    [(w & 0xFF) as bv8, ((w >> 8) & 0xFF) as bv8, ((w >> 16) & 0xFF) as bv8, (w >> 24) as bv8]
  }

  /** A register that meets its own complement loses a byte to a constant, four times. */
  lemma {:induction false} FirstMeets(c: bv32)
    ensures ByteStep(c, (!c & 0xFF) as bv8) == (c >> 8) ^ 0x2D02_EF8D
  {
  }

  lemma {:induction false} SecondMeets(c: bv32)
    ensures ByteStep((c >> 8) ^ 0x2D02_EF8D, ((!c >> 8) & 0xFF) as bv8) == (c >> 16) ^ 0xBE26_12FF
  {
  }

  lemma {:induction false} ThirdMeets(c: bv32)
    ensures ByteStep((c >> 16) ^ 0xBE26_12FF, ((!c >> 16) & 0xFF) as bv8) == (c >> 24) ^ 0x00BE_2612
  {
  }

  lemma {:induction false} FourthMeets(c: bv32)
    ensures ByteStep((c >> 24) ^ 0x00BE_2612, (!c >> 24) as bv8) == 0xDEBB_20E3
  {
  }

  lemma {:induction false} FoldSplit(step: (bv32, bv8) -> bv32, data: seq<bv8>, tail: seq<bv8>, c: bv32)
    ensures Fold(step, data + tail, c) == Fold(step, tail, Fold(step, data, c))
    decreases |tail|
  {
    var n := |tail| - 1;
    if tail == [] {
      assert data + tail == data;
    } else {
      FoldSplit(step, data, tail[..n], c);
      assert (data + tail)[..|data| + n] == data + tail[..n];
    }
  }

  /** The registers on the way give the fold. */
  lemma {:induction false} FoldRegisters(step: (bv32, bv8) -> bv32, data: seq<bv8>, regs: seq<bv32>)
    requires |regs| == |data| + 1 && forall i :: 0 <= i < |data| ==> step(regs[i], data[i]) == regs[i + 1]
    ensures Fold(step, data, regs[0]) == regs[|data|]
    decreases |data|
  {
    if data != [] {
      FoldRegisters(step, data[..|data| - 1], regs[..|data|]);
    }
  }

  /** The digits from 1 to 9. */
  const NINE: seq<bv8> := [0x31, 0x32, 0x33, 0x34, 0x35, 0x36, 0x37, 0x38, 0x39]

  /** The register before each of them and after the last. */
  const REGISTERS: seq<bv32> := [0xFFFF_FFFF, 0x7C23_1048, 0xB0AC_BB32, 0x77B7_9C2D, 0x641C_1F5C, 0x340A_C5E3,
                                 0xF68D_2C9E, 0xAFFC_9660, 0x651F_2550, 0x340B_C6D9]

  lemma {:induction false} CheckRegister(i: nat)
    requires i < 9
    ensures ByteStep(REGISTERS[i], NINE[i]) == REGISTERS[i + 1]
  {
    match i
    case 0 =>
    case 1 =>
    case 2 =>
    case 3 =>
    case 4 =>
    case 5 =>
    case 6 =>
    case 7 =>
    case _ =>
  }

  /** The check value of CRC-32: the checksum of the digits from 1 to 9. */
  lemma {:induction false} CheckValue()
    ensures Checksum([0x31, 0x32, 0x33, 0x34, 0x35, 0x36, 0x37, 0x38, 0x39]) == 0xCBF4_3926
  {
    forall i: nat | i < 9 ensures ByteStep(REGISTERS[i], NINE[i]) == REGISTERS[i + 1] {
      CheckRegister(i);
    }
    FoldRegisters(ByteStep, NINE, REGISTERS);
  }

  lemma {:induction false} AllMeet(c: bv32)
    ensures Fold(ByteStep, BytesOf(!c), c) == 0xDEBB_20E3
  {
    var tail := BytesOf(!c);
    var regs := [c, (c >> 8) ^ 0x2D02_EF8D, (c >> 16) ^ 0xBE26_12FF, (c >> 24) ^ 0x00BE_2612, 0xDEBB_20E3];
    forall i | 0 <= i < 4 ensures ByteStep(regs[i], tail[i]) == regs[i + 1] {
      match i
      case 0 => FirstMeets(c);
      case 1 => SecondMeets(c);
      case 2 => ThirdMeets(c);
      case _ => FourthMeets(c);
    }
    FoldRegisters(ByteStep, tail, regs);
  }

  /** The residue of CRC-32: data followed by their checksum always have the same checksum. */
  lemma {:induction false} Residue(data: seq<bv8>)
    ensures Checksum(data + BytesOf(Checksum(data))) == 0x2144_DF1C
  {
    var c := Fold(ByteStep, data, 0xFFFF_FFFF);
    FoldSplit(ByteStep, data, BytesOf(!c), 0xFFFF_FFFF);
    AllMeet(c);
  }

  /** crc32_nibble computes the bit-by-bit checksum. */
  method Crc32Nibble(data: seq<bv8>) returns (crc: bv32)
    ensures crc == Checksum(data)
  {
    crc := 0xFFFF_FFFF;
    var i := 0;
    while i < |data|
      invariant 0 <= i <= |data| && crc == Fold(ByteStep, data[..i], 0xFFFF_FFFF)
    {
      FoldNext(ByteStep, data, i, 0xFFFF_FFFF);
      crc := NibbleTwice(crc, data[i]);
      i := i + 1;
    }
    assert data[..|data|] == data;
    crc := !crc;
  }
}
