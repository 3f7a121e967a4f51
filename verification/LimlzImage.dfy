/**
 A packed stage as a whole: the checksum and the stream that tools/limlzpack.c writes, and what
 stage1/decompressor.asm does with them.
 */
module LimlzImage {
  import opened Bytes
  import opened LimlzFormat
  import opened LimlzParse
  import opened LimlzPack
  import opened Crc32
  import opened Wrappers

  /** The decompressor jumps to what it unpacked if the checksum agrees, and halts otherwise. */
  datatype Outcome = Runs(stage: seq<byte>) | IntegrityError

  function Bits(data: seq<byte>): seq<bv8> {
    seq(|data|, i requires 0 <= i < |data| => data[i] as bv8)
  }

  /** A file: the checksum in four bytes, lowest first, and the stream. */
  function Load(file: seq<byte>): Outcome
    requires |file| >= 4
  {
    match Decode(file[4..])
    case None => IntegrityError
    case Some(out) => if Checksum(Bits(out)) as nat == Number(file[..4]) then Runs(out) else IntegrityError
  }

  lemma {:induction false} LoadBack(crc: bv32, stream: seq<byte>, src: seq<byte>)
    requires Decode(stream) == Some(src) && crc == Checksum(Bits(src))
    ensures Load(Encode(crc as nat, 4) + stream) == Runs(src)
  {
    var file := Encode(crc as nat, 4) + stream;
    assert file[..4] == Encode(crc as nat, 4) && file[4..] == stream;
    assert Power256(4) == 256 * (256 * (256 * 256));
    NumberOfEncoded(crc as nat, 4);
  }

  /** The packer's main: a file that the decompressor turns into the source, or None if packing fails.
      It does not fail if there are no stuck positions. */
  method MakeImage(src: seq<byte>) returns (r: Option<seq<byte>>, ghost mch: seq<Match>)
    requires |src| < 0x1000_0000_0000_0000
    ensures FoundMatches(src, mch)
    ensures r.Some? ==> 4 < |r.value| <= 4 + 2 * |src| && Load(r.value) == Runs(src)
    ensures src != [] && (forall i: nat :: !Stuck(mch, i)) ==> r.Some?
  {
    var packed;
    ghost var dp, pick;
    packed, mch, dp, pick := Pack(src, 2 * |src|);
    if packed.None? {
      return None, mch;
    }
    var crc := Crc32Nibble(Bits(src));
    LoadBack(crc, packed.value, src);
    r := Some(Encode(crc as nat, 4) + packed.value);
  }
}
