/**
 Reading a volume (common/lib/part.s2.c): a disk or a part of it behind a cache of one transfer
 block.  Places and sizes are counted in units of 512 bytes, transfers in sectors of the device,
 which may be larger.
 */
module Volume {
  import opened Arithmetic
  import opened Blocks
  import opened Bytes
  import opened Wrappers

  const UNKNOWN: nat := 0xFFFF_FFFF_FFFF_FFFF

  // ----- Arithmetic of units

  lemma {:induction false} SameByte(firstSect: nat, ratio: nat)
    requires ratio > 0 && firstSect % ratio == 0
    ensures StartOf(firstSect / ratio, 512 * ratio) == 512 * firstSect
  {
    DivMod(firstSect, ratio);
    assert StartOf(firstSect / ratio, 512 * ratio) == 512 * (firstSect / ratio * ratio);
  }

  lemma {:induction false} SectorByte(first: nat, block: nat, xfer: nat, sectorSize: nat)
    ensures StartOf(first + StartOf(block, xfer), sectorSize) ==
              StartOf(first, sectorSize) + StartOf(block, StartOf(xfer, sectorSize))
  {
  }

  /** A transfer cut at the end of the volume brings the bytes of the block that lie before it. */
  lemma {:induction false} CutTransfer(sectors: nat, block: nat, xfer: nat, sectorSize: nat, n: nat)
    requires sectorSize > 0 && StartOf(block, xfer) + n <= sectors
    requires n == xfer || (n < xfer && StartOf(block, xfer) + n == sectors)
    ensures var start := StartOf(block, StartOf(xfer, sectorSize));
            && (n == xfer ==> start + StartOf(xfer, sectorSize) <= StartOf(sectors, sectorSize))
            && (n < xfer ==> start + StartOf(n, sectorSize) == StartOf(sectors, sectorSize))
            && StartOf(n, sectorSize) <= StartOf(xfer, sectorSize)
  {
    var b := StartOf(block, xfer);
    MulMonotone(b + n, sectors, sectorSize);
    assert (b + n) * sectorSize == b * sectorSize + n * sectorSize;
    SectorByte(0, block, xfer, sectorSize);
    MulMonotone(n, xfer, sectorSize);
  }

  /** How many sectors of the block b sectors into the volume are transferred; none if it starts
      behind the end. */
  function XferSize(known: bool, sectors: nat, xfer: nat, first: nat, b: nat): nat {
    if !known then xfer
    else
      var end := if first + sectors < U64 then first + sectors else U64 - 1;
      if first + b >= end then 0 else if xfer > end - (first + b) then end - (first + b) else xfer
  }

  lemma {:induction false} SumByte(a: nat, b: nat, sectorSize: nat)
    requires sectorSize > 0
    ensures StartOf(a + b, sectorSize) == StartOf(a, sectorSize) + StartOf(b, sectorSize)
            && a + b <= StartOf(a + b, sectorSize)
  {
    MulMonotone(1, sectorSize, a + b);
  }

  /** The block in which a number of sectors ends. */
  lemma {:induction false} EndBlock(sectors: nat, xfer: nat, sectorSize: nat)
    requires xfer > 0 && sectorSize > 0 && StartOf(xfer, sectorSize) > 0
    ensures BlockOf(StartOf(sectors, sectorSize), StartOf(xfer, sectorSize)) == BlockOf(sectors, xfer)
  {
    var block, rest := BlockOf(sectors, xfer), OffsetOf(sectors, xfer);
    BlockParts(sectors, xfer);
    SectorByte(0, block, xfer, sectorSize);
    SumByte(StartOf(block, xfer), rest, sectorSize);
    Multiples(rest, xfer, sectorSize);
    DivUnique(StartOf(sectors, sectorSize), StartOf(xfer, sectorSize), block, StartOf(rest, sectorSize));
  }

  // ----- Volumes

  class Volume {
    const disk: seq<byte>
    const firstSect: nat
    const sectCount: nat
    const ratio: nat
    const xfer: nat
    var cache: seq<byte>
    var cachedBlock: nat
    var ready: bool
    /** The device answers; if not, any of its transfers may fail. */
    var works: bool

    function SectorSize(): nat {
      512 * ratio
    }

    function BlockSize(): nat {
      StartOf(xfer, SectorSize())
    }

    /** How many whole device sectors the volume has. */
    function Sectors(): nat
      requires ratio > 0
    {
      sectCount / ratio
    }

    /** A place in the whole device sectors of the volume. */
    ghost predicate Inside(x: nat)
      requires ratio > 0
    {
      sectCount == UNKNOWN || x < StartOf(Sectors(), SectorSize())
    }

    ghost predicate Shaped() {
      ratio > 0 && xfer > 0 && BlockSize() > 0 && |disk| < U64 / 2 && firstSect < U64 && sectCount < U64
    }

    /** A byte read from x is the one on the disk, unless x lies behind the last whole sector. */
    ghost predicate RightAt(x: nat, b: byte)
      requires ratio > 0
    {
      Inside(x) ==> 512 * firstSect + x < |disk| && b == disk[512 * firstSect + x]
    }

    /** A buffer with the bytes of a block, as far as the volume goes. */
    ghost predicate AllRightIn(block: nat, buffer: seq<byte>)
      requires ratio > 0
    {
      forall o: nat :: o < |buffer| ==> RightAt(StartOf(block, BlockSize()) + o, buffer[o])
    }

    ghost predicate Valid()
      reads this
    {
      && Shaped() && |cache| == BlockSize()
      && (ready ==>
            Fetchable(cachedBlock) && Inside(StartOf(cachedBlock, BlockSize())) && AllRightIn(cachedBlock, cache))
    }

    /** The cache buffer comes zeroed from the allocator. */
    constructor (disk: seq<byte>, firstSect: nat, sectCount: nat, ratio: nat, xfer: nat)
      requires ratio > 0 && xfer > 0 && |disk| < U64 / 2 && firstSect < U64 && sectCount < U64
      ensures Valid() && !ready && cache == Zeros(BlockSize()) && this.disk == disk && this.firstSect == firstSect
      ensures this.sectCount == sectCount && this.ratio == ratio && this.xfer == xfer && works
    {
      MulMonotone(1, xfer, 512 * ratio);
      this.disk := disk;
      this.firstSect := firstSect;
      this.sectCount := sectCount;
      this.ratio := ratio;
      this.xfer := xfer;
      cache := Zeros(StartOf(xfer, 512 * ratio));
      cachedBlock := 0;
      ready := false;
      works := true;
    }

    /** disk_read_sectors fails outside the disk, and may fail when the device does not answer. */
    method DiskReadSectors(sector: nat, n: nat) returns (ok: bool, data: seq<byte>)
      ensures works && StartOf(sector, SectorSize()) + StartOf(n, SectorSize()) <= |disk| ==> ok
      ensures ok ==> StartOf(sector, SectorSize()) + StartOf(n, SectorSize()) <= |disk|
      ensures ok ==>
                data == disk[StartOf(sector, SectorSize())..StartOf(sector, SectorSize()) + StartOf(n, SectorSize())]
    {
      var failed: bool := *;
      var start := StartOf(sector, SectorSize());
      if (!works && failed) || start + StartOf(n, SectorSize()) > |disk| {
        return false, [];
      }
      return true, disk[start..start + StartOf(n, SectorSize())];
    }

    /** What a transfer of n sectors brings: the whole block or the rest of the volume. */
    lemma {:induction false} Brought(first: nat, block: nat, n: nat)
      requires Shaped() && n > 0 && n == XferSize(sectCount != UNKNOWN, Sectors(), xfer, first, StartOf(block, xfer))
      requires StartOf(first + StartOf(block, xfer), SectorSize()) + StartOf(n, SectorSize()) <= |disk|
      ensures StartOf(first + StartOf(block, xfer), SectorSize()) ==
                StartOf(first, SectorSize()) + StartOf(block, BlockSize())
      ensures StartOf(n, SectorSize()) <= BlockSize()
      ensures var start := StartOf(block, BlockSize());
              || (&& StartOf(n, SectorSize()) == BlockSize()
                  && (sectCount == UNKNOWN || start + BlockSize() <= StartOf(Sectors(), SectorSize())))
              || (sectCount != UNKNOWN && start + StartOf(n, SectorSize()) == StartOf(Sectors(), SectorSize()))
    {
      SectorByte(first, block, xfer, SectorSize());
      if sectCount != UNKNOWN {
        NotSaturated(first, block, n);
        CutTransfer(Sectors(), block, xfer, SectorSize(), n);
      }
    }

    lemma {:induction false} NotSaturated(first: nat, block: nat, n: nat)
      requires Shaped() && StartOf(first + StartOf(block, xfer), SectorSize()) + StartOf(n, SectorSize()) <= |disk|
      ensures first + StartOf(block, xfer) + n < U64 - 1
    {
      var sector := first + StartOf(block, xfer) + n;
      assert StartOf(sector, SectorSize()) ==
               StartOf(first + StartOf(block, xfer), SectorSize()) + StartOf(n, SectorSize());
      MulMonotone(1, SectorSize(), sector);
    }

    /** The transfer for a block is not empty and lies on the disk. */
    predicate Fetchable(block: nat)
      requires ratio > 0
    {
      var first, b := firstSect / ratio, StartOf(block, xfer);
      var n := XferSize(sectCount != UNKNOWN, Sectors(), xfer, first, b);
      && firstSect % ratio == 0 && first + b < U64 && n > 0
      && StartOf(first + b, SectorSize()) + StartOf(n, SectorSize()) <= |disk|
    }

    /** What a transfer leaves in the buffer: the bytes of the block, and behind the last whole sector
        what was there before. */
    lemma {:induction false} Fetched(block: nat, n: nat, data: seq<byte>, was: seq<byte>)
      requires Shaped() && Fetchable(block) && |was| == BlockSize()
      requires n == XferSize(sectCount != UNKNOWN, Sectors(), xfer, firstSect / ratio, StartOf(block, xfer))
      requires var at := StartOf(firstSect / ratio + StartOf(block, xfer), SectorSize());
               data == disk[at..at + StartOf(n, SectorSize())]
      ensures |data| <= |was| && Inside(StartOf(block, BlockSize()))
      ensures var c := data + was[|data|..];
              AllRightIn(block, c) && StaleKept(block, was, c)
    {
      Brought(firstSect / ratio, block, n);
      SameByte(firstSect, ratio);
      SumByte(n, 0, SectorSize());
    }

    /** The end of cache_block: the transfer of n sectors into the buffer, which a failed one may spoil. */
    method Transfer(block: nat, first: nat, n: nat) returns (ok: bool)
      requires Shaped() && |cache| == BlockSize() && !ready
      requires firstSect % ratio == 0 && first == firstSect / ratio && first + StartOf(block, xfer) < U64
      requires n > 0 && n == XferSize(sectCount != UNKNOWN, Sectors(), xfer, first, StartOf(block, xfer))
      modifies this`cache, this`cachedBlock, this`ready
      ensures Valid()
      ensures ok ==> ready && cachedBlock == block && Fetchable(block)
      ensures works && Fetchable(block) ==> ok
      ensures ok ==> StaleKept(block, old(cache), cache)
    {
      var data;
      ok, data := DiskReadSectors(first + StartOf(block, xfer), n);
      if ok {
        Fetched(block, n, data, cache);
        cache := data + cache[|data|..];
        ready, cachedBlock := true, block;
      } else {
        var junk: seq<byte> :| |junk| == BlockSize();
        cache := junk;
      }
    }

    /** Behind the last whole sector the buffer is as it was. */
    ghost predicate StaleKept(block: nat, was: seq<byte>, now: seq<byte>)
      requires Shaped() && |was| == |now| == BlockSize()
    {
      forall o: nat :: o < BlockSize() && !Inside(StartOf(block, BlockSize()) + o) ==> now[o] == was[o]
    }

    /** cache_block. */
    method CacheBlock(block: nat) returns (ok: bool)
      requires Valid()
      modifies this`cache, this`cachedBlock, this`ready
      ensures Valid()
      ensures ok ==> ready && cachedBlock == block && Fetchable(block)
      ensures works && Fetchable(block) ==> ok
      ensures ok ==> StaleKept(block, old(cache), cache)
    {
      if ready && block == cachedBlock {
        return true;
      }
      ready := false;
      if firstSect % ratio != 0 {
        return false;
      }
      var first := firstSect / ratio;
      var blockOffset := StartOf(block, xfer);
      if blockOffset >= U64 || first + blockOffset >= U64 {
        return false;
      }
      var n := XferSize(sectCount != UNKNOWN, Sectors(), xfer, first, blockOffset);
      if n == 0 {
        return false;
      }
      ok := Transfer(block, first, n);
    }

    /** Behind the last whole sector it is the one that the cache held at that offset: from before the
        read, or from the block before, if the read began there or earlier. */
    ghost predicate StaleAt(x: nat, b: byte, loc: nat, was: seq<byte>)
      requires Shaped() && |was| == BlockSize()
    {
      !Inside(x) ==>
        if BlockOf(x, BlockSize()) == BlockOf(loc, BlockSize()) then b == was[OffsetOf(x, BlockSize())]
        else BlockSize() <= 512 * firstSect + x < |disk| + BlockSize() && b == disk[512 * firstSect + x - BlockSize()]
    }

    /** What a read from loc with this cache gives at x. */
    ghost predicate ReadsAt(x: nat, b: byte, loc: nat, was: seq<byte>)
      requires Shaped() && |was| == BlockSize()
    {
      RightAt(x, b) && StaleAt(x, b, loc, was) && (Whole() ==> Inside(x))
    }

    ghost predicate ReadsAll(loc: nat, data: seq<byte>, was: seq<byte>)
      requires Shaped() && |was| == BlockSize()
    {
      forall i: nat :: i < |data| ==> ReadsAt(loc + i, data[i], loc, was)
    }

    /** The last whole sector ends a block. */
    ghost predicate Whole()
      requires Shaped()
    {
      sectCount == UNKNOWN || Sectors() % xfer == 0
    }

    /** The volume ends with a device sector. */
    ghost predicate Aligned()
      requires ratio > 0
    {
      sectCount == UNKNOWN || sectCount % ratio == 0
    }

    /** Reads of the volume cannot return anything but its bytes. */
    ghost predicate ReadsRight()
      requires Shaped()
    {
      Aligned() || Whole()
    }

    predicate OutOfVolume(loc: nat, count: nat) {
      sectCount != UNKNOWN && (512 * sectCount >= U64 || loc >= 512 * sectCount || count > 512 * sectCount - loc)
    }

    /** On an aligned volume nothing in bounds is behind the last whole sector. */
    lemma {:induction false} AllInside(loc: nat, data: seq<byte>, was: seq<byte>)
      requires Shaped() && |was| == BlockSize() && ReadsRight() && !OutOfVolume(loc, |data|) && ReadsAll(loc, data, was)
      ensures Within(|disk|, 512 * firstSect + loc, |data|) && data == Slice(disk, 512 * firstSect + loc, |data|)
    {
      if sectCount != UNKNOWN && Aligned() {
        SameByte(sectCount, ratio);
      }
      forall i: nat | i < |data|
        ensures 512 * firstSect + loc + i < |disk| && data[i] == disk[512 * firstSect + loc + i]
      {
        assert ReadsAt(loc + i, data[i], loc, was);
      }
      if data != [] {
        assert ReadsAt(loc + (|data| - 1), data[|data| - 1], loc, was);
      }
    }

    /** Where the last whole sector ends a block, a block that starts in the volume lies in it. */
    lemma {:induction false} BlockInside(block: nat, o: nat)
      requires Shaped() && Whole() && Inside(StartOf(block, BlockSize())) && o < BlockSize()
      ensures Inside(StartOf(block, BlockSize()) + o)
    {
      if sectCount != UNKNOWN {
        var q := MultipleOf(Sectors(), xfer);
        SectorByte(0, q, xfer, SectorSize());
        Multiples(block, q, BlockSize());
      }
    }

    /** One turn of volume_read: a piece of the block of x. */
    method ReadChunk(x: nat, count: nat) returns (ok: bool, data: seq<byte>)
      requires Valid() && count > 0
      modifies this`cache, this`cachedBlock, this`ready
      ensures Valid()
      ensures ok ==> 0 < |data| <= count && ready && cachedBlock == BlockOf(x, BlockSize())
      ensures ok ==> OffsetOf(x, BlockSize()) + |data| <= BlockSize()
      ensures ok ==> data == cache[OffsetOf(x, BlockSize())..OffsetOf(x, BlockSize()) + |data|]
      ensures ok && |data| < count ==> OffsetOf(x, BlockSize()) + |data| == BlockSize()
      ensures ok ==> StaleKept(cachedBlock, old(cache), cache)
      ensures ok ==> Fetchable(BlockOf(x, BlockSize()))
      ensures works && Fetchable(BlockOf(x, BlockSize())) ==> ok
    {
      BlockParts(x, BlockSize());
      ok := CacheBlock(BlockOf(x, BlockSize()));
      if !ok {
        return false, [];
      }
      var offset := OffsetOf(x, BlockSize());
      var chunk := if count > BlockSize() - offset then BlockSize() - offset else count;
      data := cache[offset..offset + chunk];
    }

    /** The byte at offset o of a block that a read reaches: first in that block, or coming from the block before. */
    lemma {:induction false} ReadsFrom(block: nat, o: nat, b: byte, loc: nat, was: seq<byte>, before: seq<byte>)
      requires Shaped() && |was| == |before| == BlockSize() && o < BlockSize() && Inside(StartOf(block, BlockSize()))
      requires var x := StartOf(block, BlockSize()) + o; RightAt(x, b) && (!Inside(x) ==> b == before[o])
      requires BlockOf(loc, BlockSize()) == block ==> before == was
      requires BlockOf(loc, BlockSize()) != block ==>
                 block > 0 && RightAt(StartOf(block - 1, BlockSize()) + o, before[o])
      ensures ReadsAt(StartOf(block, BlockSize()) + o, b, loc, was)
    {
      var x := StartOf(block, BlockSize()) + o;
      DivUnique(x, BlockSize(), block, o);
      if Whole() {
        BlockInside(block, o);
      }
      if BlockOf(loc, BlockSize()) != block {
        assert StartOf(block - 1, BlockSize()) + BlockSize() == StartOf(block, BlockSize());
      }
    }

    /** The block in which the last whole sector ends can be read. */
    lemma {:induction false} EndIsFetchable()
      requires Shaped() && sectCount != UNKNOWN && firstSect % ratio == 0 && Sectors() % xfer != 0
      requires 512 * firstSect + StartOf(Sectors(), SectorSize()) <= |disk|
      ensures Fetchable(BlockOf(StartOf(Sectors(), SectorSize()), BlockSize()))
    {
      BlockParts(Sectors(), xfer);
      EndBlock(Sectors(), xfer, SectorSize());
      FetchInside(StartOf(BlockOf(Sectors(), xfer), xfer));
    }

    /** One byte of the cached block, as a read that reaches it gets it. */
    lemma {:induction false} TakeByte(loc: nat, first: bool, was: seq<byte>, before: seq<byte>, o: nat)
      requires Valid() && ready && |was| == |before| == BlockSize() && o < BlockSize()
      requires !Inside(StartOf(cachedBlock, BlockSize()) + o) ==> cache[o] == before[o]
      requires first ==> before == was && BlockOf(loc, BlockSize()) == cachedBlock
      requires !first ==> BlockOf(loc, BlockSize()) < cachedBlock && AllRightIn(cachedBlock - 1, before)
      ensures ReadsAt(StartOf(cachedBlock, BlockSize()) + o, cache[o], loc, was)
    {
      assert RightAt(StartOf(cachedBlock, BlockSize()) + o, cache[o]);
      assert !first ==> RightAt(StartOf(cachedBlock - 1, BlockSize()) + o, before[o]);
      ReadsFrom(cachedBlock, o, cache[o], loc, was, before);
    }

    /** What a read has got so far grows by a piece of the cached block. */
    lemma {:induction false} TakePiece(loc: nat, data: seq<byte>, piece: seq<byte>, was: seq<byte>, before: seq<byte>)
      requires Valid() && ready && |was| == |before| == BlockSize() && ReadsAll(loc, data, was)
      requires var x := loc + |data|; var o := OffsetOf(x, BlockSize());
               cachedBlock == BlockOf(x, BlockSize()) && o + |piece| <= BlockSize() && piece == cache[o..o + |piece|]
      requires StaleKept(cachedBlock, before, cache)
      requires data == [] ==> before == was
      requires data != [] ==> BlockOf(loc, BlockSize()) < cachedBlock && AllRightIn(cachedBlock - 1, before)
      ensures ReadsAll(loc, data + piece, was)
    {
      var x := loc + |data|;
      var start, offset := StartOf(cachedBlock, BlockSize()), OffsetOf(x, BlockSize());
      BlockParts(x, BlockSize());
      forall j: nat | j < |piece| ensures ReadsAt(x + j, piece[j], loc, was) {
        TakeByte(loc, data == [], was, before, offset + j);
        assert start + (offset + j) == x + j;
      }
      JoinReads(loc, data, piece, was);
    }

    lemma {:induction false} JoinReads(loc: nat, data: seq<byte>, piece: seq<byte>, was: seq<byte>)
      requires Shaped() && |was| == BlockSize() && ReadsAll(loc, data, was)
      requires forall j: nat :: j < |piece| ==> ReadsAt(loc + |data| + j, piece[j], loc, was)
      ensures ReadsAll(loc, data + piece, was)
    {
      var all := data + piece;
      forall i: nat | i < |all| ensures ReadsAt(loc + i, all[i], loc, was) {
        if i < |data| {
          assert ReadsAt(loc + i, data[i], loc, was);
        } else {
          assert ReadsAt(loc + |data| + (i - |data|), piece[i - |data|], loc, was);
        }
      }
    }

    lemma {:induction false} NextBlock(block: nat)
      requires Shaped()
      ensures BlockOf(StartOf(block, BlockSize()) + BlockSize(), BlockSize()) == block + 1
    {
      assert StartOf(block, BlockSize()) + BlockSize() == (block + 1) * BlockSize();
      DivUnique((block + 1) * BlockSize(), BlockSize(), block + 1, 0);
    }

    /** Every block that the bytes from loc to top lie in can be fetched. */
    ghost predicate AllFetchable(loc: nat, top: nat)
      requires Shaped()
    {
      forall x: nat :: loc <= x < top ==> Fetchable(BlockOf(x, BlockSize()))
    }

    /** volume_read can succeed: the range is in bounds and its blocks can be fetched. */
    ghost predicate Readable(loc: nat, count: nat)
      requires Shaped()
    {
      !OutOfVolume(loc, count) && AllFetchable(loc, loc + count)
    }

    /** The bytes of one block are fetched together. */
    lemma {:induction false} FetchedTogether(loc: nat, x: nat, n: nat)
      requires Shaped() && loc <= x && AllFetchable(loc, x) && Fetchable(BlockOf(x, BlockSize()))
      requires OffsetOf(x, BlockSize()) + n <= BlockSize()
      ensures AllFetchable(loc, x + n)
    {
      forall y: nat | x <= y < x + n ensures BlockOf(y, BlockSize()) == BlockOf(x, BlockSize()) {
        BlockParts(x, BlockSize());
        DivUnique(y, BlockSize(), BlockOf(x, BlockSize()), OffsetOf(x, BlockSize()) + (y - x));
      }
    }

    /** On a disk that holds the volume every byte of its whole sectors can be fetched. */
    lemma {:induction false} InsideIsFetchable(x: nat)
      requires Shaped() && sectCount != UNKNOWN && firstSect % ratio == 0
      requires 512 * firstSect + StartOf(Sectors(), SectorSize()) <= |disk| && Inside(x)
      ensures Fetchable(BlockOf(x, BlockSize()))
    {
      var first, sectors, block := firstSect / ratio, Sectors(), BlockOf(x, BlockSize());
      BlockParts(x, BlockSize());
      SectorByte(0, block, xfer, SectorSize());
      var b := StartOf(block, xfer);
      Multiples(sectors, b + 1, SectorSize());
      Multiples(b, sectors, SectorSize());
      FetchInside(b);
    }

    /** A transfer that starts in the volume lies on a disk that holds it. */
    lemma {:induction false} FetchInside(b: nat)
      requires Shaped() && sectCount != UNKNOWN && firstSect % ratio == 0 && b < Sectors()
      requires 512 * firstSect + StartOf(Sectors(), SectorSize()) <= |disk|
      ensures var first := firstSect / ratio;
              var n := XferSize(true, Sectors(), xfer, first, b);
              && first + b < U64 && n > 0
              && StartOf(first + b, SectorSize()) + StartOf(n, SectorSize()) <= |disk|
    {
      var first := firstSect / ratio;
      SameByte(firstSect, ratio);
      SumByte(first, Sectors(), SectorSize());
      var n := XferSize(true, Sectors(), xfer, first, b);
      SumByte(first + b, n, SectorSize());
      MulMonotone(first + b + n, first + Sectors(), SectorSize());
    }

    /** So all of an aligned volume can be read. */
    lemma {:induction false} HeldIsReadable(loc: nat, count: nat)
      requires Shaped() && sectCount != UNKNOWN && firstSect % ratio == 0 && sectCount % ratio == 0
      requires 512 * (firstSect + sectCount) <= |disk| && loc < 512 * sectCount && loc + count <= 512 * sectCount
      ensures Readable(loc, count)
    {
      SameByte(sectCount, ratio);
      forall x: nat | loc <= x < loc + count ensures Fetchable(BlockOf(x, BlockSize())) {
        InsideIsFetchable(x);
      }
    }

    /** All of a volume of unknown size can be read, as far as its blocks lie on the disk. */
    lemma {:induction false} UnknownIsReadable(loc: nat, count: nat, blocks: nat)
      requires Shaped() && sectCount == 0xFFFF_FFFF_FFFF_FFFF && firstSect % ratio == 0
      requires loc + count <= StartOf(blocks, BlockSize()) && 512 * firstSect + StartOf(blocks, BlockSize()) <= |disk|
      ensures Readable(loc, count)
    {
      forall x: nat | loc <= x < loc + count ensures Fetchable(BlockOf(x, BlockSize())) {
        BlockIsFetchable(x, blocks);
      }
    }

    lemma {:induction false} BlockIsFetchable(x: nat, blocks: nat)
      requires Shaped() && sectCount == 0xFFFF_FFFF_FFFF_FFFF && firstSect % ratio == 0
      requires x < StartOf(blocks, BlockSize()) && 512 * firstSect + StartOf(blocks, BlockSize()) <= |disk|
      ensures Fetchable(BlockOf(x, BlockSize()))
    {
      var first, block := firstSect / ratio, BlockOf(x, BlockSize());
      BlockParts(x, BlockSize());
      Multiples(block, blocks, BlockSize());
      SameByte(firstSect, ratio);
      SectorByte(first, block, xfer, SectorSize());
      SumByte(first, StartOf(block, xfer), SectorSize());
    }

    /** volume_read. */
    method Read(loc: nat, count: nat) returns (ok: bool, data: seq<byte>)
      requires Valid()
      modifies this`cache, this`cachedBlock, this`ready
      ensures Valid()
      ensures ok ==> !OutOfVolume(loc, count) && |data| == count && ReadsAll(loc, data, old(cache))
      ensures ok && count > 0 ==> firstSect % ratio == 0
      ensures ok && ReadsRight() ==>
                Within(|disk|, 512 * firstSect + loc, count) && data == Slice(disk, 512 * firstSect + loc, count)
      ensures ok ==> Readable(loc, count)
      ensures works && Readable(loc, count) ==> ok
      ensures ok && sectCount != 0xFFFF_FFFF_FFFF_FFFF ==>
                loc < 512 * sectCount < 0x1_0000_0000_0000_0000 && loc + count <= 512 * sectCount
    {
      data := [];
      if OutOfVolume(loc, count) {
        return false, [];
      }
      ghost var was := cache;
      while |data| < count
        invariant Valid() && |data| <= count && ReadsAll(loc, data, was)
        invariant AllFetchable(loc, loc + |data|)
        invariant data == [] ==> cache == was
        invariant data != [] ==> ready && BlockOf(loc, BlockSize()) <= cachedBlock
        invariant data != [] && |data| < count ==> loc + |data| == StartOf(cachedBlock, BlockSize()) + BlockSize()
      {
        ghost var before := cache;
        if data != [] {
          NextBlock(cachedBlock);
        }
        BlockParts(loc + |data|, BlockSize());
        var piece;
        ok, piece := ReadChunk(loc + |data|, count - |data|);
        if !ok {
          return false, [];
        }
        TakePiece(loc, data, piece, was, before);
        FetchedTogether(loc, loc + |data|, |piece|);
        data := data + piece;
      }
      if ReadsRight() {
        AllInside(loc, data, was);
      }
      return true, data;
    }
  }

  /** The other half: a new volume that does not meet the condition, on a disk that holds it, returns zero
      for the first byte behind its last whole sector, whatever the disk holds there. */
  method ReadBehindEnd(disk: seq<byte>, firstSect: nat, sectCount: nat, ratio: nat, xfer: nat)
    returns (ok: bool, data: seq<byte>, at: nat)
    requires ratio > 0 && xfer > 0 && |disk| < U64 / 2 && sectCount != UNKNOWN && firstSect % ratio == 0
    requires sectCount % ratio != 0 && (sectCount / ratio) % xfer != 0
    requires 512 * (firstSect + sectCount) <= |disk|
    ensures at == StartOf(sectCount / ratio, 512 * ratio) < 512 * sectCount
    ensures ok && data == [0]
  {
    at := StartOf(sectCount / ratio, 512 * ratio);
    DivMod(sectCount, ratio);
    assert at == 512 * (sectCount / ratio * ratio);
    var v := new Volume(disk, firstSect, sectCount, ratio, xfer);
    v.EndIsFetchable();
    BlockParts(at, v.BlockSize());
    ok, data := v.Read(at, 1);
    assert v.ReadsAt(at + 0, data[0], at, Zeros(v.BlockSize()));
  }

  /** So for every geometry that meets none of the conditions there is a disk that is read wrongly. */
  method Misread(firstSect: nat, sectCount: nat, ratio: nat, xfer: nat)
    returns (ok: bool, data: seq<byte>, disk: seq<byte>, at: nat)
    requires ratio > 0 && xfer > 0 && firstSect % ratio == 0 && 512 * (firstSect + sectCount) < U64 / 2
    requires sectCount % ratio != 0 && (sectCount / ratio) % xfer != 0
    ensures |disk| == 512 * (firstSect + sectCount) && at < 512 * sectCount
    ensures ok && |data| == 1 && data[0] != disk[512 * firstSect + at]
  {
    disk := seq(512 * (firstSect + sectCount), _ => 1);
    ok, data, at := ReadBehindEnd(disk, firstSect, sectCount, ratio, xfer);
  }

  /** An instance: 2560 bytes on a disk of ones with sectors of 2048 bytes, read two at a time. */
  method MisreadInstance() returns (ok: bool, data: seq<byte>, disk: seq<byte>, at: nat)
    ensures |disk| == 4096 && (forall i :: 0 <= i < 4096 ==> disk[i] == 1)
    ensures ok && at == 2048 && data == [0]
  {
    disk := seq(4096, _ => 1);
    ok, data, at := ReadBehindEnd(disk, 0, 5, 4, 2);
  }

  // ----- Partitions

  predicate PartitionRangeValid(volume: Volume, firstSect: nat, sectCount: nat) {
    && sectCount != 0 && firstSect + sectCount < U64
    && (volume.sectCount == UNKNOWN || firstSect + sectCount <= volume.sectCount)
  }

  ghost predicate HasSector(firstSect: nat, sectCount: nat, s: nat) {
    firstSect <= s < firstSect + sectCount
  }

  /** A valid partition has a sector, and all of its sectors are sectors of the volume. */
  lemma {:induction false} PartitionIsInside(volume: Volume, firstSect: nat, sectCount: nat)
    ensures PartitionRangeValid(volume, firstSect, sectCount) <==>
            && (exists s: nat :: HasSector(firstSect, sectCount, s))
            && forall s: nat :: HasSector(firstSect, sectCount, s) ==>
                 s < 0xFFFF_FFFF_FFFF_FFFF && (volume.sectCount == 0xFFFF_FFFF_FFFF_FFFF || s < volume.sectCount)
  {
    if sectCount > 0 {
      assert HasSector(firstSect, sectCount, firstSect + (sectCount - 1));
    }
  }

  /** The device is whole and on its disk, and the partition begins and ends with its sectors. */
  ghost predicate HeldBy(device: Volume, part: Volume)
    requires device.ratio > 0
  {
    && device.sectCount != UNKNOWN && device.sectCount % device.ratio == 0 && 512 * device.sectCount <= |device.disk|
    && part.firstSect % device.ratio == 0 && part.sectCount % device.ratio == 0
  }

  /** A valid partition of a device is a window on it: reads of the one and of the other give the same
      bytes, whatever the caches held. */
  method ReadBothWays(device: Volume, part: Volume, loc: nat, count: nat)
    returns (ok: bool, direct: seq<byte>, shifted: seq<byte>)
    requires device.Valid() && part.Valid() && device != part
    requires device.firstSect == 0 && device.ReadsRight()
    requires part.disk == device.disk && part.ratio == device.ratio && part.sectCount != UNKNOWN && part.ReadsRight()
    requires PartitionRangeValid(device, part.firstSect, part.sectCount)
    modifies device, part
    ensures device.Valid() && part.Valid()
    ensures ok ==> direct == shifted && |direct| == count && !device.OutOfVolume(512 * part.firstSect + loc, count)
    ensures old(device.works && part.works) ==>
              (ok <==> part.Readable(loc, count) && device.Readable(512 * part.firstSect + loc, count))
    ensures old(device.works && part.works) && HeldBy(device, part) && !part.OutOfVolume(loc, count) ==> ok
  {
    if HeldBy(device, part) && !part.OutOfVolume(loc, count) {
      part.HeldIsReadable(loc, count);
      device.HeldIsReadable(512 * part.firstSect + loc, count);
    }
    ok, direct := part.Read(loc, count);
    if ok {
      ok, shifted := device.Read(512 * part.firstSect + loc, count);
    } else {
      shifted := [];
    }
  }
}
