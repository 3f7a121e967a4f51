/**
 The installer's device layer (host/limine.c): a disk behind a cache of one block that is written
 back late, the log of overwritten bytes, and the rollback.

 An access fails where it leaves the whole blocks of the disk, and nowhere else.  A failed read of
 a block may leave anything in the cache buffer.
 */
module Device {
  import opened Arithmetic
  import opened Blocks
  import opened Bytes
  import opened UndoLog

  const UNINSTALL_DATA_MAX: nat := 256
  const NO_BLOCK: nat := 0xFFFF_FFFF_FFFF_FFFF

  /** The part of a disk that consists of whole blocks. */
  function Whole(size: nat, blockSize: nat): nat
    requires blockSize > 0
  {
    StartOf(BlockOf(size, blockSize), blockSize)
  }

  /** The block of a byte lies on the disk when the byte lies in a whole block. */
  lemma {:induction false} BlockInside(x: nat, blockSize: nat, size: nat)
    requires blockSize > 0
    ensures var start := StartOf(BlockOf(x, blockSize), blockSize);
            && start + OffsetOf(x, blockSize) == x && OffsetOf(x, blockSize) < blockSize
            && (start + blockSize <= size <==> x < Whole(size, blockSize))
            && (start + blockSize <= size ==> start + blockSize <= Whole(size, blockSize))
            && Whole(size, blockSize) <= size
  {
    var b, q := x / blockSize, size / blockSize;
    DivMod(x, blockSize);
    DivMod(size, blockSize);
    Multiples(b, q, blockSize);
  }

  lemma {:induction false} BlockIsSmall(x: nat, blockSize: nat)
    requires blockSize >= 512 && x <= NO_BLOCK
    ensures BlockOf(x, blockSize) < NO_BLOCK
  {
    DivMod(x, blockSize);
    var b := x / blockSize;
    MulMonotone(512, blockSize, b);
    assert blockSize * b == b * blockSize;
  }

  /** What the disk holds once a dirty cache is written back. */
  function Logical(disk: seq<byte>, cache: seq<byte>, at: nat, dirty: bool): (r: seq<byte>)
    ensures |r| == |disk|
  {
    if dirty then Splice(disk, at, cache) else disk
  }

  /** A coherent cache holds the logical bytes of its block. */
  lemma {:induction false} CacheHolds(disk: seq<byte>, cache: seq<byte>, at: nat, dirty: bool, offset: nat, count: nat)
    requires at + |cache| <= |disk| && offset + count <= |cache|
    requires dirty || cache == Slice(disk, at, |cache|)
    ensures cache[offset..offset + count] == Slice(Logical(disk, cache, at, dirty), at + offset, count)
  {
  }

  /** One turn of the write loop: the bytes written so far grow by a piece. */
  lemma {:induction false} WriteTurn(saved: seq<Saved>, disk: seq<byte>, was: seq<byte>, loc: nat, data: seq<byte>,
                                     progress: nat, chunk: nat)
    requires progress + chunk <= |data|
    ensures var before := Splice(was, loc, data[..progress]);
            var now := Splice(was, loc, data[..progress + chunk]);
            && Splice(before, loc + progress, data[progress..progress + chunk]) == now
            && (Covers(saved, loc, |data|) && Agree(saved, disk, before) ==> Agree(saved, disk, now))
  {
    var before := Splice(was, loc, data[..progress]);
    var piece := data[progress..progress + chunk];
    assert data[..progress] + piece == data[..progress + chunk];
  }

  /** What a write saves; nothing outside the disk. */
  function Before(s: seq<byte>, loc: nat, count: nat): seq<byte> {
    if Within(|s|, loc, count) then Slice(s, loc, count) else []
  }

  /** The calls of an installation. */
  datatype Op = DoRead(loc: nat, count: nat) | DoWrite(loc: nat, data: seq<byte>)

  function Size(op: Op): nat {
    match op case DoRead(_, count) => count case DoWrite(_, data) => |data|
  }

  ghost function ApplyOp(op: Op, s: seq<byte>): (r: seq<byte>)
    ensures |r| == |s|
  {
    if op.DoRead? then s else Splice(s, op.loc, op.data)
  }

  /** The disk after the writes among the calls. */
  ghost function Apply(ops: seq<Op>, s: seq<byte>): (r: seq<byte>)
    ensures |r| == |s|
    decreases |ops|
  {
    if ops == [] then s else ApplyOp(ops[|ops| - 1], Apply(ops[..|ops| - 1], s))
  }

  ghost function Writes(ops: seq<Op>): nat
    decreases |ops|
  {
    if ops == [] then 0 else Writes(ops[..|ops| - 1]) + if ops[|ops| - 1].DoWrite? then 1 else 0
  }

  lemma {:induction false} WritesMonotone(ops: seq<Op>, k: nat)
    requires k <= |ops|
    ensures Writes(ops[..k]) <= Writes(ops)
    decreases |ops|
  {
    if k < |ops| {
      WritesMonotone(ops[..|ops| - 1], k);
      assert ops[..|ops| - 1][..k] == ops[..k];
    } else {
      assert ops[..k] == ops;
    }
  }

  /** Every call stays in the whole blocks and the log has room for every write. */
  ghost predicate AllFit(ops: seq<Op>, whole: nat) {
    Writes(ops) <= 256 && forall k :: 0 <= k < |ops| ==> Within(whole, ops[k].loc, Size(ops[k]))
  }

  class Device {
    var disk: seq<byte>
    var cache: seq<byte>
    var cachedBlock: nat
    var dirty: bool
    const blockSize: nat
    var log: seq<Saved>
    var uninstalling: bool

    ghost predicate Sound()
      reads this
    {
      && blockSize >= 512 && |cache| == blockSize && |disk| < NO_BLOCK
      && (dirty ==> StartOf(cachedBlock, blockSize) + blockSize <= |disk|)
    }

    /** The cache agrees with the disk: it holds a block of it, or newer bytes for it. */
    ghost predicate Coherent()
      reads this
    {
      && Sound()
      && (cachedBlock != NO_BLOCK ==>
            && StartOf(cachedBlock, blockSize) + blockSize <= |disk|
            && (dirty || cache == Slice(disk, StartOf(cachedBlock, blockSize), blockSize)))
    }

    ghost function Content(): (r: seq<byte>)
      reads this
      ensures |r| == |disk|
    {
      Logical(disk, cache, StartOf(cachedBlock, blockSize), dirty)
    }

    /** Every saved byte lies in a whole block. */
    ghost predicate LogFits()
      requires blockSize > 0
      reads this
    {
      forall k :: 0 <= k < |log| ==>
        log[k].loc <= NO_BLOCK && Within(Whole(|disk|, blockSize), log[k].loc, |log[k].data|)
    }

    /** Rolling back gives origin, whatever part of the logged writes has reached the disk. */
    ghost predicate Recoverable(origin: seq<byte>)
      requires blockSize > 0
      reads this
    {
      && LogFits() && |log| <= UNINSTALL_DATA_MAX && !uninstalling
      && Agree(log, disk, Content()) && Undo(log, Content()) == origin
    }

    /** device_init has read block 0. */
    constructor (disk: seq<byte>, blockSize: nat, log: seq<Saved>)
      requires 512 <= blockSize <= |disk| < NO_BLOCK
      ensures this.disk == disk && this.blockSize == blockSize && this.log == log
      ensures Coherent() && !dirty && !uninstalling && Content() == disk
    {
      this.disk := disk;
      this.blockSize := blockSize;
      this.log := log;
      cache := disk[..blockSize];
      cachedBlock := 0;
      dirty := false;
      uninstalling := false;
    }

    method Flush()
      requires Sound()
      modifies this`disk, this`dirty
      ensures Sound() && !dirty && disk == old(Content()) == Content()
      ensures old(Coherent()) ==> Coherent()
    {
      if !dirty {
        return;
      }
      disk := Splice(disk, StartOf(cachedBlock, blockSize), cache);
      dirty := false;
      assert cache == Slice(disk, StartOf(cachedBlock, blockSize), blockSize);
    }

    /** device_cache_block. */
    method CacheBlock(block: nat) returns (ok: bool)
      requires Coherent() && block < NO_BLOCK
      modifies this`disk, this`dirty, this`cache, this`cachedBlock
      ensures Sound() && Content() == old(Content())
      ensures disk == old(disk) || disk == Content()
      ensures ok <==> StartOf(block, blockSize) + blockSize <= |disk|
      ensures ok ==> Coherent() && cachedBlock == block
    {
      if cachedBlock == block {
        return true;
      }
      if dirty {
        Flush();
      }
      var start := StartOf(block, blockSize);
      if start + blockSize > |disk| {
        // A short read: the buffer holds something else, cachedBlock stays.
        var junk: seq<byte> :| |junk| == blockSize;
        cache := junk;
        return false;
      }
      cache := Slice(disk, start, blockSize);
      cachedBlock := block;
      return true;
    }

    /** One turn of _device_read: the bytes from x on that lie in its block. */
    method ReadChunk(x: nat, count: nat) returns (ok: bool, data: seq<byte>)
      requires Coherent() && BlockOf(x, blockSize) < NO_BLOCK && count > 0
      modifies this`disk, this`dirty, this`cache, this`cachedBlock
      ensures Sound() && Content() == old(Content())
      ensures disk == old(disk) || disk == Content()
      ensures ok <==> x < Whole(|disk|, blockSize)
      ensures ok ==> Coherent() && 0 < |data| <= count && x + |data| <= Whole(|disk|, blockSize) <= |disk|
      ensures ok ==> data == Slice(Content(), x, |data|)
    {
      BlockInside(x, blockSize, |disk|);
      var block := BlockOf(x, blockSize);
      ok := CacheBlock(block);
      data := [];
      if ok {
        var offset := OffsetOf(x, blockSize);
        var chunk := if count > blockSize - offset then blockSize - offset else count;
        CacheHolds(disk, cache, StartOf(block, blockSize), dirty, offset, chunk);
        data := cache[offset..offset + chunk];
      }
    }

    /** _device_read. */
    method Read(loc: nat, count: nat) returns (ok: bool, data: seq<byte>)
      requires Coherent() && loc <= NO_BLOCK
      modifies this`disk, this`dirty, this`cache, this`cachedBlock
      ensures Sound() && Content() == old(Content())
      ensures disk == old(disk) || disk == Content()
      ensures ok <==> Within(Whole(|disk|, blockSize), loc, count)
      ensures ok ==> Coherent() && Within(|disk|, loc, count) && data == Slice(Content(), loc, count)
    {
      data := [];
      var progress := 0;
      ghost var content := Content();
      while progress < count
        invariant progress <= count && Coherent() && Content() == content
        invariant disk == old(disk) || disk == content
        invariant Within(Whole(|disk|, blockSize), loc, progress)
        invariant Within(|disk|, loc, progress) && data == Slice(content, loc, progress)
      {
        BlockIsSmall(loc + progress, blockSize);
        var here, piece := ReadChunk(loc + progress, count - progress);
        if !here {
          return false, [];
        }
        SliceJoin(content, loc, progress, |piece|);
        data := data + piece;
        progress := progress + |piece|;
      }
      BlockInside(0, blockSize, |disk|);
      return true, data;
    }

    /** Bytes go to the cached block only. */
    method PutChunk(offset: nat, piece: seq<byte>)
      requires Coherent() && cachedBlock != NO_BLOCK && offset + |piece| <= blockSize
      modifies this`cache, this`dirty
      ensures Coherent()
      ensures Content() == Splice(old(Content()), StartOf(cachedBlock, blockSize) + offset, piece)
    {
      cache := Splice(cache, offset, piece);
      dirty := true;
    }

    /** One turn of the write loop of _device_write: as much as goes into one block. */
    method WriteChunk(data: seq<byte>, progress: nat, at: nat) returns (ok: bool, chunk: nat)
      requires Coherent() && progress < |data| && at <= NO_BLOCK
      modifies this`disk, this`dirty, this`cache, this`cachedBlock
      ensures Sound() && (disk == old(disk) || disk == old(Content()))
      ensures ok <==> at < Whole(|disk|, blockSize)
      ensures !ok ==> Content() == old(Content())
      ensures ok ==>
                && Coherent() && 0 < chunk <= |data| - progress && at + chunk <= Whole(|disk|, blockSize)
                && Content() == Splice(old(Content()), at, data[progress..progress + chunk])
    {
      BlockInside(at, blockSize, |disk|);
      BlockIsSmall(at, blockSize);
      ok := CacheBlock(BlockOf(at, blockSize));
      chunk := 0;
      if ok {
        var offset := OffsetOf(at, blockSize);
        chunk := if |data| - progress > blockSize - offset then blockSize - offset else |data| - progress;
        PutChunk(offset, data[progress..progress + chunk]);
      }
    }

    /** The write loop of _device_write.  Where the bytes written are saved in a log, it keeps the
        disk and the logical content in agreement outside that log. */
    method WriteBlocks(data: seq<byte>, loc: nat, ghost saved: seq<Saved>) returns (ok: bool)
      requires Coherent() && loc <= NO_BLOCK
      modifies this`disk, this`dirty, this`cache, this`cachedBlock
      ensures Sound() && |disk| == old(|disk|)
      ensures ok <==> Within(Whole(|disk|, blockSize), loc, |data|)
      ensures ok ==> Coherent() && Content() == Splice(old(Content()), loc, data)
      ensures Covers(saved, loc, |data|) && old(Agree(saved, disk, Content())) ==> Agree(saved, disk, Content())
    {
      var progress := 0;
      ghost var safe := Covers(saved, loc, |data|) && Agree(saved, disk, Content());
      BlockInside(0, blockSize, |disk|);
      while progress < |data|
        invariant progress <= |data| && Coherent() && |disk| == old(|disk|)
        invariant Within(Whole(|disk|, blockSize), loc, progress)
        invariant Content() == Splice(old(Content()), loc, data[..progress])
        invariant safe ==> Agree(saved, disk, Content())
      {
        var done, chunk := WriteChunk(data, progress, loc + progress);
        if !done {
          return false;
        }
        WriteTurn(saved, disk, old(Content()), loc, data, progress, chunk);
        progress := progress + chunk;
      }
      assert data[..progress] == data;
      return true;
    }

    /** _device_write. */
    method Write(data: seq<byte>, loc: nat) returns (ok: bool)
      requires Coherent() && loc <= NO_BLOCK
      modifies this`disk, this`dirty, this`cache, this`cachedBlock, this`log
      ensures Sound() && |disk| == old(|disk|)
      ensures ok <==> (uninstalling || old(|log|) < 256) && Within(Whole(|disk|, blockSize), loc, |data|)
      ensures ok ==> Coherent() && Content() == Splice(old(Content()), loc, data)
      ensures log == if ok && !uninstalling then old(log) + [Saved(loc, Before(old(Content()), loc, |data|))]
                     else old(log)
      ensures !uninstalling && !ok ==> Content() == old(Content())
      ensures !uninstalling && old(Agree(log, disk, Content())) ==> Agree(log, disk, Content())
    {
      if uninstalling {
        ok := WriteBlocks(data, loc, []);
        return;
      }
      if |log| >= UNINSTALL_DATA_MAX {
        return false;
      }
      var read, was := Read(loc, |data|);
      if !read {
        return false;
      }
      ghost var longer := log + [Saved(loc, was)];
      if old(Agree(log, disk, Content())) {
        AgreeLonger(log, Saved(loc, was), disk, Content());
      }
      ok := WriteBlocks(data, loc, longer);
      if ok {
        log := log + [Saved(loc, was)];
      }
    }

    /** reverse_uninstall_data. */
    method ReverseLog()
      modifies this`log
      ensures log == Reversed(old(log))
    {
      if |log| == 0 {
        return;
      }
      var rev := new Saved[|log|](_ => Saved(0, []));
      var i := 0;
      while i < |log|
        invariant i <= |log| == rev.Length && log == old(log)
        invariant forall k :: 0 <= k < i ==> rev[|log| - 1 - k] == log[k]
      {
        rev[|log| - 1 - i] := log[i];
        i := i + 1;
      }
      assert forall k :: 0 <= k < |log| ==> rev[k] == rev[|log| - 1 - (|log| - 1 - k)];
      log := rev[..];
    }

    /** uninstall: the cache is dropped, not written back. */
    method Uninstall()
      requires Sound() && LogFits()
      modifies this
      ensures Coherent() && !dirty && log == old(log)
      ensures disk == Replay(old(log), old(disk))
    {
      uninstalling := true;
      dirty := false;
      cachedBlock := NO_BLOCK;
      var i := 0;
      while i < |log|
        invariant i <= |log| && uninstalling && Coherent() && log == old(log) && |disk| == old(|disk|)
        invariant Content() == Replay(log[..i], old(disk))
      {
        var ok := Write(log[i].data, log[i].loc);
        assert log[..i + 1][..i] == log[..i];
        i := i + 1;
      }
      assert log[..i] == log;
      Flush();
    }

    /** The whole rollback: any prefix of the writes may have reached the disk. */
    method Rollback(ghost origin: seq<byte>)
      requires Sound() && Recoverable(origin)
      modifies this
      ensures disk == origin && !dirty && Coherent()
    {
      ReplayReversed(log, disk);
      UndoForgets(log, disk, Content());
      ReverseLog();
      Uninstall();
    }

    /** One call, completed or failed, keeps the way back open. */
    method Perform(op: Op, ghost origin: seq<byte>) returns (ok: bool)
      requires Coherent() && Recoverable(origin) && op.loc <= NO_BLOCK
      modifies this`disk, this`dirty, this`cache, this`cachedBlock, this`log
      ensures Sound() && |disk| == old(|disk|) && Recoverable(origin)
      ensures ok <==> Within(Whole(|disk|, blockSize), op.loc, Size(op))
                      && (op.DoWrite? ==> old(|log|) < UNINSTALL_DATA_MAX)
      ensures ok ==> Coherent() && Content() == ApplyOp(op, old(Content()))
      ensures ok ==> |log| == old(|log|) + if op.DoWrite? then 1 else 0
    {
      ghost var before := Content();
      BlockInside(0, blockSize, |disk|);
      match op
      case DoRead(loc, count) =>
        var data;
        ok, data := Read(loc, count);
      case DoWrite(loc, data) =>
        ok := Write(data, loc);
        if ok {
          UndoLogged(old(log), before, loc, data);
        }
    }

    /** The calls of an installation in order, up to the first failure. */
    method PerformAll(ops: seq<Op>) returns (ok: bool)
      requires Coherent() && !dirty && log == [] && !uninstalling
      requires forall k :: 0 <= k < |ops| ==> ops[k].loc <= NO_BLOCK
      modifies this`disk, this`dirty, this`cache, this`cachedBlock, this`log
      ensures Sound() && |disk| == old(|disk|) && Recoverable(old(disk))
      ensures ok <==> AllFit(ops, Whole(|disk|, blockSize))
      ensures ok ==> Content() == Apply(ops, old(disk))
    {
      ghost var origin := disk;
      var i := 0;
      while i < |ops|
        invariant i <= |ops| && Coherent() && Recoverable(origin) && |disk| == |origin|
        invariant Content() == Apply(ops[..i], origin) && |log| == Writes(ops[..i])
        invariant forall k :: 0 <= k < i ==> Within(Whole(|disk|, blockSize), ops[k].loc, Size(ops[k]))
      {
        assert ops[..i + 1][..i] == ops[..i];
        WritesMonotone(ops, i + 1);
        ok := Perform(ops[i], origin);
        if !ok {
          return false;
        }
        i := i + 1;
      }
      assert ops[..i] == ops;
      return true;
    }

    /** An installation: all of it, with a log that takes it back, or none of it. */
    method Install(ops: seq<Op>) returns (ok: bool)
      requires Coherent() && !dirty && log == [] && !uninstalling
      requires forall k :: 0 <= k < |ops| ==> ops[k].loc <= NO_BLOCK
      modifies this
      ensures Sound() && !dirty && |disk| == old(|disk|)
      ensures ok <==> AllFit(ops, Whole(|disk|, blockSize))
      ensures ok ==> disk == Apply(ops, old(disk)) && LogFits() && Replay(log, disk) == old(disk)
      ensures !ok ==> disk == old(disk)
    {
      ghost var origin := disk;
      ok := PerformAll(ops);
      if ok {
        Flush();
        ReplayReversed(log, disk);
        ReverseLog();
      } else {
        Rollback(origin);
      }
    }

    /** A later run with the stored log takes a completed installation back. */
    method InstallThenUninstall(ops: seq<Op>) returns (later: Device)
      requires Coherent() && !dirty && log == [] && !uninstalling && blockSize <= |disk|
      requires forall k :: 0 <= k < |ops| ==> ops[k].loc <= NO_BLOCK
      modifies this
      ensures later.disk == old(disk)
    {
      var ok := Install(ops);
      later := new Device(disk, blockSize, log);
      if ok {
        later.Uninstall();
      }
    }
  }
}
