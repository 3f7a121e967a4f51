/**
 Cluster chains of a FAT file system (common/fs/fat32.s2.c): reading the table in its three widths,
 following the links with a bound instead of a visited set, and reading a file through its chain.

 The volume is a byte string; a read of it fails where it leaves the volume.
 */
module FatChain {
  import opened Arithmetic
  import opened Blocks
  import opened Bytes
  import opened Wrappers

  datatype Width = Fat12 | Fat16 | Fat32

  datatype Context = Context(width: Width, bytesPerSector: nat, sectorsPerCluster: nat, sectorsPerFat: nat,
                             fatStartLba: nat, dataStartLba: nat)

  const MAX_CHAIN: nat := 16777216

  function ReadVolume(vol: seq<byte>, loc: nat, count: nat): Option<seq<byte>> {
    if Within(|vol|, loc, count) then Some(Slice(vol, loc, count)) else None
  }

  // ----- The table

  function EntryPlace(width: Width, cluster: nat): nat {
    match width
    case Fat12 => cluster + cluster / 2
    case Fat16 => 2 * cluster
    case Fat32 => 4 * cluster
  }

  function EntrySize(width: Width): nat {
    if width.Fat32? then 4 else 2
  }

  /** The bits of an entry among the bytes read for it. */
  function EntryValue(width: Width, cluster: nat, raw: nat): nat {
    match width
    case Fat12 => if cluster % 2 == 0 then raw % 0x1000 else raw / 16
    case Fat16 => raw
    case Fat32 => raw % 0x1000_0000
  }

  /** read_cluster_from_map. */
  function ReadClusterFromMap(ctx: Context, vol: seq<byte>, cluster: nat): Option<nat> {
    var place, size := EntryPlace(ctx.width, cluster), EntrySize(ctx.width);
    if place + size > ctx.sectorsPerFat * ctx.bytesPerSector then None
    else
      var raw := ReadVolume(vol, ctx.fatStartLba * ctx.bytesPerSector + place, size);
      if raw.None? then None else Some(EntryValue(ctx.width, cluster, Number(raw.value)))
  }

  /** Two 12-bit numbers in three bytes, as the FAT specification packs them. */
  function Pack12(even: nat, odd: nat): seq<byte>
    requires even < 0x1000 && odd < 0x1000
  {
    [(even % 256) as byte, (even / 256 + 16 * (odd % 16)) as byte, (odd / 16) as byte]
  }

  /** Each of the two comes back from the two bytes read for it. */
  lemma {:induction false} Unpack12(even: nat, odd: nat, cluster: nat)
    requires even < 0x1000 && odd < 0x1000
    ensures var b := Pack12(even, odd);
            && EntryValue(Fat12, 2 * cluster, Number(b[0..2])) == even
            && EntryValue(Fat12, 2 * cluster + 1, Number(b[1..3])) == odd
    ensures EntryPlace(Fat12, 2 * cluster) == 3 * cluster && EntryPlace(Fat12, 2 * cluster + 1) == 3 * cluster + 1
  {
    var b := Pack12(even, odd);
    assert b[0..2] == [b[0], b[1]] && b[1..3] == [b[1], b[2]];
    PairNumber(b[0], b[1]);
    PairNumber(b[1], b[2]);
    SharedByte(even, odd);
  }

  lemma {:induction false} SharedByte(even: nat, odd: nat)
    requires even < 0x1000 && odd < 0x1000
    ensures (even % 256 + 256 * (even / 256 + 16 * (odd % 16))) % 0x1000 == even
    ensures (even / 256 + 16 * (odd % 16) + 256 * (odd / 16)) / 16 == odd
  {
    DivUnique(even % 256 + 256 * (even / 256 + 16 * (odd % 16)), 0x1000, odd % 16, even);
    DivUnique(even / 256 + 16 * (odd % 16) + 256 * (odd / 16), 16, odd, even / 256);
  }

  lemma {:induction false} PairNumber(x: byte, y: byte)
    ensures Number([x, y]) == x as nat + 256 * y as nat
  {
    var b := [x, y];
    assert b[1..] == [y];
    assert Number(b) == x as nat + 256 * Number([y]);
    assert [y][1..] == [];
    assert Number([y]) == y as nat + 256 * Number([]);
  }

  lemma {:induction false} QuadNumber(b: seq<byte>)
    requires |b| == 4
    ensures Number(b) == b[0] as nat + 0x100 * b[1] as nat + 0x1_0000 * b[2] as nat + 0x100_0000 * b[3] as nat
  {
    assert b[1..][1..] == [b[2], b[3]];
    PairNumber(b[2], b[3]);
    assert Number(b[1..]) == b[1] as nat + 256 * Number([b[2], b[3]]);
    assert Number(b) == b[0] as nat + 256 * Number(b[1..]);
  }

  lemma {:induction false} LowBits(a: nat, b: nat, c: nat, d: nat)
    requires a < 256 && b < 256 && c < 256 && d < 256
    ensures (a + 0x100 * b + 0x1_0000 * c + 0x100_0000 * d) % 0x1000_0000
            == a + 0x100 * b + 0x1_0000 * c + 0x100_0000 * (d % 16)
  {
    DivUnique(a + 0x100 * b + 0x1_0000 * c + 0x100_0000 * d, 0x1000_0000, d / 16,
              a + 0x100 * b + 0x1_0000 * c + 0x100_0000 * (d % 16));
  }

  /** The bytes of the table are on the volume. */
  ghost predicate HasTable(ctx: Context, vol: seq<byte>) {
    ctx.fatStartLba * ctx.bytesPerSector + ctx.sectorsPerFat * ctx.bytesPerSector <= |vol|
  }

  ghost function TableOf(ctx: Context, vol: seq<byte>): (r: seq<byte>)
    requires HasTable(ctx, vol)
    ensures |r| == ctx.sectorsPerFat * ctx.bytesPerSector
  {
    Slice(vol, ctx.fatStartLba * ctx.bytesPerSector, ctx.sectorsPerFat * ctx.bytesPerSector)
  }

  lemma {:induction false} SlicePart(s: seq<byte>, start: nat, length: nat, at: nat, n: nat)
    requires start + length <= |s| && at + n <= length
    ensures Slice(s, start + at, n) == Slice(s, start, length)[at..at + n]
  {
  }

  lemma {:induction false} ReadsTable(ctx: Context, vol: seq<byte>, c: nat)
    requires HasTable(ctx, vol)
    ensures var t, place, size := TableOf(ctx, vol), EntryPlace(ctx.width, c), EntrySize(ctx.width);
            ReadClusterFromMap(ctx, vol, c) ==
            if place + size > |t| then None
            else Some(EntryValue(ctx.width, c, Number(t[place..place + size])))
  {
    var t, place, size := TableOf(ctx, vol), EntryPlace(ctx.width, c), EntrySize(ctx.width);
    if place + size <= |t| {
      SlicePart(vol, ctx.fatStartLba * ctx.bytesPerSector, |t|, place, size);
    }
  }

  /** Entry c of a FAT16 table is its c-th pair of bytes, low byte first. */
  lemma {:induction false} ReadsEntry16(ctx: Context, vol: seq<byte>, c: nat)
    requires ctx.width.Fat16? && HasTable(ctx, vol)
    ensures var table := TableOf(ctx, vol);
            ReadClusterFromMap(ctx, vol, c) ==
            if 2 * c + 2 > |table| then None else Some(table[2 * c] as nat + 256 * table[2 * c + 1] as nat)
  {
    var table := TableOf(ctx, vol);
    ReadsTable(ctx, vol, c);
    if 2 * c + 2 <= |table| {
      PairNumber(table[2 * c], table[2 * c + 1]);
      assert table[2 * c..2 * c + 2] == [table[2 * c], table[2 * c + 1]];
    }
  }

  /** Entry c of a FAT32 table is the low 28 bits of its c-th group of four bytes. */
  lemma {:induction false} ReadsEntry32(ctx: Context, vol: seq<byte>, c: nat)
    requires ctx.width.Fat32? && HasTable(ctx, vol)
    ensures var t := TableOf(ctx, vol);
            ReadClusterFromMap(ctx, vol, c) ==
            if 4 * c + 4 > |t| then None
            else Some(t[4 * c] as nat + 0x100 * t[4 * c + 1] as nat + 0x1_0000 * t[4 * c + 2] as nat
                      + 0x100_0000 * (t[4 * c + 3] as nat % 16))
  {
    var t := TableOf(ctx, vol);
    ReadsTable(ctx, vol, c);
    if 4 * c + 4 <= |t| {
      var b := t[4 * c..4 * c + 4];
      QuadNumber(b);
      LowBits(b[0] as nat, b[1] as nat, b[2] as nat, b[3] as nat);
    }
  }

  lemma {:induction false} ReadsEntry12(ctx: Context, vol: seq<byte>, c: nat, place: nat, raw: seq<byte>)
    requires ctx.width.Fat12? && HasTable(ctx, vol) && place == EntryPlace(Fat12, c)
    requires place + 2 <= |TableOf(ctx, vol)| && |raw| == 2
             && TableOf(ctx, vol)[place] == raw[0] && TableOf(ctx, vol)[place + 1] == raw[1]
    ensures ReadClusterFromMap(ctx, vol, c) == Some(EntryValue(Fat12, c, Number(raw)))
  {
    ReadsTable(ctx, vol, c);
    assert TableOf(ctx, vol)[place..place + 2] == raw;
  }

  /** Entries 2c and 2c + 1 of a FAT12 table are the two numbers packed in its c-th group of three bytes. */
  lemma {:induction false} ReadsEntries12(ctx: Context, vol: seq<byte>, c: nat, even: nat, odd: nat)
    requires ctx.width.Fat12? && HasTable(ctx, vol) && 3 * c + 3 <= |TableOf(ctx, vol)|
    requires even < 0x1000 && odd < 0x1000
    requires forall i :: 3 * c <= i < 3 * c + 3 ==> TableOf(ctx, vol)[i] == Pack12(even, odd)[i - 3 * c]
    ensures ReadClusterFromMap(ctx, vol, 2 * c) == Some(even) && ReadClusterFromMap(ctx, vol, 2 * c + 1) == Some(odd)
  {
    Unpack12(even, odd, c);
    ReadsEntry12(ctx, vol, 2 * c, 3 * c, Pack12(even, odd)[0..2]);
    ReadsEntry12(ctx, vol, 2 * c + 1, 3 * c + 1, Pack12(even, odd)[1..3]);
  }

  // ----- Chains

  function Limit(width: Width): nat {
    match width case Fat12 => 0xfef case Fat16 => 0xffef case Fat32 => 0xfffffef
  }

  predicate IsCluster(width: Width, cluster: nat) {
    2 <= cluster <= Limit(width)
  }

  function MaxClusters(width: Width): nat {
    if Limit(width) - 1 > MAX_CHAIN then MAX_CHAIN else Limit(width) - 1
  }

  /** The highest 16 values of an entry and the lowest two are no clusters; a chain may have all others, up
      to 2^24. */
  lemma {:induction false} ClusterNumbers(width: Width, cluster: nat)
    ensures var values := match width case Fat12 => 0x1000 case Fat16 => 0x1_0000 case Fat32 => 0x1000_0000;
            && (IsCluster(width, cluster) <==> 2 <= cluster < values - 16)
            && MaxClusters(width) == Min(values - 18, 0x100_0000)
  {
  }

  /** Clusters linked one to the next by the table. */
  ghost predicate Linked(ctx: Context, vol: seq<byte>, path: seq<nat>) {
    && (forall i :: 0 <= i < |path| ==> IsCluster(ctx.width, path[i]))
    && (forall i :: 0 <= i < |path| - 1 ==> ReadClusterFromMap(ctx, vol, path[i]) == Some(path[i + 1]))
  }

  ghost predicate LinkedFrom(ctx: Context, vol: seq<byte>, first: nat, path: seq<nat>) {
    path != [] && path[0] == first && Linked(ctx, vol, path)
  }

  /** A complete chain: after its last cluster the table has something that is no cluster. */
  ghost predicate ChainOf(ctx: Context, vol: seq<byte>, first: nat, chain: seq<nat>) {
    && LinkedFrom(ctx, vol, first, chain)
    && var next := ReadClusterFromMap(ctx, vol, chain[|chain| - 1]);
       next.Some? && !IsCluster(ctx.width, next.value)
  }

  ghost predicate NoDuplicates(path: seq<nat>) {
    forall i, j :: 0 <= i < j < |path| ==> path[i] != path[j]
  }

  /** The links come back to a cluster already seen. */
  ghost predicate Cyclic(ctx: Context, vol: seq<byte>, first: nat) {
    exists path :: LinkedFrom(ctx, vol, first, path) && !NoDuplicates(path)
  }

  lemma {:induction false} LinkGoesOn(ctx: Context, vol: seq<byte>, path: seq<nat>, i: nat)
    requires Linked(ctx, vol, path) && i < |path| - 1
    ensures ReadClusterFromMap(ctx, vol, path[i]) == Some(path[i + 1]) && IsCluster(ctx.width, path[i + 1])
  {
  }

  /** Two walks along the links go the same way. */
  lemma {:induction false} SameWay(ctx: Context, vol: seq<byte>, p: seq<nat>, q: seq<nat>, i: nat, j: nat, k: nat)
    requires Linked(ctx, vol, p) && Linked(ctx, vol, q) && i + k < |p| && j + k < |q| && p[i] == q[j]
    ensures p[i + k] == q[j + k]
    decreases k
  {
    if k > 0 {
      SameWay(ctx, vol, p, q, i, j, k - 1);
    }
  }

  /** A walk cannot be longer than a complete chain. */
  lemma {:induction false} ChainIsLongest(ctx: Context, vol: seq<byte>, first: nat, chain: seq<nat>, path: seq<nat>)
    requires ChainOf(ctx, vol, first, chain) && LinkedFrom(ctx, vol, first, path)
    ensures |path| <= |chain|
  {
    var last := |chain| - 1;
    if |path| > |chain| {
      LinkGoesOn(ctx, vol, path, last);
      SameWay(ctx, vol, chain, path, 0, 0, last);
    }
  }

  lemma {:induction false} ChainIsUnique(ctx: Context, vol: seq<byte>, first: nat, chain: seq<nat>, other: seq<nat>)
    requires ChainOf(ctx, vol, first, chain) && ChainOf(ctx, vol, first, other)
    ensures chain == other
  {
    ChainIsLongest(ctx, vol, first, chain, other);
    ChainIsLongest(ctx, vol, first, other, chain);
    forall k | 0 <= k < |chain| ensures chain[k] == other[k] {
      SameWay(ctx, vol, chain, other, 0, 0, k);
    }
  }

  /** A complete chain does not meet itself. */
  lemma {:induction false} ChainHasNoDuplicates(ctx: Context, vol: seq<byte>, first: nat, chain: seq<nat>)
    requires ChainOf(ctx, vol, first, chain)
    ensures NoDuplicates(chain)
  {
    var last := |chain| - 1;
    forall i, j | 0 <= i < j < |chain| ensures chain[i] != chain[j] {
      if chain[i] == chain[j] {
        LinkGoesOn(ctx, vol, chain, i + (last - j));
        SameWay(ctx, vol, chain, chain, i, j, last - j);
      }
    }
  }

  /** Where there is a complete chain there is no cycle. */
  lemma {:induction false} ChainIsNotCyclic(ctx: Context, vol: seq<byte>, first: nat, chain: seq<nat>)
    requires ChainOf(ctx, vol, first, chain)
    ensures !Cyclic(ctx, vol, first)
  {
    ChainHasNoDuplicates(ctx, vol, first, chain);
    forall path | LinkedFrom(ctx, vol, first, path) ensures NoDuplicates(path) {
      ChainIsLongest(ctx, vol, first, chain, path);
      forall i, j | 0 <= i < j < |path| ensures path[i] != path[j] {
        SameWay(ctx, vol, chain, path, 0, 0, i);
        SameWay(ctx, vol, chain, path, 0, 0, j);
      }
    }
  }

  // ----- Pigeonhole

  ghost function Values(path: seq<nat>): set<nat> {
    set i | 0 <= i < |path| :: path[i]
  }

  lemma {:induction false} DistinctCount(path: seq<nat>)
    requires NoDuplicates(path)
    ensures |Values(path)| == |path|
    decreases |path|
  {
    if path == [] {
      assert Values(path) == {};
    } else {
      var n := |path| - 1;
      var rest := path[..n];
      DistinctCount(rest);
      assert path[n] !in Values(rest);
      forall x ensures x in Values(path) <==> x in Values(rest) || x == path[n] {
        if x in Values(path) {
          var i :| 0 <= i < |path| && path[i] == x;
          if i < n {
            assert rest[i] == x;
          }
        }
        if x in Values(rest) {
          var i :| 0 <= i < n && rest[i] == x;
          assert path[i] == x;
        }
      }
      assert Values(path) == Values(rest) + {path[n]};
    }
  }

  predicate Between(x: nat, low: nat, top: nat) {
    low <= x < top
  }

  lemma {:induction false} IntervalCount(s: set<nat>, low: nat, top: nat)
    requires low <= top && forall x :: x in s ==> Between(x, low, top)
    ensures |s| <= top - low
    decreases top - low
  {
    if low == top {
      assert s == {};
    } else {
      var rest := s - {top - 1};
      assert forall x :: x in rest ==> Between(x, low, top) && x != top - 1;
      IntervalCount(rest, low, top - 1);
      if top - 1 in s {
        assert s == rest + {top - 1};
      } else {
        assert s == rest;
      }
    }
  }

  /** More links than there are clusters: some cluster comes twice. */
  lemma {:induction false} TooLongIsCyclic(ctx: Context, vol: seq<byte>, first: nat, path: seq<nat>)
    requires LinkedFrom(ctx, vol, first, path) && |path| >= Limit(ctx.width)
    ensures Cyclic(ctx, vol, first)
  {
    if NoDuplicates(path) {
      DistinctCount(path);
      forall x | x in Values(path) ensures Between(x, 2, Limit(ctx.width) + 1) {
        var i :| 0 <= i < |path| && path[i] == x;
        assert IsCluster(ctx.width, path[i]);
      }
      IntervalCount(Values(path), 2, Limit(ctx.width) + 1);
    }
  }

  // ----- cache_cluster_chain

  /** What the bounded walk decides. */
  ghost predicate Walked(ctx: Context, vol: seq<byte>, first: nat, length: nat) {
    exists path :: LinkedFrom(ctx, vol, first, path) && |path| == length
  }

  /** Every read of the table along the links succeeds. */
  ghost predicate WalkReads(ctx: Context, vol: seq<byte>, first: nat) {
    forall path :: LinkedFrom(ctx, vol, first, path) ==> ReadClusterFromMap(ctx, vol, path[|path| - 1]).Some?
  }

  /** The first pass counts. */
  method ChainLength(ctx: Context, vol: seq<byte>, first: nat) returns (length: Option<nat>, ghost path: seq<nat>)
    requires IsCluster(ctx.width, first)
    ensures LinkedFrom(ctx, vol, first, path)
    ensures length.Some? ==> |path| == length.value <= MaxClusters(ctx.width) && ChainOf(ctx, vol, first, path)
    ensures length.None? ==>
              |path| == MaxClusters(ctx.width) + 1 || ReadClusterFromMap(ctx, vol, path[|path| - 1]).None?
    ensures forall chain :: ChainOf(ctx, vol, first, chain) ==>
              length == if |chain| <= MaxClusters(ctx.width) then Some(|chain|) else None
  {
    var cluster := first;
    path := [first];
    var chainLength := 1;
    while chainLength <= MaxClusters(ctx.width)
      invariant 1 <= chainLength == |path| <= MaxClusters(ctx.width) + 1
      invariant LinkedFrom(ctx, vol, first, path) && cluster == path[chainLength - 1]
    {
      var next := ReadClusterFromMap(ctx, vol, cluster);
      if next.None? {
        forall chain ensures !ChainOf(ctx, vol, first, chain) {
          if ChainOf(ctx, vol, first, chain) {
            NoChainWithin(ctx, vol, first, path, chain);
          }
        }
        return None, path;
      }
      cluster := next.value;
      if !IsCluster(ctx.width, cluster) {
        forall chain | ChainOf(ctx, vol, first, chain) ensures chain == path {
          ChainIsUnique(ctx, vol, first, chain, path);
        }
        return Some(chainLength), path;
      }
      path := path + [cluster];
      chainLength := chainLength + 1;
    }
    forall chain | ChainOf(ctx, vol, first, chain) ensures |chain| > MaxClusters(ctx.width) {
      NoChainWithin(ctx, vol, first, path, chain);
    }
    return None, path;
  }

  /** A walk that stopped before the end of the bound stopped where every chain would. */
  lemma {:induction false} NoChainWithin(ctx: Context, vol: seq<byte>, first: nat, path: seq<nat>, chain: seq<nat>)
    requires LinkedFrom(ctx, vol, first, path) && ChainOf(ctx, vol, first, chain)
    ensures |path| <= |chain| && ReadClusterFromMap(ctx, vol, path[|path| - 1]).Some?
  {
    ChainIsLongest(ctx, vol, first, chain, path);
    SameWay(ctx, vol, chain, path, 0, 0, |path| - 1);
    if |path| < |chain| {
      LinkGoesOn(ctx, vol, chain, |path| - 1);
    }
  }

  /** The second pass stores. */
  method FillChain(ctx: Context, vol: seq<byte>, first: nat, length: nat, ghost path: seq<nat>)
    returns (r: Option<seq<nat>>)
    requires ChainOf(ctx, vol, first, path) && |path| == length
    ensures r == Some(path)
  {
    var clusters := new nat[length](_ => 0);
    var cluster := first;
    var i := 0;
    while i < length
      invariant i <= length && clusters[..i] == path[..i] && (i < length ==> cluster == path[i])
    {
      clusters[i] := cluster;
      if i < length - 1 {
        LinkGoesOn(ctx, vol, path, i);
      }
      var next := ReadClusterFromMap(ctx, vol, cluster);
      if next.None? {
        return None;
      }
      cluster := next.value;
      i := i + 1;
    }
    assert clusters[..] == clusters[..i] && path[..i] == path;
    return Some(clusters[..]);
  }

  /** cache_cluster_chain: the complete chain if there is one within the bound. */
  method CacheClusterChain(ctx: Context, vol: seq<byte>, first: nat) returns (r: Option<seq<nat>>)
    ensures r.Some? ==>
              ChainOf(ctx, vol, first, r.value) && NoDuplicates(r.value) && |r.value| <= MaxClusters(ctx.width)
    ensures r.None? ==> forall chain :: ChainOf(ctx, vol, first, chain) ==> |chain| > MaxClusters(ctx.width)
    ensures r.None? <==>
              !IsCluster(ctx.width, first) || !WalkReads(ctx, vol, first)
              || Walked(ctx, vol, first, MaxClusters(ctx.width) + 1)
  {
    if !IsCluster(ctx.width, first) {
      return None;
    }
    var length; ghost var path;
    length, path := ChainLength(ctx, vol, first);
    if length.None? {
      return None;
    }
    ChainHasNoDuplicates(ctx, vol, first, path);
    forall walk | LinkedFrom(ctx, vol, first, walk)
      ensures |walk| <= |path| && ReadClusterFromMap(ctx, vol, walk[|walk| - 1]).Some?
    {
      NoChainWithin(ctx, vol, first, walk, path);
    }
    r := FillChain(ctx, vol, first, length.value, path);
  }

  /** In the two narrow widths the bound is exact: when every read of the table on the way succeeds, a
      chain is refused if and only if it is cyclic. */
  method ChainOrCycle(ctx: Context, vol: seq<byte>, first: nat) returns (r: Option<seq<nat>>)
    requires !ctx.width.Fat32?
    ensures r.None? <==> !IsCluster(ctx.width, first) || !WalkReads(ctx, vol, first) || Cyclic(ctx, vol, first)
    ensures r.Some? ==> ChainOf(ctx, vol, first, r.value)
  {
    r := CacheClusterChain(ctx, vol, first);
    if Walked(ctx, vol, first, MaxClusters(ctx.width) + 1) {
      ghost var path :| LinkedFrom(ctx, vol, first, path) && |path| == MaxClusters(ctx.width) + 1;
      TooLongIsCyclic(ctx, vol, first, path);
    }
    if r.Some? {
      ChainIsNotCyclic(ctx, vol, first, r.value);
    }
  }

  // ----- read_cluster_chain

  function ClusterSize(ctx: Context): nat {
    ctx.sectorsPerCluster * ctx.bytesPerSector
  }

  function ClusterBase(ctx: Context, cluster: nat): nat
    requires cluster >= 2
  {
    (ctx.dataStartLba + (cluster - 2) * ctx.sectorsPerCluster) * ctx.bytesPerSector
  }

  /** The cluster lies on the volume. */
  predicate InData(ctx: Context, vol: seq<byte>, cluster: nat) {
    cluster >= 2 && ClusterBase(ctx, cluster) + ClusterSize(ctx) <= |vol|
  }

  predicate AllInData(ctx: Context, vol: seq<byte>, chain: seq<nat>) {
    forall k :: 0 <= k < |chain| ==> InData(ctx, vol, chain[k])
  }

  /** The contents of the clusters of a chain, one after the other. */
  ghost function FileBytes(ctx: Context, vol: seq<byte>, chain: seq<nat>): (r: seq<byte>)
    requires AllInData(ctx, vol, chain)
    ensures |r| == StartOf(|chain|, ClusterSize(ctx))
    decreases |chain|
  {
    if chain == [] then []
    else
      var n := |chain| - 1;
      Multiples(n, n + 1, ClusterSize(ctx));
      assert StartOf(n + 1, ClusterSize(ctx)) == StartOf(n, ClusterSize(ctx)) + ClusterSize(ctx);
      FileBytes(ctx, vol, chain[..n]) + Slice(vol, ClusterBase(ctx, chain[n]), ClusterSize(ctx))
  }

  lemma {:induction false} ClusterOfFile(ctx: Context, vol: seq<byte>, chain: seq<nat>, k: nat)
    requires AllInData(ctx, vol, chain) && k < |chain|
    ensures StartOf(k, ClusterSize(ctx)) + ClusterSize(ctx) <= StartOf(|chain|, ClusterSize(ctx))
    ensures Slice(FileBytes(ctx, vol, chain), StartOf(k, ClusterSize(ctx)), ClusterSize(ctx))
            == Slice(vol, ClusterBase(ctx, chain[k]), ClusterSize(ctx))
    decreases |chain|
  {
    var n := |chain| - 1;
    var size := ClusterSize(ctx);
    Multiples(k, n + 1, size);
    var rest, last := FileBytes(ctx, vol, chain[..n]), Slice(vol, ClusterBase(ctx, chain[n]), size);
    assert FileBytes(ctx, vol, chain) == rest + last;
    if k < n {
      ClusterOfFile(ctx, vol, chain[..n], k);
    } else {
      SliceRight(rest, last);
    }
  }

  /** The volume is what lies before the data, then the clusters in the order of their numbers from 2 on. */
  ghost predicate LaidOut(ctx: Context, vol: seq<byte>, reserved: seq<byte>, clusters: seq<seq<byte>>) {
    && vol == reserved + Joined(clusters) && |reserved| == ctx.dataStartLba * ctx.bytesPerSector
    && forall i :: 0 <= i < |clusters| ==> |clusters[i]| == ctx.sectorsPerCluster * ctx.bytesPerSector
  }

  lemma {:induction false} JoinedLength(pieces: seq<seq<byte>>, size: nat)
    requires forall i :: 0 <= i < |pieces| ==> |pieces[i]| == size
    ensures |Joined(pieces)| == |pieces| * size
    decreases |pieces|
  {
    if pieces != [] {
      var n := |pieces| - 1;
      JoinedLength(pieces[..n], size);
      assert (n + 1) * size == n * size + size;
    }
  }

  lemma {:induction false} JoinedPiece(pieces: seq<seq<byte>>, size: nat, k: nat, at: nat)
    requires (forall i :: 0 <= i < |pieces| ==> |pieces[i]| == size) && k < |pieces| && at == k * size
    ensures at + size <= |Joined(pieces)| && Joined(pieces)[at..at + size] == pieces[k]
    decreases |pieces|
  {
    var n := |pieces| - 1;
    var rest := Joined(pieces[..n]);
    if k < n {
      JoinedPiece(pieces[..n], size, k, at);
      assert (rest + pieces[n])[at..at + size] == rest[at..at + size];
    } else {
      JoinedLength(pieces[..n], size);
    }
  }

  /** On such a volume cluster c is the (c - 2)-th of the clusters. */
  lemma {:induction false} ClusterContent(ctx: Context, vol: seq<byte>, reserved: seq<byte>,
                                          clusters: seq<seq<byte>>, c: nat)
    requires LaidOut(ctx, vol, reserved, clusters) && 2 <= c < 2 + |clusters|
    ensures InData(ctx, vol, c) && Slice(vol, ClusterBase(ctx, c), ClusterSize(ctx)) == clusters[c - 2]
  {
    var size := ClusterSize(ctx);
    JoinedPiece(clusters, size, c - 2, (c - 2) * size);
    assert ClusterBase(ctx, c) == |reserved| + (c - 2) * size;
  }

  /** A file is the contents of the clusters of its chain, one behind the other. */
  lemma {:induction false} FileIsItsClusters(ctx: Context, vol: seq<byte>, reserved: seq<byte>,
                                             clusters: seq<seq<byte>>, chain: seq<nat>, contents: seq<seq<byte>>)
    requires LaidOut(ctx, vol, reserved, clusters) && |contents| == |chain|
    requires forall k :: 0 <= k < |chain| ==> 2 <= chain[k] < 2 + |clusters| && contents[k] == clusters[chain[k] - 2]
    ensures AllInData(ctx, vol, chain) && FileBytes(ctx, vol, chain) == Joined(contents)
    decreases |chain|
  {
    if chain != [] {
      var n := |chain| - 1;
      FileIsItsClusters(ctx, vol, reserved, clusters, chain[..n], contents[..n]);
      assert forall k :: 0 <= k < n ==> chain[..n][k] == chain[k];
      ClusterContent(ctx, vol, reserved, clusters, chain[n]);
    }
  }

  lemma {:induction false} SliceRight(a: seq<byte>, b: seq<byte>)
    ensures Slice(a + b, |a|, |b|) == b
  {
  }

  /** A piece of one cluster of the file. */
  lemma {:induction false} PieceOfFile(ctx: Context, vol: seq<byte>, chain: seq<nat>, k: nat, offset: nat, n: nat)
    requires AllInData(ctx, vol, chain) && k < |chain| && offset + n <= ClusterSize(ctx)
    ensures StartOf(k, ClusterSize(ctx)) + ClusterSize(ctx) <= StartOf(|chain|, ClusterSize(ctx))
    ensures Slice(FileBytes(ctx, vol, chain), StartOf(k, ClusterSize(ctx)) + offset, n)
            == Slice(vol, ClusterBase(ctx, chain[k]) + offset, n)
  {
    ClusterOfFile(ctx, vol, chain, k);
    SliceSlice(FileBytes(ctx, vol, chain), StartOf(k, ClusterSize(ctx)), vol, ClusterBase(ctx, chain[k]),
               ClusterSize(ctx), offset, n);
  }

  lemma {:induction false} SliceSlice(a: seq<byte>, i: nat, b: seq<byte>, j: nat, size: nat, offset: nat, n: nat)
    requires i + size <= |a| && j + size <= |b| && offset + n <= size && Slice(a, i, size) == Slice(b, j, size)
    ensures Slice(a, i + offset, n) == Slice(b, j + offset, n)
  {
    var u, v := Slice(a, i + offset, n), Slice(b, j + offset, n);
    forall k | 0 <= k < n ensures u[k] == v[k] {
      assert Slice(a, i, size)[offset + k] == Slice(b, j, size)[offset + k];
    }
  }

  /** Byte x of the file lies in a cluster of the chain. */
  predicate InChain(ctx: Context, chain: seq<nat>, x: nat)
    requires ClusterSize(ctx) > 0
  {
    BlockOf(x, ClusterSize(ctx)) < |chain| && chain[BlockOf(x, ClusterSize(ctx))] >= 2
  }

  /** Where byte x of the file lies on the volume. */
  function PlaceOf(ctx: Context, chain: seq<nat>, x: nat): nat
    requires ClusterSize(ctx) > 0 && InChain(ctx, chain, x)
  {
    ClusterBase(ctx, chain[BlockOf(x, ClusterSize(ctx))]) + OffsetOf(x, ClusterSize(ctx))
  }

  predicate OnVolume(ctx: Context, vol: seq<byte>, chain: seq<nat>, x: nat)
    requires ClusterSize(ctx) > 0
  {
    InChain(ctx, chain, x) && PlaceOf(ctx, chain, x) < |vol|
  }

  /** Byte y of the file is the one the data hold for it, if they are the bytes from x on. */
  ghost predicate ByteIs(ctx: Context, vol: seq<byte>, chain: seq<nat>, x: nat, data: seq<byte>, y: nat)
    requires ClusterSize(ctx) > 0 && x <= y < x + |data|
  {
    OnVolume(ctx, vol, chain, y) && vol[PlaceOf(ctx, chain, y)] == data[y - x]
  }

  /** The data are the bytes of the file from x on. */
  ghost predicate BytesAre(ctx: Context, vol: seq<byte>, chain: seq<nat>, x: nat, data: seq<byte>)
    requires ClusterSize(ctx) > 0
  {
    forall y: nat :: x <= y < x + |data| ==> ByteIs(ctx, vol, chain, x, data, y)
  }

  ghost predicate AllOnVolume(ctx: Context, vol: seq<byte>, chain: seq<nat>, x: nat, top: nat)
    requires ClusterSize(ctx) > 0
  {
    forall y: nat :: x <= y < top ==> OnVolume(ctx, vol, chain, y)
  }

  lemma {:induction false} SameCluster(x: nat, size: nat, y: nat)
    requires size > 0 && x <= y && OffsetOf(x, size) + (y - x) < size
    ensures BlockOf(y, size) == BlockOf(x, size) && OffsetOf(y, size) == OffsetOf(x, size) + (y - x)
  {
    DivMod(x, size);
    DivUnique(y, size, x / size, x % size + (y - x));
  }

  lemma {:induction false} PlaceInCluster(ctx: Context, chain: seq<nat>, x: nat, y: nat)
    requires ClusterSize(ctx) > 0 && x <= y && OffsetOf(x, ClusterSize(ctx)) + (y - x) < ClusterSize(ctx)
             && InChain(ctx, chain, x)
    ensures InChain(ctx, chain, y) && PlaceOf(ctx, chain, y) == PlaceOf(ctx, chain, x) + (y - x)
  {
    SameCluster(x, ClusterSize(ctx), y);
  }

  /** A piece of one cluster can be read exactly if its bytes are on the volume. */
  lemma {:induction false} PieceBytes(ctx: Context, vol: seq<byte>, chain: seq<nat>, x: nat, chunk: nat, at: nat)
    requires ClusterSize(ctx) > 0 && OffsetOf(x, ClusterSize(ctx)) + chunk <= ClusterSize(ctx) && chunk > 0
    requires InChain(ctx, chain, x) && at == PlaceOf(ctx, chain, x)
    ensures AllOnVolume(ctx, vol, chain, x, x + chunk) ==> at + chunk <= |vol|
    ensures at + chunk <= |vol| ==> BytesAre(ctx, vol, chain, x, Slice(vol, at, chunk))
  {
    forall y: nat | x <= y < x + chunk
      ensures InChain(ctx, chain, y) && PlaceOf(ctx, chain, y) == at + (y - x)
    {
      PlaceInCluster(ctx, chain, x, y);
    }
    assert AllOnVolume(ctx, vol, chain, x, x + chunk) ==> OnVolume(ctx, vol, chain, x + (chunk - 1));
    forall y: nat | x <= y < x + chunk && at + chunk <= |vol|
      ensures ByteIs(ctx, vol, chain, x, Slice(vol, at, chunk), y)
    {
    }
  }

  lemma {:induction false} BytesJoin(ctx: Context, vol: seq<byte>, chain: seq<nat>, x: nat, a: seq<byte>, b: seq<byte>)
    requires ClusterSize(ctx) > 0 && BytesAre(ctx, vol, chain, x, a) && BytesAre(ctx, vol, chain, x + |a|, b)
    ensures BytesAre(ctx, vol, chain, x, a + b)
  {
    forall y: nat | x <= y < x + |a + b| ensures ByteIs(ctx, vol, chain, x, a + b, y) {
      if y < x + |a| {
        assert ByteIs(ctx, vol, chain, x, a, y);
      } else {
        assert ByteIs(ctx, vol, chain, x + |a|, b, y);
      }
    }
  }

  lemma {:induction false} BytesAreOnVolume(ctx: Context, vol: seq<byte>, chain: seq<nat>, x: nat, data: seq<byte>)
    requires ClusterSize(ctx) > 0 && BytesAre(ctx, vol, chain, x, data)
    ensures AllOnVolume(ctx, vol, chain, x, x + |data|)
  {
    forall y: nat | x <= y < x + |data| ensures OnVolume(ctx, vol, chain, y) {
      assert ByteIs(ctx, vol, chain, x, data, y);
    }
  }

  /** One turn of read_cluster_chain: as much as lies in one cluster. */
  method ReadChunk(ctx: Context, vol: seq<byte>, chain: seq<nat>, x: nat, want: nat) returns (piece: Option<seq<byte>>)
    requires ClusterSize(ctx) > 0 && want > 0
    ensures piece.Some? ==> 0 < |piece.value| <= want && x + |piece.value| <= StartOf(|chain|, ClusterSize(ctx))
    ensures AllInData(ctx, vol, chain) ==>
              && (piece.Some? <==> x < StartOf(|chain|, ClusterSize(ctx)))
              && (piece.Some? ==> piece.value == Slice(FileBytes(ctx, vol, chain), x, |piece.value|))
    ensures if piece.Some? then BytesAre(ctx, vol, chain, x, piece.value)
            else !AllOnVolume(ctx, vol, chain, x, x + want)
  {
    var size := ClusterSize(ctx);
    var block := BlockOf(x, size);
    BlockParts(x, size);
    Multiples(block, |chain|, size);
    if block >= |chain| {
      assert !OnVolume(ctx, vol, chain, x);
      return None;
    }
    var cluster := chain[block];
    if cluster < 2 {
      assert !OnVolume(ctx, vol, chain, x);
      return None;
    }
    var offset := OffsetOf(x, size);
    var chunk := if want > size - offset then size - offset else want;
    if AllInData(ctx, vol, chain) {
      PieceOfFile(ctx, vol, chain, block, offset, chunk);
    }
    PieceBytes(ctx, vol, chain, x, chunk, ClusterBase(ctx, cluster) + offset);
    piece := ReadVolume(vol, ClusterBase(ctx, cluster) + offset, chunk);
  }

  /** read_cluster_chain: the slice of the file, and a failure where the chain ends. */
  method ReadClusterChain(ctx: Context, vol: seq<byte>, chain: seq<nat>, loc: nat, count: nat)
    returns (ok: bool, data: seq<byte>)
    requires ClusterSize(ctx) > 0
    ensures ok ==> |data| == count && Within(StartOf(|chain|, ClusterSize(ctx)), loc, count)
    ensures AllInData(ctx, vol, chain) ==>
              && (ok <==> Within(StartOf(|chain|, ClusterSize(ctx)), loc, count))
              && (ok ==> data == Slice(FileBytes(ctx, vol, chain), loc, count))
    ensures ok <==> AllOnVolume(ctx, vol, chain, loc, loc + count)
    ensures ok ==> BytesAre(ctx, vol, chain, loc, data)
  {
    ghost var total := StartOf(|chain|, ClusterSize(ctx));
    data := [];
    while |data| < count
      invariant |data| <= count && Within(total, loc, |data|)
      invariant AllInData(ctx, vol, chain) ==> data == Slice(FileBytes(ctx, vol, chain), loc, |data|)
      invariant BytesAre(ctx, vol, chain, loc, data)
    {
      var piece := ReadChunk(ctx, vol, chain, loc + |data|, count - |data|);
      if piece.None? {
        return false, [];
      }
      BytesJoin(ctx, vol, chain, loc, data, piece.value);
      if AllInData(ctx, vol, chain) {
        SliceJoin(FileBytes(ctx, vol, chain), loc, |data|, |piece.value|);
      }
      data := data + piece.value;
    }
    BytesAreOnVolume(ctx, vol, chain, loc, data);
    return true, data;
  }
}
