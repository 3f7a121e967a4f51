/**
 The top-down aligned allocator and its free, on the memory map (ext_mem_alloc_type_aligned_mode
 and pmm_free in common/mm/pmm.s2.c), with the blocks that are live at any moment.
 */
module Allocator {
  import opened Arithmetic
  import opened Memmap
  import opened MemmapSpec
  import opened MemmapPasses
  import opened MemmapPunch
  import opened MemoryMap
  import opened Wrappers

  function Limit(allowHigh: bool): nat {
    if allowHigh then U64 - 1 else GIB4
  }

  /** Bytes a request takes: the count rounded up to the alignment. */
  function Rounded(count: nat, alignment: nat): (r: nat)
    requires alignment > 0
    ensures count <= r < count + alignment && r % alignment == 0
  {
    AlignDown(count + alignment - 1, alignment)
  }

  /** The address the allocator takes from one entry, if the request fits into it below the limit. */
  function Candidate(e: Entry, bytes: nat, alignment: nat, limit: nat): Option<nat>
    requires alignment > 0
  {
    if e.kind != USABLE || !e.Fits() || (e.Top() > limit && e.base >= limit) then None
    else
      var top := Min(e.Top(), limit);
      if top - e.base < bytes then None
      else
        var p := AlignDown(top - bytes, alignment);
        if p < e.base then None else Some(p)
  }

  /** An aligned block of that size lies in the entry below the limit. */
  ghost predicate RoomIn(e: Entry, bytes: nat, alignment: nat, limit: nat)
    requires alignment > 0
  {
    e.kind == USABLE && e.Fits() && exists q: nat :: BlockIn(e, q, bytes, alignment, limit)
  }

  predicate BlockIn(e: Entry, q: nat, bytes: nat, alignment: nat, limit: nat)
    requires alignment > 0
  {
    q % alignment == 0 && e.base <= q && q + bytes <= Min(e.Top(), limit)
  }

  ghost predicate NoRoom(s: seq<Entry>, bytes: nat, alignment: nat, limit: nat)
    requires alignment > 0
  {
    forall i :: 0 <= i < |s| ==> !RoomIn(s[i], bytes, alignment, limit)
  }

  /** No aligned block of that size lies higher, in any usable entry. */
  ghost predicate Highest(s: seq<Entry>, bytes: nat, alignment: nat, limit: nat, p: nat)
    requires alignment > 0
  {
    forall i, q: nat ::
      0 <= i < |s| && s[i].kind == USABLE && s[i].Fits() && BlockIn(s[i], q, bytes, alignment, limit) ==> q <= p
  }

  /** The range [p, top) ends with a usable entry, or with the limit inside one. */
  ghost predicate EndsEntry(s: seq<Entry>, p: nat, top: nat, limit: nat) {
    exists e :: e in s && e.kind == USABLE && e.Fits() && e.base <= p && top == Min(e.Top(), limit)
  }

  /** In a sorted map of disjoint entries the topmost entry with room has the highest block. */
  lemma {:induction false} TopmostIsHighest(s: seq<Entry>, i: nat, bytes: nat, alignment: nat, limit: nat)
    requires WellFormed(s) && Sorted(s) && i < |s| && alignment > 0 && bytes > 0
    requires Candidate(s[i], bytes, alignment, limit).Some?
    requires forall k :: i < k < |s| ==> !RoomIn(s[k], bytes, alignment, limit)
    ensures Highest(s, bytes, alignment, limit, Candidate(s[i], bytes, alignment, limit).value)
  {
    CandidateIsHighest(s[i], bytes, alignment, limit);
    var p := Candidate(s[i], bytes, alignment, limit).value;
    forall k, q: nat | 0 <= k < |s| && s[k].kind == USABLE && s[k].Fits() && BlockIn(s[k], q, bytes, alignment, limit)
      ensures q <= p
    {
      if k < i {
        assert Apart(s[k], s[i]) && s[k].base <= s[i].base;
      }
    }
  }

  /** The allocator finds a block in an entry exactly when there is one, and takes the highest. */
  lemma {:induction false} CandidateIsHighest(e: Entry, bytes: nat, alignment: nat, limit: nat)
    requires alignment > 0 && bytes > 0
    ensures Candidate(e, bytes, alignment, limit).Some? <==> RoomIn(e, bytes, alignment, limit)
    ensures Candidate(e, bytes, alignment, limit).Some? ==>
              var p := Candidate(e, bytes, alignment, limit).value;
              && BlockIn(e, p, bytes, alignment, limit)
              && forall q: nat :: BlockIn(e, q, bytes, alignment, limit) ==> q <= p
  {
    forall q: nat | e.kind == USABLE && e.Fits() && BlockIn(e, q, bytes, alignment, limit)
      ensures Candidate(e, bytes, alignment, limit).Some? && q <= Candidate(e, bytes, alignment, limit).value
    {
      var top := Min(e.Top(), limit);
      var p := AlignDown(top - bytes, alignment);
      if p < q {
        MultipleSum(p, q, alignment);
      }
    }
    if Candidate(e, bytes, alignment, limit).Some? {
      assert BlockIn(e, Candidate(e, bytes, alignment, limit).value, bytes, alignment, limit);
    }
  }

  // ----- Type functions of the map

  lemma {:induction false} RetypedNothing(s: seq<Entry>, base: nat, kind: nat, keepFirst: bool)
    requires FirstPageClear(s, keepFirst)
    ensures Retyped(s, s, base, 0, kind, keepFirst)
  {
    forall k: nat, a: nat | Has(s, k, a) ensures k != USABLE || keepFirst || a >= 0x1000 {
      var e :| e in s && e.kind == k && e.Covers(a);
      var i :| 0 <= i < |s| && s[i] == e;
    }
  }

  /** In a well-formed map an address has at most one type. */
  lemma {:induction false} OneType(s: seq<Entry>, k: nat, l: nat, a: nat)
    requires WellFormed(s) && Has(s, k, a) && Has(s, l, a)
    ensures k == l
  {
    var e :| e in s && e.kind == k && e.Covers(a);
    var f :| f in s && f.kind == l && f.Covers(a);
    var i :| 0 <= i < |s| && s[i] == e;
    var j :| 0 <= j < |s| && s[j] == f;
    assert i == j;
  }

  /** All of [base, top) is usable. */
  ghost predicate AllUsable(s: seq<Entry>, base: nat, top: nat) {
    forall a: nat :: base <= a < top ==> Has(s, USABLE, a)
  }

  /** Claiming usable memory and giving it back restores the type of every address. */
  lemma {:induction false} ClaimThenReturn(s: seq<Entry>, r: seq<Entry>, t: seq<Entry>, base: nat, length: nat,
                                           kind: nat, keepFirst: bool)
    requires WellFormed(s) && FirstPageClear(s, keepFirst) && AllUsable(s, base, base + length)
    requires Retyped(s, r, base, length, kind, keepFirst) && Retyped(r, t, base, length, USABLE, keepFirst)
    ensures SameCoverage(s, t)
  {
    RetypedNothing(s, 0, kind, keepFirst);
    forall k: nat, a: nat ensures Has(s, k, a) == Has(t, k, a) {
      if base <= a < base + length && Has(s, k, a) {
        OneType(s, k, USABLE, a);
      }
    }
  }

  // ----- Allocation

  /** How an allocation ends: a block, or one of the panics. */
  datatype AllocResult = Block(base: nat) | OutOfMemory | MapFull | SizeOverflow | Disallowed

  /** The map between calls: well-formed and clean. */
  ghost predicate Ready(map_: MemMap)
    reads map_, map_.m
  {
    map_.Valid() && WellFormed(map_.Entries()) && Final(map_.Entries(), false, map_.keepFirstPage)
  }

  /** Everything in whole pages: usable entries, request, limit. */
  ghost predicate PagesFit(s: seq<Entry>, bytes: nat, limit: nat) {
    bytes % 0x1000 == 0 && UsableAligned(s) && (limit % 0x1000 == 0 || limit + 1 == U64)
  }

  /** The highest block below 4 GiB; above, only if that is allowed and there is none below. */
  ghost predicate TakenBelow(s: seq<Entry>, bytes: nat, alignment: nat, p: nat, top: nat, allowHigh: bool)
    requires alignment > 0
  {
    || (top <= GIB4 && Highest(s, bytes, alignment, GIB4, p) && EndsEntry(s, p, top, GIB4))
    || (&& allowHigh && NoRoom(s, bytes, alignment, GIB4)
        && Highest(s, bytes, alignment, U64 - 1, p) && EndsEntry(s, p, top, U64 - 1))
  }

  /** Reserves [p, end), which lies in usable entry i, and cleans up; false if the map is full. */
  method Reserve(map_: MemMap, ghost i: nat, p: nat, end: nat, kind: nat) returns (ok: bool)
    requires Ready(map_) && i < map_.count && map_.m[i].kind == USABLE && map_.m[i].Fits()
    requires map_.m[i].base <= p <= end <= map_.m[i].Top()
    modifies map_`count, map_.m
    ensures map_.Valid()
    ensures ok ==> Ready(map_) && Retyped(old(map_.Entries()), map_.Entries(), p, end - p, kind, map_.keepFirstPage)
    ensures !ok ==> map_.m.Length <= 2 * old(map_.count)
    ensures map_.count <= 2 * old(map_.count) + 1
  {
    ghost var s := map_.Entries();
    assert s[i] == map_.m[i];
    if end > p {
      assert HoldsIn(s[i], p, end - p, USABLE);
      var claim := map_.AllocRange(p, end - p, kind, USABLE, true, false, false);
      if !claim.Granted? {
        return false;
      }
    } else {
      RetypedNothing(s, p, kind, map_.keepFirstPage);
    }
    ok := map_.Sanitise(false);
  }

  /** One pass over the map from the top, for blocks below the limit.  Besides the address, top is
      the end of the range that was reserved. */
  method AllocBelow(map_: MemMap, bytes: nat, kind: nat, alignment: nat, limit: nat)
    returns (r: AllocResult, ghost top: nat)
    requires Ready(map_) && alignment > 0 && limit < U64
    modifies map_`count, map_.m
    ensures map_.Valid() && (r.Block? || r.OutOfMemory? || r.MapFull?)
    ensures r.Block? ==>
              && Ready(map_) && r.base % alignment == 0 && r.base + bytes <= top <= limit
              && AllUsable(old(map_.Entries()), r.base, top)
              && Retyped(old(map_.Entries()), map_.Entries(), r.base, top - r.base, kind, map_.keepFirstPage)
    ensures r.Block? && alignment == 0x1000 && PagesFit(old(map_.Entries()), bytes, limit) ==> top == r.base + bytes
    ensures r.OutOfMemory? ==> map_.Entries() == old(map_.Entries()) && Ready(map_)
    ensures r.OutOfMemory? && bytes > 0 ==> NoRoom(old(map_.Entries()), bytes, alignment, limit)
    ensures r.MapFull? ==> map_.m.Length <= 2 * old(map_.count)
    ensures map_.count <= 2 * old(map_.count) + 1
    ensures r.Block? && bytes > 0 ==> Highest(old(map_.Entries()), bytes, alignment, limit, r.base)
    ensures r.Block? ==> EndsEntry(old(map_.Entries()), r.base, top, limit)
  {
    ghost var s := map_.Entries();
    var i := map_.count;
    while i > 0
      invariant Ready(map_) && map_.Entries() == s && 0 <= i <= |s|
      invariant bytes > 0 ==> forall k :: i <= k < |s| ==> !RoomIn(s[k], bytes, alignment, limit)
    {
      i := i - 1;
      var e := map_.m[i];
      assert s[i] == e;
      var c := Candidate(e, bytes, alignment, limit);
      if bytes > 0 {
        CandidateIsHighest(e, bytes, alignment, limit);
      }
      if c.Some? {
        if bytes > 0 {
          TopmostIsHighest(s, i, bytes, alignment, limit);
        }
        var end := Min(e.Top(), limit);
        top := end;
        assert EndsEntry(s, c.value, top, limit);
        ReserveFacts(s, i, c.value, end, bytes, alignment, limit, map_.keepFirstPage);
        var ok := Reserve(map_, i, c.value, end, kind);
        return if ok then Block(c.value) else MapFull, top;
      }
    }
    r, top := OutOfMemory, 0;
  }

  /** What an allocation takes: a block as asked for, in a range that was usable and is now of the given type. */
  ghost predicate Takes(s: seq<Entry>, r: seq<Entry>, bytes: nat, kind: nat, alignment: nat, p: nat, top: nat,
                        keepFirst: bool)
    requires alignment > 0
  {
    p % alignment == 0 && p + bytes <= top && AllUsable(s, p, top) && Retyped(s, r, p, top - p, kind, keepFirst)
  }

  /** Below 4 GiB first, anywhere if that is allowed. */
  method AllocUpTo(map_: MemMap, bytes: nat, kind: nat, alignment: nat, allowHigh: bool)
    returns (r: AllocResult, ghost top: nat)
    requires Ready(map_) && alignment > 0
    modifies map_`count, map_.m
    ensures map_.Valid() && (r.Block? || r.OutOfMemory? || r.MapFull?)
    ensures r.Block? ==>
              && Ready(map_) && (top <= GIB4 || (allowHigh && top < U64))
              && Takes(old(map_.Entries()), map_.Entries(), bytes, kind, alignment, r.base, top, map_.keepFirstPage)
    ensures r.Block? && bytes > 0 ==> TakenBelow(old(map_.Entries()), bytes, alignment, r.base, top, allowHigh)
    ensures r.Block? && alignment == 0x1000 && bytes % 0x1000 == 0 && UsableAligned(old(map_.Entries())) ==>
              top == r.base + bytes
    ensures r.OutOfMemory? ==> map_.Entries() == old(map_.Entries()) && Ready(map_)
    ensures r.OutOfMemory? && bytes > 0 ==> NoRoom(old(map_.Entries()), bytes, alignment, Limit(allowHigh))
    ensures r.MapFull? ==> map_.m.Length <= 2 * old(map_.count)
    ensures map_.count <= 2 * old(map_.count) + 1
  {
    r, top := AllocBelow(map_, bytes, kind, alignment, GIB4);
    if r.OutOfMemory? && allowHigh {
      r, top := AllocBelow(map_, bytes, kind, alignment, U64 - 1);
    }
  }

  lemma {:induction false} ReserveFacts(s: seq<Entry>, i: nat, p: nat, top: nat, bytes: nat, alignment: nat, limit: nat,
                                        keepFirst: bool)
    requires i < |s| && alignment > 0 && limit < U64
    requires Candidate(s[i], bytes, alignment, limit) == Some(p) && top == Min(s[i].Top(), limit)
    ensures p % alignment == 0 && s[i].base <= p && p + bytes <= top <= limit && top <= s[i].Top()
    ensures AllUsable(s, p, top)
    ensures alignment == 0x1000 && PagesFit(s, bytes, limit) ==> top == p + bytes
  {
    forall a: nat | p <= a < top ensures Has(s, USABLE, a) {
      assert s[i] in s && s[i].Covers(a);
    }
    if alignment == 0x1000 && PagesFit(s, bytes, limit) {
      assert PageAligned(s[i]);
      assert top % 0x1000 == 0 by {
        MultipleSum(s[i].base, s[i].length, 0x1000);
      }
      ExactPages(top, bytes);
    }
  }

  lemma {:induction false} ExactPages(top: nat, bytes: nat)
    requires top % 0x1000 == 0 && bytes % 0x1000 == 0 && bytes <= top
    ensures AlignDown(top - bytes, 0x1000) == top - bytes
  {
    var p := MultipleOf(top, 0x1000);
    var q := MultipleOf(bytes, 0x1000);
    assert top - bytes == (p - q) * 0x1000;
  }

  // ----- Runs of allocations and frees

  /** A block handed out and not yet returned. */
  datatype Live = Live(base: nat, count: nat, alignment: nat, limit: nat) {
    function Size(): nat
      requires alignment > 0
    {
      Rounded(count, alignment)
    }
  }

  /** A block is aligned and below its limit. */
  predicate Placed(b: Live) {
    b.alignment > 0 && b.base % b.alignment == 0 && b.base + b.Size() <= b.limit
  }

  /** A live block is aligned, below its limit, and none of it is usable memory. */
  ghost predicate Held(s: seq<Entry>, b: Live) {
    && Placed(b)
    && forall a: nat :: b.base <= a < b.base + b.Size() ==> !Has(s, USABLE, a)
  }

  predicate Disjoint(b: Live, c: Live)
    requires b.alignment > 0 && c.alignment > 0
  {
    b.base + b.Size() <= c.base || c.base + c.Size() <= b.base || b.Size() == 0 || c.Size() == 0
  }

  ghost predicate LiveOk(s: seq<Entry>, live: seq<Live>) {
    && (forall i :: 0 <= i < |live| ==> Held(s, live[i]))
    && (forall i, j :: 0 <= i < j < |live| ==> Disjoint(live[i], live[j]))
  }

  lemma {:induction false} AllocKeepsLive(s: seq<Entry>, r: seq<Entry>, live: seq<Live>, b: Live, top: nat, kind: nat,
                                          keepFirst: bool)
    requires LiveOk(s, live) && kind != USABLE && b.alignment > 0 && b.base % b.alignment == 0
    requires b.base + b.Size() <= top <= b.limit && AllUsable(s, b.base, top)
    requires Retyped(s, r, b.base, top - b.base, kind, keepFirst)
    ensures LiveOk(r, live + [b])
  {
    var all := live + [b];
    forall i | 0 <= i < |live| ensures Held(r, live[i]) && Disjoint(live[i], b) {
      assert Held(s, live[i]);
      if b.base < top {
        assert Has(s, USABLE, b.base);
      }
      if b.base <= live[i].base < top {
        assert Has(s, USABLE, live[i].base);
      }
    }
    forall i | 0 <= i < |all| ensures Held(r, all[i]) {
    }
  }

  /** A block shares an address with [base, base + length). */
  predicate Meets(b: Live, base: nat, length: nat)
    requires b.alignment > 0
  {
    b.Size() > 0 && length > 0 && b.base < base + length && base < b.base + b.Size()
  }

  function Without(live: seq<Live>, i: nat): seq<Live>
    requires i < |live|
  {
    live[..i] + live[i + 1..]
  }

  function Skip(i: nat, k: nat): nat {
    if k < i then k else k + 1
  }

  lemma {:induction false} WithoutIndex(live: seq<Live>, i: nat)
    requires i < |live|
    ensures forall k :: 0 <= k < |live| - 1 ==> Without(live, i)[k] == live[Skip(i, k)]
  {
  }

  /** No other block meets the first length bytes from block i on. */
  ghost predicate MeetsNone(live: seq<Live>, i: nat, length: nat)
    requires i < |live| && forall k :: 0 <= k < |live| ==> live[k].alignment > 0
  {
    forall k :: 0 <= k < |live| && k != i ==> !Meets(live[k], live[i].base, length)
  }

  lemma {:induction false} OthersStay(s: seq<Entry>, r: seq<Entry>, live: seq<Live>, i: nat, length: nat,
                                      keepFirst: bool)
    requires LiveOk(s, live) && i < |live| && Retyped(s, r, live[i].base, length, USABLE, keepFirst)
    requires MeetsNone(live, i, length)
    ensures LiveOk(r, Without(live, i))
  {
    var rest := Without(live, i);
    WithoutIndex(live, i);
    forall k | 0 <= k < |rest| ensures Held(r, rest[k]) {
      assert Held(s, live[Skip(i, k)]) && !Meets(live[Skip(i, k)], live[i].base, length);
    }
    forall k, l | 0 <= k < l < |rest| ensures Disjoint(rest[k], rest[l]) {
      assert Disjoint(live[Skip(i, k)], live[Skip(i, l)]);
    }
  }

  lemma {:induction false} MeetingIsLost(s: seq<Entry>, r: seq<Entry>, b: Live, base: nat, length: nat, keepFirst: bool)
    requires b.alignment > 0 && Meets(b, base, length) && (keepFirst || base >= 0x1000)
    requires Retyped(s, r, base, length, USABLE, keepFirst)
    ensures !Held(r, b)
  {
    var a := if b.base < base then base else b.base;
    assert Has(r, USABLE, a);
  }

  /** Freeing a range keeps the other blocks safe exactly if none of them meets it.  pmm_free rounds
      the length up to pages, so this is at stake for blocks whose alignment is less than a page. */
  lemma {:induction false} FreeIsSafeIff(s: seq<Entry>, r: seq<Entry>, live: seq<Live>, i: nat, length: nat,
                                         keepFirst: bool)
    requires LiveOk(s, live) && i < |live| && (keepFirst || live[i].base >= 0x1000)
    requires Retyped(s, r, live[i].base, length, USABLE, keepFirst)
    ensures LiveOk(r, Without(live, i)) <==> MeetsNone(live, i, length)
  {
    if MeetsNone(live, i, length) {
      OthersStay(s, r, live, i, length, keepFirst);
    } else {
      var k :| 0 <= k < |live| && k != i && Meets(live[k], live[i].base, length);
      MeetingIsLost(s, r, live[k], live[i].base, length, keepFirst);
      WithoutIndex(live, i);
      assert Without(live, i)[if k < i then k else k - 1] == live[k];
    }
  }

  /** A block can be returned without touching any other if the rounded length stays within it. */
  lemma {:induction false} FreeKeepsLive(s: seq<Entry>, r: seq<Entry>, live: seq<Live>, i: nat, length: nat,
                                         keepFirst: bool)
    requires LiveOk(s, live) && i < |live| && length <= live[i].Size()
    requires Retyped(s, r, live[i].base, length, USABLE, keepFirst)
    ensures LiveOk(r, Without(live, i))
  {
    forall k | 0 <= k < |live| && k != i ensures !Meets(live[k], live[i].base, length) {
      assert if k < i then Disjoint(live[k], live[i]) else Disjoint(live[i], live[k]);
    }
    OthersStay(s, r, live, i, length, keepFirst);
  }

  /** Whatever other blocks are live, and in whatever map, returning block b leaves them safe. */
  ghost predicate AlwaysSafe(b: Live, keepFirst: bool) {
    forall s, r, live, i: nat ::
      LiveOk(s, live) && i < |live| && live[i] == b
      && Retyped(s, r, b.base, Rounded(b.count, 0x1000), USABLE, keepFirst)
      ==> LiveOk(r, Without(live, i))
  }

  /** The caller's condition: returning a block is safe, for every map and every set of live blocks,
      exactly if its count rounded up to pages is within its count rounded up to its alignment. */
  lemma {:induction false} AlwaysSafeIff(b: Live, keepFirst: bool)
    requires Placed(b) && b.base % 0x1000 == 0
    requires (keepFirst || b.base >= 0x1000) && b.base + Rounded(b.count, 0x1000) < U64
    ensures AlwaysSafe(b, keepFirst) <==> Rounded(b.count, 0x1000) <= b.Size()
  {
    if Rounded(b.count, 0x1000) <= b.Size() {
      forall s, r, live, i: nat | LiveOk(s, live) && i < |live| && live[i] == b
                                  && Retyped(s, r, b.base, Rounded(b.count, 0x1000), USABLE, keepFirst)
        ensures LiveOk(r, Without(live, i))
      {
        FreeKeepsLive(s, r, live, i, Rounded(b.count, 0x1000), keepFirst);
      }
    } else {
      // A second live block right behind b, which returning b gives away.
      var length := Rounded(b.count, 0x1000);
      var s, r := [Entry(b.base, length, BOOTLOADER_RECLAIMABLE)], [Entry(b.base, length, USABLE)];
      var c := OneByte(b.base + b.Size());
      RangeFreed(s, r, b.base, length, keepFirst);
      NothingUsable(s, b);
      NothingUsable(s, c);
      PairLive(s, [b, c]);
      MeetingIsLost(s, r, c, b.base, length, keepFirst);
      assert [b, c][0] == b && Without([b, c], 0)[0] == c;
    }
  }

  lemma {:induction false} OneByte(base: nat) returns (c: Live)
    requires base + 1 < U64
    ensures c.base == base && c.limit == Limit(true) && Placed(c) && c.Size() == 1
  {
    c := Live(base, 1, 1, Limit(true));
  }

  lemma {:induction false} NothingUsable(s: seq<Entry>, b: Live)
    requires Placed(b) && forall a: nat :: !Has(s, USABLE, a)
    ensures Held(s, b)
  {
  }

  lemma {:induction false} PairLive(s: seq<Entry>, live: seq<Live>)
    requires |live| == 2 && Held(s, live[0]) && Held(s, live[1]) && Disjoint(live[0], live[1])
    ensures LiveOk(s, live)
  {
    forall i | 0 <= i < |live| ensures Held(s, live[i]) {
      if i == 0 {
      } else {
        assert i == 1;
      }
    }
  }

  lemma {:induction false} RangeFreed(s: seq<Entry>, r: seq<Entry>, base: u64, length: u64, keepFirst: bool)
    requires s == [Entry(base, length, BOOTLOADER_RECLAIMABLE)] && r == [Entry(base, length, USABLE)]
    requires (keepFirst || base >= 0x1000) && base + length < U64
    ensures Retyped(s, r, base, length, USABLE, keepFirst) && forall a: nat :: !Has(s, USABLE, a)
  {
    forall k: nat, a: nat ensures Has(r, k, a) <==> k == USABLE && base <= a < base + length {
      assert r[0] in r;
    }
  }

  /** A block aligned to pages can always be returned. */
  lemma {:induction false} PageAlignedIsSafe(b: Live, keepFirst: bool)
    requires b.alignment > 0 && b.alignment % 0x1000 == 0
    ensures AlwaysSafe(b, keepFirst)
  {
    MultipleDown(b.Size(), b.alignment, 0x1000);
    if b.Size() < Rounded(b.count, 0x1000) {
      MultipleSum(b.Size(), Rounded(b.count, 0x1000), 0x1000);
    }
    forall s, r, live, i: nat | LiveOk(s, live) && i < |live| && live[i] == b
                                && Retyped(s, r, b.base, Rounded(b.count, 0x1000), USABLE, keepFirst)
      ensures LiveOk(r, Without(live, i))
    {
      FreeKeepsLive(s, r, live, i, Rounded(b.count, 0x1000), keepFirst);
    }
  }

  datatype FreeResult = Freed | Unaligned | FreeOverflow | FreeDisallowed | FreeMapFull

  class Heap {
    const map_: MemMap
    var disallowed: bool
    ghost var live: seq<Live>

    ghost predicate Valid()
      reads this, map_, map_.m
    {
      Ready(map_) && LiveOk(map_.Entries(), live)
    }

    constructor (memmap: MemMap)
      requires Ready(memmap)
      ensures Valid() && live == [] && map_ == memmap && !disallowed
    {
      map_ := memmap;
      disallowed := false;
      live := [];
    }

    /** ext_mem_alloc_type_aligned_mode: below 4 GiB first, anywhere if that is allowed. */
    method Alloc(count: nat, kind: nat, alignment: nat, allowHigh: bool) returns (r: AllocResult, ghost top: nat)
      requires Valid() && alignment > 0 && kind != USABLE
      modifies this`live, map_`count, map_.m
      ensures map_.Valid()
      ensures r.Block? ==>
                && Valid() && r.base % alignment == 0 && r.base + Rounded(count, alignment) <= top
                && (top <= GIB4 || (allowHigh && top < U64))
                && AllUsable(old(map_.Entries()), r.base, top)
                && Retyped(old(map_.Entries()), map_.Entries(), r.base, top - r.base, kind, map_.keepFirstPage)
                && live == old(live) + [Live(r.base, count, alignment, Limit(allowHigh))]
      ensures r.Block? && alignment == 0x1000 && UsableAligned(old(map_.Entries())) ==>
                top == r.base + Rounded(count, alignment)
      ensures r.OutOfMemory? && Rounded(count, alignment) > 0 ==>
                NoRoom(old(map_.Entries()), Rounded(count, alignment), alignment, Limit(allowHigh))
      ensures r.OutOfMemory? || r.SizeOverflow? || r.Disallowed? ==>
                map_.Entries() == old(map_.Entries()) && live == old(live)
      ensures r.MapFull? ==> map_.m.Length <= 2 * old(map_.count)
      ensures map_.count <= 2 * old(map_.count) + 1
      ensures r.Block? && Rounded(count, alignment) > 0 ==>
                TakenBelow(old(map_.Entries()), Rounded(count, alignment), alignment, r.base, top, allowHigh)
      ensures r.SizeOverflow? <==> count + alignment - 1 >= U64
      ensures r.Disallowed? <==> disallowed && count + alignment - 1 < U64
    {
      top := 0;
      if count + alignment - 1 >= U64 {
        return SizeOverflow, top;
      }
      var bytes := Rounded(count, alignment);
      if disallowed {
        return Disallowed, top;
      }
      ghost var s := map_.Entries();
      r, top := AllocUpTo(map_, bytes, kind, alignment, allowHigh);
      if r.Block? {
        ghost var b := Live(r.base, count, alignment, Limit(allowHigh));
        AllocKeepsLive(s, map_.Entries(), live, b, top, kind, map_.keepFirstPage);
        live := live + [b];
      }
    }

    /** pmm_free. */
    method PmmFree(ptr: nat, count: nat) returns (r: FreeResult)
      requires Ready(map_) && ptr < U64
      modifies map_`count, map_.m
      ensures map_.Valid()
      ensures r.Unaligned? <==> ptr % 0x1000 != 0
      ensures r.FreeOverflow? <==> ptr % 0x1000 == 0 && count + 0xfff >= U64
      ensures r.FreeDisallowed? <==> ptr % 0x1000 == 0 && count + 0xfff < U64 && disallowed
      ensures r.Freed? && ptr + Rounded(count, 0x1000) < U64 ==>
                && Ready(map_)
                && Retyped(old(map_.Entries()), map_.Entries(), ptr, Rounded(count, 0x1000), USABLE, map_.keepFirstPage)
      ensures r.Freed? && ptr + Rounded(count, 0x1000) >= U64 ==> map_.Entries() == old(map_.Entries())
      ensures r.FreeMapFull? ==> map_.m.Length <= 2 * old(map_.count)
      ensures map_.count <= 2 * old(map_.count) + 1
    {
      if ptr % 0x1000 != 0 {
        return Unaligned;
      }
      if count + 0xfff >= U64 {
        return FreeOverflow;
      }
      var length := Rounded(count, 0x1000);
      if disallowed {
        return FreeDisallowed;
      }
      RetypedNothing(map_.Entries(), ptr, USABLE, map_.keepFirstPage);
      var claim := map_.AllocRange(ptr, length, USABLE, 0, false, false, true);
      r := if claim.Panic? then FreeMapFull else Freed;
    }

    /** Returning a live block, with the count it was requested with.  The other blocks stay safe if the
        rounded length stays within the block. */
    method FreeLive(ghost i: nat, ptr: nat, count: nat) returns (r: FreeResult)
      requires Valid() && i < |live| && live[i].base == ptr && live[i].count == count && live[i].limit < U64
      modifies this`live, map_`count, map_.m
      ensures map_.Valid() && (r.Unaligned? <==> ptr % 0x1000 != 0)
      ensures !r.Freed? ==> live == old(live)
      ensures r.Freed? ==> live == Without(old(live), i)
      ensures r.Freed? && ptr + Rounded(count, 0x1000) < U64 ==>
                Retyped(old(map_.Entries()), map_.Entries(), ptr, Rounded(count, 0x1000), USABLE, map_.keepFirstPage)
      ensures r.Freed? && Rounded(count, 0x1000) <= old(live)[i].Size() ==> Valid()
      ensures r.FreeOverflow? <==> ptr % 0x1000 == 0 && count + 0xfff >= U64
      ensures r.FreeDisallowed? <==> ptr % 0x1000 == 0 && count + 0xfff < U64 && disallowed
      ensures r.FreeMapFull? ==> map_.m.Length <= 2 * old(map_.count)
      ensures map_.count <= 2 * old(map_.count) + 1
    {
      ghost var s := map_.Entries();
      assert Held(s, live[i]);
      r := PmmFree(ptr, count);
      if r.Freed? {
        if Rounded(count, 0x1000) <= live[i].Size() {
          FreeKeepsLive(s, map_.Entries(), live, i, Rounded(count, 0x1000), map_.keepFirstPage);
        }
        live := Without(live, i);
      }
    }

    /** Allocating whole pages from a page-aligned map and freeing them restores the type of every
        address. */
    method AllocThenFree(count: nat, kind: nat, allowHigh: bool) returns (r: AllocResult, f: FreeResult)
      requires Valid() && kind != USABLE && UsableAligned(map_.Entries())
      modifies this`live, map_`count, map_.m
      ensures map_.Valid()
      ensures r.Block? && f.Freed? ==>
                Valid() && live == old(live) && SameCoverage(old(map_.Entries()), map_.Entries())
    {
      ghost var s := map_.Entries();
      ghost var top;
      f := Unaligned;
      r, top := Alloc(count, kind, 0x1000, allowHigh);
      if r.Block? {
        ghost var t := map_.Entries();
        ghost var n := |live| - 1;
        f := FreeLive(n, r.base, count);
        if f.Freed? {
          assert live == old(live);
          ClaimThenReturn(s, t, map_.Entries(), r.base, Rounded(count, 0x1000), kind, map_.keepFirstPage);
        }
      }
    }
  }
}
