/**
 Runs of the allocator (common/mm/pmm.s2.c) in which freeing a block gives away another that is still
 live, reached by allocations from one range of usable memory.
 */
module AllocatorRuns {
  import opened Allocator
  import opened Arithmetic
  import opened Memmap
  import opened MemmapSpec
  import opened MemmapPasses
  import opened MemmapPunch
  import opened MemoryMap
  import opened Wrappers

  /** A usable entry of a clean map is maximal: the address before it is not usable. */
  lemma {:induction false} UsableIsMaximal(s: seq<Entry>, i: nat)
    requires WellFormed(s) && Clean(s) && i < |s| && s[i].kind == USABLE && s[i].base > 0
    ensures !Has(s, USABLE, s[i].base - 1)
  {
    forall j | 0 <= j < |s| && s[j].kind == USABLE ensures !s[j].Covers(s[i].base - 1) {
      NoneAdjoin(s, j, i);
      assert j != i ==> Apart(s[j], s[i]);
    }
  }

  /** The usable memory is one range. */
  ghost predicate OneRange(s: seq<Entry>, lo: nat, hi: nat) {
    forall a: nat :: Has(s, USABLE, a) <==> lo <= a < hi
  }

  lemma {:induction false} OnlyEntry(s: seq<Entry>, i: nat, j: nat, a: nat)
    requires WellFormed(s) && i < |s| && j < |s| && s[i].Covers(a) && s[j].Covers(a)
    ensures i == j
  {
  }

  /** Then it is one entry, and the only usable one. */
  lemma {:induction false} RangeIsEntry(s: seq<Entry>, lo: nat, hi: nat) returns (i: nat)
    requires WellFormed(s) && Clean(s) && OneRange(s, lo, hi) && lo < hi
    ensures i < |s| && s[i].kind == USABLE && s[i].base == lo && s[i].Top() == hi
    ensures forall j :: 0 <= j < |s| && s[j].kind == USABLE ==> j == i
  {
    assert Has(s, USABLE, hi - 1);
    var e :| e in s && e.kind == USABLE && e.Covers(hi - 1);
    i :| 0 <= i < |s| && s[i] == e;
    assert !Has(s, USABLE, hi);
    assert !e.Covers(hi);
    assert Has(s, USABLE, e.base) by {
      assert e.Covers(e.base);
    }
    if e.base > lo {
      UsableIsMaximal(s, i);
    }
    forall j | 0 <= j < |s| && s[j].kind == USABLE ensures j == i {
      assert s[j].Covers(s[j].base);
      assert Has(s, USABLE, s[j].base);
      OnlyEntry(s, i, j, s[j].base);
    }
  }

  lemma {:induction false} OneEntry(s: seq<Entry>, base: u64, length: u64)
    requires s == [Entry(base, length, USABLE)] && length > 0 && base + length < U64
    ensures WellFormed(s) && Final(s, false, true) && OneRange(s, base, base + length)
  {
    forall a: nat | base <= a < base + length ensures Has(s, USABLE, a) {
      assert s[0] in s && s[0].Covers(a);
    }
  }

  /** Where in the range [lo, hi) a request ends: at hi, or at 4 GiB if it fits below. */
  ghost function EndOf(lo: nat, hi: nat, bytes: nat): nat {
    if hi > GIB4 && lo + bytes <= GIB4 then GIB4 else hi
  }

  /** The request fits the range, ends at its end or at 4 GiB, and may be as high as that. */
  ghost predicate EndFree(lo: nat, hi: nat, bytes: nat, alignment: nat, allowHigh: bool) {
    && 0 < bytes && 0 < alignment && lo + bytes <= EndOf(lo, hi, bytes) && hi < U64
    && (EndOf(lo, hi, bytes) - bytes) % alignment == 0 && (EndOf(lo, hi, bytes) > GIB4 ==> allowHigh)
  }

  lemma {:induction false} EndFits(s: seq<Entry>, i: nat, lo: nat, hi: nat, bytes: nat, alignment: nat, allowHigh: bool)
    requires i < |s| && s[i].kind == USABLE && s[i].base == lo && s[i].Top() == hi && s[i].Fits()
    requires EndFree(lo, hi, bytes, alignment, allowHigh)
    ensures BlockIn(s[i], EndOf(lo, hi, bytes) - bytes, bytes, alignment, Limit(allowHigh))
    ensures lo + bytes <= GIB4 ==> BlockIn(s[i], EndOf(lo, hi, bytes) - bytes, bytes, alignment, GIB4)
    ensures !NoRoom(s, bytes, alignment, Limit(allowHigh))
  {
    assert BlockIn(s[i], EndOf(lo, hi, bytes) - bytes, bytes, alignment, Limit(allowHigh));
    assert RoomIn(s[i], bytes, alignment, Limit(allowHigh));
  }

  /** From one range of usable memory a block is taken at that end. */
  lemma {:induction false} TakenAtEnd(s: seq<Entry>, i: nat, lo: nat, hi: nat, bytes: nat, alignment: nat,
                                      allowHigh: bool, p: nat, top: nat)
    requires i < |s| && s[i].kind == USABLE && s[i].base == lo && s[i].Top() == hi && s[i].Fits()
    requires forall j :: 0 <= j < |s| && s[j].kind == USABLE ==> j == i
    requires EndFree(lo, hi, bytes, alignment, allowHigh)
    requires TakenBelow(s, bytes, alignment, p, top, allowHigh) && p + bytes <= top
    ensures top == EndOf(lo, hi, bytes) && p == top - bytes
  {
    EndFits(s, i, lo, hi, bytes, alignment, allowHigh);
    if lo + bytes <= GIB4 {
      assert RoomIn(s[i], bytes, alignment, GIB4);
    }
  }

  /** What is left of the range. */
  ghost predicate Rest(s: seq<Entry>, lo: nat, hi: nat, from: nat, to: nat) {
    forall a: nat :: Has(s, USABLE, a) <==> lo <= a < hi && !(from <= a < to)
  }

  /** Allocates a block from the only usable range. */
  method TakeEnd(heap: Heap, count: nat, alignment: nat, allowHigh: bool, ghost lo: nat, ghost hi: nat)
    returns (r: AllocResult)
    requires heap.Valid() && !heap.disallowed && 2 * heap.map_.count < heap.map_.m.Length && heap.map_.keepFirstPage
    requires OneRange(heap.map_.Entries(), lo, hi) && 0 < alignment && count + alignment - 1 < U64
    requires EndFree(lo, hi, Rounded(count, alignment), alignment, allowHigh)
    modifies heap`live, heap.map_`count, heap.map_.m
    ensures heap.Valid() && heap.map_.count <= 2 * old(heap.map_.count) + 1
    ensures var n := Rounded(count, alignment);
            var top := EndOf(lo, hi, n);
            && r == Block(top - n) && Rest(heap.map_.Entries(), lo, hi, top - n, top)
            && heap.live == old(heap.live) + [Live(top - n, count, alignment, Limit(allowHigh))]
  {
    ghost var s := heap.map_.Entries();
    ghost var i := RangeIsEntry(s, lo, hi);
    EndFits(s, i, lo, hi, Rounded(count, alignment), alignment, allowHigh);
    ghost var top;
    r, top := heap.Alloc(count, BOOTLOADER_RECLAIMABLE, alignment, allowHigh);
    TakenAtEnd(s, i, lo, hi, Rounded(count, alignment), alignment, allowHigh, r.base, top);
  }

  /** Frees the second of two live blocks; the first lies in the pages freed. */
  method FreeSecond(heap: Heap, base: nat, count: nat) returns (r: FreeResult)
    requires heap.Valid() && !heap.disallowed && heap.map_.keepFirstPage && 2 * heap.map_.count < heap.map_.m.Length
    requires |heap.live| == 2 && heap.live[1].base == base && heap.live[1].count == count && heap.live[1].limit < U64
    requires base % 0x1000 == 0 && base + Rounded(count, 0x1000) < U64 && count + 0xfff < U64
    requires heap.live[0].alignment > 0 && heap.live[0].Size() > 0
    requires base <= heap.live[0].base < base + Rounded(count, 0x1000)
    modifies heap`live, heap.map_`count, heap.map_.m
    ensures r == Freed && heap.map_.Valid() && heap.live == old(heap.live)[..1]
    ensures !LiveOk(heap.map_.Entries(), heap.live)
  {
    ghost var s, first := heap.map_.Entries(), heap.live[..1];
    r := heap.FreeLive(1, base, count);
    assert heap.live == first;
    MeetingIsLost(s, heap.map_.Entries(), first[0], base, Rounded(count, 0x1000), true);
  }

  // ----- The runs

  /** On one side of 4 GiB, where blocks may be. */
  predicate OneSide(base: nat, top: nat, allowHigh: bool) {
    top <= GIB4 || (allowHigh && GIB4 <= base && top < U64)
  }

  /** A heap over one range of usable memory. */
  method NewHeap(base: u64, length: u64) returns (heap: Heap)
    requires 0 < length && base + length < U64
    ensures fresh(heap) && fresh(heap.map_) && fresh(heap.map_.m) && heap.Valid() && heap.live == [] && !heap.disallowed
    ensures heap.map_.keepFirstPage && heap.map_.count == 1 && heap.map_.m.Length == 256
    ensures OneRange(heap.map_.Entries(), base, base + length)
  {
    var one := new MemMap(256, [Entry(base, length, USABLE)], true);
    OneEntry(one.Entries(), base, length);
    heap := new Heap(one);
  }

  /** On one side of 4 GiB a block is taken at the end of the range. */
  method TakeSide(heap: Heap, count: nat, alignment: nat, allowHigh: bool, ghost lo: nat, ghost mid: nat)
    returns (r: AllocResult)
    requires heap.Valid() && !heap.disallowed && 2 * heap.map_.count < heap.map_.m.Length && heap.map_.keepFirstPage
    requires 0 < count && 0 < alignment && count + alignment - 1 < U64 && lo <= mid && mid % alignment == 0
    requires OneRange(heap.map_.Entries(), lo, mid + Rounded(count, alignment))
    requires OneSide(lo, mid + Rounded(count, alignment), allowHigh)
    modifies heap`live, heap.map_`count, heap.map_.m
    ensures heap.Valid() && heap.map_.count <= 2 * old(heap.map_.count) + 1
    ensures r == Block(mid) && OneRange(heap.map_.Entries(), lo, mid)
    ensures heap.live == old(heap.live) + [Live(mid, count, alignment, Limit(allowHigh))]
  {
    ghost var hi := mid + Rounded(count, alignment);
    r := TakeEnd(heap, count, alignment, allowHigh, lo, hi);
  }

  /** Two blocks from a new heap, the upper first; the lower one begins the range. */
  method TakeTwo(base: nat, mid: nat, count: nat, alignment: nat, other: nat, otherAlignment: nat, allowHigh: bool)
    returns (heap: Heap, upper: AllocResult, lower: AllocResult)
    requires 0 < count && 0 < alignment && count + alignment - 1 < U64 && base % alignment == 0
    requires 0 < other && 0 < otherAlignment && other + otherAlignment - 1 < U64 && mid % otherAlignment == 0
    requires mid == base + Rounded(count, alignment) && OneSide(base, mid + Rounded(other, otherAlignment), allowHigh)
    ensures heap.Valid() && !heap.disallowed && heap.map_.keepFirstPage && fresh(heap) && fresh(heap.map_)
            && fresh(heap.map_.m)
    ensures heap.map_.count <= 7 && heap.map_.m.Length == 256 && upper == Block(mid) && lower == Block(base)
    ensures |heap.live| == 2 && heap.live[0] == Live(mid, other, otherAlignment, Limit(allowHigh))
    ensures heap.live[1] == Live(base, count, alignment, Limit(allowHigh))
  {
    heap := NewHeap(base, Rounded(count, alignment) + Rounded(other, otherAlignment));
    upper := TakeSide(heap, other, otherAlignment, allowHigh, base, mid);
    lower := TakeSide(heap, count, alignment, allowHigh, base, base);
  }

  /** For every block that does not meet the caller's condition, on one side of 4 GiB: allocate another
      right behind it, then the block, and free it by its address and count.  The other, still live, is
      then usable memory. */
  method GivesAway(base: nat, count: nat, alignment: nat, other: nat, otherAlignment: nat, allowHigh: bool)
    returns (heap: Heap, upper: AllocResult, lower: AllocResult, freed: FreeResult)
    requires 0 < alignment && 0 < otherAlignment && base % alignment == 0 && base % 0x1000 == 0
    requires count + alignment - 1 < U64 && count + 0xfff < U64 && 0 < other && other + otherAlignment - 1 < U64
    requires (base + Rounded(count, alignment)) % otherAlignment == 0
    requires Rounded(count, alignment) < Rounded(count, 0x1000) && base + Rounded(count, 0x1000) < U64
    requires OneSide(base, base + Rounded(count, alignment) + Rounded(other, otherAlignment), allowHigh)
    ensures upper == Block(base + Rounded(count, alignment)) && lower == Block(base) && freed == Freed
    ensures heap.map_.Valid() && !LiveOk(heap.map_.Entries(), heap.live)
    ensures heap.live == [Live(base + Rounded(count, alignment), other, otherAlignment, Limit(allowHigh))]
  {
    CountIsPositive(count, alignment);
    var mid := base + Rounded(count, alignment);
    heap, upper, lower := TakeTwo(base, mid, count, alignment, other, otherAlignment, allowHigh);
    freed := FreeSecond(heap, base, count);
  }

  lemma {:induction false} CountIsPositive(count: nat, alignment: nat)
    requires 0 < alignment && Rounded(count, alignment) < Rounded(count, 0x1000)
    ensures 0 < count <= Rounded(count, alignment)
  {
  }

  /** Everything below 4 GiB of a range across it, taken as whole pages. */
  method TakeLower(heap: Heap, base: nat, ghost hi: nat)
    requires heap.Valid() && !heap.disallowed && heap.live == [] && heap.map_.keepFirstPage
    requires heap.map_.count == 1 && heap.map_.m.Length == 256 && OneRange(heap.map_.Entries(), base, hi)
    requires base % 0x1000 == 0 && base < GIB4 < hi < U64
    modifies heap`live, heap.map_`count, heap.map_.m
    ensures heap.Valid() && heap.map_.count <= 3 && OneRange(heap.map_.Entries(), GIB4, hi)
    ensures heap.live == [Live(base, GIB4 - base, 0x1000, GIB4)] && heap.live[0].Size() == GIB4 - base
  {
    var lower := GIB4 - base;
    WholePages(base, lower, hi);
    var r := TakeEnd(heap, lower, 0x1000, false, base, hi);
  }

  lemma {:induction false} WholePages(base: nat, lower: nat, hi: nat)
    requires base % 0x1000 == 0 && base < GIB4 < hi < U64 && lower == GIB4 - base
    ensures Rounded(lower, 0x1000) == lower
    ensures EndOf(base, hi, lower) == GIB4 && EndFree(base, hi, lower, 0x1000, false)
  {
  }

  /** Returns the first of two live blocks, which is whole pages right below the usable range. */
  method FreeLower(heap: Heap, base: nat, ghost top: nat)
    requires heap.Valid() && !heap.disallowed && heap.map_.keepFirstPage && 2 * heap.map_.count < heap.map_.m.Length
    requires base % 0x1000 == 0 && base < GIB4 < top && OneRange(heap.map_.Entries(), GIB4, top)
    requires |heap.live| == 2 && heap.live[0] == Live(base, GIB4 - base, 0x1000, GIB4)
    modifies heap`live, heap.map_`count, heap.map_.m
    ensures heap.Valid() && heap.map_.count <= 2 * old(heap.map_.count) + 1
    ensures OneRange(heap.map_.Entries(), base, top) && heap.live == old(heap.live)[1..]
  {
    var lower := GIB4 - base;
    ghost var rest := heap.live[1..];
    WholePages(base, lower, GIB4 + 1);
    var r := heap.FreeLive(0, base, lower);
    assert heap.live == rest;
  }

  /** From a range across 4 GiB a block is taken at the end, though there is room below: what is below
      is allocated first and returned after. */
  method TakeUpper(heap: Heap, base: nat, count: nat, alignment: nat, ghost top: nat) returns (r: AllocResult)
    requires heap.Valid() && !heap.disallowed && heap.live == [] && heap.map_.keepFirstPage
    requires heap.map_.count == 1 && heap.map_.m.Length == 256
    requires 0 < count && 0 < alignment && count + alignment - 1 < U64 && top % alignment == 0
    requires OneRange(heap.map_.Entries(), base, top + Rounded(count, alignment))
    requires base % 0x1000 == 0 && base < GIB4 < top && top + Rounded(count, alignment) < U64
    modifies heap`live, heap.map_`count, heap.map_.m
    ensures heap.Valid() && heap.map_.count <= 15 && r == Block(top) && OneRange(heap.map_.Entries(), base, top)
    ensures heap.live == [Live(top, count, alignment, Limit(true))]
  {
    TakeLower(heap, base, top + Rounded(count, alignment));
    r := TakeSide(heap, count, alignment, true, GIB4, top);
    FreeLower(heap, base, top);
  }

  /** The same for every block that lies across 4 GiB. */
  method GivesAwayAcross(base: nat, count: nat, alignment: nat, other: nat, otherAlignment: nat)
    returns (heap: Heap, upper: AllocResult, lower: AllocResult, freed: FreeResult)
    requires 0 < alignment && 0 < otherAlignment && base % alignment == 0 && base % 0x1000 == 0
    requires count + alignment - 1 < U64 && count + 0xfff < U64 && 0 < other && other + otherAlignment - 1 < U64
    requires (base + Rounded(count, alignment)) % otherAlignment == 0
    requires Rounded(count, alignment) < Rounded(count, 0x1000) && base + Rounded(count, 0x1000) < U64
    requires base < GIB4 < base + Rounded(count, alignment)
    requires base + Rounded(count, alignment) + Rounded(other, otherAlignment) < U64
    ensures upper == Block(base + Rounded(count, alignment)) && lower == Block(base) && freed == Freed
    ensures heap.map_.Valid() && !LiveOk(heap.map_.Entries(), heap.live)
    ensures heap.live == [Live(base + Rounded(count, alignment), other, otherAlignment, Limit(true))]
  {
    ghost var n := Rounded(count, alignment);
    heap := NewHeap(base, Rounded(count, alignment) + Rounded(other, otherAlignment));
    upper := TakeUpper(heap, base, other, otherAlignment, base + n);
    lower := TakeEnd(heap, count, alignment, true, base, base + n);
    freed := FreeSecond(heap, base, count);
  }

  /** The two runs reach every block that an allocation can place and that does not meet the condition,
      with a neighbour of one byte. */
  lemma {:induction false} EverySide(base: nat, count: nat, alignment: nat, allowHigh: bool)
    requires 0 < alignment && base % 0x1000 == 0 && base + Rounded(count, alignment) <= Limit(allowHigh)
    requires Rounded(count, alignment) < Rounded(count, 0x1000) && base + Rounded(count, 0x1000) < U64
    ensures || OneSide(base, base + Rounded(count, alignment) + 1, allowHigh)
            || (allowHigh && base < GIB4 < base + Rounded(count, alignment))
  {
    CountIsPositive(count, alignment);
  }

  lemma {:induction false} SelfRounded(d: nat)
    requires d > 0
    ensures Rounded(d, d) == d
  {
    IsMultiple(1, d);
    MultipleSum(d, Rounded(d, d), d);
  }

  /** An instance: two blocks of one size in one page, the upper allocated first. */
  method FreeOfPartOfPage(d: nat) returns (heap: Heap, upper: AllocResult, lower: AllocResult, freed: FreeResult)
    requires 0 < d && 2 * d <= 0x1000 && 0x1000 % d == 0
    ensures upper == Block(0x1000 + d) && lower == Block(0x1000) && freed == Freed
    ensures heap.map_.Valid() && heap.live == [Live(0x1000 + d, d, d, GIB4)]
    ensures !LiveOk(heap.map_.Entries(), heap.live)
  {
    SelfRounded(d);
    IsMultiple(1, d);
    MultipleSum(0x1000, d, d);
    heap, upper, lower, freed := GivesAway(0x1000, d, d, d, d, false);
  }
}
