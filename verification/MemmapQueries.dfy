/**
 The two questions other code asks of a memory map: whether a range is backed by RAM
 (check_usable_memory in common/mm/pmm.c), and how far usable memory reaches from 0 and from 1 MiB
 (mmap_get_info in common/mm/pmm.s2.c).
 */
module MemmapQueries {
  import opened Memmap
  import opened Wrappers

  const MIB: nat := 0x10_0000

  // ----- Ranges of addresses as sets

  predicate InRange(a: nat, base: nat, top: nat) {
    base <= a < top
  }

  function Range(base: nat, top: nat): set<nat> {
    set a: nat | base <= a < top && InRange(a, base, top)
  }

  lemma {:induction false} RangeSize(base: nat, top: nat)
    requires base <= top
    ensures |Range(base, top)| == top - base
    decreases top - base
  {
    if base < top {
      RangeSize(base, top - 1);
      assert Range(base, top) == Range(base, top - 1) + {top - 1};
    } else {
      assert Range(base, top) == {};
    }
  }

  lemma {:induction false} SubsetSize<T>(x: set<T>, y: set<T>)
    requires x <= y
    ensures |x| <= |y|
    ensures |x| == |y| <==> x == y
  {
    assert y == x + (y - x);
  }

  // ----- check_usable_memory

  predicate IsRam(kind: nat, uefi: bool) {
    kind == USABLE || (uefi && kind == EFI_RECLAIMABLE) || kind == BOOTLOADER_RECLAIMABLE || kind == KERNEL_AND_MODULES
  }

  /** One of the first n entries says that there is RAM at a. */
  ghost predicate RamAt(mmap: seq<Entry>, n: nat, uefi: bool, a: nat)
    requires n <= |mmap|
  {
    exists k :: 0 <= k < n && mmap[k].Covers(a)
                && (mmap[k].kind in {1, 0x1000, 0x1001} || (uefi && mmap[k].kind == 0x2000))
  }

  /** No address belongs to two RAM entries. */
  ghost predicate RamDisjoint(mmap: seq<Entry>, uefi: bool) {
    forall j, k, a: nat :: 0 <= j < k < |mmap| && IsRam(mmap[j].kind, uefi) && IsRam(mmap[k].kind, uefi) ==>
      !(mmap[j].Covers(a) && mmap[k].Covers(a))
  }

  predicate FullOverlap(base1: nat, top1: nat, base2: nat, top2: nat) {
    base1 >= base2 && base1 < top2 && top1 > base2 && top1 <= top2
  }

  /** The addresses of a range found to be RAM so far. */
  ghost function Found(mmap: seq<Entry>, n: nat, uefi: bool, base: nat, top: nat): set<nat>
    requires n <= |mmap|
  {
    set a: nat | a in Range(base, top) && RamAt(mmap, n, uefi, a)
  }

  lemma {:induction false} FoundIsBounded(mmap: seq<Entry>, n: nat, uefi: bool, base: nat, top: nat)
    requires n <= |mmap| && base <= top
    ensures |Found(mmap, n, uefi, base, top)| <= top - base
    ensures |Found(mmap, n, uefi, base, top)| == top - base <==> forall a :: base <= a < top ==> RamAt(mmap, n, uefi, a)
  {
    RangeSize(base, top);
    SubsetSize(Found(mmap, n, uefi, base, top), Range(base, top));
    if |Found(mmap, n, uefi, base, top)| == top - base {
      forall a | base <= a < top ensures RamAt(mmap, n, uefi, a) {
        assert a in Range(base, top);
      }
    }
  }

  /** The addresses of a range that an entry says are RAM. */
  ghost function Piece(e: Entry, uefi: bool, base: nat, top: nat): set<nat> {
    if IsRam(e.kind, uefi) && e.Fits() then Range(Max(e.base, base), Min(e.Top(), top)) else {}
  }

  lemma {:induction false} FoundAt(mmap: seq<Entry>, n: nat, uefi: bool, base: nat, top: nat, a: nat)
    requires n < |mmap| && RamDisjoint(mmap, uefi)
    ensures a in Found(mmap, n + 1, uefi, base, top) <==>
            a in Found(mmap, n, uefi, base, top) || a in Piece(mmap[n], uefi, base, top)
    ensures !(a in Found(mmap, n, uefi, base, top) && a in Piece(mmap[n], uefi, base, top))
  {
    assert mmap[n].Covers(a) && InRange(a, base, top) <==>
             mmap[n].Fits() && InRange(a, Max(mmap[n].base, base), Min(mmap[n].Top(), top));
  }

  /** What the next entry adds. */
  lemma {:induction false} FoundGrows(mmap: seq<Entry>, n: nat, uefi: bool, base: nat, top: nat)
    requires n < |mmap| && RamDisjoint(mmap, uefi)
    ensures |Found(mmap, n + 1, uefi, base, top)| ==
              |Found(mmap, n, uefi, base, top)| + |Piece(mmap[n], uefi, base, top)|
  {
    var was, now := Found(mmap, n, uefi, base, top), Found(mmap, n + 1, uefi, base, top);
    var extra := Piece(mmap[n], uefi, base, top);
    forall a: nat ensures (a in now <==> a in was || a in extra) && !(a in was && a in extra) {
      FoundAt(mmap, n, uefi, base, top, a);
    }
    assert now == was + extra;
    assert was !! extra;
  }

  lemma {:induction false} PieceSize(e: Entry, uefi: bool, base: nat, top: nat)
    requires base < top
    ensures |Piece(e, uefi, base, top)| ==
            if IsRam(e.kind, uefi) && e.Fits() && e.base < top && e.Top() > base
            then Min(e.Top(), top) - Max(e.base, base) else 0
  {
    if IsRam(e.kind, uefi) && e.Fits() {
      if e.base < top && e.Top() > base {
        RangeSize(Max(e.base, base), Min(e.Top(), top));
      } else {
        assert Range(Max(e.base, base), Min(e.Top(), top)) == {};
      }
    }
  }

  /** So much of a range is not found to be RAM after n entries. */
  ghost predicate Counted(mmap: seq<Entry>, n: nat, uefi: bool, base: nat, top: nat, remaining: nat) {
    n <= |mmap| && |Found(mmap, n, uefi, base, top)| + remaining == top - base
  }

  lemma {:induction false} CountStep(mmap: seq<Entry>, n: nat, uefi: bool, base: nat, top: nat, remaining: nat)
    requires n < |mmap| && RamDisjoint(mmap, uefi) && base < top && Counted(mmap, n, uefi, base, top, remaining)
    ensures var e := mmap[n];
            if IsRam(e.kind, uefi) && e.Fits() && e.base < top && e.Top() > base
            then var found := Min(e.Top(), top) - Max(e.base, base);
                 found <= remaining && Counted(mmap, n + 1, uefi, base, top, remaining - found)
            else Counted(mmap, n + 1, uefi, base, top, remaining)
  {
    FoundGrows(mmap, n, uefi, base, top);
    PieceSize(mmap[n], uefi, base, top);
    FoundIsBounded(mmap, n + 1, uefi, base, top);
  }

  /** Nothing remains exactly if all of the range is RAM. */
  lemma {:induction false} CountedAll(mmap: seq<Entry>, n: nat, uefi: bool, base: nat, top: nat, remaining: nat)
    requires base < top && Counted(mmap, n, uefi, base, top, remaining) && (remaining == 0 || n == |mmap|)
    ensures remaining == 0 <==> forall a: nat :: base <= a < top ==> RamAt(mmap, |mmap|, uefi, a)
  {
    FoundIsBounded(mmap, n, uefi, base, top);
    forall a: nat | RamAt(mmap, n, uefi, a) ensures RamAt(mmap, |mmap|, uefi, a) {
    }
  }

  /** The address lies in a RAM entry and is not its first. */
  predicate StrictlyInside(e: Entry, uefi: bool, a: nat) {
    IsRam(e.kind, uefi) && e.Fits() && e.base < a < e.Top()
  }

  method CheckUsableMemory(mmap: seq<Entry>, base: u64, top: u64, uefi: bool) returns (r: bool)
    ensures base < top && RamDisjoint(mmap, uefi) ==>
              (r <==> forall a: nat :: base <= a < top ==> RamAt(mmap, |mmap|, uefi, a))
    ensures base == top ==> (r <==> exists k :: 0 <= k < |mmap| && StrictlyInside(mmap[k], uefi, base))
  {
    var remaining: nat := (top - base) % U64;
    ghost var counting := base < top && RamDisjoint(mmap, uefi);
    assert Found(mmap, 0, uefi, base, top) == {};
    var i := 0;
    while i < |mmap|
      invariant i <= |mmap|
      invariant counting ==> Counted(mmap, i, uefi, base, top, remaining) && remaining > 0
      invariant base == top ==> remaining == 0
      invariant base == top ==> forall k :: 0 <= k < i ==> !StrictlyInside(mmap[k], uefi, base)
    {
      var e := mmap[i];
      if counting {
        CountStep(mmap, i, uefi, base, top, remaining);
      }
      if IsRam(e.kind, uefi) && e.Fits() {
        if FullOverlap(base, top, e.base, e.Top()) {
          return true;
        }
        if e.base < top && e.Top() > base {
          var bottom := Max(e.base, base);
          var upper := Min(e.Top(), top);
          remaining := (remaining - (upper - bottom)) % U64;
          if remaining == 0 {
            if counting {
              CountedAll(mmap, i + 1, uefi, base, top, 0);
            }
            return true;
          }
        }
      }
      i := i + 1;
    }
    if counting {
      CountedAll(mmap, |mmap|, uefi, base, top, remaining);
    }
    return false;
  }

  // ----- mmap_get_info

  ghost predicate UsableAt(mmap: seq<Entry>, a: nat) {
    exists k :: 0 <= k < |mmap| && mmap[k].kind == USABLE && mmap[k].Covers(a)
  }

  /** a is the first address from start on that no usable entry covers. */
  ghost predicate FirstHole(mmap: seq<Entry>, start: nat, a: nat) {
    start <= a && !UsableAt(mmap, a) && forall x: nat :: start <= x < a ==> UsableAt(mmap, x)
  }

  /** One look at every entry. */
  method FrontierPass(mmap: seq<Entry>, start: nat, reached: nat, start': nat, reached': nat)
    returns (lower: nat, upper: nat, progress: bool)
    requires start <= reached < U64 && start' <= reached' < U64
    requires forall x: nat :: start <= x < reached ==> UsableAt(mmap, x)
    requires forall x: nat :: start' <= x < reached' ==> UsableAt(mmap, x)
    ensures reached <= lower < U64 && reached' <= upper < U64
    ensures progress <==> lower > reached || upper > reached'
    ensures forall x: nat :: start <= x < lower ==> UsableAt(mmap, x)
    ensures forall x: nat :: start' <= x < upper ==> UsableAt(mmap, x)
    ensures !progress ==> !UsableAt(mmap, lower) && !UsableAt(mmap, upper)
  {
    lower, upper, progress := reached, reached', false;
    var i := 0;
    while i < |mmap|
      invariant i <= |mmap| && reached <= lower < U64 && reached' <= upper < U64
      invariant progress <==> lower > reached || upper > reached'
      invariant forall x: nat :: start <= x < lower ==> UsableAt(mmap, x)
      invariant forall x: nat :: start' <= x < upper ==> UsableAt(mmap, x)
      invariant !progress ==>
                  forall k :: 0 <= k < i && mmap[k].kind == USABLE ==> !mmap[k].Covers(lower) && !mmap[k].Covers(upper)
    {
      var e := mmap[i];
      if e.kind == USABLE && e.Fits() {
        assert forall x: nat :: e.base <= x < e.Top() ==> mmap[i].Covers(x);
        if e.base <= lower && e.Top() > lower {
          lower := e.Top();
          progress := true;
        }
        if e.base <= upper && e.Top() > upper {
          upper := e.Top();
          progress := true;
        }
      }
      i := i + 1;
    }
  }

  /** mmap_get_info: memory below 1 MiB and above it, up to the first hole. */
  method MmapGetInfo(mmap: seq<Entry>) returns (lowermem: nat, uppermem: nat)
    ensures lowermem <= 0x10_0000 && forall x: nat :: x < lowermem ==> UsableAt(mmap, x)
    ensures lowermem < 0x10_0000 ==> FirstHole(mmap, 0, lowermem)
    ensures FirstHole(mmap, 0x10_0000, 0x10_0000 + uppermem)
  {
    var lower, upper := 0, MIB;
    var progress := true;
    while progress
      invariant lower < U64 && MIB <= upper < U64
      invariant forall x: nat :: 0 <= x < lower ==> UsableAt(mmap, x)
      invariant forall x: nat :: MIB <= x < upper ==> UsableAt(mmap, x)
      invariant !progress ==> !UsableAt(mmap, lower) && !UsableAt(mmap, upper)
      decreases 2 * U64 - lower - upper, progress
    {
      lower, upper, progress := FrontierPass(mmap, 0, lower, MIB, upper);
    }
    if lower > MIB {
      lower := MIB;
    }
    return lower, upper - MIB;
  }
}
