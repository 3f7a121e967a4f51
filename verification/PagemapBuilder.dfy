/**
 Mapping ranges (map_pages in common/mm/vmm.c) and the direct map of all memory that
 build_pagemap makes from the memory map (common/protos/limine.c).
 */
module PagemapBuilder {
  import opened Arithmetic
  import opened PageTables
  import Memmap
  import opened Wrappers

  /** The two panics of MapPage, and the panic on a misaligned request. */
  datatype Result = Misaligned | Done(outcome: Outcome) {
    predicate Ok() { this == Done(Mapped) }
  }

  const WRITE_ONLY := Flags(true, false, false)

  // ----- map_pages

  /** Mapping n pages of 4 KiB one after the other. */
  ghost function Singly(view: View, base: nat, n: nat, phys: nat, flags: Flags): View {
    if n == 0 then view
    else Put(Singly(view, base, n - 1, phys, flags), base + (n - 1) * 0x1000, 0x1000, phys + (n - 1) * 0x1000, flags)
  }

  lemma {:induction false} SinglyIsPut(view: View, base: nat, n: nat, phys: nat, flags: Flags)
    ensures Singly(view, base, n, phys, flags) == Put(view, base, n * 0x1000, phys, flags)
  {
    if n == 0 {
      PutNothing(view, base, phys, flags);
    } else {
      SinglyIsPut(view, base, n - 1, phys, flags);
      PutExtend(view, base, (n - 1) * 0x1000, 0x1000, phys, flags);
    }
  }

  /** A framebuffer page is mapped somewhere in [base, base + bytes). */
  ghost predicate FbMapped(view: View, base: nat, bytes: nat) {
    exists w: nat :: base <= w < base + bytes && w in view && view[w].flags.fb
  }

  lemma {:induction false} FbInIsMapped(mem: Memory, r: Root, base: nat, bytes: nat, k: nat)
    requires r.levels > 0 && FbIn(mem, r, base, bytes, k) && base + bytes <= Space(r)
    ensures FbMapped(ViewOf(mem, r), base, bytes)
  {
    var w: nat :| base <= w < base + bytes && FbLeafAbove(mem, r, w, k);
    var l: nat :| k < l < r.levels && FbOn(mem, r, w, l);
    WalkFromTable(mem, r, w, l);
    assert w in ViewOf(mem, r);
  }

  /** The page size map_pages picks at an offset with the given number of bytes left. */
  function PageFor(virt: nat, phys: nat, left: nat): PageSize {
    if Offset(phys, 2) == 0 && Offset(virt, 2) == 0 && left >= 0x4000_0000 then Size1GiB
    else if Offset(phys, 1) == 0 && Offset(virt, 1) == 0 && left >= 0x20_0000 then Size2MiB
    else Size4KiB
  }

  /** It is the largest that fits: both addresses are multiples of its size, and so much is left. */
  lemma {:induction false} PageForIsLargest(virt: nat, phys: nat, left: nat)
    ensures var bytes := match PageFor(virt, phys, left)
                         case Size4KiB => 0x1000 case Size2MiB => 0x20_0000 case Size1GiB => 0x4000_0000;
            && (virt % 0x1000 == 0 && phys % 0x1000 == 0 && left >= 0x1000 ==>
                  virt % bytes == 0 && phys % bytes == 0 && bytes <= left)
            && forall larger :: larger in {0x20_0000, 0x4000_0000} && bytes < larger <= left ==>
                 virt % larger != 0 || phys % larger != 0
  {
  }

  /** One page, with its panic in terms of what is mapped. */
  method MapSized(pm: Pagemap, virt: nat, phys: nat, flags: Flags, size: PageSize, ghost at: nat) returns (o: Outcome)
    requires pm.Valid() && Offset(virt, Rank(size)) == 0 && LeafOk(phys, Rank(size)) && at == Wrap(virt, pm.root)
    modifies pm
    ensures o.Mapped? ==>
              pm.Valid() && MappedTo(old(pm.View()), pm.View(), at, PageBytes(Rank(size)), phys, pm.Effective(flags))
    ensures o.OutOfMemory? ==> pm.pool == []
    ensures o.SplitOfFramebuffer? ==> FbMapped(old(pm.View()), at, PageBytes(Rank(size)))
  {
    ghost var m0 := pm.mem;
    PageInSpace(virt, Rank(size), pm.root);
    o := pm.MapPage(virt, phys, flags, size);
    if o.SplitOfFramebuffer? {
      FbInIsMapped(m0, pm.root, at, PageBytes(Rank(size)), pm.LeafLevel(size));
    }
  }

  /** The first i bytes of a range are mapped. */
  ghost predicate MappedTo(view0: View, view: View, base: nat, i: nat, phys: nat, flags: Flags) {
    view == Put(view0, base, i, phys, flags)
  }

  lemma {:induction false} MappedFurther(view0: View, view1: View, view2: View, base: nat, i: nat, step: nat, phys: nat,
                                         flags: Flags)
    requires MappedTo(view0, view1, base, i, phys, flags) && MappedTo(view1, view2, base + i, step, phys + i, flags)
    ensures MappedTo(view0, view2, base, i + step, phys, flags)
  {
    PutTwice(view0, view1, view2, base, i, step, phys, flags);
  }

  lemma {:induction false} FbMappedEarlier(view0: View, view1: View, base: nat, i: nat, step: nat, count: nat,
                                           phys: nat, flags: Flags)
    requires MappedTo(view0, view1, base, i, phys, flags) && FbMapped(view1, base + i, step) && i + step <= count
    ensures FbMapped(view0, base, count)
  {
    var w: nat :| base + i <= w < base + i + step && w in view1 && view1[w].flags.fb;
    assert w in view0;
  }

  /** One iteration: a page at offset i of a range. */
  method MapPiece(pm: Pagemap, virt: nat, phys: nat, flags: Flags, size: PageSize, i: nat,
                  ghost count: nat, ghost base: nat, ghost view0: View) returns (o: Outcome)
    requires pm.Valid() && Offset(virt + i, Rank(size)) == 0 && LeafOk(phys + i, Rank(size))
    requires base + i == Wrap(virt + i, pm.root) && i + PageBytes(Rank(size)) <= count
    requires MappedTo(view0, pm.View(), base, i, phys, pm.Effective(flags))
    modifies pm
    ensures o.Mapped? ==>
              pm.Valid() && MappedTo(view0, pm.View(), base, i + PageBytes(Rank(size)), phys, pm.Effective(flags))
    ensures o.OutOfMemory? ==> pm.pool == []
    ensures o.SplitOfFramebuffer? ==> FbMapped(view0, base, count)
  {
    ghost var view1 := pm.View();
    o := MapSized(pm, virt + i, phys + i, flags, size, base + i);
    if o.SplitOfFramebuffer? {
      FbMappedEarlier(view0, view1, base, i, PageBytes(Rank(size)), count, phys, pm.Effective(flags));
    } else if o.Mapped? {
      MappedFurther(view0, view1, pm.View(), base, i, PageBytes(Rank(size)), phys, pm.Effective(flags));
    }
  }

  /** There is a piece at offset i, and everything is a whole number of pages. */
  predicate PiecesLeft(virt: nat, phys: nat, count: nat, i: nat) {
    i < count && virt % 0x1000 == 0 && phys % 0x1000 == 0 && count % 0x1000 == 0 && i % 0x1000 == 0
  }

  method MapPages(pm: Pagemap, virt: nat, phys: nat, flags: Flags, count: nat) returns (r: Result)
    requires pm.Valid()
    requires Wrap(virt, pm.root) + count <= Space(pm.root) && phys + count <= PHYS_LIMIT
    modifies pm
    ensures r.Misaligned? <==> virt % 0x1000 != 0 || phys % 0x1000 != 0 || count % 0x1000 != 0
    ensures r.Ok() ==> pm.Valid()
    ensures r.Ok() ==>
              pm.View() == Singly(old(pm.View()), Wrap(virt, pm.root), count / 0x1000, phys, pm.Effective(flags))
    ensures r.Ok() ==>
              pm.View() == Put(old(pm.View()),
                               virt % if pm.root.levels == 5 then 0x200_0000_0000_0000 else 0x1_0000_0000_0000,
                               count, phys, Flags(flags.write, flags.noexec, flags.fb && pm.patSupported))
    ensures r == Done(OutOfMemory) ==> pm.pool == []
    ensures r == Done(SplitOfFramebuffer) ==> FbMapped(old(pm.View()), Wrap(virt, pm.root), count)
  {
    if virt % 0x1000 != 0 || phys % 0x1000 != 0 || count % 0x1000 != 0 {
      return Misaligned;
    }
    var o := MapPieces(pm, virt, phys, flags, count, Wrap(virt, pm.root));
    r := Done(o);
    SinglyIsPut(old(pm.View()), Wrap(virt, pm.root), count / 0x1000, phys, pm.Effective(flags));
  }

  /** The loop of map_pages. */
  method MapPieces(pm: Pagemap, virt: nat, phys: nat, flags: Flags, count: nat, ghost base: nat) returns (o: Outcome)
    requires pm.Valid() && base == Wrap(virt, pm.root) && base + count <= Space(pm.root) && phys + count <= PHYS_LIMIT
    requires count > 0 ==> PiecesLeft(virt, phys, count, 0)
    modifies pm
    ensures o.Mapped? ==> pm.Valid() && MappedTo(old(pm.View()), pm.View(), base, count, phys, pm.Effective(flags))
    ensures o.OutOfMemory? ==> pm.pool == []
    ensures o.SplitOfFramebuffer? ==> FbMapped(old(pm.View()), base, count)
  {
    ghost var view0 := pm.View();
    o := Mapped;
    var i := 0;
    PutNothing(view0, base, phys, pm.Effective(flags));
    while i < count
      invariant pm.Valid() && i <= count && (i < count ==> PiecesLeft(virt, phys, count, i)) && o.Mapped?
      invariant MappedTo(view0, pm.View(), base, i, phys, pm.Effective(flags))
    {
      var size := PageFor(virt + i, phys + i, count - i);
      StepFits(virt, phys, count, i, pm.root);
      o := MapPiece(pm, virt, phys, flags, size, i, count, base, view0);
      if !o.Mapped? { return; }
      i := i + PageBytes(Rank(size));
    }
  }

  lemma {:induction false} StepFits(virt: nat, phys: nat, count: nat, i: nat, r: Root)
    requires 4 <= r.levels <= 5 && PiecesLeft(virt, phys, count, i)
    requires Wrap(virt, r) + count <= Space(r) && phys + count <= PHYS_LIMIT
    ensures var k := Rank(PageFor(virt + i, phys + i, count - i));
            && Offset(virt + i, k) == 0 && LeafOk(phys + i, k) && i + PageBytes(k) <= count
            && (i + PageBytes(k) < count ==> PiecesLeft(virt, phys, count, i + PageBytes(k)))
    ensures Wrap(virt + i, r) == Wrap(virt, r) + i
  {
    ModuloSum(virt, i, Space(r));
    MultipleSum(virt, i, 0x1000);
    MultipleSum(phys, i, 0x1000);
    MultipleSum(i, count, 0x1000);
    PieceAligned(virt + i, phys + i, count - i);
    MultipleSum(i, PageBytes(Rank(PageFor(virt + i, phys + i, count - i))), 0x1000);
  }

  lemma {:induction false} PieceAligned(virt: nat, phys: nat, left: nat)
    requires virt % 0x1000 == 0 && phys % 0x1000 == 0 && left >= 0x1000
    ensures var k := Rank(PageFor(virt, phys, left));
            Offset(virt, k) == 0 && Offset(phys, k) == 0 && PageBytes(k) <= left && PageBytes(k) % 0x1000 == 0
  {
    match PageFor(virt, phys, left)
    case Size4KiB =>
    case Size2MiB =>
    case Size1GiB =>
  }

  // ----- The direct map

  function AlignUp(a: nat): nat { AlignDown(a + 0xfff, 0x1000) }

  /** The entry types that a base revision of the protocol leaves out of the direct map. */
  predicate Skipped(kind: nat, revision: nat) {
    || ((1 <= revision < 3 || revision >= 4) && (kind == Memmap.RESERVED || kind == Memmap.BAD_MEMORY))
    || (revision == 3 && kind != Memmap.USABLE && kind != Memmap.BOOTLOADER_RECLAIMABLE
        && kind != Memmap.KERNEL_AND_MODULES && kind != Memmap.FRAMEBUFFER && kind != Memmap.EFI_RECLAIMABLE)
  }

  /** An entry that is mapped: not skipped, its ends representable, and not below the part that is
      mapped anyway. */
  predicate Selected(e: Memmap.Entry, revision: nat) {
    && !Skipped(e.kind, revision) && e.Fits() && e.Top() + 0xfff < U64
    && MappedBase(e, revision) < e.Top()
  }

  function MappedBase(e: Memmap.Entry, revision: nat): nat {
    if revision < 3 && e.base < GIB4 then GIB4 else e.base
  }

  /** The base revision maps entries of this type. */
  ghost predicate Wanted(kind: nat, revision: nat) {
    if revision == 3 then kind in {1, 0x1000, 0x1001, 0x1002, 0x2000} else revision == 0 || kind !in {2, 5}
  }

  /** The page of a holds a byte of the entry, one from 4 GiB on for the revisions before 3. */
  ghost predicate SharesPage(e: Memmap.Entry, revision: nat, a: nat) {
    && Wanted(e.kind, revision) && e.base + e.length + 0xfff < 0x1_0000_0000_0000_0000
    && exists x: nat :: Within(x, e.base, e.base + e.length) && (revision < 3 ==> x >= 0x1_0000_0000)
                        && x / 0x1000 == a / 0x1000
  }

  /** The addresses on the pages of an entry. */
  ghost function Rounded(e: Memmap.Entry, revision: nat): iset<nat> {
    iset a: nat | SharesPage(e, revision, a)
  }

  /** They are those between the rounded ends of the entry, if it is selected. */
  lemma {:induction false} RoundedIsInterval(e: Memmap.Entry, revision: nat)
    ensures Rounded(e, revision) ==
              if Selected(e, revision) then Interval(AlignDown(MappedBase(e, revision), 0x1000), AlignUp(e.Top()))
              else iset{}
  {
    assert Wanted(e.kind, revision) <==> !Skipped(e.kind, revision);
    if Selected(e, revision) {
      var b := MappedBase(e, revision);
      forall a: nat | Within(a, AlignDown(b, 0x1000), AlignUp(e.Top())) ensures SharesPage(e, revision, a) {
        var x := if a / 0x1000 * 0x1000 < b then b else a / 0x1000 * 0x1000;
        assert Within(x, e.base, e.base + e.length) && x / 0x1000 == a / 0x1000;
      }
      forall a: nat | SharesPage(e, revision, a) ensures Within(a, AlignDown(b, 0x1000), AlignUp(e.Top())) {
      }
    }
  }

  ghost function Union(es: seq<Memmap.Entry>, revision: nat): iset<nat> {
    iset a: nat | InUnion(es, revision, a)
  }

  ghost predicate InUnion(es: seq<Memmap.Entry>, revision: nat, a: nat) {
    exists i :: 0 <= i < |es| && a in Rounded(es[i], revision)
  }

  predicate Within(a: nat, base: nat, top: nat) {
    base <= a < top
  }

  ghost function Interval(base: nat, top: nat): iset<nat> {
    iset a: nat | Within(a, base, top)
  }

  /** The view in which every address of `mapped` is visible at the direct-map offset and, for
      revision 0, at itself. */
  ghost function DirectMap(view: View, mapped: iset<nat>, revision: nat, offset: nat): View {
    imap v: nat | v in view || (v >= offset && v - offset in mapped) || (revision == 0 && v in mapped) ::
      if v >= offset && v - offset in mapped then Target(v - offset, WRITE_ONLY)
      else if revision == 0 && v in mapped then Target(v, WRITE_ONLY)
      else view[v]
  }

  ghost predicate IsDirectMap(view: View, mapped: iset<nat>, revision: nat, offset: nat, v: View) {
    v == DirectMap(view, mapped, revision, offset)
  }

  /** What build_pagemap relies on: the direct map has room for the memory, and for revision 0 the
      identity map stays below it. */
  ghost predicate Room(es: seq<Memmap.Entry>, revision: nat, offset: nat, r: Root) {
    forall i :: 0 <= i < |es| && Selected(es[i], revision) ==>
      && AlignUp(es[i].Top()) <= PHYS_LIMIT
      && Wrap(offset, r) + AlignUp(es[i].Top()) <= Space(r)
      && (revision == 0 ==> AlignUp(es[i].Top()) <= Wrap(offset, r))
  }

  lemma {:induction false} DirectMapNothing(view: View, revision: nat, offset: nat)
    ensures IsDirectMap(view, iset{}, revision, offset, view)
  {
  }

  /** Mapping one more range, at itself for revision 0 and then at the direct-map offset. */
  lemma {:induction false} DirectMapExtend(view: View, mapped: iset<nat>, revision: nat, offset: nat, base: nat,
                                           top: nat, v1: View, v2: View, v3: View, at: nat)
    requires base <= top && at == offset + base && (revision == 0 ==> top <= offset && Below(mapped, offset))
    requires IsDirectMap(view, mapped, revision, offset, v1)
    requires revision == 0 ==> MappedTo(v1, v2, base, top - base, base, WRITE_ONLY)
    requires revision != 0 ==> v2 == v1
    requires MappedTo(v2, v3, at, top - base, base, WRITE_ONLY)
    ensures IsDirectMap(view, mapped + Interval(base, top), revision, offset, v3)
  {
  }

  /** A pending range: empty, or page-aligned with room in the direct map. */
  predicate Pending(base: nat, top: nat, revision: nat, offset: nat, r: Root) {
    && base % 0x1000 == 0 && top % 0x1000 == 0
    && (top > base ==> top <= PHYS_LIMIT && Wrap(offset, r) + top <= Space(r))
    && (revision == 0 && top > base ==> top <= Wrap(offset, r))
  }

  ghost predicate Below(mapped: iset<nat>, limit: nat) {
    forall a :: a in mapped ==> a < limit
  }

  lemma {:induction false} WrapSum(offset: nat, base: nat, r: Root)
    requires Wrap(offset, r) + base < Space(r)
    ensures Wrap(offset + base, r) == Wrap(offset, r) + base && Wrap(base, r) == base
    ensures offset % 0x1000 == 0 && base % 0x1000 == 0 ==> (offset + base) % 0x1000 == 0
  {
    ModuloSum(offset, base, Space(r));
    if offset % 0x1000 == 0 && base % 0x1000 == 0 {
      MultipleSum(offset, base, 0x1000);
    }
  }

  lemma {:induction false} LengthAligned(base: nat, top: nat)
    requires base <= top && base % 0x1000 == 0 && top % 0x1000 == 0
    ensures (top - base) % 0x1000 == 0
  {
    var p := MultipleOf(base, 0x1000);
    var q := MultipleOf(top, 0x1000);
    assert top - base == (q - p) * 0x1000;
  }

  /** A framebuffer page is mapped somewhere. */
  ghost predicate HasFb(view: View) {
    exists w: nat :: w in view && view[w].flags.fb
  }

  /** The direct map adds none. */
  lemma {:induction false} DirectMapFb(view: View, mapped: iset<nat>, revision: nat, offset: nat, v: View)
    requires IsDirectMap(view, mapped, revision, offset, v) && HasFb(v)
    ensures HasFb(view)
  {
    var w: nat :| w in v && v[w].flags.fb;
    assert w in view;
  }

  lemma {:induction false} PutFb(v: View, now: View, base: nat, bytes: nat, phys: nat)
    requires MappedTo(v, now, base, bytes, phys, WRITE_ONLY) && HasFb(now)
    ensures HasFb(v)
  {
    var w: nat :| w in now && now[w].flags.fb;
    assert w in v;
  }

  /** The two calls of map_pages for a pending range. */
  method MapBoth(pm: Pagemap, base: nat, top: nat, revision: nat, offset: nat) returns (r: Result, ghost between: View)
    requires pm.Valid() && base < top <= PHYS_LIMIT && base % 0x1000 == 0 && top % 0x1000 == 0
    requires (offset + base) % 0x1000 == 0 && Wrap(offset + base, pm.root) + (top - base) <= Space(pm.root)
    requires Wrap(base, pm.root) == base && top <= Space(pm.root)
    modifies pm
    ensures !r.Misaligned? && (r.Ok() ==> pm.Valid())
    ensures r.Ok() && revision == 0 ==> MappedTo(old(pm.View()), between, base, top - base, base, WRITE_ONLY)
    ensures revision != 0 ==> between == old(pm.View())
    ensures r.Ok() ==> MappedTo(between, pm.View(), Wrap(offset + base, pm.root), top - base, base, WRITE_ONLY)
    ensures r == Done(OutOfMemory) ==> pm.pool == []
    ensures r == Done(SplitOfFramebuffer) ==> HasFb(old(pm.View()))
  {
    between := pm.View();
    if revision == 0 {
      r := MapPending(pm, base, base, top);
      if !r.Ok() { return; }
      between := pm.View();
    }
    r := MapPending(pm, offset + base, base, top);
    if r == Done(SplitOfFramebuffer) && revision == 0 {
      PutFb(old(pm.View()), between, base, top - base, base);
    }
  }

  /** The flush label: maps the pending range, if there is one. */
  method Flush(pm: Pagemap, base: nat, top: nat, revision: nat, offset: nat, ghost view: View, ghost mapped: iset<nat>)
    returns (r: Result)
    requires pm.Valid() && offset % 0x1000 == 0 && Pending(base, top, revision, offset, pm.root)
    requires revision == 0 ==> Below(mapped, Wrap(offset, pm.root))
    requires IsDirectMap(view, mapped, revision, Wrap(offset, pm.root), pm.View())
    modifies pm
    ensures !r.Misaligned?
    ensures r.Ok() ==> pm.Valid()
    ensures r.Ok() ==> IsDirectMap(view, mapped + Interval(base, top), revision, Wrap(offset, pm.root), pm.View())
    ensures r.Ok() && revision == 0 ==> Below(mapped + Interval(base, top), Wrap(offset, pm.root))
    ensures r == Done(OutOfMemory) ==> pm.pool == []
    ensures r == Done(SplitOfFramebuffer) ==> HasFb(view)
  {
    if top > base {
      WrapSum(offset, base, pm.root);
      ghost var v1 := pm.View();
      ghost var v2;
      r, v2 := MapBoth(pm, base, top, revision, offset);
      if r.Ok() {
        DirectMapExtend(view, mapped, revision, Wrap(offset, pm.root), base, top, v1, v2, pm.View(),
                        Wrap(offset + base, pm.root));
      } else if r == Done(SplitOfFramebuffer) {
        DirectMapFb(view, mapped, revision, Wrap(offset, pm.root), v1);
      }
    } else {
      assert mapped + Interval(base, top) == mapped;
      r := Done(Mapped);
    }
  }

  /** Maps the pending range at a virtual address. */
  method MapPending(pm: Pagemap, virt: nat, base: nat, top: nat) returns (r: Result)
    requires pm.Valid() && base < top <= PHYS_LIMIT && base % 0x1000 == 0 && top % 0x1000 == 0 && virt % 0x1000 == 0
    requires Wrap(virt, pm.root) + (top - base) <= Space(pm.root)
    modifies pm
    ensures !r.Misaligned?
    ensures r.Ok() ==> pm.Valid()
    ensures r.Ok() ==> MappedTo(old(pm.View()), pm.View(), Wrap(virt, pm.root), top - base, base, WRITE_ONLY)
    ensures r == Done(OutOfMemory) ==> pm.pool == []
    ensures r == Done(SplitOfFramebuffer) ==> HasFb(old(pm.View()))
  {
    LengthAligned(base, top);
    assert pm.Effective(WRITE_ONLY) == WRITE_ONLY;
    r := MapPages(pm, virt, base, WRITE_ONLY, top - base);
  }

  /** Maps the pending range before entry i, whose rounded range [b, t) is then the pending one. */
  method FlushBefore(pm: Pagemap, ghost es: seq<Memmap.Entry>, ghost i: nat, revision: nat, offset: nat, base: nat,
                     top: nat, ghost b: nat, ghost t: nat, ghost view: View, ghost mapped: iset<nat>)
    returns (r: Result, ghost done: iset<nat>)
    requires pm.Valid() && offset % 0x1000 == 0 && Room(es, revision, offset, pm.root) && i < |es|
    requires Building(es, i, revision, offset, pm.root, mapped, base, top) && IsRounded(es[i], revision, b, t)
    requires IsDirectMap(view, mapped, revision, Wrap(offset, pm.root), pm.View())
    modifies pm
    ensures !r.Misaligned?
    ensures r.Ok() ==> pm.Valid() && Building(es, i + 1, revision, offset, pm.root, done, b, t)
    ensures r.Ok() ==> IsDirectMap(view, done, revision, Wrap(offset, pm.root), pm.View())
    ensures r == Done(OutOfMemory) ==> pm.pool == []
    ensures r == Done(SplitOfFramebuffer) ==> HasFb(view)
  {
    done := mapped + Interval(base, top);
    r := Flush(pm, base, top, revision, offset, view, mapped);
    if r.Ok() {
      BuildFlush(es, i, revision, offset, pm.root, mapped, base, top, b, t);
    }
  }

  /** The loop of build_pagemap that maps all memory, joining contiguous entries before mapping. */
  method MapMemory(pm: Pagemap, es: seq<Memmap.Entry>, revision: nat, offset: nat) returns (r: Result)
    requires pm.Valid() && offset % 0x1000 == 0 && Room(es, revision, offset, pm.root)
    modifies pm
    ensures !r.Misaligned?
    ensures r.Ok() ==> pm.Valid()
    ensures r.Ok() ==>
              pm.View() == DirectMap(old(pm.View()), Union(es, revision), revision, Wrap(offset, pm.root))
    ensures r == Done(OutOfMemory) ==> pm.pool == []
    ensures r == Done(SplitOfFramebuffer) ==> HasFb(old(pm.View()))
  {
    ghost var view, mapped: iset<nat> := pm.View(), iset{};
    DirectMapNothing(view, revision, Wrap(offset, pm.root));
    BuildStart(es, revision, offset, pm.root);
    var base, top := 0, 0;
    for i := 0 to |es|
      invariant pm.Valid() && Building(es, i, revision, offset, pm.root, mapped, base, top)
      invariant IsDirectMap(view, mapped, revision, Wrap(offset, pm.root), pm.View())
    {
      var b, t := 0, 0;
      if Skips(es[i], revision) {
        EmptyIsRounded(es[i], revision);
      } else {
        if es[i].Top() + 0xfff >= U64 {
          BuildSkip(es, i, revision, offset, pm.root, mapped, base, top);
          continue;
        }
        b, t := AlignDown(MappedBase(es[i], revision), 0x1000), AlignUp(es[i].Top());
        if b == top && top != 0 {
          BuildJoin(es, i, revision, offset, pm.root, mapped, base, top);
          top := t;
          continue;
        }
      }
      r, mapped := FlushBefore(pm, es, i, revision, offset, base, top, b, t, view, mapped);
      if !r.Ok() { return; }
      base, top := b, t;
    }
    assert es[..|es|] == es;
    r := Flush(pm, base, top, revision, offset, view, mapped);
  }

  lemma {:induction false} JoinIntervals(base: nat, mid: nat, top: nat)
    requires base <= mid <= top
    ensures Interval(base, mid) + Interval(mid, top) == Interval(base, top)
  {
  }

  /** The page-rounded ends of a selected entry make a range that can be pending. */
  lemma {:induction false} RoundedIsPending(es: seq<Memmap.Entry>, i: nat, revision: nat, offset: nat, r: Root,
                                            base: nat)
    requires i < |es| && Selected(es[i], revision) && Room(es, revision, offset, r) && base % 0x1000 == 0
    ensures var b, t := AlignDown(MappedBase(es[i], revision), 0x1000), AlignUp(es[i].Top());
            b < t && b % 0x1000 == 0 && (base < t ==> Pending(base, t, revision, offset, r))
  {
  }

  /** Where the loop stands before entry i: the first i entries are mapped or pending. */
  ghost predicate Building(es: seq<Memmap.Entry>, i: nat, revision: nat, offset: nat, r: Root, mapped: iset<nat>,
                           base: nat, top: nat) {
    && i <= |es| && Pending(base, top, revision, offset, r) && (top != 0 ==> base < top)
    && (revision == 0 ==> Below(mapped, Wrap(offset, r)))
    && mapped + Interval(base, top) == Union(es[..i], revision)
  }

  /** The entry is not mapped, whether or not its end can be rounded. */
  predicate Skips(e: Memmap.Entry, revision: nat) {
    Skipped(e.kind, revision) || !e.Fits() || MappedBase(e, revision) >= e.Top()
  }

  /** The page-rounded ends of the entry, both 0 if it is not mapped. */
  predicate IsRounded(e: Memmap.Entry, revision: nat, b: nat, t: nat) {
    if Selected(e, revision) then b == AlignDown(MappedBase(e, revision), 0x1000) && t == AlignUp(e.Top())
    else b == t == 0
  }

  lemma {:induction false} EmptyIsRounded(e: Memmap.Entry, revision: nat)
    requires Skips(e, revision)
    ensures IsRounded(e, revision, 0, 0)
  {
  }

  lemma {:induction false} BuildStart(es: seq<Memmap.Entry>, revision: nat, offset: nat, r: Root)
    ensures Building(es, 0, revision, offset, r, iset{}, 0, 0)
  {
  }

  /** An entry that is left out while the range stays pending. */
  lemma {:induction false} BuildSkip(es: seq<Memmap.Entry>, i: nat, revision: nat, offset: nat, r: Root,
                                     mapped: iset<nat>, base: nat, top: nat)
    requires i < |es| && Building(es, i, revision, offset, r, mapped, base, top) && !Selected(es[i], revision)
    ensures Building(es, i + 1, revision, offset, r, mapped, base, top)
  {
    UnionStep(es, i, revision);
    RoundedIsInterval(es[i], revision);
  }

  /** An entry that begins where the pending range ends. */
  lemma {:induction false} BuildJoin(es: seq<Memmap.Entry>, i: nat, revision: nat, offset: nat, r: Root,
                                     mapped: iset<nat>, base: nat, top: nat)
    requires i < |es| && Building(es, i, revision, offset, r, mapped, base, top) && Room(es, revision, offset, r)
    requires Selected(es[i], revision) && AlignDown(MappedBase(es[i], revision), 0x1000) == top && top != 0
    ensures Building(es, i + 1, revision, offset, r, mapped, base, AlignUp(es[i].Top()))
  {
    UnionStep(es, i, revision);
    RoundedIsInterval(es[i], revision);
    RoundedIsPending(es, i, revision, offset, r, base);
    JoinIntervals(base, top, AlignUp(es[i].Top()));
  }

  /** An entry after which the pending range has been mapped. */
  lemma {:induction false} BuildFlush(es: seq<Memmap.Entry>, i: nat, revision: nat, offset: nat, r: Root,
                                      mapped: iset<nat>, base: nat, top: nat, b: nat, t: nat)
    requires i < |es| && Building(es, i, revision, offset, r, mapped, base, top) && Room(es, revision, offset, r)
    requires IsRounded(es[i], revision, b, t)
    requires revision == 0 ==> Below(mapped + Interval(base, top), Wrap(offset, r))
    ensures Building(es, i + 1, revision, offset, r, mapped + Interval(base, top), b, t)
  {
    UnionStep(es, i, revision);
    RoundedIsInterval(es[i], revision);
    assert Rounded(es[i], revision) == Interval(b, t);
    if Selected(es[i], revision) {
      RoundedIsPending(es, i, revision, offset, r, b);
    }
  }

  lemma {:induction false} UnionStep(es: seq<Memmap.Entry>, i: nat, revision: nat)
    requires i < |es|
    ensures Union(es[..i + 1], revision) == Union(es[..i], revision) + Rounded(es[i], revision)
  {
    var p, q := es[..i], es[..i + 1];
    forall a: nat ensures a in Union(q, revision) <==> a in Union(p, revision) || a in Rounded(es[i], revision) {
      if a in Union(p, revision) {
        var j :| 0 <= j < |p| && a in Rounded(p[j], revision);
        assert q[j] == p[j];
      }
      if a in Union(q, revision) {
        var j :| 0 <= j < |q| && a in Rounded(q[j], revision);
        if j < i {
          assert p[j] == q[j];
        }
      }
      if a in Rounded(es[i], revision) {
        assert q[i] == es[i];
      }
    }
  }
}
