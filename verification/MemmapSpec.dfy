/**
 What a memory map means: which addresses entries of each type cover, when a map is clean,
 and how the elementary edits of common/mm/pmm.s2.c change that.
 */
module MemmapSpec {
  import opened Memmap
  import opened Wrappers

  /** Some entry of this type covers address a. */
  ghost predicate Has(s: seq<Entry>, kind: nat, a: nat) {
    exists e :: e in s && e.kind == kind && e.Covers(a)
  }

  /** Some entry that is not usable memory covers address a. */
  ghost predicate Taken(s: seq<Entry>, a: nat) {
    exists e :: e in s && e.kind != USABLE && e.Covers(a)
  }

  /** Address a is usable: an entry says so, and no other type claims it. */
  ghost predicate Free(s: seq<Entry>, a: nat) {
    Has(s, USABLE, a) && !Taken(s, a)
  }

  /** The entries do not overlap; entries that overflow count as nowhere. */
  predicate Apart(e: Entry, o: Entry) {
    e.Fits() && o.Fits() ==> e.Top() <= o.base || o.Top() <= e.base
  }

  ghost predicate UsableApart(s: seq<Entry>) {
    forall i, j :: 0 <= i < |s| && 0 <= j < |s| && i != j && s[i].kind == USABLE ==> Apart(s[i], s[j])
  }

  ghost predicate AllApart(s: seq<Entry>) {
    forall i, j :: 0 <= i < |s| && 0 <= j < |s| && i != j ==> Apart(s[i], s[j])
  }

  ghost predicate NoneEmpty(s: seq<Entry>) {
    forall i :: 0 <= i < |s| ==> s[i].length > 0
  }

  ghost predicate AllFit(s: seq<Entry>) {
    forall i :: 0 <= i < |s| ==> s[i].Fits()
  }

  /** An overflowing usable entry survives only if it is alone. */
  ghost predicate UsableFit(s: seq<Entry>) {
    |s| == 1 || forall i :: 0 <= i < |s| && s[i].kind == USABLE ==> s[i].Fits()
  }

  ghost predicate Sorted(s: seq<Entry>) {
    forall i, j :: 0 <= i < j < |s| ==> s[i].base <= s[j].base
  }

  predicate Mergeable(e: Entry, f: Entry) {
    && (e.kind == BOOTLOADER_RECLAIMABLE || e.kind == RESERVED_MAPPED || e.kind == USABLE)
    && f.kind == e.kind && e.Fits() && f.base == e.Top() && e.length + f.length < U64
  }

  ghost predicate Merged(s: seq<Entry>) {
    forall i {:trigger s[i]} :: 0 <= i < |s| - 1 ==> !Mergeable(s[i], s[i + 1])
  }

  /** Neighbours of one of the three types that are joined do not adjoin. */
  ghost predicate NeighboursApart(s: seq<Entry>) {
    forall i: nat :: i + 1 < |s| ==> ApartFromNext(s, i)
  }

  ghost predicate ApartFromNext(s: seq<Entry>, i: nat)
    requires i + 1 < |s|
  {
    s[i].Fits() && s[i + 1].Fits() && s[i].kind == s[i + 1].kind && s[i].kind in {1, 0x1000, 0x1003} ==>
      s[i].Top() != s[i + 1].base
  }

  predicate IsJoined(kind: nat) {
    kind in {1, 0x1000, 0x1003}
  }

  /** Entries of all other types, the empty ones aside, are the same, each as often as before. */
  ghost predicate RestKept(s: seq<Entry>, r: seq<Entry>) {
    forall e: Entry {:trigger Times(s, e)} {:trigger Times(r, e)} :: e.length > 0 && e.kind !in {1, 0x1000, 0x1003} ==>
      Times(s, e) == Times(r, e)
  }

  ghost function Times(s: seq<Entry>, e: Entry): nat {
    multiset(s)[e]
  }

  predicate PageAligned(e: Entry) {
    e.base % 0x1000 == 0 && e.length % 0x1000 == 0
  }

  ghost predicate UsableAligned(s: seq<Entry>) {
    forall i :: 0 <= i < |s| && s[i].kind == USABLE ==> PageAligned(s[i])
  }

  /** No usable entry reaches into the first page, unless it is to be kept. */
  ghost predicate FirstPageClear(s: seq<Entry>, keepFirst: bool) {
    forall i :: 0 <= i < |s| && s[i].kind == USABLE ==> keepFirst || s[i].base >= 0x1000
  }

  /** What pmm_sanitise_entries establishes. */
  ghost predicate Clean(s: seq<Entry>) {
    UsableApart(s) && NoneEmpty(s) && UsableFit(s) && Sorted(s) && Merged(s)
  }

  /** Disjoint, non-empty, non-overflowing. */
  ghost predicate WellFormed(s: seq<Entry>) {
    AllApart(s) && NoneEmpty(s) && AllFit(s)
  }

  // ----- Removing an entry by moving the last one into its place

  function SwapRemoved(s: seq<Entry>, i: nat): (r: seq<Entry>)
    requires i < |s|
    ensures |r| == |s| - 1
  {
    s[i := s[|s| - 1]][..|s| - 1]
  }

  lemma {:induction false} SwapRemovedMembers(s: seq<Entry>, i: nat)
    requires i < |s|
    ensures forall k :: 0 <= k < |s| && k != i ==> s[k] in SwapRemoved(s, i)
    ensures forall e :: e in SwapRemoved(s, i) ==> exists k :: 0 <= k < |s| && k != i && s[k] == e
  {
    var r := SwapRemoved(s, i);
    forall k | 0 <= k < |s| && k != i ensures s[k] in r {
      if k < |s| - 1 {
        assert r[k] == s[k];
      } else {
        assert r[i] == s[k];
      }
    }
    forall e | e in r ensures exists k :: 0 <= k < |s| && k != i && s[k] == e {
      var k :| 0 <= k < |r| && r[k] == e;
      if k == i {
        assert s[|s| - 1] == e;
      } else {
        assert s[k] == e;
      }
    }
  }

  lemma {:induction false} SwapRemovedKeeps(s: seq<Entry>, i: nat)
    requires i < |s|
    ensures UsableApart(s) ==> UsableApart(SwapRemoved(s, i))
    ensures AllApart(s) ==> AllApart(SwapRemoved(s, i))
    ensures AllFit(s) ==> AllFit(SwapRemoved(s, i))
  {
    var r, last := SwapRemoved(s, i), |s| - 1;
    assert forall k :: 0 <= k < |r| ==> r[k] == if k == i then s[last] else s[k];
  }

  lemma {:induction false} SwapRemovedMultiset(s: seq<Entry>, i: nat)
    requires i < |s|
    ensures multiset(SwapRemoved(s, i)) == multiset(s) - multiset{s[i]}
  {
    var r, last := SwapRemoved(s, i), |s| - 1;
    if i == last {
      assert s == r + [s[i]];
    } else {
      assert s == s[..i] + [s[i]] + s[i + 1..last] + [s[last]];
      assert r == s[..i] + [s[last]] + s[i + 1..last];
    }
  }

  lemma {:induction false} RestWithout(s: seq<Entry>, i: nat)
    requires i < |s| && (s[i].length == 0 || IsJoined(s[i].kind))
    ensures RestKept(s, SwapRemoved(s, i))
  {
    SwapRemovedMultiset(s, i);
    forall e: Entry | e.length > 0 && !IsJoined(e.kind) ensures Times(s, e) == Times(SwapRemoved(s, i), e) {
      assert multiset(SwapRemoved(s, i))[e] == multiset(s)[e];
    }
  }

  lemma {:induction false} RestChanged(s: seq<Entry>, i: nat, e: Entry)
    requires i < |s| && s[i].kind == e.kind && IsJoined(e.kind)
    ensures RestKept(s, s[i := e])
  {
    assert multiset(s[i := e]) == multiset(s) - multiset{s[i]} + multiset{e};
  }

  /** Removing an entry that covers nothing changes no coverage. */
  lemma {:induction false} SwapRemovedHas(s: seq<Entry>, i: nat)
    requires i < |s| && forall a :: !s[i].Covers(a)
    ensures SameCoverage(s, SwapRemoved(s, i))
  {
    SwapRemovedMembers(s, i);
    var r := SwapRemoved(s, i);
    forall kind: nat, a: nat ensures Has(s, kind, a) == Has(r, kind, a) {
      if Has(s, kind, a) {
        var e :| e in s && e.kind == kind && e.Covers(a);
        var k :| 0 <= k < |s| && s[k] == e;
        assert s[k] in r;
      }
    }
  }

  ghost predicate SameCoverage(s: seq<Entry>, r: seq<Entry>) {
    forall kind: nat, a: nat :: Has(s, kind, a) == Has(r, kind, a)
  }

  lemma {:induction false} TakenIsHas(s: seq<Entry>, a: nat)
    ensures Taken(s, a) <==> exists kind: nat :: kind != USABLE && Has(s, kind, a)
  {
    if Taken(s, a) {
      var e :| e in s && e.kind != USABLE && e.Covers(a);
      assert Has(s, e.kind, a);
    }
  }

  // ----- Cutting a usable entry by another entry

  /** One step of the overlap loop on usable entry e: unchanged or shortened, fully covered, or the
      panic because the other entry lies strictly inside. */
  datatype Cut = Keep(entry: Entry) | Gone | Inside

  function CutBy(e: Entry, o: Entry): Cut
    requires e.Fits()
  {
    if !o.Fits() then Keep(e)
    else if o.base <= e.base && o.Top() >= e.Top() then Gone
    else if e.base <= o.base < e.Top() && e.base <= o.Top() < e.Top() then Inside
    else
      var top := if e.base <= o.base < e.Top() then o.base else e.Top();
      var base := if e.base <= o.Top() < top then o.Top() else e.base;
      Keep(Entry(base, top - base, e.kind))
  }

  predicate Inner(e: Entry, f: Entry) {
    f.kind == e.kind && e.base <= f.base && f.Top() <= e.Top()
  }

  /** A cut removes exactly the other entry's addresses, leaves the rest apart from it, and does
      nothing when there is no overlap. */
  lemma {:induction false} CutIsDifference(e: Entry, o: Entry)
    requires e.Fits() && !CutBy(e, o).Inside?
    ensures CutBy(e, o).Gone? ==> forall a :: e.Covers(a) ==> o.Covers(a)
    ensures CutBy(e, o).Keep? ==>
              var f := CutBy(e, o).entry;
              && Inner(e, f) && Apart(f, o)
              && forall a :: f.Covers(a) <==> e.Covers(a) && !o.Covers(a)
  {
  }

  /** How cutting a usable entry by all others ends: the panic on a nested entry, an overflowing
      entry that is to be deleted, or what is left of the entry. */
  datatype Trim = Nested | Overflow | Trimmed(entry: Entry)

  /** The inner loop of pmm_sanitise_entries from index j on, for the entry at i, now cut down to e. */
  function TrimFrom(s: seq<Entry>, i: nat, j: nat, e: Entry): Trim
    decreases |s| - j
  {
    if j >= |s| then Trimmed(e)
    else if j == i then TrimFrom(s, i, j + 1, e)
    else if !e.Fits() then Overflow
    else
      match CutBy(e, s[j])
      case Gone => Trimmed(Entry(e.Top(), 0, e.kind))
      case Inside => Nested
      case Keep(f) => TrimFrom(s, i, j + 1, f)
  }

  /** An entry from j on, other than the one at i, covers a. */
  ghost predicate From(s: seq<Entry>, i: nat, j: nat, a: nat) {
    exists k :: j <= k < |s| && k != i && s[k].Covers(a)
  }

  ghost predicate Elsewhere(s: seq<Entry>, i: nat, a: nat) {
    From(s, i, 0, a)
  }

  /** What is left is exactly what no other entry covers, and it is apart from all of them. */
  lemma {:induction false} TrimIsDifference(s: seq<Entry>, i: nat, j: nat, e: Entry)
    requires TrimFrom(s, i, j, e).Trimmed?
    ensures var f := TrimFrom(s, i, j, e).entry;
            && Inner(e, f) && (e.Fits() ==> f.Fits())
            && (forall a :: f.Covers(a) <==> e.Covers(a) && !From(s, i, j, a))
            && (f.length > 0 ==> forall k :: j <= k < |s| && k != i ==> Apart(f, s[k]))
    decreases |s| - j
  {
    if j < |s| {
      if j == i {
        TrimIsDifference(s, i, j + 1, e);
        assert forall a :: From(s, i, j, a) == From(s, i, j + 1, a);
      } else {
        CutIsDifference(e, s[j]);
        var c := CutBy(e, s[j]);
        if c.Keep? {
          TrimIsDifference(s, i, j + 1, c.entry);
          assert forall a :: From(s, i, j, a) == (s[j].Covers(a) || From(s, i, j + 1, a));
        }
      }
    }
  }

  lemma {:induction false} TrimOverflow(s: seq<Entry>, i: nat, j: nat, e: Entry)
    ensures TrimFrom(s, i, j, e).Overflow? <==> !e.Fits() && j < |s| && !(j == i && j + 1 == |s|)
    decreases |s| - j
  {
    if j < |s| {
      if j == i {
        TrimOverflow(s, i, j + 1, e);
      } else if e.Fits() && CutBy(e, s[j]).Keep? {
        CutIsDifference(e, s[j]);
        TrimOverflow(s, i, j + 1, CutBy(e, s[j]).entry);
      }
    }
  }

  /** An entry that overlaps nothing is not touched. */
  lemma {:induction false} TrimOfApart(s: seq<Entry>, i: nat, j: nat, e: Entry)
    requires e.length > 0 && (e.Fits() || |s| == 1)
    requires i < |s| && forall k :: j <= k < |s| && k != i ==> s[k].length > 0 && Apart(e, s[k])
    ensures TrimFrom(s, i, j, e) == Trimmed(e)
    decreases |s| - j
  {
    if j < |s| {
      TrimOfApart(s, i, j + 1, e);
    }
  }

  // ----- Replacing a usable entry

  ghost predicate SameOthers(s: seq<Entry>, r: seq<Entry>) {
    forall kind: nat, a: nat :: kind != USABLE ==> Has(s, kind, a) == Has(r, kind, a)
  }

  ghost predicate FreeKept(s: seq<Entry>, r: seq<Entry>) {
    forall a: nat :: Free(s, a) == Free(r, a)
  }

  ghost predicate FreeWithin(s: seq<Entry>, r: seq<Entry>) {
    forall a: nat :: Free(r, a) ==> Free(s, a)
  }

  lemma {:induction false} SameOthersTaken(s: seq<Entry>, r: seq<Entry>)
    requires SameOthers(s, r)
    ensures forall a: nat :: Taken(s, a) == Taken(r, a)
  {
    forall a: nat ensures Taken(s, a) == Taken(r, a) {
      TakenIsHas(s, a);
      TakenIsHas(r, a);
    }
  }

  lemma {:induction false} SameCoverageFree(s: seq<Entry>, r: seq<Entry>)
    requires SameCoverage(s, r)
    ensures SameOthers(s, r) && FreeKept(s, r)
  {
    SameOthersTaken(s, r);
  }

  lemma {:induction false} ReplaceMembers(s: seq<Entry>, i: nat, e: Entry, r: seq<Entry>)
    requires i < |s| && r == s[i := e]
    ensures forall k :: 0 <= k < |s| && k != i ==> s[k] in r
    ensures e in r
    ensures forall f :: f in r ==> f == e || exists k :: 0 <= k < |s| && k != i && s[k] == f
  {
    forall k | 0 <= k < |s| && k != i ensures s[k] in r {
      assert r[k] == s[k];
    }
    assert r[i] == e;
  }

  /** Shrinking a usable entry leaves the other types alone and frees nothing new. */
  lemma {:induction false} ShrinkUsable(s: seq<Entry>, i: nat, e: Entry)
    requires i < |s| && s[i].kind == USABLE && e.kind == USABLE
    requires forall a :: e.Covers(a) ==> s[i].Covers(a)
    ensures SameOthers(s, s[i := e]) && FreeWithin(s, s[i := e])
  {
    var r := s[i := e];
    ReplaceMembers(s, i, e, r);
    forall kind: nat, a: nat | kind != USABLE ensures Has(s, kind, a) == Has(r, kind, a) {
      if Has(s, kind, a) {
        var f :| f in s && f.kind == kind && f.Covers(a);
        var k :| 0 <= k < |s| && s[k] == f;
        assert s[k] in r;
      }
    }
    SameOthersTaken(s, r);
    forall a: nat | Free(r, a) ensures Free(s, a) {
      var f :| f in r && f.kind == USABLE && f.Covers(a);
      assert f == e ==> s[i] in s;
    }
  }

  /** If every address it loses is covered by some other entry, the free addresses stay the same. */
  lemma {:induction false} TrimUsable(s: seq<Entry>, i: nat, e: Entry)
    requires i < |s| && s[i].kind == USABLE && e.kind == USABLE
    requires forall a :: e.Covers(a) ==> s[i].Covers(a)
    requires forall a :: s[i].Covers(a) && !e.Covers(a) ==> Elsewhere(s, i, a)
    ensures FreeKept(s, s[i := e])
  {
    var r := s[i := e];
    ShrinkUsable(s, i, e);
    ReplaceMembers(s, i, e, r);
    SameOthersTaken(s, r);
    forall a: nat | Free(s, a) ensures Free(r, a) {
      var f :| f in s && f.kind == USABLE && f.Covers(a);
      var k :| 0 <= k < |s| && s[k] == f;
      if k == i && !e.Covers(a) {
        var j :| 0 <= j < |s| && j != i && s[j].Covers(a);
        assert s[j] in s && s[j].kind == USABLE;
        assert s[j] in r;
      }
    }
  }

  // ----- Page alignment

  /** align_entry: the whole pages inside the entry, or None if there are none or the rounded base
      overflows. */
  function AlignedInner(e: Entry): (r: Option<Entry>)
  {
    if e.length < 0x1000 || e.base + 0xfff >= U64 then None
    else
      var base := (e.base + 0xfff) / 0x1000 * 0x1000;
      var length := (e.length - (base - e.base)) / 0x1000 * 0x1000;
      if length == 0 then None else Some(Entry(base, length, e.kind))
  }

  /** Address a lies in a page that is inside [base, top). */
  predicate PageInside(a: nat, base: nat, top: nat) {
    base <= a - a % 0x1000 && a - a % 0x1000 + 0x1000 <= top
  }

  /** The aligned entry covers exactly the addresses whose whole page the entry covers. */
  lemma {:induction false} AlignedInnerIsExact(e: Entry)
    ensures AlignedInner(e).Some? ==>
              var f := AlignedInner(e).value;
              && Inner(e, f) && PageAligned(f) && f.length > 0 && (e.Fits() <==> f.Fits())
    ensures e.Fits() ==> forall a: nat ::
              (AlignedInner(e).Some? && AlignedInner(e).value.Covers(a)) <==> PageInside(a, e.base, e.Top())
  {
    if e.Fits() {
      forall a: nat
        ensures (AlignedInner(e).Some? && AlignedInner(e).value.Covers(a)) <==> PageInside(a, e.base, e.Top())
      {
        AlignedInnerAt(e, a);
      }
    }
  }

  lemma {:induction false} AlignedInnerAt(e: Entry, a: nat)
    requires e.Fits()
    ensures (AlignedInner(e).Some? && AlignedInner(e).value.Covers(a)) <==> PageInside(a, e.base, e.Top())
  {
  }

  lemma {:induction false} AlignedStays(e: Entry)
    requires PageAligned(e) && e.length > 0
    ensures AlignedInner(e) == Some(e)
  {
  }

  // ----- One iteration of the first loop of pmm_sanitise_entries

  /** What happens to usable entry i: the panic, its deletion, or its replacement. */
  datatype Step = Stop | Delete | Replace(entry: Entry)

  function TrimStep(s: seq<Entry>, i: nat, align: bool): Step
    requires i < |s|
  {
    match TrimFrom(s, i, 0, s[i])
    case Nested => Stop
    case Overflow => Delete
    case Trimmed(f) =>
      if f.length == 0 then Delete
      else if !align then Replace(f)
      else match AlignedInner(f) case None => Delete case Some(g) => Replace(g)
  }

  /** r keeps the other types, frees nothing new and, unless pages are rounded, loses nothing free. */
  ghost predicate Refines(s: seq<Entry>, r: seq<Entry>, align: bool) {
    && SameOthers(s, r) && FreeWithin(s, r) && (!align ==> FreeKept(s, r))
    && (AllFit(s) ==> AllFit(r)) && (AllApart(s) ==> AllApart(r))
  }

  /** Usable entry k is non-empty, apart from all others, aligned if asked. */
  ghost predicate Settled(s: seq<Entry>, k: nat, align: bool)
    requires k < |s|
  {
    && s[k].length > 0 && (s[k].Fits() || |s| == 1) && (align ==> PageAligned(s[k]))
    && forall j :: 0 <= j < |s| && j != k ==> Apart(s[k], s[j])
  }

  ghost predicate SettledTo(s: seq<Entry>, i: nat, align: bool) {
    forall k :: 0 <= k < i && k < |s| && s[k].kind == USABLE ==> Settled(s, k, align)
  }

  lemma {:induction false} DropUsable(s: seq<Entry>, i: nat)
    requires i < |s| && s[i].kind == USABLE
    ensures SameOthers(s, SwapRemoved(s, i)) && FreeWithin(s, SwapRemoved(s, i))
    ensures (forall a :: s[i].Covers(a) ==> Elsewhere(s, i, a)) ==> FreeKept(s, SwapRemoved(s, i))
  {
    var none := Entry(0, 0, USABLE);
    var t := s[i := none];
    assert SwapRemoved(t, i) == SwapRemoved(s, i);
    ShrinkUsable(s, i, none);
    SwapRemovedHas(t, i);
    SameCoverageFree(t, SwapRemoved(t, i));
    if forall a :: s[i].Covers(a) ==> Elsewhere(s, i, a) {
      TrimUsable(s, i, none);
    }
  }

  lemma {:induction false} StepDeletes(s: seq<Entry>, i: nat, align: bool)
    requires i < |s| && s[i].kind == USABLE && TrimStep(s, i, align).Delete?
    ensures Refines(s, SwapRemoved(s, i), align)
  {
    DropUsable(s, i);
    SwapRemovedKeeps(s, i);
    TrimOverflow(s, i, 0, s[i]);
    if TrimFrom(s, i, 0, s[i]).Trimmed? {
      TrimIsDifference(s, i, 0, s[i]);
    }
  }

  lemma {:induction false} StepReplaces(s: seq<Entry>, i: nat, align: bool)
    requires i < |s| && s[i].kind == USABLE && TrimStep(s, i, align).Replace?
    requires SettledTo(s, i, align)
    ensures var r := s[i := TrimStep(s, i, align).entry];
            Refines(s, r, align) && SettledTo(r, i + 1, align)
  {
    var f := TrimFrom(s, i, 0, s[i]).entry;
    var e := TrimStep(s, i, align).entry;
    var r := s[i := e];
    TrimIsDifference(s, i, 0, s[i]);
    TrimOverflow(s, i, 0, s[i]);
    AlignedInnerIsExact(f);
    ShrinkUsable(s, i, e);
    if !align {
      TrimUsable(s, i, e);
    }
    assert Inner(s[i], e) && (s[i].Fits() || |s| == 1);
    forall k | 0 <= k < i + 1 && r[k].kind == USABLE ensures Settled(r, k, align) {
      if k < i {
        assert Settled(s, k, align);
      }
    }
  }

  /** On settled entries the first loop does nothing. */
  lemma {:induction false} StepOfSettled(s: seq<Entry>, i: nat, align: bool)
    requires i < |s| && s[i].kind == USABLE && NoneEmpty(s) && Settled(s, i, align)
    ensures TrimStep(s, i, align) == Replace(s[i])
  {
    TrimOfApart(s, i, 0, s[i]);
    if align {
      AlignedStays(s[i]);
    }
  }

  // ----- Rounding to whole pages loses nothing but partial pages

  /** Every address of the page that holds a is free. */
  ghost predicate WholePage(s: seq<Entry>, a: nat) {
    forall b: nat :: a - a % 0x1000 <= b < a - a % 0x1000 + 0x1000 ==> Free(s, b)
  }

  /** Wholly free pages stay so, those of the first page aside where it is not kept. */
  ghost predicate PagesKept(s: seq<Entry>, r: seq<Entry>, keepFirst: bool) {
    forall a: nat :: keepFirst || a >= 0x1000 ==> WholePage(s, a) == WholePage(r, a)
  }

  /** Usable entries are not empty and do not overlap each other. */
  ghost predicate UsableTidy(s: seq<Entry>) {
    && (forall i :: 0 <= i < |s| && s[i].kind == USABLE ==> s[i].length > 0)
    && (forall i, j :: 0 <= i < |s| && 0 <= j < |s| && i != j && s[i].kind == USABLE && s[j].kind == USABLE
         ==> Apart(s[i], s[j]))
  }

  /** The page of a lies in one usable entry. */
  ghost predicate OwnPage(s: seq<Entry>, a: nat) {
    exists e :: e in s && e.kind == USABLE && e.Fits() && PageInside(a, e.base, e.Top())
  }

  /** The page of a is free as a whole and lies in one usable entry. */
  ghost predicate FreePage(s: seq<Entry>, a: nat) {
    OwnPage(s, a) && WholePage(s, a)
  }

  ghost predicate FreePagesKept(s: seq<Entry>, r: seq<Entry>) {
    forall a: nat :: FreePage(s, a) == FreePage(r, a)
  }

  /** No two usable entries adjoin within a page that is free as a whole. */
  ghost predicate Seamless(s: seq<Entry>, keepFirst: bool) {
    forall i, j :: 0 <= i < |s| && 0 <= j < |s| && s[i].kind == USABLE && s[j].kind == USABLE ==>
      NoSeam(s, s[i], s[j], keepFirst)
  }

  ghost predicate NoSeam(s: seq<Entry>, e: Entry, f: Entry, keepFirst: bool) {
    e.Fits() && f.Fits() && e.Top() == f.base && f.base % 0x1000 != 0 && (keepFirst || f.base >= 0x1000) ==>
      !WholePage(s, f.base)
  }

  /** A run of free addresses within a page that meets a usable entry stays in it, if there is no seam. */
  lemma {:induction false} RunStaysInside(s: seq<Entry>, keepFirst: bool, i: nat, page: nat, lo: nat, n: nat)
    requires UsableTidy(s) && Seamless(s, keepFirst) && i < |s| && s[i].kind == USABLE && s[i].Covers(lo)
    requires page % 0x1000 == 0 && WholePage(s, page) && page <= lo && lo + n < page + 0x1000 && (keepFirst || page > 0)
    ensures s[i].Covers(lo + n)
    decreases n
  {
    if n > 0 {
      RunStaysInside(s, keepFirst, i, page, lo, n - 1);
      assert Free(s, lo + n);
      var f :| f in s && f.kind == USABLE && f.Covers(lo + n);
      var k :| 0 <= k < |s| && s[k] == f;
      SamePage(s, page, lo + n);
      assert NoSeam(s, s[i], s[k], keepFirst);
    }
  }

  lemma {:induction false} RunStaysInsideBack(s: seq<Entry>, keepFirst: bool, i: nat, page: nat, lo: nat, n: nat)
    requires UsableTidy(s) && Seamless(s, keepFirst) && i < |s| && s[i].kind == USABLE && s[i].Covers(lo + n)
    requires page % 0x1000 == 0 && WholePage(s, page) && page <= lo && lo + n < page + 0x1000 && (keepFirst || page > 0)
    ensures s[i].Covers(lo)
    decreases n
  {
    if n > 0 {
      RunStaysInsideBack(s, keepFirst, i, page, lo + 1, n - 1);
      assert Free(s, lo);
      var f :| f in s && f.kind == USABLE && f.Covers(lo);
      var k :| 0 <= k < |s| && s[k] == f;
      SamePage(s, page, lo + 1);
      assert NoSeam(s, s[k], s[i], keepFirst);
    }
  }

  lemma {:induction false} SamePage(s: seq<Entry>, page: nat, b: nat)
    requires page % 0x1000 == 0 && page <= b < page + 0x1000
    ensures b - b % 0x1000 == page && WholePage(s, b) == WholePage(s, page)
    ensures b > page ==> b % 0x1000 != 0
  {
  }

  /** Every wholly free page lies in one entry, exactly if there is no seam. */
  lemma {:induction false} PagesOwnedIff(s: seq<Entry>, keepFirst: bool)
    requires UsableTidy(s)
    ensures (forall a: nat :: (keepFirst || a >= 0x1000) && WholePage(s, a) ==> OwnPage(s, a)) <==>
              Seamless(s, keepFirst)
  {
    if Seamless(s, keepFirst) {
      forall a: nat | (keepFirst || a >= 0x1000) && WholePage(s, a) ensures OwnPage(s, a) {
        SeamlessOwns(s, keepFirst, a);
      }
    }
    forall i, j | 0 <= i < |s| && 0 <= j < |s| && s[i].kind == USABLE && s[j].kind == USABLE && OwnPage(s, s[j].base)
      ensures NoSeam(s, s[i], s[j], keepFirst)
    {
      SeamNotOwned(s, i, j);
    }
  }

  lemma {:induction false} SeamlessOwns(s: seq<Entry>, keepFirst: bool, a: nat)
    requires UsableTidy(s) && Seamless(s, keepFirst) && WholePage(s, a) && (keepFirst || a >= 0x1000)
    ensures OwnPage(s, a)
  {
    var page: nat := a - a % 0x1000;
    SamePage(s, page, a);
    assert Free(s, a);
    var e :| e in s && e.kind == USABLE && e.Covers(a);
    var i :| 0 <= i < |s| && s[i] == e;
    RunStaysInsideBack(s, keepFirst, i, page, page, a - page);
    RunStaysInside(s, keepFirst, i, page, a, page + 0xfff - a);
  }

  /** Two entries that adjoin within a page do not leave it to any one entry. */
  lemma {:induction false} SeamNotOwned(s: seq<Entry>, i: nat, j: nat)
    requires UsableTidy(s) && i < |s| && j < |s| && s[i].kind == USABLE && s[j].kind == USABLE && OwnPage(s, s[j].base)
    ensures !(s[i].Fits() && s[j].Fits() && s[i].Top() == s[j].base && s[j].base % 0x1000 != 0)
  {
    var b := s[j].base;
    var e :| e in s && e.kind == USABLE && e.Fits() && PageInside(b, e.base, e.Top());
    var k :| 0 <= k < |s| && s[k] == e;
    if s[j].Fits() {
      assert s[k].Covers(b) && s[j].Covers(b);
    }
  }

  // ----- One step keeps them

  lemma {:induction false} StepIsInner(s: seq<Entry>, i: nat, align: bool)
    requires i < |s| && s[i].kind == USABLE && TrimStep(s, i, align).Replace?
    ensures var g := TrimStep(s, i, align).entry;
            Inner(s[i], g) && (s[i].Fits() <==> g.Fits()) && g.length > 0
  {
    TrimIsDifference(s, i, 0, s[i]);
    TrimOverflow(s, i, 0, s[i]);
    var f := TrimFrom(s, i, 0, s[i]).entry;
    assert !s[i].Fits() ==> f == s[i] by {
      if !s[i].Fits() {
        Alone(s, i);
      }
    }
    AlignedInnerIsExact(f);
  }

  lemma {:induction false} Alone(s: seq<Entry>, i: nat)
    requires i < |s| && !s[i].Fits() && TrimFrom(s, i, 0, s[i]).Trimmed?
    ensures TrimFrom(s, i, 0, s[i]) == Trimmed(s[i])
  {
    TrimOverflow(s, i, 0, s[i]);
  }

  function AfterStep(s: seq<Entry>, i: nat, align: bool): seq<Entry>
    requires i < |s|
  {
    match TrimStep(s, i, align)
    case Stop => s
    case Delete => SwapRemoved(s, i)
    case Replace(e) => s[i := e]
  }

  lemma {:induction false} TidyAfterStep(s: seq<Entry>, i: nat, align: bool)
    requires i < |s| && s[i].kind == USABLE && UsableTidy(s)
    ensures UsableTidy(AfterStep(s, i, align))
  {
    match TrimStep(s, i, align)
    case Stop =>
    case Delete => RemovedTidy(s, i);
    case Replace(g) =>
      StepIsInner(s, i, align);
  }

  lemma {:induction false} RemovedTidy(s: seq<Entry>, i: nat)
    requires i < |s| && UsableTidy(s)
    ensures UsableTidy(SwapRemoved(s, i))
  {
    var r := SwapRemoved(s, i);
    assert forall k :: 0 <= k < |r| ==> r[k] == s[if k == i then |s| - 1 else k];
  }

  /** Cutting a usable entry by all others keeps the free pages that lie in it. */
  lemma {:induction false} TrimKeepsPage(s: seq<Entry>, i: nat, a: nat)
    requires UsableTidy(s) && i < |s| && s[i].kind == USABLE && s[i].Fits() && !TrimStep(s, i, true).Stop?
    requires PageInside(a, s[i].base, s[i].Top()) && WholePage(s, a)
    ensures TrimStep(s, i, true).Replace? && TrimStep(s, i, true).entry.Fits()
    ensures var g := TrimStep(s, i, true).entry; PageInside(a, g.base, g.Top())
  {
    TrimOverflow(s, i, 0, s[i]);
    TrimIsDifference(s, i, 0, s[i]);
    var f, page := TrimFrom(s, i, 0, s[i]).entry, a - a % 0x1000;
    forall b: nat | page <= b < page + 0x1000 ensures f.Covers(b) {
      OnlyHere(s, i, b);
    }
    assert f.Covers(page) && f.Covers(page + 0xfff);
    AlignedInnerIsExact(f);
    AlignedStays(AlignedInner(f).value);
    AlignedInnerIsExact(AlignedInner(f).value);
  }

  /** A free address of a usable entry is in no other one. */
  lemma {:induction false} OnlyHere(s: seq<Entry>, i: nat, b: nat)
    requires UsableTidy(s) && i < |s| && s[i].kind == USABLE && s[i].Covers(b) && Free(s, b)
    ensures !Elsewhere(s, i, b)
  {
    forall k | 0 <= k < |s| && k != i ensures !s[k].Covers(b) {
      if s[k].kind != USABLE {
        assert s[k] in s;
      } else {
        assert Apart(s[i], s[k]);
      }
    }
  }

  /** A page of another entry, or of what was left of this one. */
  lemma {:induction false} StepKeepsOwner(s: seq<Entry>, i: nat, a: nat)
    requires UsableTidy(s) && i < |s| && s[i].kind == USABLE && !TrimStep(s, i, true).Stop? && FreePage(s, a)
    ensures OwnPage(AfterStep(s, i, true), a)
  {
    var r := AfterStep(s, i, true);
    var e :| e in s && e.kind == USABLE && e.Fits() && PageInside(a, e.base, e.Top());
    var k :| 0 <= k < |s| && s[k] == e;
    if k == i {
      TrimKeepsPage(s, i, a);
      StepIsInner(s, i, true);
      assert r[i] in r;
    } else if TrimStep(s, i, true).Delete? {
      SwapRemovedMembers(s, i);
    } else {
      assert r[k] in r;
    }
  }

  lemma {:induction false} StepAddsNoOwner(s: seq<Entry>, i: nat, a: nat)
    requires i < |s| && s[i].kind == USABLE && !TrimStep(s, i, true).Stop? && OwnPage(AfterStep(s, i, true), a)
    ensures OwnPage(s, a)
  {
    var r := AfterStep(s, i, true);
    var e :| e in r && e.kind == USABLE && e.Fits() && PageInside(a, e.base, e.Top());
    match TrimStep(s, i, true)
    case Delete => SwapRemovedMembers(s, i);
    case Replace(g) =>
      StepIsInner(s, i, true);
      ReplaceMembers(s, i, g, r);
      assert s[i] in s;
  }

  lemma {:induction false} StepWithin(s: seq<Entry>, i: nat)
    requires i < |s| && s[i].kind == USABLE && !TrimStep(s, i, true).Stop?
    ensures SameOthers(s, AfterStep(s, i, true)) && FreeWithin(s, AfterStep(s, i, true))
  {
    match TrimStep(s, i, true)
    case Delete => StepDeletes(s, i, true);
    case Replace(g) =>
      StepIsInner(s, i, true);
      ShrinkUsable(s, i, g);
  }

  /** With rounding, a step on a map whose usable entries do not overlap each other keeps exactly the
      free pages that lie in one of them. */
  lemma {:induction false} StepKeepsPages(s: seq<Entry>, i: nat)
    requires UsableTidy(s) && i < |s| && s[i].kind == USABLE && !TrimStep(s, i, true).Stop?
    ensures UsableTidy(AfterStep(s, i, true)) && FreePagesKept(s, AfterStep(s, i, true))
  {
    var r := AfterStep(s, i, true);
    TidyAfterStep(s, i, true);
    StepWithin(s, i);
    SameOthersTaken(s, r);
    forall a: nat ensures FreePage(s, a) == FreePage(r, a) {
      if FreePage(s, a) {
        StepKeepsOwner(s, i, a);
        OwnerIsFree(s, r, a);
      }
      if FreePage(r, a) {
        StepAddsNoOwner(s, i, a);
      }
    }
  }

  lemma {:induction false} OwnerIsFree(s: seq<Entry>, r: seq<Entry>, a: nat)
    requires WholePage(s, a) && OwnPage(r, a) && forall b: nat :: Taken(s, b) == Taken(r, b)
    ensures WholePage(r, a)
  {
    var e :| e in r && e.kind == USABLE && e.Fits() && PageInside(a, e.base, e.Top());
    forall b: nat | a - a % 0x1000 <= b < a - a % 0x1000 + 0x1000 ensures Free(r, b) {
      assert e.Covers(b) && Has(r, USABLE, b);
      assert Free(s, b);
    }
  }

  /** Entries the first loop has nothing to do on. */
  ghost predicate Calm(s: seq<Entry>, align: bool) {
    NoneEmpty(s) && SettledTo(s, |s|, align)
  }

  /** What the first loop has achieved so far, from s0 to s. */
  ghost predicate Progress(s0: seq<Entry>, s: seq<Entry>, align: bool) {
    && Refines(s0, s, align) && RestKept(s0, s)
    && (align && UsableTidy(s0) ==> UsableTidy(s) && FreePagesKept(s0, s))
    && (Calm(s0, align) ==> s == s0)
  }

  lemma {:induction false} ProgressStep(s0: seq<Entry>, s: seq<Entry>, i: nat, align: bool)
    requires Progress(s0, s, align) && SettledTo(s, i, align) && i < |s| && s[i].kind == USABLE
    ensures TrimStep(s, i, align).Stop? ==> !Calm(s0, align)
    ensures !TrimStep(s, i, align).Stop? ==> Progress(s0, AfterStep(s, i, align), align)
    ensures TrimStep(s, i, align).Replace? ==> SettledTo(AfterStep(s, i, align), i + 1, align)
  {
    if Calm(s0, align) {
      StepOfSettled(s, i, align);
    }
    if TrimStep(s, i, align).Delete? {
      StepDeletes(s, i, align);
      RestWithout(s, i);
    } else if TrimStep(s, i, align).Replace? {
      StepReplaces(s, i, align);
      StepIsInner(s, i, align);
      RestChanged(s, i, TrimStep(s, i, align).entry);
    }
    if !TrimStep(s, i, align).Stop? {
      if align && UsableTidy(s0) {
        StepKeepsPages(s, i);
      }
    }
  }

  /** In a settled map every address of a usable entry is free. */
  lemma {:induction false} SettledFree(s: seq<Entry>, align: bool)
    requires SettledTo(s, |s|, align)
    ensures forall a: nat :: Free(s, a) <==> Has(s, USABLE, a)
  {
    forall a: nat | Has(s, USABLE, a) ensures !Taken(s, a) {
      var e :| e in s && e.kind == USABLE && e.Covers(a);
      var k :| 0 <= k < |s| && s[k] == e;
      assert Settled(s, k, align);
      forall o | o in s && o.kind != USABLE ensures !o.Covers(a) {
        var l :| 0 <= l < |s| && s[l] == o;
        assert Apart(s[k], s[l]);
      }
    }
  }

  /** In a settled, page-aligned map an address is free exactly if its whole page is. */
  lemma {:induction false} AlignedPages(s: seq<Entry>)
    requires SettledTo(s, |s|, true)
    ensures forall a: nat :: Free(s, a) <==> WholePage(s, a)
    ensures forall a: nat :: Free(s, a) <==> OwnPage(s, a)
  {
    SettledFree(s, true);
    forall a: nat ensures Free(s, a) <==> OwnPage(s, a) {
      AlignedOwns(s, a);
    }
    forall a: nat ensures Free(s, a) <==> WholePage(s, a) {
      assert a - a % 0x1000 <= a < a - a % 0x1000 + 0x1000;
      if Free(s, a) {
        var e :| e in s && e.kind == USABLE && e.Covers(a);
        var k :| 0 <= k < |s| && s[k] == e;
        assert Settled(s, k, true);
        forall b: nat | a - a % 0x1000 <= b < a - a % 0x1000 + 0x1000 ensures Free(s, b) {
          assert Has(s, USABLE, b);
        }
      }
    }
  }

  lemma {:induction false} AlignedOwns(s: seq<Entry>, a: nat)
    requires SettledTo(s, |s|, true)
    ensures Has(s, USABLE, a) <==> OwnPage(s, a)
  {
    if Has(s, USABLE, a) {
      var e :| e in s && e.kind == USABLE && e.Covers(a);
      var k :| 0 <= k < |s| && s[k] == e;
      assert Settled(s, k, true);
      AlignedStays(e);
      AlignedInnerAt(e, a);
    }
  }

  lemma {:induction false} CleanIsCalm(s: seq<Entry>, align: bool)
    requires UsableApart(s) && NoneEmpty(s) && UsableFit(s) && (align ==> UsableAligned(s))
    ensures Calm(s, align)
  {
  }

  lemma {:induction false} SettledShape(s: seq<Entry>, align: bool)
    requires SettledTo(s, |s|, align)
    ensures UsableApart(s) && UsableFit(s) && (align ==> UsableAligned(s))
  {
    forall i, j | 0 <= i < |s| && 0 <= j < |s| && i != j && s[i].kind == USABLE ensures Apart(s[i], s[j]) {
      assert Settled(s, i, align);
    }
    forall i | 0 <= i < |s| && s[i].kind == USABLE ensures (s[i].Fits() || |s| == 1) && (align ==> PageAligned(s[i])) {
      assert Settled(s, i, align);
    }
  }
}
