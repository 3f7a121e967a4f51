/**
 The remaining passes of pmm_sanitise_entries (common/mm/pmm.s2.c) on values: dropping empty
 entries and clipping the first page, sorting, merging.
 */
module MemmapPasses {
  import opened Memmap
  import opened MemmapSpec

  // ----- Dropping empty entries and clipping usable memory below 0x1000

  /** What the second loop does with entry i: deletion or replacement. */
  function ClipStep(e: Entry, keepFirst: bool): Step {
    if e.kind == USABLE && !keepFirst && e.base < 0x1000 then
      if !e.Fits() || e.Top() <= 0x1000 then Delete
      else Replace(Entry(0x1000, e.length - (0x1000 - e.base), e.kind))
    else if e.length == 0 then Delete
    else Replace(e)
  }

  function AfterClip(s: seq<Entry>, i: nat, keepFirst: bool): seq<Entry>
    requires i < |s|
  {
    match ClipStep(s[i], keepFirst)
    case Stop => s
    case Delete => SwapRemoved(s, i)
    case Replace(e) => s[i := e]
  }

  /** From s to r nothing changed above the first page, and the other types not at all; below it,
      nothing became free. */
  ghost predicate Clipping(s: seq<Entry>, r: seq<Entry>, keepFirst: bool) {
    && SameOthers(s, r) && FreeWithin(s, r)
    && (forall a: nat :: (keepFirst || a >= 0x1000) && Free(s, a) ==> Free(r, a))
  }

  /** The structure every pass keeps. */
  ghost predicate KeepsShape(s: seq<Entry>, r: seq<Entry>) {
    && (AllFit(s) ==> AllFit(r)) && (AllApart(s) ==> AllApart(r))
    && (forall align :: SettledTo(s, |s|, align) ==> SettledTo(r, |r|, align))
  }

  lemma {:induction false} ShapeRemoved(s: seq<Entry>, i: nat)
    requires i < |s|
    ensures KeepsShape(s, SwapRemoved(s, i))
  {
    var r, last := SwapRemoved(s, i), |s| - 1;
    assert forall k :: 0 <= k < |r| ==> r[k] == if k == i then s[last] else s[k];
    SwapRemovedKeeps(s, i);
    forall align | SettledTo(s, |s|, align) ensures SettledTo(r, |r|, align) {
      forall k | 0 <= k < |r| && r[k].kind == USABLE ensures Settled(r, k, align) {
        var k' := if k == i then last else k;
        assert Settled(s, k', align);
        forall j | 0 <= j < |r| && j != k ensures Apart(r[k], r[j]) {
          var j' := if j == i then last else j;
          assert Apart(s[k'], s[j']);
        }
      }
    }
  }

  lemma {:induction false} ShapeShrunk(s: seq<Entry>, i: nat, e: Entry)
    requires i < |s| && Inner(s[i], e) && e.length > 0 && s[i].Fits() && (PageAligned(s[i]) ==> PageAligned(e))
    ensures KeepsShape(s, s[i := e])
  {
    var r := s[i := e];
    forall align | SettledTo(s, |s|, align) ensures SettledTo(r, |r|, align) {
      forall k | 0 <= k < |r| && r[k].kind == USABLE ensures Settled(r, k, align) {
        assert Settled(s, k, align);
      }
    }
  }

  lemma {:induction false} ClipDeletes(s: seq<Entry>, i: nat, keepFirst: bool)
    requires i < |s| && ClipStep(s[i], keepFirst).Delete?
    ensures Clipping(s, SwapRemoved(s, i), keepFirst) && KeepsShape(s, SwapRemoved(s, i))
  {
    var r := SwapRemoved(s, i);
    ShapeRemoved(s, i);
    if s[i].kind == USABLE {
      DropUsable(s, i);
      SameOthersTaken(s, r);
      SwapRemovedMembers(s, i);
      forall a: nat | (keepFirst || a >= 0x1000) && Free(s, a) ensures Free(r, a) {
        var e :| e in s && e.kind == USABLE && e.Covers(a);
        var k :| 0 <= k < |s| && s[k] == e;
        assert s[k] in r;
      }
    } else {
      SwapRemovedHas(s, i);
      SameCoverageFree(s, r);
    }
  }

  lemma {:induction false} ClipReplaces(s: seq<Entry>, i: nat, keepFirst: bool)
    requires i < |s| && ClipStep(s[i], keepFirst).Replace?
    ensures var r := s[i := ClipStep(s[i], keepFirst).entry];
            Clipping(s, r, keepFirst) && KeepsShape(s, r)
  {
    var e := ClipStep(s[i], keepFirst).entry;
    var r := s[i := e];
    if e == s[i] {
      assert r == s;
    } else {
      ShapeShrunk(s, i, e);
      ShrinkUsable(s, i, e);
      ReplaceMembers(s, i, e, r);
      SameOthersTaken(s, r);
      forall a: nat | (keepFirst || a >= 0x1000) && Free(s, a) ensures Free(r, a) {
        var f :| f in s && f.kind == USABLE && f.Covers(a);
        var k :| 0 <= k < |s| && s[k] == f;
        assert k == i ==> e.Covers(a);
        assert k != i ==> s[k] in r;
      }
    }
  }

  lemma {:induction false} ClipKeepsRest(s: seq<Entry>, i: nat, keepFirst: bool)
    requires i < |s| && ClipStep(s[i], keepFirst).Replace?
    ensures RestKept(s, s[i := ClipStep(s[i], keepFirst).entry])
  {
    var e := ClipStep(s[i], keepFirst).entry;
    if e == s[i] {
      assert s[i := e] == s;
    } else {
      RestChanged(s, i, e);
    }
  }

  lemma {:induction false} ClippingTrans(s: seq<Entry>, r: seq<Entry>, t: seq<Entry>, keepFirst: bool)
    requires Clipping(s, r, keepFirst) && Clipping(r, t, keepFirst) && KeepsShape(s, r) && KeepsShape(r, t)
    ensures Clipping(s, t, keepFirst) && KeepsShape(s, t)
  {
  }

  // ----- Sorting

  function Swapped(s: seq<Entry>, i: nat, j: nat): seq<Entry>
    requires i < |s| && j < |s|
  {
    s[i := s[j]][j := s[i]]
  }

  lemma {:induction false} PermutationCoverage(s: seq<Entry>, r: seq<Entry>)
    requires multiset(s) == multiset(r)
    ensures SameCoverage(s, r)
  {
    assert forall e :: e in s <==> e in multiset(s);
    assert forall e :: e in r <==> e in multiset(r);
    forall kind: nat, a: nat ensures Has(s, kind, a) == Has(r, kind, a) {
      if Has(s, kind, a) {
        var e :| e in s && e.kind == kind && e.Covers(a);
        assert e in r;
      }
      if Has(r, kind, a) {
        var e :| e in r && e.kind == kind && e.Covers(a);
        assert e in s;
      }
    }
  }

  lemma {:induction false} ShapeSwapped(s: seq<Entry>, i: nat, j: nat)
    requires i < |s| && j < |s|
    ensures KeepsShape(s, Swapped(s, i, j)) && multiset(s) == multiset(Swapped(s, i, j))
    ensures NoneEmpty(s) ==> NoneEmpty(Swapped(s, i, j))
    ensures forall keep :: FirstPageClear(s, keep) ==> FirstPageClear(Swapped(s, i, j), keep)
  {
    SwappedMultiset(s, i, j);
    ApartSwapped(s, i, j);
    forall align | SettledTo(s, |s|, align) ensures SettledTo(Swapped(s, i, j), |s|, align) {
      SettledSwapped(s, i, j, align);
    }
  }

  lemma {:induction false} SwappedMultiset(s: seq<Entry>, i: nat, j: nat)
    requires i < |s| && j < |s|
    ensures multiset(s) == multiset(Swapped(s, i, j))
  {
  }

  lemma {:induction false} ApartSwapped(s: seq<Entry>, i: nat, j: nat)
    requires i < |s| && j < |s|
    ensures AllApart(s) ==> AllApart(Swapped(s, i, j))
  {
    var r := Swapped(s, i, j);
    forall k, l | AllApart(s) && 0 <= k < |r| && 0 <= l < |r| && k != l ensures Apart(r[k], r[l]) {
      assert Apart(s[Unswapped(i, j, k)], s[Unswapped(i, j, l)]);
    }
  }

  /** Index in s of the entry at index k after swapping i and j. */
  function Unswapped(i: nat, j: nat, k: nat): nat {
    if k == i then j else if k == j then i else k
  }

  lemma {:induction false} SettledSwapped(s: seq<Entry>, i: nat, j: nat, align: bool)
    requires i < |s| && j < |s| && SettledTo(s, |s|, align)
    ensures SettledTo(Swapped(s, i, j), |s|, align)
  {
    var r := Swapped(s, i, j);
    forall k | 0 <= k < |r| && r[k].kind == USABLE ensures Settled(r, k, align) {
      assert Settled(s, Unswapped(i, j, k), align);
      forall l | 0 <= l < |r| && l != k ensures Apart(r[k], r[l]) {
        assert Apart(s[Unswapped(i, j, k)], s[Unswapped(i, j, l)]);
      }
    }
  }

  // ----- Merging

  function MergedAt(s: seq<Entry>, i: nat): seq<Entry>
    requires i + 1 < |s| && Mergeable(s[i], s[i + 1])
  {
    s[..i] + [Entry(s[i].base, s[i].length + s[i + 1].length, s[i].kind)] + s[i + 2..]
  }

  /** Index in s of the entry at index k after merging at i. */
  function Unmerged(i: nat, k: nat): nat {
    if k <= i then k else k + 1
  }

  lemma {:induction false} MergedAtIndex(s: seq<Entry>, i: nat)
    requires i + 1 < |s| && Mergeable(s[i], s[i + 1])
    ensures |MergedAt(s, i)| == |s| - 1
    ensures forall k :: 0 <= k < |s| - 1 && k != i ==> MergedAt(s, i)[k] == s[Unmerged(i, k)]
    ensures MergedAt(s, i)[i] == Entry(s[i].base, s[i].length + s[i + 1].length, s[i].kind)
  {
  }

  /** Merging two adjoining entries that both fit changes no coverage; otherwise only that of a type
      that is not usable. */
  lemma {:induction false} MergeCoverage(s: seq<Entry>, i: nat)
    requires i + 1 < |s| && Mergeable(s[i], s[i + 1])
    ensures forall kind: nat, a: nat :: (s[i + 1].Fits() || kind != s[i].kind) ==>
              Has(s, kind, a) == Has(MergedAt(s, i), kind, a)
    ensures forall kind: nat, a: nat :: Has(MergedAt(s, i), kind, a) ==> Has(s, kind, a)
  {
    var r := MergedAt(s, i);
    MergedAtIndex(s, i);
    forall kind: nat, a: nat
      ensures (s[i + 1].Fits() || kind != s[i].kind) && Has(s, kind, a) ==> Has(r, kind, a)
      ensures Has(r, kind, a) ==> Has(s, kind, a)
    {
      if Has(s, kind, a) && (s[i + 1].Fits() || kind != s[i].kind) {
        var e :| e in s && e.kind == kind && e.Covers(a);
        var k :| 0 <= k < |s| && s[k] == e;
        if k == i || k == i + 1 {
          assert r[i] in r && r[i].Covers(a);
        } else {
          assert r[if k < i then k else k - 1] in r;
        }
      }
      if Has(r, kind, a) {
        var e :| e in r && e.kind == kind && e.Covers(a);
        var k :| 0 <= k < |r| && r[k] == e;
        if k == i {
          assert s[i] in s && s[i + 1] in s;
          assert s[i].Covers(a) || s[i + 1].Covers(a);
        } else {
          assert s[Unmerged(i, k)] in s;
        }
      }
    }
  }

  lemma {:induction false} MergeShape(s: seq<Entry>, i: nat)
    requires i + 1 < |s| && Mergeable(s[i], s[i + 1]) && NoneEmpty(s)
    ensures KeepsShape(s, MergedAt(s, i))
    ensures NoneEmpty(MergedAt(s, i))
    ensures Sorted(s) ==> Sorted(MergedAt(s, i))
    ensures forall keep :: FirstPageClear(s, keep) ==> FirstPageClear(MergedAt(s, i), keep)
  {
    MergeEach(s, i);
    MergeSorted(s, i);
    MergeAllApart(s, i);
    forall align | SettledTo(s, |s|, align) ensures SettledTo(MergedAt(s, i), |s| - 1, align) {
      MergeAllSettled(s, i, align);
    }
    MergedAtIndex(s, i);
  }

  lemma {:induction false} MergeEach(s: seq<Entry>, i: nat)
    requires i + 1 < |s| && Mergeable(s[i], s[i + 1]) && NoneEmpty(s)
    ensures AllFit(s) ==> AllFit(MergedAt(s, i))
    ensures NoneEmpty(MergedAt(s, i))
    ensures forall keep :: FirstPageClear(s, keep) ==> FirstPageClear(MergedAt(s, i), keep)
  {
    MergedAtIndex(s, i);
  }

  lemma {:induction false} MergeSorted(s: seq<Entry>, i: nat)
    requires i + 1 < |s| && Mergeable(s[i], s[i + 1])
    ensures Sorted(s) ==> Sorted(MergedAt(s, i))
  {
    MergedAtIndex(s, i);
  }

  lemma {:induction false} MergeAllApart(s: seq<Entry>, i: nat)
    requires i + 1 < |s| && Mergeable(s[i], s[i + 1]) && NoneEmpty(s)
    ensures AllApart(s) ==> AllApart(MergedAt(s, i))
  {
    MergedAtIndex(s, i);
    forall k, l | AllApart(s) && 0 <= k < |s| - 1 && 0 <= l < |s| - 1 && k != l
      ensures Apart(MergedAt(s, i)[k], MergedAt(s, i)[l])
    {
      MergeApart(s, i, k, l);
    }
  }

  lemma {:induction false} MergeAllSettled(s: seq<Entry>, i: nat, align: bool)
    requires i + 1 < |s| && Mergeable(s[i], s[i + 1]) && NoneEmpty(s) && SettledTo(s, |s|, align)
    ensures SettledTo(MergedAt(s, i), |s| - 1, align)
  {
    MergedAtIndex(s, i);
    forall k | 0 <= k < |s| - 1 && MergedAt(s, i)[k].kind == USABLE ensures Settled(MergedAt(s, i), k, align) {
      MergeSettled(s, i, k, align);
    }
  }

  lemma {:induction false} MergeApart(s: seq<Entry>, i: nat, k: nat, l: nat)
    requires i + 1 < |s| && Mergeable(s[i], s[i + 1]) && NoneEmpty(s)
    requires k < |s| - 1 && l < |s| - 1 && k != l
    requires Apart(s[Unmerged(i, k)], s[Unmerged(i, l)])
    requires k == i ==> Apart(s[i + 1], s[Unmerged(i, l)])
    requires l == i ==> Apart(s[Unmerged(i, k)], s[i + 1])
    ensures Apart(MergedAt(s, i)[k], MergedAt(s, i)[l])
  {
    MergedAtIndex(s, i);
  }

  lemma {:induction false} MergeSettled(s: seq<Entry>, i: nat, k: nat, align: bool)
    requires i + 1 < |s| && Mergeable(s[i], s[i + 1]) && NoneEmpty(s) && SettledTo(s, |s|, align)
    requires k < |s| - 1 && MergedAt(s, i)[k].kind == USABLE
    ensures Settled(MergedAt(s, i), k, align)
  {
    var r := MergedAt(s, i);
    MergedAtIndex(s, i);
    assert s[Unmerged(i, k)].kind == USABLE;
    assert Settled(s, Unmerged(i, k), align);
    if k == i {
      assert Settled(s, i + 1, align);
    }
    forall l | 0 <= l < |r| && l != k ensures Apart(r[k], r[l]) {
      assert Apart(s[Unmerged(i, k)], s[Unmerged(i, l)]);
      MergeApart(s, i, k, l);
    }
  }

  /** Merging keeps the free addresses of a settled map. */
  lemma {:induction false} MergeFree(s: seq<Entry>, i: nat)
    requires i + 1 < |s| && Mergeable(s[i], s[i + 1]) && NoneEmpty(s) && SettledTo(s, |s|, false)
    ensures FreeKept(s, MergedAt(s, i))
    ensures AllFit(s) ==> SameOthers(s, MergedAt(s, i))
  {
    var r := MergedAt(s, i);
    MergeCoverage(s, i);
    MergeShape(s, i);
    SettledFree(s, false);
    SettledFree(r, false);
    if s[i].kind == USABLE {
      assert Settled(s, i + 1, false);
    }
    forall a: nat ensures Free(s, a) == Free(r, a) {
      assert Has(s, USABLE, a) == Has(r, USABLE, a);
    }
  }

  lemma {:induction false} MergeKeepsRest(s: seq<Entry>, i: nat)
    requires i + 1 < |s| && Mergeable(s[i], s[i + 1])
    ensures RestKept(s, MergedAt(s, i))
  {
    assert s == s[..i] + [s[i], s[i + 1]] + s[i + 2..];
  }

  /** No pair before i can be merged. */
  ghost predicate MergedTo(s: seq<Entry>, i: nat) {
    forall k {:trigger s[k]} :: 0 <= k < i && k + 1 < |s| ==> !Mergeable(s[k], s[k + 1])
  }

  lemma {:induction false} MergeKeepsMerged(s: seq<Entry>, i: nat)
    requires i + 1 < |s| && Mergeable(s[i], s[i + 1]) && MergedTo(s, i)
    ensures MergedTo(MergedAt(s, i), i)
  {
    MergedAtIndex(s, i);
    var r := MergedAt(s, i);
    forall k | 0 <= k < i && k + 1 < |r| ensures !Mergeable(r[k], r[k + 1]) {
      assert !Mergeable(s[k], s[k + 1]);
      assert r[k] == s[k];
    }
  }

  // ----- What each loop has achieved so far

  ghost predicate ClipProgress(s0: seq<Entry>, s: seq<Entry>, i: nat, keepFirst: bool) {
    && Clipping(s0, s, keepFirst) && KeepsShape(s0, s) && RestKept(s0, s)
    && (forall k :: 0 <= k < i && k < |s| ==> ClipStep(s[k], keepFirst) == Replace(s[k]))
    && (NoneEmpty(s0) && FirstPageClear(s0, keepFirst) ==> s == s0)
  }

  lemma {:induction false} ClipProgressStep(s0: seq<Entry>, s: seq<Entry>, i: nat, keepFirst: bool)
    requires ClipProgress(s0, s, i, keepFirst) && i < |s|
    ensures ClipStep(s[i], keepFirst).Delete? ==> ClipProgress(s0, AfterClip(s, i, keepFirst), i, keepFirst)
    ensures ClipStep(s[i], keepFirst).Replace? ==> ClipProgress(s0, AfterClip(s, i, keepFirst), i + 1, keepFirst)
  {
    if ClipStep(s[i], keepFirst).Delete? {
      ClipDeletes(s, i, keepFirst);
      RestWithout(s, i);
    } else {
      ClipReplaces(s, i, keepFirst);
      ClipKeepsRest(s, i, keepFirst);
    }
    ClippingTrans(s0, s, AfterClip(s, i, keepFirst), keepFirst);
  }

  lemma {:induction false} ClipDone(s0: seq<Entry>, s: seq<Entry>, keepFirst: bool)
    requires ClipProgress(s0, s, |s|, keepFirst)
    ensures NoneEmpty(s) && FirstPageClear(s, keepFirst)
  {
    forall k | 0 <= k < |s| ensures s[k].length > 0 && (s[k].kind == USABLE ==> keepFirst || s[k].base >= 0x1000) {
      assert ClipStep(s[k], keepFirst) == Replace(s[k]);
    }
  }

  /** The first p entries are in their final places. */
  ghost predicate SortedTo(s: seq<Entry>, p: nat) {
    forall k, l :: 0 <= k < p && k <= l < |s| ==> s[k].base <= s[l].base
  }

  ghost predicate SortProgress(s0: seq<Entry>, s: seq<Entry>, p: nat, keepFirst: bool) {
    && multiset(s) == multiset(s0) && KeepsShape(s0, s) && SortedTo(s, p)
    && (NoneEmpty(s0) ==> NoneEmpty(s)) && (FirstPageClear(s0, keepFirst) ==> FirstPageClear(s, keepFirst))
    && (Sorted(s0) ==> s == s0)
  }

  /** min is the first of the smallest entries from p on. */
  ghost predicate IsMin(s: seq<Entry>, p: nat, min: nat) {
    && p <= min < |s|
    && (forall l :: p <= l < |s| ==> s[min].base <= s[l].base)
    && (forall l :: p <= l < min ==> s[min].base < s[l].base)
  }

  lemma {:induction false} SortProgressStep(s0: seq<Entry>, s: seq<Entry>, p: nat, min: nat, keepFirst: bool)
    requires SortProgress(s0, s, p, keepFirst) && IsMin(s, p, min)
    ensures SortProgress(s0, Swapped(s, p, min), p + 1, keepFirst)
  {
    ShapeSwapped(s, p, min);
    KeepsShapeTrans(s0, s, Swapped(s, p, min));
    SortedToStep(s, p, min);
    if Sorted(s0) {
      assert min == p;
      assert Swapped(s, p, min) == s;
    }
  }

  lemma {:induction false} SortedToStep(s: seq<Entry>, p: nat, min: nat)
    requires SortedTo(s, p) && IsMin(s, p, min)
    ensures SortedTo(Swapped(s, p, min), p + 1)
  {
    var r := Swapped(s, p, min);
    forall k, l | 0 <= k < p + 1 && k <= l < |r| ensures r[k].base <= r[l].base {
      assert p <= Unswapped(p, min, l) || Unswapped(p, min, l) == l;
    }
  }

  lemma {:induction false} KeepsShapeTrans(s: seq<Entry>, r: seq<Entry>, t: seq<Entry>)
    requires KeepsShape(s, r) && KeepsShape(r, t)
    ensures KeepsShape(s, t)
  {
  }

  ghost predicate MergeProgress(s0: seq<Entry>, s: seq<Entry>, i: nat, keepFirst: bool) {
    && NoneEmpty(s) && Sorted(s) && MergedTo(s, i) && SettledTo(s, |s|, false)
    && FreeKept(s0, s) && KeepsShape(s0, s) && (AllFit(s0) ==> SameOthers(s0, s)) && RestKept(s0, s)
    && (FirstPageClear(s0, keepFirst) ==> FirstPageClear(s, keepFirst))
    && (Merged(s0) ==> s == s0)
  }

  lemma {:induction false} MergeProgressStep(s0: seq<Entry>, s: seq<Entry>, i: nat, keepFirst: bool)
    requires MergeProgress(s0, s, i, keepFirst) && i + 1 < |s|
    ensures Mergeable(s[i], s[i + 1]) ==> MergeProgress(s0, MergedAt(s, i), i, keepFirst)
    ensures !Mergeable(s[i], s[i + 1]) ==> MergeProgress(s0, s, i + 1, keepFirst)
  {
    if Mergeable(s[i], s[i + 1]) {
      MergeFree(s, i);
      FreeTrans(s0, s, MergedAt(s, i));
      MergeShape(s, i);
      MergeKeepsMerged(s, i);
      KeepsShapeTrans(s0, s, MergedAt(s, i));
      MergeKeepsRest(s, i);
    }
  }

  lemma {:induction false} SortStart(s: seq<Entry>, keepFirst: bool)
    ensures SortProgress(s, s, 0, keepFirst)
  {
  }

  lemma {:induction false} MergeStart(s: seq<Entry>, keepFirst: bool)
    requires NoneEmpty(s) && Sorted(s) && SettledTo(s, |s|, false)
    ensures MergeProgress(s, s, 0, keepFirst)
  {
  }

  lemma {:induction false} MergedIsApart(s: seq<Entry>)
    requires Merged(s)
    ensures NeighboursApart(s)
  {
    forall i: nat | i + 1 < |s| ensures ApartFromNext(s, i) {
      assert !Mergeable(s[i], s[i + 1]);
    }
  }

  // ----- All passes together

  /** What pmm_sanitise_entries makes of a map that it does not panic on.  Usable memory is what was
      free, less the first page or partial pages where they are not wanted; the result is clean; the
      other types keep their addresses unless an entry overflows.  Adjoining entries of three types are
      joined, and the entries of all other types are the same as before. */
  ghost predicate Sanitised(s: seq<Entry>, r: seq<Entry>, align: bool, keepFirst: bool) {
    && Clean(r) && Presentable(r, align, keepFirst)
    && (forall a: nat :: Free(r, a) ==> Free(s, a) && (keepFirst || a >= 0x1000))
    && (!align ==> forall a: nat :: Free(s, a) && (keepFirst || a >= 0x1000) ==> Free(r, a))
    && (align && UsableTidy(s) ==> forall a: nat :: Free(r, a) <==> FreePage(s, a) && (keepFirst || a >= 0x1000))
    && (AllFit(s) ==> AllFit(r) && SameOthers(s, r))
    && (AllApart(s) ==> AllApart(r))
    && NeighboursApart(r) && RestKept(s, r)
  }

  ghost predicate Presentable(s: seq<Entry>, align: bool, keepFirst: bool) {
    FirstPageClear(s, keepFirst) && (align ==> UsableAligned(s))
  }

  /** A map that a run with these options would leave as it is. */
  ghost predicate Final(s: seq<Entry>, align: bool, keepFirst: bool) {
    Clean(s) && Presentable(s, align, keepFirst)
  }

  /** Above the first page, or anywhere if it is kept, free in s means free in r. */
  lemma {:induction false} ClipAboveFirstPage(s: seq<Entry>, r: seq<Entry>, keepFirst: bool)
    requires Clipping(s, r, keepFirst) && FirstPageClear(r, keepFirst)
    ensures forall a: nat :: Free(r, a) <==> Free(s, a) && (keepFirst || a >= 0x1000)
  {
    forall a: nat | Free(r, a) ensures keepFirst || a >= 0x1000 {
      var e :| e in r && e.kind == USABLE && e.Covers(a);
      var k :| 0 <= k < |r| && r[k] == e;
    }
  }

  lemma {:induction false} FreeTrans(s: seq<Entry>, r: seq<Entry>, t: seq<Entry>)
    requires FreeKept(s, r) && FreeKept(r, t)
    ensures FreeKept(s, t)
  {
  }

  lemma {:induction false} SettledBoth(s: seq<Entry>, align: bool)
    requires SettledTo(s, |s|, align)
    ensures SettledTo(s, |s|, false)
  {
    forall k | 0 <= k < |s| && s[k].kind == USABLE ensures Settled(s, k, false) {
      assert Settled(s, k, align);
    }
  }

  lemma {:induction false} PassesCompose(s0: seq<Entry>, s1: seq<Entry>, s2: seq<Entry>, s3: seq<Entry>, s4: seq<Entry>,
                                         align: bool, keepFirst: bool)
    requires Progress(s0, s1, align) && SettledTo(s1, |s1|, align)
    requires ClipProgress(s1, s2, |s2|, keepFirst)
    requires SortProgress(s2, s3, 0, keepFirst) && Sorted(s3)
    requires MergeProgress(s3, s4, |s4|, keepFirst) && Merged(s4)
    ensures Sanitised(s0, s4, align, keepFirst)
    ensures Final(s0, align, keepFirst) ==> s4 == s0
  {
    ClipDone(s1, s2, keepFirst);
    assert SettledTo(s4, |s4|, align);
    SettledShape(s4, align);
    ClipAboveFirstPage(s1, s2, keepFirst);
    PermutationCoverage(s2, s3);
    SameCoverageFree(s2, s3);
    FreeTrans(s2, s3, s4);
    MergedIsApart(s4);
    if align && UsableTidy(s0) {
      AlignedPages(s1);
      forall a: nat ensures Free(s1, a) <==> FreePage(s0, a) {
        assert FreePage(s1, a) <==> Free(s1, a);
      }
    }
    if Final(s0, align, keepFirst) {
      CleanIsCalm(s0, align);
    }
  }

  /** Where usable entries do not overlap each other, rounding keeps all wholly free pages exactly if no
      two of them adjoin within one. */
  lemma {:induction false} RoundingKeepsPagesIff(s: seq<Entry>, r: seq<Entry>, keepFirst: bool)
    requires UsableTidy(s) && Sanitised(s, r, true, keepFirst)
    ensures PagesKept(s, r, keepFirst) <==> Seamless(s, keepFirst)
  {
    CleanIsCalm(r, true);
    AlignedPages(r);
    PagesOwnedIff(s, keepFirst);
    forall a: nat | keepFirst || a >= 0x1000 ensures WholePage(r, a) <==> FreePage(s, a) {
      assert Free(r, a) <==> WholePage(r, a);
    }
    if !Seamless(s, keepFirst) {
      var a: nat :| (keepFirst || a >= 0x1000) && WholePage(s, a) && !OwnPage(s, a);
      assert WholePage(s, a) != WholePage(r, a);
    }
  }
}
