/**
 Claiming a range of the memory map (pmm_new_entry in common/mm/pmm.s2.c) on values: every
 entry loses the range, by deletion, shaving or splitting, and one new entry describes it.
 */
module MemmapPunch {
  import opened Memmap
  import opened MemmapSpec
  import opened MemmapPasses
  import opened Wrappers

  /** What the loop does with one entry. */
  datatype Punch = Untouched | Erased | Shaved(entry: Entry) | Split(low: Entry, high: Entry)

  function PunchOf(e: Entry, base: nat, top: nat): Punch
    requires base < top < U64
  {
    if !e.Fits() then Untouched
    else if base <= e.base && top >= e.Top() then Erased
    else if base <= e.base && e.base < top < e.Top() then
      Shaved(Entry(e.base + (top - e.base), e.length - (top - e.base), e.kind))
    else if e.base < base < e.Top() && top >= e.Top() then
      Shaved(Entry(e.base, e.length - (e.Top() - base), e.kind))
    else if e.base < base && top < e.Top() then
      Split(Entry(e.base, e.length - (e.Top() - base), e.kind), Entry(top, e.Top() - top, e.kind))
    else Untouched
  }

  /** No address of [base, top) is covered. */
  predicate Clear(e: Entry, base: nat, top: nat) {
    e.Fits() && e.length > 0 ==> e.Top() <= base || top <= e.base
  }

  /** Punching removes exactly the range. */
  lemma {:induction false} PunchIsExact(e: Entry, base: nat, top: nat)
    requires base < top < U64
    ensures match PunchOf(e, base, top)
            case Untouched => Clear(e, base, top)
            case Erased => forall a: nat :: e.Covers(a) ==> base <= a < top
            case Shaved(f) => Clear(f, base, top) && Inner(e, f) && f.Fits() && (e.length > 0 ==> f.length > 0)
                              && forall a: nat :: f.Covers(a) <==> e.Covers(a) && !(base <= a < top)
            case Split(f, g) => Clear(f, base, top) && Clear(g, base, top) && Inner(e, f) && Inner(e, g)
                                && f.Fits() && g.Fits() && f.length > 0 && g.length > 0 && f.Top() <= g.base
                                && forall a: nat :: f.Covers(a) || g.Covers(a) <==> e.Covers(a) && !(base <= a < top)
  {
  }

  function AfterPunch(s: seq<Entry>, i: nat, base: nat, top: nat): seq<Entry>
    requires i < |s| && base < top < U64
  {
    match PunchOf(s[i], base, top)
    case Untouched => s
    case Erased => SwapRemoved(s, i)
    case Shaved(f) => s[i := f]
    case Split(f, g) => s[i := f] + [g]
  }

  /** Outside the range r covers what s covers. */
  ghost predicate SameOutside(s: seq<Entry>, r: seq<Entry>, base: nat, top: nat) {
    forall kind: nat, a: nat :: !(base <= a < top) ==> Has(s, kind, a) == Has(r, kind, a)
  }

  ghost predicate StaysWellFormed(s: seq<Entry>, r: seq<Entry>) {
    WellFormed(s) ==> WellFormed(r)
  }

  ghost predicate PunchProgress(s0: seq<Entry>, s: seq<Entry>, i: nat, base: nat, top: nat) {
    && SameOutside(s0, s, base, top) && StaysWellFormed(s0, s)
    && (forall k :: 0 <= k < i && k < |s| ==> Clear(s[k], base, top))
  }

  lemma {:induction false} PunchOutside(s: seq<Entry>, i: nat, base: nat, top: nat)
    requires i < |s| && base < top < U64
    ensures SameOutside(s, AfterPunch(s, i, base, top), base, top)
  {
    var r := AfterPunch(s, i, base, top);
    PunchIsExact(s[i], base, top);
    PunchMembers(s, i, base, top);
    forall kind: nat, a: nat | !(base <= a < top) ensures Has(s, kind, a) == Has(r, kind, a) {
      if Has(s, kind, a) {
        var e :| e in s && e.kind == kind && e.Covers(a);
        var k :| 0 <= k < |s| && s[k] == e;
        assert k != i ==> s[k] in r;
      }
      if Has(r, kind, a) {
        var e :| e in r && e.kind == kind && e.Covers(a);
        assert s[i] in s;
      }
    }
  }

  lemma {:induction false} PunchMembers(s: seq<Entry>, i: nat, base: nat, top: nat)
    requires i < |s| && base < top < U64
    ensures var r := AfterPunch(s, i, base, top); var p := PunchOf(s[i], base, top);
            && (forall k :: 0 <= k < |s| && k != i ==> s[k] in r)
            && (p.Untouched? ==> s[i] in r) && (p.Shaved? ==> p.entry in r) && (p.Split? ==> p.low in r && p.high in r)
    ensures var r := AfterPunch(s, i, base, top); var p := PunchOf(s[i], base, top);
            forall e :: e in r ==>
              || (exists k :: 0 <= k < |s| && k != i && s[k] == e) || (p.Untouched? && e == s[i])
              || (p.Shaved? && e == p.entry) || (p.Split? && (e == p.low || e == p.high))
  {
    var r := AfterPunch(s, i, base, top);
    match PunchOf(s[i], base, top)
    case Untouched =>
    case Erased => SwapRemovedMembers(s, i);
    case Shaved(f) => ReplaceMembers(s, i, f, r);
    case Split(f, g) =>
      ReplaceMembers(s, i, f, s[i := f]);
      assert r[|s|] == g && r[i] == f;
      forall k | 0 <= k < |s| && k != i ensures s[k] in r {
        assert r[k] == s[k];
      }
  }

  lemma {:induction false} PunchWellFormed(s: seq<Entry>, i: nat, base: nat, top: nat)
    requires i < |s| && base < top < U64 && WellFormed(s)
    ensures WellFormed(AfterPunch(s, i, base, top))
  {
    PunchIsExact(s[i], base, top);
    SwapRemovedKeeps(s, i);
    var r := AfterPunch(s, i, base, top);
    if PunchOf(s[i], base, top).Split? {
      assert forall k :: 0 <= k < |s| && k != i ==> r[k] == s[k] && Apart(s[k], s[i]) && Apart(s[i], s[k]);
    }
  }

  // ----- Termination of the loop that may append while it runs

  /** How many entries from i on still meet the range. */
  ghost function Dirty(s: seq<Entry>, i: nat, base: nat, top: nat): nat
    decreases |s| - i
  {
    if i >= |s| then 0 else (if Clear(s[i], base, top) then 0 else 1) + Dirty(s, i + 1, base, top)
  }

  lemma {:induction false} DirtyBound(s: seq<Entry>, i: nat, base: nat, top: nat)
    requires i <= |s|
    ensures Dirty(s, i, base, top) <= |s| - i
    decreases |s| - i
  {
    if i < |s| {
      DirtyBound(s, i + 1, base, top);
    }
  }

  lemma {:induction false} DirtySame(s: seq<Entry>, r: seq<Entry>, i: nat, base: nat, top: nat)
    requires |s| == |r| && forall k :: i <= k < |s| ==> s[k] == r[k]
    ensures Dirty(s, i, base, top) == Dirty(r, i, base, top)
    decreases |s| - i
  {
    if i < |s| {
      DirtySame(s, r, i + 1, base, top);
    }
  }

  lemma {:induction false} DirtyAppend(s: seq<Entry>, e: Entry, i: nat, base: nat, top: nat)
    requires i <= |s|
    ensures Dirty(s + [e], i, base, top) == Dirty(s, i, base, top) + if Clear(e, base, top) then 0 else 1
    decreases |s| - i
  {
    if i < |s| {
      DirtyAppend(s, e, i + 1, base, top);
    } else {
      assert Dirty(s + [e], i + 1, base, top) == 0;
    }
  }

  lemma {:induction false} DirtyRemoved(s: seq<Entry>, i: nat, base: nat, top: nat)
    requires i < |s|
    ensures Dirty(SwapRemoved(s, i), i, base, top) <= Dirty(s, i, base, top)
  {
    var last := s[|s| - 1];
    var front := s[..|s| - 1];
    assert s == front + [last];
    DirtyAppend(front, last, i, base, top);
    if i < |s| - 1 {
      var r := SwapRemoved(s, i);
      assert r == front[i := last];
      DirtySame(front, r, i + 1, base, top);
    }
  }

  lemma {:induction false} PunchProgressStep(s0: seq<Entry>, s: seq<Entry>, i: nat, base: nat, top: nat)
    requires PunchProgress(s0, s, i, base, top) && i < |s| && base < top < U64
    ensures var r := AfterPunch(s, i, base, top);
            if PunchOf(s[i], base, top).Erased?
            then PunchProgress(s0, r, i, base, top) && Dirty(r, i, base, top) <= Dirty(s, i, base, top) && |r| < |s|
            else PunchProgress(s0, r, i + 1, base, top)
                 && (Dirty(r, i + 1, base, top) < Dirty(s, i, base, top)
                     || (Dirty(r, i + 1, base, top) == Dirty(s, i, base, top) && |r| == |s|))
    ensures var r := AfterPunch(s, i, base, top);
            |r| + Dirty(r, if PunchOf(s[i], base, top).Erased? then i else i + 1, base, top) <=
              |s| + Dirty(s, i, base, top)
  {
    var r := AfterPunch(s, i, base, top);
    PunchOutside(s, i, base, top);
    PunchIsExact(s[i], base, top);
    if WellFormed(s) {
      PunchWellFormed(s, i, base, top);
    }
    match PunchOf(s[i], base, top)
    case Untouched =>
    case Erased => DirtyRemoved(s, i, base, top);
    case Shaved(f) => DirtySame(s, r, i + 1, base, top);
    case Split(f, g) =>
      DirtySame(s, s[i := f], i + 1, base, top);
      DirtyAppend(s[i := f], g, i + 1, base, top);
  }

  // ----- The result

  /** r describes [base, base + length) as one entry of the given type, and every other address as s. */
  ghost predicate Repainted(s: seq<Entry>, r: seq<Entry>, base: nat, length: nat, kind: nat) {
    forall k: nat, a: nat :: Has(r, k, a) == if base <= a < base + length then k == kind else Has(s, k, a)
  }

  lemma {:induction false} AppendRepaints(s0: seq<Entry>, s: seq<Entry>, e: Entry)
    requires e.Fits() && e.length > 0 && PunchProgress(s0, s, |s|, e.base, e.Top())
    ensures Repainted(s0, s + [e], e.base, e.length, e.kind)
    ensures StaysWellFormed(s0, s + [e])
  {
    var r := s + [e];
    forall k: nat, a: nat ensures Has(r, k, a) == if e.base <= a < e.Top() then k == e.kind else Has(s0, k, a) {
      if Has(s, k, a) {
        var f :| f in s && f.kind == k && f.Covers(a);
        assert f in r;
        var j :| 0 <= j < |s| && s[j] == f;
        assert Clear(s[j], e.base, e.Top());
      }
      assert r[|s|] == e;
      if Has(r, k, a) {
        var f :| f in r && f.kind == k && f.Covers(a);
        assert f in s || f == e;
        if f in s {
          var j :| 0 <= j < |s| && s[j] == f;
          assert Clear(s[j], e.base, e.Top());
        }
      }
    }
    if WellFormed(s0) {
      forall i, j | 0 <= i < |r| && 0 <= j < |r| && i != j ensures Apart(r[i], r[j]) {
        assert i < |s| ==> Clear(s[i], e.base, e.Top());
        assert j < |s| ==> Clear(s[j], e.base, e.Top());
      }
    }
  }

  // ----- A claim followed by the clean-up

  /** The type function of r is that of s with [base, base + length) set to the given type, except
      that usable memory in the first page is dropped when it is not to be kept. */
  ghost predicate Retyped(s: seq<Entry>, r: seq<Entry>, base: nat, length: nat, kind: nat, keepFirst: bool) {
    forall k: nat, a: nat ::
      Has(r, k, a) == ((if base <= a < base + length then k == kind else Has(s, k, a))
                       && (k != USABLE || keepFirst || a >= 0x1000))
  }

  lemma {:induction false} WellFormedIsCalm(s: seq<Entry>)
    requires WellFormed(s)
    ensures Calm(s, false)
  {
  }

  /** On a well-formed map the clean-up keeps the type function, first page aside. */
  lemma {:induction false} SanitisedKeepsTypes(s: seq<Entry>, r: seq<Entry>, keepFirst: bool)
    requires WellFormed(s) && Sanitised(s, r, false, keepFirst)
    ensures WellFormed(r)
    ensures forall k: nat, a: nat :: Has(r, k, a) == (Has(s, k, a) && (k != USABLE || keepFirst || a >= 0x1000))
  {
    WellFormedIsCalm(s);
    CleanIsCalm(r, false);
    SettledFree(s, false);
    SettledFree(r, false);
    forall k: nat, a: nat ensures Has(r, k, a) == (Has(s, k, a) && (k != USABLE || keepFirst || a >= 0x1000)) {
      if k == USABLE {
        assert Free(r, a) <==> Has(r, USABLE, a);
        assert Free(s, a) <==> Has(s, USABLE, a);
      }
    }
  }

  lemma {:induction false} ClaimRetypes(s: seq<Entry>, t: seq<Entry>, r: seq<Entry>, base: nat, length: nat, kind: nat,
                                        keepFirst: bool)
    requires Repainted(s, t, base, length, kind) && StaysWellFormed(s, t) && WellFormed(s)
             && Sanitised(t, r, false, keepFirst)
    ensures WellFormed(r) && Retyped(s, r, base, length, kind, keepFirst)
  {
    SanitisedKeepsTypes(t, r, keepFirst);
  }

  /** In a clean map without overflow no two usable entries adjoin, and in a disjoint one no two entries
      of any of the three types that are joined. */
  lemma {:induction false} NoneAdjoin(s: seq<Entry>, i: nat, j: nat)
    requires Clean(s) && AllFit(s) && i < |s| && j < |s| && s[i].kind == s[j].kind
    requires s[i].kind == USABLE || (AllApart(s) && IsJoined(s[i].kind))
    ensures s[i].Top() != s[j].base
  {
    if j == i + 1 {
      MergedIsApart(s);
      assert ApartFromNext(s, i);
    } else if i < j {
      assert Apart(s[i], s[i + 1]) && Apart(s[j], s[i + 1]);
    } else {
      assert s[j].base <= s[i].base;
    }
  }

  /** So rounding such a map loses no page. */
  lemma {:induction false} CleanIsSeamless(s: seq<Entry>, keepFirst: bool)
    requires Clean(s) && AllFit(s)
    ensures UsableTidy(s) && Seamless(s, keepFirst)
  {
    forall i, j | 0 <= i < |s| && 0 <= j < |s| && s[i].kind == USABLE && s[j].kind == USABLE
      ensures NoSeam(s, s[i], s[j], keepFirst)
    {
      NoneAdjoin(s, i, j);
    }
  }
}
