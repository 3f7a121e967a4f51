/**
 The panic of pmm_sanitise_entries (common/mm/pmm.s2.c) on an entry that lies inside a usable one:
 what the first loop makes of an entry lies in the entry it came from, so the two it stops at go
 back to two entries of the map it was given.
 */
module MemmapPanic {
  import opened Memmap
  import opened MemmapSpec

  /** An entry of another type lies inside a usable entry. */
  ghost predicate NestedPair(s: seq<Entry>) {
    exists e, o :: e in s && o in s && e.kind == USABLE && o.kind != USABLE && e.Fits() && CutBy(e, o).Inside?
  }

  /** f is an original entry, or what was left of a usable one. */
  ghost predicate ComesFrom(s0: seq<Entry>, f: Entry) {
    if f.kind == USABLE then exists e :: e in s0 && Inner(e, f) && (e.Fits() <==> f.Fits()) else f in s0
  }

  ghost predicate Lineage(s0: seq<Entry>, s: seq<Entry>) {
    && (forall k :: 0 <= k < |s| ==> ComesFrom(s0, s[k]))
    && (UsableTidy(s0) ==> UsableTidy(s))
  }

  lemma {:induction false} LineageStart(s: seq<Entry>)
    ensures Lineage(s, s)
  {
    forall k | 0 <= k < |s| ensures ComesFrom(s, s[k]) {
      assert s[k] in s && Inner(s[k], s[k]);
    }
  }

  lemma {:induction false} InsideOuter(e: Entry, f: Entry, o: Entry)
    requires Inner(e, f) && e.Fits() && f.Fits() && CutBy(f, o).Inside?
    ensures CutBy(e, o).Inside?
  {
  }

  /** The loop stops at an entry that lies inside the one being cut. */
  lemma {:induction false} TrimNested(s: seq<Entry>, i: nat, j: nat, e: Entry)
    requires TrimFrom(s, i, j, e).Nested?
    ensures e.Fits() && exists k :: j <= k < |s| && k != i && CutBy(e, s[k]).Inside?
    decreases |s| - j
  {
    if j == i {
      TrimNested(s, i, j + 1, e);
    } else if CutBy(e, s[j]).Keep? {
      var f := CutBy(e, s[j]).entry;
      CutIsDifference(e, s[j]);
      TrimNested(s, i, j + 1, f);
      var k :| j + 1 <= k < |s| && k != i && CutBy(f, s[k]).Inside?;
      InsideOuter(e, f, s[k]);
    }
  }

  lemma {:induction false} StopIsNested(s0: seq<Entry>, s: seq<Entry>, i: nat, align: bool)
    requires Lineage(s0, s) && UsableTidy(s0) && i < |s| && s[i].kind == USABLE && TrimStep(s, i, align).Stop?
    ensures NestedPair(s0)
  {
    TrimNested(s, i, 0, s[i]);
    var k :| 0 <= k < |s| && k != i && CutBy(s[i], s[k]).Inside?;
    assert ComesFrom(s0, s[i]) && ComesFrom(s0, s[k]);
    var e :| e in s0 && Inner(e, s[i]) && (e.Fits() <==> s[i].Fits());
    InsideOuter(e, s[i], s[k]);
  }

  lemma {:induction false} OriginAfterStep(s0: seq<Entry>, s: seq<Entry>, i: nat, align: bool)
    requires i < |s| && s[i].kind == USABLE && forall k :: 0 <= k < |s| ==> ComesFrom(s0, s[k])
    ensures forall k :: 0 <= k < |AfterStep(s, i, align)| ==> ComesFrom(s0, AfterStep(s, i, align)[k])
  {
    if TrimStep(s, i, align).Replace? {
      StepIsInner(s, i, align);
      assert ComesFrom(s0, s[i]);
      var e :| e in s0 && Inner(e, s[i]) && (e.Fits() <==> s[i].Fits());
      assert Inner(e, TrimStep(s, i, align).entry);
    }
  }

  lemma {:induction false} LineageStep(s0: seq<Entry>, s: seq<Entry>, i: nat, align: bool)
    requires Lineage(s0, s) && i < |s| && s[i].kind == USABLE
    ensures Lineage(s0, AfterStep(s, i, align))
  {
    OriginAfterStep(s0, s, i, align);
    if UsableTidy(s) {
      TidyAfterStep(s, i, align);
    }
  }

  // ----- Maps on which it cannot but stop

  /** Entry k lies inside usable entry p, and no other entry overlaps it or begins right behind it. */
  predicate Pinned(s: seq<Entry>, p: nat, k: nat) {
    && p < |s| && k < |s| && s[p].kind == USABLE && s[k].kind != USABLE && s[p].Fits() && CutBy(s[p], s[k]).Inside?
    && forall j :: 0 <= j < |s| && j != p && j != k ==> Clear(s[k], s[j])
  }

  predicate Clear(o: Entry, f: Entry) {
    f.Fits() ==> f.Top() <= o.base || f.base > o.Top()
  }

  ghost predicate ClearlyNested(s: seq<Entry>) {
    exists p: nat, k: nat :: Pinned(s, p, k)
  }

  /** Such a pair is still to come. */
  ghost predicate Doomed(s: seq<Entry>, i: nat) {
    exists p: nat, k: nat :: i <= p && Pinned(s, p, k)
  }

  lemma {:induction false} NestedIsDoomed(s: seq<Entry>)
    requires ClearlyNested(s)
    ensures Doomed(s, 0)
  {
    var p: nat, k: nat :| Pinned(s, p, k);
    assert 0 <= p && Pinned(s, p, k);
  }

  /** The inner loop comes to the nested entry, or stops before. */
  lemma {:induction false} TrimStops(s: seq<Entry>, p: nat, k: nat, j: nat, e: Entry)
    requires Pinned(s, p, k) && j <= k && e.Fits() && CutBy(e, s[k]).Inside?
    ensures TrimFrom(s, p, j, e).Nested?
    decreases k - j
  {
    if j == p {
      TrimStops(s, p, k, j + 1, e);
    } else if j < k {
      if CutBy(e, s[j]).Keep? {
        TrimStops(s, p, k, j + 1, CutBy(e, s[j]).entry);
      }
    }
  }

  lemma {:induction false} PinnedReplace(s: seq<Entry>, p: nat, k: nat, i: nat, g: Entry)
    requires Pinned(s, p, k) && i < |s| && i != p && i != k && Inner(s[i], g) && (s[i].Fits() <==> g.Fits())
    ensures Pinned(s[i := g], p, k)
  {
  }

  /** The place of an entry after another one was removed. */
  function Moved(s: seq<Entry>, i: nat, k: nat): nat { if k + 1 == |s| then i else k }

  lemma {:induction false} PinnedRemove(s: seq<Entry>, p: nat, k: nat, i: nat)
    requires Pinned(s, p, k) && i < |s| && i != p && i != k
    ensures Pinned(SwapRemoved(s, i), Moved(s, i, p), Moved(s, i, k))
  {
    var r := SwapRemoved(s, i);
    assert forall j :: 0 <= j < |r| ==> r[j] == s[if j == i then |s| - 1 else j];
  }

  lemma {:induction false} DoomedStep(s: seq<Entry>, i: nat, align: bool)
    requires Doomed(s, i) && i < |s| && s[i].kind == USABLE
    ensures match TrimStep(s, i, align)
            case Stop => true
            case Delete => Doomed(AfterStep(s, i, align), 0)
            case Replace(_) => Doomed(AfterStep(s, i, align), i + 1)
  {
    var p: nat, k: nat :| i <= p && Pinned(s, p, k);
    if p == i {
      TrimStops(s, p, k, 0, s[i]);
    } else {
      match TrimStep(s, i, align)
      case Stop =>
      case Delete =>
        PinnedRemove(s, p, k, i);
        assert 0 <= Moved(s, i, p);
      case Replace(g) =>
        StepIsInner(s, i, align);
        PinnedReplace(s, p, k, i, g);
        assert i + 1 <= p;
    }
  }

  lemma {:induction false} DoomedSkip(s: seq<Entry>, i: nat)
    requires Doomed(s, i) && i < |s| && s[i].kind != USABLE
    ensures Doomed(s, i + 1)
  {
    var p: nat, k: nat :| i <= p && Pinned(s, p, k);
    assert i + 1 <= p;
  }

  /** No two entries of other types overlap or adjoin. */
  ghost predicate OthersSpaced(s: seq<Entry>) {
    forall j, k :: 0 <= j < |s| && 0 <= k < |s| && j != k && s[j].kind != USABLE && s[k].kind != USABLE ==>
      Spaced(s[j], s[k])
  }

  ghost predicate Spaced(e: Entry, o: Entry) {
    e.Fits() && o.Fits() ==> e.Top() < o.base || o.Top() < e.base
  }

  /** Where entries of other types keep apart from each other, and usable ones too, nothing comes
      between a nested pair. */
  lemma {:induction false} NestedIsClear(s: seq<Entry>)
    requires UsableTidy(s) && OthersSpaced(s) && NestedPair(s)
    ensures ClearlyNested(s)
  {
    var e, o :| e in s && o in s && e.kind == USABLE && o.kind != USABLE && e.Fits() && CutBy(e, o).Inside?;
    var p: nat :| p < |s| && s[p] == e;
    var k: nat :| k < |s| && s[k] == o;
    forall j | 0 <= j < |s| && j != p && j != k ensures Clear(s[k], s[j]) {
      if s[j].kind == USABLE {
        assert Apart(s[p], s[j]);
      } else {
        assert Spaced(s[k], s[j]);
      }
    }
    assert Pinned(s, p, k);
  }

  /** What the first loop has achieved when it comes to entry i. */
  ghost predicate CutState(s0: seq<Entry>, s: seq<Entry>, i: nat, align: bool) {
    Progress(s0, s, align) && SettledTo(s, i, align) && Lineage(s0, s) && (ClearlyNested(s0) ==> Doomed(s, i))
  }

  /** When the first loop does not stop, and what it stops at. */
  ghost predicate StopsRightly(s0: seq<Entry>, align: bool) {
    !Calm(s0, align) && (UsableTidy(s0) ==> NestedPair(s0))
  }

  lemma {:induction false} CutStep(s0: seq<Entry>, s: seq<Entry>, i: nat, align: bool)
    requires CutState(s0, s, i, align) && i < |s| && s[i].kind == USABLE
    ensures match TrimStep(s, i, align)
            case Stop => StopsRightly(s0, align)
            case Delete => CutState(s0, AfterStep(s, i, align), 0, align)
            case Replace(_) => CutState(s0, AfterStep(s, i, align), i + 1, align)
  {
    ProgressStep(s0, s, i, align);
    if ClearlyNested(s0) {
      DoomedStep(s, i, align);
    }
    if !TrimStep(s, i, align).Stop? {
      LineageStep(s0, s, i, align);
    } else if UsableTidy(s0) {
      StopIsNested(s0, s, i, align);
    }
  }

  lemma {:induction false} CutStart(s: seq<Entry>, align: bool)
    ensures CutState(s, s, 0, align)
  {
    LineageStart(s);
    if ClearlyNested(s) {
      NestedIsDoomed(s);
    }
  }

  lemma {:induction false} CutSkip(s0: seq<Entry>, s: seq<Entry>, i: nat, align: bool)
    requires CutState(s0, s, i, align) && i < |s| && s[i].kind != USABLE
    ensures CutState(s0, s, i + 1, align)
  {
    if ClearlyNested(s0) {
      DoomedSkip(s, i);
    }
  }
}
