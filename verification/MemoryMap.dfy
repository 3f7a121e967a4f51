/**
 The physical memory map, edited in place (common/mm/pmm.s2.c).
 */
module MemoryMap {
  import opened Memmap
  import opened MemmapSpec
  import opened MemmapPanic
  import opened MemmapPasses
  import opened MemmapPunch
  import opened Wrappers

  /** How pmm_new_entry ends: its two panics, or the entry is in the map. */
  datatype Added = RangeOverflow | MapExhausted | Added

  /** How memmap_alloc_range_in ends: a panic, or its boolean result. */
  datatype Claim = Panic | Refused | Granted

  /** The body of the inner loop of pmm_sanitise_entries: one usable entry and one other. */
  method CutEntry(e: Entry, o: Entry) returns (c: Cut)
    requires e.Fits()
    ensures c == CutBy(e, o)
  {
    if !o.Fits() {
      return Keep(e);
    }
    if o.base <= e.base && o.Top() >= e.Top() {
      return Gone;
    }
    if e.base <= o.base < e.Top() && e.base <= o.Top() < e.Top() {
      return Inside;
    }
    var top, base := e.Top(), e.base;
    if e.base <= o.base < top {
      top := o.base;
    }
    if e.base <= o.Top() < top {
      base := o.Top();
    }
    return Keep(Entry(base, top - base, e.kind));
  }

  class MemMap {
    const m: array<Entry>
    var count: nat
    var keepFirstPage: bool

    ghost predicate Valid()
      reads this, m
    {
      count <= m.Length
    }

    ghost function Entries(): seq<Entry>
      requires Valid()
      reads this, m
    {
      m[..count]
    }

    constructor (capacity: nat, entries: seq<Entry>, keep: bool)
      requires |entries| <= capacity
      ensures Valid() && fresh(m) && m.Length == capacity && Entries() == entries && keepFirstPage == keep
    {
      m := new Entry[capacity](i => if 0 <= i < |entries| then entries[i] else Entry(0, 0, 0));
      count := |entries|;
      keepFirstPage := keep;
      new;
      assert m[..count] == entries;
    }

    /** Removes entry i by moving the last entry into its place. */
    method Remove(i: nat)
      requires Valid() && i < count
      modifies this`count, m
      ensures Valid() && Entries() == SwapRemoved(old(Entries()), i)
    {
      if i < count - 1 {
        m[i] := m[count - 1];
      }
      count := count - 1;
      assert m[..count] == SwapRemoved(old(m[..count]), i);
    }

    /** The inner loop of pmm_sanitise_entries: cuts usable entry i by every other entry. */
    method TrimEntry(i: nat) returns (r: Trim)
      requires Valid() && i < count
      modifies m
      ensures r == TrimFrom(old(Entries()), i, 0, old(m[i]))
      ensures r.Trimmed? ==> Entries() == old(Entries())[i := r.entry]
      ensures r.Overflow? ==> Entries() == old(Entries())
    {
      ghost var s := Entries();
      var j := 0;
      while j < count
        invariant j <= count && m[..count] == s[i := m[i]]
        invariant TrimFrom(s, i, j, m[i]) == TrimFrom(s, i, 0, s[i])
        invariant !s[i].Fits() ==> m[i] == s[i]
        invariant s[i].Fits() ==> m[i].Fits()
      {
        if j != i {
          var e, o := m[i], m[j];
          assert o == m[..count][j] == s[j];
          if !e.Fits() {
            return Overflow;
          }
          var c := CutEntry(e, o);
          if c.Inside? {
            return Nested;
          }
          if c.Gone? {
            m[i] := Entry(e.Top(), 0, e.kind);
            return Trimmed(m[i]);
          }
          m[i] := c.entry;
        }
        j := j + 1;
      }
      r := Trimmed(m[i]);
    }

    /** The body of the first loop for usable entry i. */
    method TrimAt(i: nat, align: bool) returns (r: Step)
      requires Valid() && i < count
      modifies this`count, m
      ensures Valid() && r == TrimStep(old(Entries()), i, align)
      ensures !r.Stop? ==> Entries() == AfterStep(old(Entries()), i, align)
      ensures count == if r.Delete? then old(count) - 1 else old(count)
    {
      ghost var s := Entries();
      var t := TrimEntry(i);
      if t.Nested? {
        return Stop;
      }
      assert m[..count][i] == m[i];
      if t.Trimmed? && m[i].length > 0 {
        if !align {
          return Replace(m[i]);
        }
        var g := AlignedInner(m[i]);
        if g.Some? {
          m[i] := g.value;
          assert m[..count] == s[i := g.value];
          return Replace(g.value);
        }
      }
      assert SwapRemoved(m[..count], i) == SwapRemoved(s, i);
      Remove(i);
      return Delete;
    }

    /** The first loop of pmm_sanitise_entries: cuts every usable entry by all others, starting over
        whenever an entry is deleted.  False is the panic on a nested entry. */
    method CutUsable(align: bool) returns (ok: bool)
      requires Valid()
      modifies this`count, m
      ensures Valid()
      ensures ok ==> Progress(old(Entries()), Entries(), align) && SettledTo(Entries(), count, align)
      ensures !ok ==> StopsRightly(old(Entries()), align)
      ensures ok ==> !ClearlyNested(old(Entries()))
      ensures count <= old(count)
    {
      ghost var s0 := Entries();
      var i := 0;
      CutStart(s0, align);
      while i < count
        invariant Valid() && i <= count <= |s0| && CutState(s0, Entries(), i, align)
        decreases count, count - i
      {
        assert Entries()[i] == m[i];
        if m[i].kind == USABLE {
          CutStep(s0, Entries(), i, align);
          var r := TrimAt(i, align);
          if r.Stop? {
            return false;
          }
          i := if r.Delete? then 0 else i + 1;
        } else {
          CutSkip(s0, Entries(), i, align);
          i := i + 1;
        }
      }
      ok := true;
    }

    /** The second loop: drops empty entries and clips usable memory out of the first page. */
    method DropEmpty()
      requires Valid()
      modifies this`count, m
      ensures Valid() && count <= old(count) && ClipProgress(old(Entries()), Entries(), count, keepFirstPage)
    {
      ghost var s0 := Entries();
      var i := 0;
      while i < count
        invariant Valid() && i <= count <= |s0| && ClipProgress(s0, Entries(), i, keepFirstPage)
        decreases count - i
      {
        ClipProgressStep(s0, Entries(), i, keepFirstPage);
        var gone := ClipAt(i);
        i := if gone then i else i + 1;
      }
    }

    /** The body of the second loop. */
    method ClipAt(i: nat) returns (gone: bool)
      requires Valid() && i < count
      modifies this`count, m
      ensures Valid() && Entries() == AfterClip(old(Entries()), i, keepFirstPage)
      ensures gone == ClipStep(old(Entries())[i], keepFirstPage).Delete?
    {
      ghost var s := Entries();
      var e := m[i];
      gone := false;
      if e.kind == USABLE && !keepFirstPage && e.base < 0x1000 {
        if !e.Fits() || e.Top() <= 0x1000 {
          gone := true;
        } else {
          m[i] := Entry(0x1000, e.length - (0x1000 - e.base), e.kind);
        }
      }
      gone := gone || m[i].length == 0;
      if gone {
        assert SwapRemoved(m[..count], i) == SwapRemoved(s, i);
        Remove(i);
      } else {
        assert m[..count] == s[i := m[i]];
      }
    }

    /** Selection sort by base. */
    method SortByBase()
      requires Valid()
      modifies m
      ensures Valid() && Sorted(Entries()) && SortProgress(old(Entries()), Entries(), 0, keepFirstPage)
    {
      ghost var s0 := Entries();
      SortStart(s0, keepFirstPage);
      var p := 0;
      while p + 1 < count
        invariant SortProgress(s0, Entries(), p, keepFirstPage)
      {
        var min := FindMin(p);
        SortProgressStep(s0, Entries(), p, min, keepFirstPage);
        Swap(p, min);
        p := p + 1;
      }
    }

    method Swap(i: nat, j: nat)
      requires Valid() && i < count && j < count
      modifies m
      ensures Entries() == Swapped(old(Entries()), i, j)
    {
      m[i], m[j] := m[j], m[i];
      assert m[..count] == Swapped(old(m[..count]), i, j);
    }

    method FindMin(p: nat) returns (min: nat)
      requires Valid() && p < count
      ensures IsMin(Entries(), p, min)
    {
      min := p;
      var i := p;
      while i < count
        invariant p <= min < count && p <= i <= count
        invariant forall l :: p <= l < i ==> m[min].base <= m[l].base
        invariant forall l :: p <= l < min ==> m[min].base < m[l].base
      {
        if m[i].base < m[min].base {
          min := i;
        }
        i := i + 1;
      }
    }

    /** Joins adjoining entries of the three types that may be joined. */
    method MergeAdjoining()
      requires Valid() && NoneEmpty(Entries()) && Sorted(Entries()) && SettledTo(Entries(), count, false)
      modifies this`count, m
      ensures Valid() && count <= old(count) && Merged(Entries())
              && MergeProgress(old(Entries()), Entries(), count, keepFirstPage)
    {
      ghost var s0 := Entries();
      MergeStart(s0, keepFirstPage);
      var i := 0;
      while i + 1 < count
        invariant Valid() && count <= |s0| && MergeProgress(s0, Entries(), i, keepFirstPage)
        decreases count - i
      {
        MergeProgressStep(s0, Entries(), i, keepFirstPage);
        var joined := MergePair(i);
        i := if joined then i else i + 1;
      }
    }

    /** Joins entry i with the next one if they adjoin. */
    method MergePair(i: nat) returns (joined: bool)
      requires Valid() && i + 1 < count
      modifies this`count, m
      ensures Valid() && joined == Mergeable(old(Entries())[i], old(Entries())[i + 1])
      ensures Entries() == if joined then MergedAt(old(Entries()), i) else old(Entries())
    {
      ghost var s := Entries();
      joined := Mergeable(m[i], m[i + 1]);
      if joined {
        m[i] := Entry(m[i].base, m[i].length + m[i + 1].length, m[i].kind);
        assert m[..count] == s[i := m[i]];
        CloseGap(i + 1);
        assert Entries() == MergedAt(s, i);
      }
    }

    /** Removes entry i by moving every later entry down. */
    method CloseGap(i: nat)
      requires Valid() && i < count
      modifies this`count, m
      ensures Valid() && Entries() == old(Entries())[..i] + old(Entries())[i + 1..]
    {
      ghost var s := Entries();
      var j := i + 1;
      while j < count
        invariant i + 1 <= j <= count == |s|
        invariant forall k :: 0 <= k < i ==> m[k] == s[k]
        invariant forall k :: i <= k < j - 1 ==> m[k] == s[k + 1]
        invariant forall k :: j <= k < count ==> m[k] == s[k]
      {
        m[j - 1] := m[j];
        j := j + 1;
      }
      count := count - 1;
      assert m[..count] == s[..i] + s[i + 1..];
    }

    /** The passes after the first loop. */
    method CleanUp(align: bool, ghost s0: seq<Entry>)
      requires Valid() && Progress(s0, Entries(), align) && SettledTo(Entries(), count, align)
      modifies this`count, m
      ensures Valid() && count <= old(count) && Sanitised(s0, Entries(), align, keepFirstPage)
      ensures Final(s0, align, keepFirstPage) ==> Entries() == s0
    {
      ghost var s1 := Entries();
      SettledBoth(s1, align);
      DropEmpty();
      ghost var s2 := Entries();
      ClipDone(s1, s2, keepFirstPage);
      SortByBase();
      ghost var s3 := Entries();
      MergeAdjoining();
      PassesCompose(s0, s1, s2, s3, Entries(), align, keepFirstPage);
    }

    /** pmm_sanitise_entries.  False is its panic on an entry nested in a usable one. */
    method Sanitise(align: bool) returns (ok: bool)
      requires Valid()
      modifies this`count, m
      ensures Valid()
      ensures ok ==> Sanitised(old(Entries()), Entries(), align, keepFirstPage)
      ensures Calm(old(Entries()), align) ==> ok
      ensures !ok && UsableTidy(old(Entries())) ==> NestedPair(old(Entries()))
      ensures ClearlyNested(old(Entries())) ==> !ok
      ensures UsableTidy(old(Entries())) && OthersSpaced(old(Entries())) ==> (!ok <==> NestedPair(old(Entries())))
      ensures count <= old(count)
      ensures Final(old(Entries()), align, keepFirstPage) ==> ok && Entries() == old(Entries())
    {
      ghost var s0 := Entries();
      ok := CutUsable(align);
      if Final(s0, align, keepFirstPage) {
        CleanIsCalm(s0, align);
      }
      if UsableTidy(s0) && OthersSpaced(s0) && NestedPair(s0) {
        NestedIsClear(s0);
      }
      if ok {
        CleanUp(align, s0);
      }
    }

    /** The loop of pmm_new_entry: cuts the range out of all entries.  True means that the map is full. */
    method PunchAll(base: nat, top: nat) returns (full: bool)
      requires Valid() && base < top < U64
      modifies this`count, m
      ensures Valid() && count <= 2 * old(count)
      ensures if full then m.Length <= 2 * old(count)
              else PunchProgress(old(Entries()), Entries(), count, base, top)
    {
      ghost var s0 := Entries();
      var i := 0;
      DirtyBound(s0, 0, base, top);
      while i < count
        invariant Valid() && i <= count && PunchProgress(s0, Entries(), i, base, top)
        invariant count + Dirty(Entries(), i, base, top) <= 2 * |s0|
        decreases Dirty(Entries(), i, base, top), count - i
      {
        PunchProgressStep(s0, Entries(), i, base, top);
        var p := PunchOf(m[i], base, top);
        full := PunchAt(i, base, top);
        if full {
          return;
        }
        i := if p.Erased? then i else i + 1;
      }
      full := false;
    }

    /** pmm_new_entry: makes [base, base + length) one entry of the given type. */
    method NewEntry(base: u64, length: u64, kind: nat) returns (r: Added)
      requires Valid() && length > 0
      modifies this`count, m
      ensures Valid()
      ensures r.RangeOverflow? <==> base + length >= U64
      ensures r.MapExhausted? ==> m.Length <= 2 * old(count)
      ensures count <= 2 * old(count) + 1
      ensures r.Added? ==> Repainted(old(Entries()), Entries(), base, length, kind)
      ensures r.Added? ==> StaysWellFormed(old(Entries()), Entries())
    {
      if base + length >= U64 {
        return RangeOverflow;
      }
      ghost var s0 := Entries();
      var full := PunchAll(base, base + length);
      if full {
        return MapExhausted;
      }
      if count >= m.Length {
        return MapExhausted;
      }
      AppendRepaints(s0, Entries(), Entry(base, length, kind));
      Append(Entry(base, length, kind));
      r := Added;
    }

    method Append(e: Entry)
      requires Valid() && count < m.Length
      modifies this`count, m
      ensures Valid() && Entries() == old(Entries()) + [e]
    {
      m[count] := e;
      count := count + 1;
      assert m[..count] == old(m[..count]) + [e];
    }

    /** The body of the loop of pmm_new_entry; true is the panic on a full map. */
    method PunchAt(i: nat, base: nat, top: nat) returns (full: bool)
      requires Valid() && i < count && base < top < U64
      modifies this`count, m
      ensures Valid()
      ensures full ==> count == old(count) == m.Length
      ensures !full ==> Entries() == AfterPunch(old(Entries()), i, base, top)
    {
      ghost var s := Entries();
      var e := m[i];
      if e.Fits() {
        if base <= e.base && top >= e.Top() {
          Remove(i);
        } else if base <= e.base && top < e.Top() && top > e.base {
          m[i] := Entry(e.base + (top - e.base), e.length - (top - e.base), e.kind);
          assert m[..count] == s[i := m[i]];
        } else if base > e.base && base < e.Top() && top >= e.Top() {
          m[i] := Entry(e.base, e.length - (e.Top() - base), e.kind);
          assert m[..count] == s[i := m[i]];
        } else if base > e.base && top < e.Top() {
          m[i] := Entry(e.base, e.length - (e.Top() - base), e.kind);
          assert m[..count] == s[i := m[i]];
          if count >= m.Length {
            return true;
          }
          Append(Entry(top, e.Top() - top, e.kind));
        }
      }
      full := false;
    }

    /** memmap_alloc_range_in. */
    method AllocRange(base: u64, length: u64, kind: nat, overlay: nat, doPanic: bool, simulation: bool, newEntry: bool)
      returns (r: Claim)
      requires Valid()
      modifies this`count, m
      ensures Valid()
      ensures r.Granted? && !simulation && length > 0 ==> Final(Entries(), false, keepFirstPage)
      ensures r.Granted? && !simulation && length > 0 && WellFormed(old(Entries())) ==>
                WellFormed(Entries()) && Retyped(old(Entries()), Entries(), base, length, kind, keepFirstPage)
      ensures r.Refused? || simulation || length == 0 ==> Entries() == old(Entries())
      ensures count <= 2 * old(count) + 1
      ensures r.Granted? && !simulation && length > 0 ==> base + length < U64
      ensures length > 0 && r.Granted? ==> newEntry || Holds(old(Entries()), base, length, overlay)
      ensures r.Refused? ==>
                && (!doPanic || newEntry) && length > 0
                && (base + length >= U64 || !(newEntry || Holds(old(Entries()), base, length, overlay)))
      ensures length > 0 && r.Panic? && WellFormed(old(Entries())) ==>
                || m.Length <= 2 * old(count)
                || (doPanic && (base + length >= U64 || !(newEntry || Holds(old(Entries()), base, length, overlay))))
      ensures length == 0 ==> r.Granted?
      ensures r.Granted? && length > 0 && !newEntry && overlay != 0 ==>
                forall a: nat :: base <= a < base + length ==> Has(old(Entries()), overlay, a)
      ensures r.Refused? && WellFormed(old(Entries())) && Clean(old(Entries())) && base + length < U64
              && IsJoined(overlay) ==>
                exists a: nat :: base <= a < base + length && !Has(old(Entries()), overlay, a)
    {
      ghost var s0 := Entries();
      if length == 0 {
        return Granted;
      }
      if base + length < U64 {
        HoldsSomewhere(s0, base, length, overlay);
      }
      if overlay != 0 && Holds(s0, base, length, overlay) {
        HeldIsAllOf(s0, base, length, overlay);
      }
      if WellFormed(s0) && Clean(s0) && IsJoined(overlay)
         && AllOf(s0, overlay, base, length) {
        AllOfIsHeld(s0, base, length, overlay);
      }
      if simulation && newEntry {
        return Granted;
      }
      if base + length >= U64 {
        return if doPanic then Panic else Refused;
      }
      var i := 0;
      while i < count
        invariant Entries() == s0 && i <= count
        invariant forall k :: 0 <= k < i ==> !HoldsIn(s0[k], base, length, overlay)
      {
        assert s0[i] == m[i];
        if HoldsIn(m[i], base, length, overlay) {
          if simulation {
            return Granted;
          }
          r := ClaimRange(base, length, kind);
          return;
        }
        i := i + 1;
      }
      if !newEntry {
        return if doPanic then Panic else Refused;
      }
      r := ClaimRange(base, length, kind);
    }

    /** The new entry and the clean-up after it. */
    method ClaimRange(base: u64, length: u64, kind: nat) returns (r: Claim)
      requires Valid() && length > 0 && base + length < U64
      modifies this`count, m
      ensures Valid() && !r.Refused?
      ensures r.Panic? && WellFormed(old(Entries())) ==> m.Length <= 2 * old(count)
      ensures count <= 2 * old(count) + 1
      ensures r.Granted? ==> Final(Entries(), false, keepFirstPage)
      ensures r.Granted? && WellFormed(old(Entries())) ==>
                WellFormed(Entries()) && Retyped(old(Entries()), Entries(), base, length, kind, keepFirstPage)
    {
      ghost var s := Entries();
      var added := NewEntry(base, length, kind);
      if !added.Added? {
        return Panic;
      }
      ghost var t := Entries();
      if WellFormed(s) {
        WellFormedIsCalm(t);
      }
      var ok := Sanitise(false);
      if !ok {
        return Panic;
      }
      if WellFormed(s) {
        ClaimRetypes(s, t, Entries(), base, length, kind, keepFirstPage);
      }
      r := Granted;
    }
  }

  /** The entry has the wanted type (any, if overlay is 0) and contains the range. */
  predicate HoldsIn(e: Entry, base: nat, length: nat, overlay: nat) {
    (overlay == 0 || e.kind == overlay) && e.Fits() && e.base <= base < e.Top() && base + length <= e.Top()
  }

  /** One entry of the wanted type covers the range from its first to its last address. */
  ghost predicate Holds(s: seq<Entry>, base: nat, length: nat, overlay: nat)
    requires length > 0
  {
    exists e :: e in s && (overlay == 0 || e.kind == overlay) && e.Covers(base) && e.Covers(base + length - 1)
  }

  lemma {:induction false} HoldsSomewhere(s: seq<Entry>, base: nat, length: nat, overlay: nat)
    requires length > 0 && base + length < U64
    ensures Holds(s, base, length, overlay) <==> exists i :: 0 <= i < |s| && HoldsIn(s[i], base, length, overlay)
  {
    if Holds(s, base, length, overlay) {
      var e :| e in s && (overlay == 0 || e.kind == overlay) && e.Covers(base) && e.Covers(base + length - 1);
      var i :| 0 <= i < |s| && s[i] == e;
      assert HoldsIn(s[i], base, length, overlay);
    }
  }

  /** Every address of the range has the type. */
  ghost predicate AllOf(s: seq<Entry>, kind: nat, base: nat, length: nat) {
    forall a: nat :: base <= a < base + length ==> Has(s, kind, a)
  }

  lemma {:induction false} HeldIsAllOf(s: seq<Entry>, base: nat, length: nat, overlay: nat)
    requires length > 0 && overlay != 0 && Holds(s, base, length, overlay)
    ensures AllOf(s, overlay, base, length)
  {
  }

  /** In a clean, disjoint map an entry of one of the types that are joined is as long as it can be. */
  lemma {:induction false} EndsItsType(s: seq<Entry>, i: nat)
    requires WellFormed(s) && Clean(s) && i < |s| && IsJoined(s[i].kind)
    ensures !Has(s, s[i].kind, s[i].Top())
  {
    forall j | 0 <= j < |s| && s[j].kind == s[i].kind ensures !s[j].Covers(s[i].Top()) {
      NoneAdjoin(s, i, j);
      assert i != j ==> Apart(s[i], s[j]);
    }
  }

  /** So a range all of that type lies in one entry. */
  lemma {:induction false} AllOfIsHeld(s: seq<Entry>, base: nat, length: nat, overlay: nat)
    requires WellFormed(s) && Clean(s) && length > 0 && AllOf(s, overlay, base, length)
    requires IsJoined(overlay)
    ensures Holds(s, base, length, overlay)
  {
    assert Has(s, overlay, base);
    var e :| e in s && e.kind == overlay && e.Covers(base);
    var i :| 0 <= i < |s| && s[i] == e;
    EndsItsType(s, i);
    assert e.Covers(base + length - 1);
  }

  lemma {:induction false} SeamInPage(s: seq<Entry>)
    requires s == [Entry(0x2000, 0x1800, USABLE), Entry(0x3800, 0x1800, USABLE)]
    ensures UsableTidy(s) && !NestedPair(s) && !Seamless(s, true)
  {
    assert s[0] in s && s[1] in s;
    forall b: nat | 0x3000 <= b < 0x4000 ensures Free(s, b) {
      assert s[0].Covers(b) || s[1].Covers(b);
    }
    assert WholePage(s, s[1].base) && !NoSeam(s, s[0], s[1], true);
  }

  /** An instance: a run with rounding loses the page that two adjoining usable entries share. */
  method RoundingLosesPage() returns (map_: MemMap, ghost s: seq<Entry>)
    ensures map_.Valid() && UsableTidy(s) && Sanitised(s, map_.Entries(), true, true)
    ensures !PagesKept(s, map_.Entries(), true)
  {
    s := [Entry(0x2000, 0x1800, USABLE), Entry(0x3800, 0x1800, USABLE)];
    SeamInPage(s);
    map_ := new MemMap(2, [Entry(0x2000, 0x1800, USABLE), Entry(0x3800, 0x1800, USABLE)], true);
    var ok := map_.Sanitise(true);
    RoundingKeepsPagesIff(s, map_.Entries(), true);
  }
}
