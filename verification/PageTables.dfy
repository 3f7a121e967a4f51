/**
 x86-64 page tables, four or five levels (common/mm/vmm.c).

 Physical memory that holds page tables is a map from the address of a table to its
 512 entries, so tables are linked by address and overwritten in place, as in the
 source.  `Translate` is what the paging hardware computes from that memory; the
 results say how each operation changes it.
 */
module PageTables {
  import opened Arithmetic
  import opened Wrappers

  datatype PageSize = Size4KiB | Size2MiB | Size1GiB

  /** The caller-visible flags (VMM_FLAG_WRITE, VMM_FLAG_NOEXEC, VMM_FLAG_FB). */
  datatype Flags = Flags(write: bool, noexec: bool, fb: bool)

  /** One page-table entry; module `PageEntryWords` gives the 64-bit word of each. */
  datatype Entry = Empty | Table(addr: nat) | Leaf(phys: nat, flags: Flags)

  type Memory = map<nat, seq<Entry>>

  /** What a virtual address translates to: a physical address and the flags of the page. */
  datatype Target = Target(phys: nat, flags: Flags)

  /** Number of levels (4 or 5) and the address of the top-level table. */
  datatype Root = Root(levels: nat, top: nat)

  const PHYS_LIMIT: nat := 0x1_0000_0000_0000

  /** The level a page of this size is a leaf of: 0 is a table of 4 KiB pages. */
  function Rank(size: PageSize): nat {
    match size
    case Size4KiB => 0
    case Size2MiB => 1
    case Size1GiB => 2
  }

  /** Bytes of a page that is a leaf at this level (`page_sizes`, the three sizes that have leaves). */
  function PageBytes(level: nat): nat {
    if level == 0 then 0x1000 else if level == 1 then 0x20_0000 else 0x4000_0000
  }

  /** Offset of an address within the page of that level. */
  function Offset(v: nat, level: nat): nat {
    if level == 0 then v % 0x1000 else if level == 1 then v % 0x20_0000 else v % 0x4000_0000
  }

  /** The size of the address space: 48 or 57 bits. */
  function Space(r: Root): nat {
    if r.levels == 5 then 0x200_0000_0000_0000 else 0x1_0000_0000_0000
  }

  /** The address bits the tables translate; the bits above them are ignored. */
  function Wrap(virt: nat, r: Root): nat {
    if r.levels == 5 then virt % 0x200_0000_0000_0000 else virt % 0x1_0000_0000_0000
  }

  /** Number of the slot of the given level that holds v. */
  function Slot(v: nat, level: nat): nat {
    if level == 0 then v / 0x1000 else Slot(v, level - 1) / 512
  }

  function Index(v: nat, level: nat): (i: nat)
    ensures i < 512
  {
    Slot(v, level) % 512
  }

  /** The index fields are nine bits each, from bit 12 up. */
  lemma {:induction false} IndexIsField(v: nat)
    ensures Index(v, 0) == v / 0x1000 % 512 && Index(v, 1) == v / 0x20_0000 % 512
    ensures Index(v, 2) == v / 0x4000_0000 % 512 && Index(v, 3) == v / 0x80_0000_0000 % 512
    ensures Index(v, 4) == v / 0x1_0000_0000_0000 % 512
  {
    assert Slot(v, 1) == Slot(v, 0) / 512 && Slot(v, 2) == Slot(v, 1) / 512;
    assert Slot(v, 3) == Slot(v, 2) / 512 && Slot(v, 4) == Slot(v, 3) / 512;
  }

  /** The table that translates v at the given level, found by walking down from the top. */
  ghost function TableAt(mem: Memory, r: Root, v: nat, level: nat): Option<nat>
    decreases r.levels - level
  {
    if level + 1 >= r.levels then Some(r.top)
    else
      var up := TableAt(mem, r, v, level + 1);
      if up.Some? && up.value in mem && |mem[up.value]| == 512
         && mem[up.value][Index(v, level + 1)].Table?
      then Some(mem[up.value][Index(v, level + 1)].addr)
      else None
  }

  /** The hardware walk from table t at the given level. */
  ghost function Walk(mem: Memory, t: nat, level: nat, v: nat): Option<Target>
    decreases level
  {
    if t !in mem || |mem[t]| != 512 then None
    else
      match mem[t][Index(v, level)]
      case Empty => None
      case Leaf(_, _) => LeafTarget(mem[t][Index(v, level)], level, v)
      case Table(a) => if level == 0 then None else Walk(mem, a, level - 1, v)
  }

  ghost function Translate(mem: Memory, r: Root, v: nat): Option<Target>
    requires r.levels > 0
  {
    Walk(mem, r.top, r.levels - 1, v)
  }

  /** Where a table hangs: its level, and the entry that links to it. */
  datatype Place = Place(level: nat, parent: nat, index: nat)

  type Shape = map<nat, Place>

  /** Entry i of table t: a leaf only at the three page sizes, aligned and within the address field;
      a link only to a table one level down whose place is this entry. */
  ghost predicate EntryOk(e: Entry, t: nat, i: nat, shape: Shape)
    requires t in shape
  {
    match e
    case Empty => true
    case Table(a) => shape[t].level > 0 && a in shape && shape[a] == Place(shape[t].level - 1, t, i)
    case Leaf(phys, flags) => LeafOk(phys, shape[t].level)
  }

  ghost predicate LeafOk(phys: nat, level: nat) {
    level <= 2 && Offset(phys, level) == 0 && phys + PageBytes(level) <= PHYS_LIMIT
  }

  /** The tables form a forest: every link goes one level down, and every table has one place, so no
      two entries link to the same table. */
  ghost predicate WellFormed(mem: Memory, shape: Shape, r: Root) {
    && 4 <= r.levels <= 5
    && mem.Keys == shape.Keys
    && r.top in shape && shape[r.top].level == r.levels - 1
    && (forall t :: t in mem ==> |mem[t]| == 512)
    && (forall t, i :: t in mem && 0 <= i < 512 ==> EntryOk(mem[t][i], t, i, shape))
  }

  /** The leaf on the walk of v at the given level, or Empty. */
  ghost function LeafOn(mem: Memory, r: Root, v: nat, level: nat): Entry {
    var t := TableAt(mem, r, v, level);
    if t.Some? && t.value in mem && |mem[t.value]| == 512 && mem[t.value][Index(v, level)].Leaf?
    then mem[t.value][Index(v, level)]
    else Empty
  }

  /** No leaf lies above level k on the walk of v. */
  ghost predicate NoLeafAbove(mem: Memory, r: Root, v: nat, k: nat) {
    forall l :: k < l < r.levels ==> !LeafOn(mem, r, v, l).Leaf?
  }

  /** The entry on the walk of v at this level is a framebuffer leaf. */
  ghost predicate FbOn(mem: Memory, r: Root, v: nat, level: nat) {
    LeafOn(mem, r, v, level).Leaf? && LeafOn(mem, r, v, level).flags.fb
  }

  /** A framebuffer leaf lies above level k on the walk of v. */
  ghost predicate FbLeafAbove(mem: Memory, r: Root, v: nat, k: nat) {
    exists l: nat :: k < l < r.levels && FbOn(mem, r, v, l)
  }

  /** From mem to mem' only entries at level k and below are new: every leaf above level k in mem'
      was already there, no framebuffer leaf above level k is gone, and no table at level k or above
      was unlinked. */
  ghost predicate UpperKept(mem: Memory, mem': Memory, r: Root, k: nat) {
    forall w: nat, l: nat :: KeptAt(mem, mem', r, k, w, l)
  }

  ghost predicate KeptAt(mem: Memory, mem': Memory, r: Root, k: nat, w: nat, l: nat) {
    w < Space(r) && k <= l < r.levels ==>
      && (k < l && (LeafOn(mem', r, w, l).Leaf? || FbOn(mem, r, w, l)) ==>
            LeafOn(mem', r, w, l) == LeafOn(mem, r, w, l))
      && (TableAt(mem, r, w, l).Some? ==> TableAt(mem', r, w, l) == TableAt(mem, r, w, l))
  }

  // ----- Address arithmetic

  lemma {:induction false} SlotParts(v: nat, level: nat)
    ensures Slot(v, level) == 512 * Slot(v, level + 1) + Index(v, level)
  {
  }

  /** Two addresses in the same slot of a level share every slot above it. */
  lemma {:induction false} SlotsAbove(v: nat, w: nat, k: nat, level: nat)
    requires Slot(v, k) == Slot(w, k) && k <= level
    ensures Slot(v, level) == Slot(w, level)
  {
    if k < level {
      SlotsAbove(v, w, k, level - 1);
    }
  }

  lemma {:induction false} SlotIsQuotient(v: nat, level: nat)
    requires level <= 2
    ensures Slot(v, level) == v / PageBytes(level)
  {
    if level == 1 {
      assert Slot(v, 1) == v / 0x1000 / 512;
    } else if level == 2 {
      SlotIsQuotient(v, 1);
      assert Slot(v, 2) == v / 0x20_0000 / 512;
    }
  }

  lemma {:induction false} SameSlotSameInterval(v: nat, w: nat, level: nat)
    requires level <= 2 && Offset(w, level) == 0
    ensures Slot(v, level) == Slot(w, level) <==> w <= v < w + PageBytes(level)
    ensures Slot(v, level) == Slot(w, level) ==> Offset(v, level) == v - w
  {
    SlotIsQuotient(v, level);
    SlotIsQuotient(w, level);
    QuotientInterval(v, w, PageBytes(level));
  }

  lemma {:induction false} TopSlot(v: nat, r: Root)
    requires 4 <= r.levels <= 5 && v < Space(r)
    ensures Slot(v, r.levels) == 0
  {
    SlotIsQuotient(v, 2);
    assert Slot(v, 3) == Slot(v, 2) / 512;
    assert Slot(v, 4) == Slot(v, 3) / 512;
    assert Slot(v, 5) == Slot(v, 4) / 512;
  }

  // ----- Walks

  /** The table reached at a level depends only on the slot one level up. */
  lemma {:induction false} TableAtSlot(mem: Memory, r: Root, v: nat, w: nat, level: nat)
    requires Slot(v, level + 1) == Slot(w, level + 1)
    ensures TableAt(mem, r, v, level) == TableAt(mem, r, w, level)
    decreases r.levels - level
  {
    if level + 1 < r.levels {
      SlotsAbove(v, w, level + 1, level + 2);
      TableAtSlot(mem, r, v, w, level + 1);
    }
  }

  lemma {:induction false} TableAtLevel(mem: Memory, shape: Shape, r: Root, v: nat, level: nat)
    requires WellFormed(mem, shape, r) && level < r.levels
    requires TableAt(mem, r, v, level).Some?
    ensures TableAt(mem, r, v, level).value in mem
    ensures shape[TableAt(mem, r, v, level).value].level == level
    decreases r.levels - level
  {
    if level + 1 < r.levels {
      TableAtLevel(mem, shape, r, v, level + 1);
      var up := TableAt(mem, r, v, level + 1).value;
      assert EntryOk(mem[up][Index(v, level + 1)], up, Index(v, level + 1), shape);
    }
  }

  /** The walk from any table on the path of v computes the translation of v. */
  lemma {:induction false} WalkFromTable(mem: Memory, r: Root, v: nat, level: nat)
    requires 0 < r.levels && level < r.levels && TableAt(mem, r, v, level).Some?
    ensures Translate(mem, r, v) == Walk(mem, TableAt(mem, r, v, level).value, level, v)
    decreases r.levels - level
  {
    if level + 1 < r.levels {
      WalkFromTable(mem, r, v, level + 1);
    }
  }

  /** In a forest, two addresses that reach the same table lie in the same slot above it. */
  lemma {:induction false} SamePath(mem: Memory, shape: Shape, r: Root, v: nat, w: nat, level: nat)
    requires WellFormed(mem, shape, r) && level < r.levels
    requires v < Space(r) && w < Space(r)
    requires TableAt(mem, r, v, level).Some? && TableAt(mem, r, v, level) == TableAt(mem, r, w, level)
    ensures Slot(v, level + 1) == Slot(w, level + 1)
    decreases r.levels - level
  {
    if level + 1 == r.levels {
      TopSlot(v, r);
      TopSlot(w, r);
    } else {
      TableAtLevel(mem, shape, r, v, level + 1);
      TableAtLevel(mem, shape, r, w, level + 1);
      var t, t' := TableAt(mem, r, v, level + 1).value, TableAt(mem, r, w, level + 1).value;
      var i, i' := Index(v, level + 1), Index(w, level + 1);
      assert EntryOk(mem[t][i], t, i, shape) && EntryOk(mem[t'][i'], t', i', shape);
      SamePath(mem, shape, r, v, w, level + 1);
      SlotParts(v, level + 1);
      SlotParts(w, level + 1);
    }
  }

  // ----- One entry changes

  /** mem' differs from mem in entry i of table t at most, and in tables mem does not have. */
  ghost predicate OnlyEntryChanged(mem: Memory, mem': Memory, t: nat, i: nat) {
    && t in mem && t in mem' && |mem[t]| == 512 && |mem'[t]| == 512 && i < 512
    && (forall s :: s in mem ==> s in mem' && (s != t ==> mem'[s] == mem[s]))
    && (forall j :: 0 <= j < 512 && j != i ==> mem'[t][j] == mem[t][j])
  }

  /** The entry that w reads at level k is not the changed one, unless w is in the changed slot. */
  lemma {:induction false} EntryKept(mem: Memory, mem': Memory, shape: Shape, r: Root, v: nat, level: nat, w: nat,
                                     k: nat)
    requires WellFormed(mem, shape, r) && level < r.levels && k < r.levels && v < Space(r) && w < Space(r)
    requires TableAt(mem, r, v, level).Some?
    requires OnlyEntryChanged(mem, mem', TableAt(mem, r, v, level).value, Index(v, level))
    requires TableAt(mem, r, w, k).Some?
    requires k != level || Slot(w, level) != Slot(v, level)
    ensures TableAt(mem, r, w, k).value in mem && TableAt(mem, r, w, k).value in mem'
    ensures |mem[TableAt(mem, r, w, k).value]| == 512 && |mem'[TableAt(mem, r, w, k).value]| == 512
    ensures mem'[TableAt(mem, r, w, k).value][Index(w, k)] == mem[TableAt(mem, r, w, k).value][Index(w, k)]
  {
    TableAtLevel(mem, shape, r, v, level);
    TableAtLevel(mem, shape, r, w, k);
    if TableAt(mem, r, w, k) == TableAt(mem, r, v, level) {
      SamePath(mem, shape, r, v, w, level);
      SlotParts(v, level);
      SlotParts(w, level);
    }
  }

  lemma {:induction false} PathKept(mem: Memory, mem': Memory, shape: Shape, r: Root, v: nat, level: nat, w: nat,
                                    k: nat)
    requires WellFormed(mem, shape, r) && level < r.levels && k < r.levels && v < Space(r) && w < Space(r)
    requires TableAt(mem, r, v, level).Some?
    requires OnlyEntryChanged(mem, mem', TableAt(mem, r, v, level).value, Index(v, level))
    requires k >= level || Slot(w, level) != Slot(v, level)
    ensures TableAt(mem', r, w, k) == TableAt(mem, r, w, k)
    decreases r.levels - k
  {
    if k + 1 < r.levels {
      PathKept(mem, mem', shape, r, v, level, w, k + 1);
      var up := TableAt(mem, r, w, k + 1);
      if up.Some? {
        EntryKept(mem, mem', shape, r, v, level, w, k + 1);
        assert mem'[up.value][Index(w, k + 1)] == mem[up.value][Index(w, k + 1)];
      }
    }
  }

  /** Outside the changed slot the walk below any table on the path is unchanged. */
  lemma {:induction false} WalkKept(mem: Memory, mem': Memory, shape: Shape, r: Root, v: nat, level: nat, w: nat,
                                    k: nat)
    requires WellFormed(mem, shape, r) && level < r.levels && k < r.levels && v < Space(r) && w < Space(r)
    requires TableAt(mem, r, v, level).Some?
    requires OnlyEntryChanged(mem, mem', TableAt(mem, r, v, level).value, Index(v, level))
    requires Slot(w, level) != Slot(v, level)
    requires TableAt(mem, r, w, k).Some?
    ensures Walk(mem', TableAt(mem, r, w, k).value, k, w) == Walk(mem, TableAt(mem, r, w, k).value, k, w)
    decreases k
  {
    EntryKept(mem, mem', shape, r, v, level, w, k);
    if k > 0 && mem[TableAt(mem, r, w, k).value][Index(w, k)].Table? {
      WalkKept(mem, mem', shape, r, v, level, w, k - 1);
    }
  }

  lemma {:induction false} LeafKept(mem: Memory, mem': Memory, shape: Shape, r: Root, v: nat, level: nat, w: nat,
                                    k: nat)
    requires WellFormed(mem, shape, r) && level < r.levels && k < r.levels && v < Space(r) && w < Space(r)
    requires TableAt(mem, r, v, level).Some?
    requires OnlyEntryChanged(mem, mem', TableAt(mem, r, v, level).value, Index(v, level))
    requires k > level || Slot(w, level) != Slot(v, level)
    ensures LeafOn(mem', r, w, k) == LeafOn(mem, r, w, k)
  {
    PathKept(mem, mem', shape, r, v, level, w, k);
    if TableAt(mem, r, w, k).Some? {
      EntryKept(mem, mem', shape, r, v, level, w, k);
    }
  }

  /** Writing a leaf at the end of the path of v changes the translation of its slot and no other. */
  lemma {:induction false} SetLeaf(mem: Memory, shape: Shape, r: Root, v: nat, level: nat, leaf: Entry, mem': Memory)
    requires WellFormed(mem, shape, r) && level <= 2 && v < Space(r)
    requires TableAt(mem, r, v, level).Some? && TableAt(mem, r, v, level).value in mem
    requires leaf.Leaf? && LeafOk(leaf.phys, level)
    requires var t := TableAt(mem, r, v, level).value;
             mem' == mem[t := mem[t][Index(v, level) := leaf]]
    ensures WellFormed(mem', shape, r)
    ensures forall w: nat :: w < Space(r) ==>
              Translate(mem', r, w) ==
              if Slot(w, level) == Slot(v, level) then LeafTarget(leaf, level, w) else Translate(mem, r, w)
    ensures UpperKept(mem, mem', r, level)
  {
    TableAtLevel(mem, shape, r, v, level);
    SetLeafForest(mem, shape, r, TableAt(mem, r, v, level).value, Index(v, level), leaf, mem');
    forall w: nat | w < Space(r)
      ensures Translate(mem', r, w) ==
              if Slot(w, level) == Slot(v, level) then LeafTarget(leaf, level, w) else Translate(mem, r, w)
    {
      SetLeafTranslate(mem, shape, r, v, level, leaf, mem', w);
    }
    forall w: nat, l: nat ensures KeptAt(mem, mem', r, level, w, l) {
      if w < Space(r) && level <= l < r.levels {
        PathKept(mem, mem', shape, r, v, level, w, l);
        if level < l {
          LeafKept(mem, mem', shape, r, v, level, w, l);
        }
      }
    }
  }

  ghost function LeafTarget(leaf: Entry, level: nat, w: nat): Option<Target>
    requires leaf.Leaf?
  {
    Some(Target(leaf.phys + Offset(w, level), leaf.flags))
  }

  lemma {:induction false} SetLeafForest(mem: Memory, shape: Shape, r: Root, t: nat, i: nat, leaf: Entry, mem': Memory)
    requires WellFormed(mem, shape, r) && t in mem && i < 512
    requires leaf.Leaf? && LeafOk(leaf.phys, shape[t].level)
    requires mem' == mem[t := mem[t][i := leaf]]
    ensures WellFormed(mem', shape, r)
  {
    forall s, j | s in mem' && 0 <= j < 512 ensures EntryOk(mem'[s][j], s, j, shape) {
      assert EntryOk(mem[s][j], s, j, shape);
    }
  }

  lemma {:induction false} SetLeafTranslate(mem: Memory, shape: Shape, r: Root, v: nat, level: nat, leaf: Entry,
                                            mem': Memory, w: nat)
    requires WellFormed(mem, shape, r) && level <= 2 && v < Space(r) && w < Space(r)
    requires TableAt(mem, r, v, level).Some? && TableAt(mem, r, v, level).value in mem
    requires leaf.Leaf?
    requires var t := TableAt(mem, r, v, level).value;
             mem' == mem[t := mem[t][Index(v, level) := leaf]]
    ensures Translate(mem', r, w) ==
            if Slot(w, level) == Slot(v, level) then LeafTarget(leaf, level, w) else Translate(mem, r, w)
  {
    if Slot(w, level) == Slot(v, level) {
      SlotsAbove(v, w, level, level + 1);
      TableAtSlot(mem, r, v, w, level);
      PathKept(mem, mem', shape, r, v, level, w, level);
      WalkFromTable(mem', r, w, level);
    } else {
      WalkKept(mem, mem', shape, r, v, level, w, r.levels - 1);
    }
  }

  function EmptyTable(): (s: seq<Entry>)
    ensures |s| == 512 && forall i :: 0 <= i < 512 ==> s[i] == Empty
  {
    seq(512, _ => Empty)
  }

  /** Linking a fresh empty table at the end of the path of v clears its slot and nothing else. */
  lemma {:induction false} LinkTable(mem: Memory, shape: Shape, r: Root, v: nat, level: nat, a: nat, mem': Memory)
    requires Links(mem, shape, r, v, level, a, mem')
    ensures WellFormed(mem', shape[a := Place(level - 1, TableAt(mem, r, v, level).value, Index(v, level))], r)
    ensures TableAt(mem', r, v, level - 1) == Some(a)
    ensures Cleared(mem, mem', r, v, level)
    ensures UpperKept(mem, mem', r, 0)
  {
    TableAtLevel(mem, shape, r, v, level);
    LinkTableForest(mem, shape, r, TableAt(mem, r, v, level).value, Index(v, level), a, mem');
    LinkTableAt(mem, shape, r, v, level, a, mem', v);
    forall w: nat | w < Space(r)
      ensures if Slot(w, level) == Slot(v, level) then Translate(mem', r, w) == None && NoLeafAbove(mem', r, w, 0)
              else Translate(mem', r, w) == Translate(mem, r, w)
    {
      if Slot(w, level) == Slot(v, level) {
        LinkTableAt(mem, shape, r, v, level, a, mem', w);
      } else {
        WalkKept(mem, mem', shape, r, v, level, w, r.levels - 1);
      }
    }
    forall w: nat, l: nat ensures KeptAt(mem, mem', r, 0, w, l) {
      if w < Space(r) && l < r.levels {
        LinkTableKept(mem, shape, r, v, level, a, mem', w, l);
      }
    }
  }

  ghost predicate Links(mem: Memory, shape: Shape, r: Root, v: nat, level: nat, a: nat, mem': Memory) {
    && WellFormed(mem, shape, r) && 0 < level < r.levels && v < Space(r) && a !in mem
    && TableAt(mem, r, v, level).Some? && TableAt(mem, r, v, level).value in mem
    && var t := TableAt(mem, r, v, level).value;
       && !mem[t][Index(v, level)].Table? && !FbOn(mem, r, v, level)
       && mem' == mem[a := EmptyTable()][t := mem[t][Index(v, level) := Table(a)]]
  }

  lemma {:induction false} LinkTableAt(mem: Memory, shape: Shape, r: Root, v: nat, level: nat, a: nat, mem': Memory,
                                       w: nat)
    requires Links(mem, shape, r, v, level, a, mem')
    requires w < Space(r) && Slot(w, level) == Slot(v, level)
    ensures TableAt(mem', r, w, level - 1) == Some(a)
    ensures Translate(mem', r, w) == None
    ensures NoLeafAbove(mem', r, w, 0)
  {
    var t := TableAt(mem, r, v, level).value;
    SlotsAbove(v, w, level, level + 1);
    TableAtSlot(mem, r, v, w, level);
    PathKept(mem, mem', shape, r, v, level, w, level);
    WalkFromTable(mem', r, w, level - 1);
    forall l | 0 < l < r.levels ensures !LeafOn(mem', r, w, l).Leaf? {
      NoLeafOnPath(mem', r, w, l, level, t, a);
    }
  }

  lemma {:induction false} LinkTableKept(mem: Memory, shape: Shape, r: Root, v: nat, level: nat, a: nat, mem': Memory,
                                         w: nat, l: nat)
    requires Links(mem, shape, r, v, level, a, mem')
    requires w < Space(r) && l < r.levels
    ensures KeptAt(mem, mem', r, 0, w, l)
  {
    if Slot(w, level) != Slot(v, level) {
      PathKept(mem, mem', shape, r, v, level, w, l);
      LeafKept(mem, mem', shape, r, v, level, w, l);
    } else {
      LinkTableAt(mem, shape, r, v, level, a, mem', w);
      SlotsAbove(v, w, level, level + 1);
      TableAtSlot(mem, r, v, w, level);
      if level <= l {
        PathKept(mem, mem', shape, r, v, level, w, l);
        if level < l {
          LeafKept(mem, mem', shape, r, v, level, w, l);
        }
      } else {
        NoTableUnder(mem, r, w, l, level);
      }
    }
  }

  lemma {:induction false} NoTableUnder(mem: Memory, r: Root, w: nat, l: nat, level: nat)
    requires l < level < r.levels
    requires TableAt(mem, r, w, level).Some? && TableAt(mem, r, w, level).value in mem
    requires |mem[TableAt(mem, r, w, level).value]| == 512
    requires !mem[TableAt(mem, r, w, level).value][Index(w, level)].Table?
    ensures TableAt(mem, r, w, l) == None
    decreases level - l
  {
    if l + 1 < level {
      NoTableUnder(mem, r, w, l + 1, level);
    }
  }

  lemma {:induction false} LinkTableForest(mem: Memory, shape: Shape, r: Root, t: nat, i: nat, a: nat, mem': Memory)
    requires WellFormed(mem, shape, r) && t in mem && i < 512 && shape[t].level > 0
    requires a !in mem
    requires mem' == mem[a := EmptyTable()][t := mem[t][i := Table(a)]]
    ensures WellFormed(mem', shape[a := Place(shape[t].level - 1, t, i)], r)
  {
    var shape' := shape[a := Place(shape[t].level - 1, t, i)];
    forall s, j | s in mem' && 0 <= j < 512 ensures EntryOk(mem'[s][j], s, j, shape') {
      if s in mem {
        assert EntryOk(mem[s][j], s, j, shape);
      }
    }
  }

  /** Above an entry that is reached, and in an empty table, there is no leaf. */
  lemma {:induction false} NoLeafOnPath(mem: Memory, r: Root, w: nat, l: nat, level: nat, t: nat, a: nat)
    requires 0 < level < r.levels && l < r.levels
    requires TableAt(mem, r, w, level) == Some(t) && TableAt(mem, r, w, level - 1) == Some(a)
    requires a in mem && mem[a] == EmptyTable()
    ensures !LeafOn(mem, r, w, l).Leaf?
    decreases if l >= level then l - level else level - l
  {
    if l + 2 <= level {
      NoLeafOnPath(mem, r, w, l + 1, level, t, a);
      NoTableBelow(mem, r, w, l, level, a);
    } else if l > level {
      TableAbove(mem, r, w, level, l);
    }
  }

  lemma {:induction false} NoTableBelow(mem: Memory, r: Root, w: nat, l: nat, level: nat, a: nat)
    requires l + 2 <= level < r.levels
    requires TableAt(mem, r, w, level - 1) == Some(a) && a in mem && mem[a] == EmptyTable()
    ensures TableAt(mem, r, w, l) == None
    decreases level - l
  {
    if l + 2 < level {
      NoTableBelow(mem, r, w, l + 1, level, a);
    }
  }

  lemma {:induction false} TableAbove(mem: Memory, r: Root, w: nat, k: nat, l: nat)
    requires k < l < r.levels && TableAt(mem, r, w, k).Some?
    ensures TableAt(mem, r, w, l).Some? && !LeafOn(mem, r, w, l).Leaf?
    decreases l - k
  {
    if k + 1 < l {
      TableAbove(mem, r, w, k + 1, l);
    }
  }

  // ----- Several steps in a row

  /** What the hardware sees: a partial map from virtual address to physical address and flags. */
  type View = imap<nat, Target>

  ghost function ViewOf(mem: Memory, r: Root): View
    requires r.levels > 0
  {
    imap v: nat | v < Space(r) && Translate(mem, r, v).Some? :: Translate(mem, r, v).value
  }

  /** The view that sends [base, base + bytes) to the bytes from phys on, and is `view` elsewhere. */
  ghost function Put(view: View, base: nat, bytes: nat, phys: nat, flags: Flags): View {
    imap v: nat | v in view || base <= v < base + bytes ::
      if base <= v < base + bytes then Target(phys + (v - base), flags) else view[v]
  }

  lemma {:induction false} PutNothing(view: View, base: nat, phys: nat, flags: Flags)
    ensures Put(view, base, 0, phys, flags) == view
  {
  }

  lemma {:induction false} PutExtend(view: View, base: nat, i: nat, step: nat, phys: nat, flags: Flags)
    ensures Put(Put(view, base, i, phys, flags), base + i, step, phys + i, flags)
         == Put(view, base, i + step, phys, flags)
  {
  }

  lemma {:induction false} PutTwice(view0: View, view1: View, view2: View, base: nat, i: nat, step: nat, phys: nat,
                                    flags: Flags)
    requires view1 == Put(view0, base, i, phys, flags) && view2 == Put(view1, base + i, step, phys + i, flags)
    ensures view2 == Put(view0, base, i + step, phys, flags)
  {
    PutExtend(view0, base, i, step, phys, flags);
  }

  lemma {:induction false} PutByAddress(m0: Memory, m1: Memory, r: Root, base: nat, bytes: nat, phys: nat, flags: Flags)
    requires r.levels > 0 && base + bytes <= Space(r)
    requires forall v: nat :: v < Space(r) ==>
               Translate(m1, r, v) == if base <= v < base + bytes then Some(Target(phys + (v - base), flags))
                                      else Translate(m0, r, v)
    ensures ViewOf(m1, r) == Put(ViewOf(m0, r), base, bytes, phys, flags)
  {
  }

  lemma {:induction false} PutAt(m0: Memory, m1: Memory, r: Root, base: nat, bytes: nat, phys: nat, flags: Flags,
                                 v: nat)
    requires r.levels > 0 && base + bytes <= Space(r) && v < Space(r)
    requires ViewOf(m1, r) == Put(ViewOf(m0, r), base, bytes, phys, flags)
    ensures Translate(m1, r, v) == if base <= v < base + bytes then Some(Target(phys + (v - base), flags))
                                   else Translate(m0, r, v)
  {
    assert v in ViewOf(m1, r) <==> Translate(m1, r, v).Some?;
    assert v in ViewOf(m0, r) <==> Translate(m0, r, v).Some?;
  }

  lemma {:induction false} UpperKeptTrans(a: Memory, b: Memory, c: Memory, r: Root, k: nat)
    requires UpperKept(a, b, r, k) && UpperKept(b, c, r, k)
    ensures UpperKept(a, c, r, k)
  {
    forall w: nat, l: nat ensures KeptAt(a, c, r, k, w, l) {
      assert KeptAt(a, b, r, k, w, l) && KeptAt(b, c, r, k, w, l);
    }
  }

  lemma {:induction false} UpperKeptHigher(a: Memory, b: Memory, r: Root, j: nat, k: nat)
    requires UpperKept(a, b, r, j) && j <= k
    ensures UpperKept(a, b, r, k)
  {
    forall w: nat, l: nat ensures KeptAt(a, b, r, k, w, l) {
      assert KeptAt(a, b, r, j, w, l);
    }
  }

  lemma {:induction false} NoLeafAboveKept(a: Memory, b: Memory, r: Root, k: nat, v: nat, j: nat)
    requires UpperKept(a, b, r, k) && v < Space(r) && k <= j
    ensures NoLeafAbove(a, r, v, j) ==> NoLeafAbove(b, r, v, j)
    ensures FbLeafAbove(b, r, v, j) <==> FbLeafAbove(a, r, v, j)
  {
    forall l: nat | j < l < r.levels
      ensures (LeafOn(b, r, v, l).Leaf? ==> LeafOn(a, r, v, l).Leaf?) && (FbOn(a, r, v, l) <==> FbOn(b, r, v, l))
    {
      assert KeptAt(a, b, r, k, v, l);
    }
  }

  ghost predicate Clear(mem: Memory, r: Root, base: nat, bytes: nat, k: nat) {
    forall w: nat :: base <= w < base + bytes ==> NoLeafAbove(mem, r, w, k)
  }

  ghost predicate FbIn(mem: Memory, r: Root, base: nat, bytes: nat, k: nat) {
    exists w: nat :: base <= w < base + bytes && FbLeafAbove(mem, r, w, k)
  }

  /** Framebuffer leaves above level k neither come nor go. */
  lemma {:induction false} FbInKept(a: Memory, b: Memory, r: Root, base: nat, bytes: nat, k: nat)
    requires UpperKept(a, b, r, k) && base + bytes <= Space(r)
    ensures FbIn(a, r, base, bytes, k) <==> FbIn(b, r, base, bytes, k)
  {
    forall w: nat | base <= w < base + bytes ensures FbLeafAbove(a, r, w, k) <==> FbLeafAbove(b, r, w, k) {
      NoLeafAboveKept(a, b, r, k, w, k);
    }
  }

  lemma {:induction false} FbInParts(mem: Memory, r: Root, base: nat, i: nat, step: nat, k: nat)
    ensures FbIn(mem, r, base, i + step, k) <==> FbIn(mem, r, base, i, k) || FbIn(mem, r, base + i, step, k)
  {
  }

  /** All addresses of a page see the same leaves above it. */
  lemma {:induction false} FbInPage(mem: Memory, r: Root, v: nat, level: nat, k: nat)
    requires level <= 2 && Offset(v, level) == 0 && level <= k + 1
    ensures FbIn(mem, r, v, PageBytes(level), k) <==> FbLeafAbove(mem, r, v, k)
  {
    forall w: nat, l: nat | v <= w < v + PageBytes(level) && k < l ensures FbOn(mem, r, w, l) == FbOn(mem, r, v, l) {
      SameSlotSameInterval(w, v, level);
      SlotsAbove(v, w, level, l);
      SlotsAbove(v, w, level, l + 1);
      TableAtSlot(mem, r, v, w, l);
    }
    if FbIn(mem, r, v, PageBytes(level), k) {
      var w: nat :| v <= w < v + PageBytes(level) && FbLeafAbove(mem, r, w, k);
      var l: nat :| k < l < r.levels && FbOn(mem, r, w, l);
      assert FbOn(mem, r, v, l);
    }
  }

  /** A descent down to this level has met no framebuffer leaf. */
  ghost predicate DescentDone(m0: Memory, m: Memory, r: Root, v: nat, level: nat, k: nat)
    requires r.levels > 0
  {
    ViewOf(m, r) == ViewOf(m0, r) && UpperKept(m0, m, r, k) && !FbLeafAbove(m0, r, v, level)
  }

  /** What the next turn of a descent meets was there from the start. */
  lemma {:induction false} DescentTurn(m0: Memory, m1: Memory, r: Root, v: nat, k: nat, rank: nat, level: nat)
    requires k <= rank < level < r.levels && v < Space(r) && DescentDone(m0, m1, r, v, level, k)
    ensures NoLeafAbove(m0, r, v, rank) ==> NoLeafAbove(m1, r, v, rank)
    ensures FbOn(m1, r, v, level) <==> FbOn(m0, r, v, level)
    ensures FbOn(m0, r, v, level) ==> FbLeafAbove(m0, r, v, rank)
    ensures TableAt(m1, r, v, level - 1).None? ==> TableAt(m0, r, v, rank).None?
    ensures !FbOn(m0, r, v, level) && TableAt(m1, r, v, level - 1).None? ==> !FbLeafAbove(m0, r, v, rank)
  {
    NoLeafAboveKept(m0, m1, r, k, v, rank);
    assert KeptAt(m0, m1, r, k, v, level) && KeptAt(m0, m1, r, k, v, level - 1);
    forall l: nat | rank <= l < level && TableAt(m0, r, v, l).Some? ensures TableAt(m0, r, v, level - 1).Some? {
      if l < level - 1 {
        TableAbove(m0, r, v, l, level - 1);
      }
    }
  }

  lemma {:induction false} DescentGrows(m0: Memory, m1: Memory, m2: Memory, r: Root, v: nat, level: nat, k: nat)
    requires r.levels > 0 && DescentDone(m0, m1, r, v, level, k) && UpperKept(m1, m2, r, k) && level > 0
             && !FbOn(m0, r, v, level)
    requires ViewOf(m2, r) == ViewOf(m1, r)
    ensures DescentDone(m0, m2, r, v, level - 1, k)
  {
    UpperKeptTrans(m0, m1, m2, r, k);
  }

  lemma {:induction false} ClearSlot(m0: Memory, mem: Memory, r: Root, v: nat, level: nat, base: nat, k: nat)
    requires level <= 2 && Offset(base, level) == 0 && Slot(base, level) == Slot(v, level)
    requires base + PageBytes(level) <= Space(r)
    requires r.levels > 0 && Cleared(m0, mem, r, v, level)
    ensures Clear(mem, r, base, PageBytes(level), k)
  {
    forall w: nat | base <= w < base + PageBytes(level) ensures NoLeafAbove(mem, r, w, k) {
      SameSlotSameInterval(w, base, level);
      assert NoLeafAbove(mem, r, w, 0);
    }
  }

  lemma {:induction false} ClearHasNoFb(mem: Memory, r: Root, base: nat, bytes: nat, k: nat)
    requires Clear(mem, r, base, bytes, k)
    ensures !FbIn(mem, r, base, bytes, k)
  {
    forall w: nat | base <= w < base + bytes ensures !FbLeafAbove(mem, r, w, k) {
      assert NoLeafAbove(mem, r, w, k);
    }
  }

  /** m1 differs from m0 in the slot of v only, which it does not map and where it has no leaf. */
  ghost predicate Cleared(m0: Memory, m1: Memory, r: Root, v: nat, level: nat)
    requires r.levels > 0
  {
    forall w: nat :: w < Space(r) ==>
      if Slot(w, level) == Slot(v, level) then Translate(m1, r, w) == None && NoLeafAbove(m1, r, w, 0)
      else Translate(m1, r, w) == Translate(m0, r, w)
  }

  /** Every address in the slot of v translates as entry e says. */
  ghost predicate SlotReads(mem: Memory, r: Root, v: nat, level: nat, e: Entry)
    requires r.levels > 0
  {
    forall w: nat :: Slot(w, level) == Slot(v, level) ==>
      Translate(mem, r, w) == if e.Leaf? then LeafTarget(e, level, w) else None
  }

  /** A page that is refilled with its old contents after its slot was cleared. */
  lemma {:induction false} SplitRestores(m0: Memory, m1: Memory, m2: Memory, r: Root, v: nat, level: nat, e: Entry,
                                         base: nat)
    requires r.levels > 0 && e.Leaf? && level <= 2
    requires Offset(base, level) == 0 && Slot(base, level) == Slot(v, level)
    requires SlotReads(m0, r, v, level, e) && Cleared(m0, m1, r, v, level)
    requires base + PageBytes(level) <= Space(r)
    requires ViewOf(m2, r) == Put(ViewOf(m1, r), base, PageBytes(level), e.phys, e.flags)
    ensures ViewOf(m2, r) == ViewOf(m0, r)
  {
    forall w: nat | w < Space(r) ensures Translate(m2, r, w) == Translate(m0, r, w) {
      SameSlotSameInterval(w, base, level);
      PutAt(m1, m2, r, base, PageBytes(level), e.phys, e.flags, w);
    }
  }

  lemma {:induction false} LinkingEmptyKeepsView(m0: Memory, m1: Memory, r: Root, v: nat, level: nat)
    requires r.levels > 0 && SlotReads(m0, r, v, level, Empty) && Cleared(m0, m1, r, v, level)
    ensures ViewOf(m1, r) == ViewOf(m0, r)
  {
    forall w: nat | w < Space(r) ensures Translate(m1, r, w) == Translate(m0, r, w) {
      if Slot(w, level) == Slot(v, level) {
      }
    }
  }

  lemma {:induction false} EntryReads(mem: Memory, r: Root, v: nat, level: nat, t: nat)
    requires r.levels > 0 && level < r.levels && TableAt(mem, r, v, level) == Some(t)
    requires t in mem && |mem[t]| == 512 && !mem[t][Index(v, level)].Table?
    ensures SlotReads(mem, r, v, level, mem[t][Index(v, level)])
  {
    forall w: nat | Slot(w, level) == Slot(v, level)
      ensures Translate(mem, r, w) ==
              var e := mem[t][Index(v, level)]; if e.Leaf? then LeafTarget(e, level, w) else None
    {
      SlotsAbove(v, w, level, level + 1);
      TableAtSlot(mem, r, v, w, level);
      WalkFromTable(mem, r, w, level);
    }
  }

  predicate RunAligned(base: nat, phys: nat, bytes: nat, i: nat, k: nat) {
    k <= 2 && Offset(base, k) == 0 && Offset(phys, k) == 0 && Offset(bytes, k) == 0 && Offset(i, k) == 0
  }

  lemma {:induction false} RunStep(base: nat, phys: nat, bytes: nat, i: nat, k: nat)
    requires RunAligned(base, phys, bytes, i, k) && i < bytes
    ensures RunAligned(base, phys, bytes, i + PageBytes(k), k) && i + PageBytes(k) <= bytes
    ensures Offset(base + i, k) == 0 && Offset(phys + i, k) == 0
  {
    MultipleSum(i, bytes, PageBytes(k));
    MultipleSum(base, i, PageBytes(k));
    MultipleSum(phys, i, PageBytes(k));
    IsMultiple(1, PageBytes(k));
    MultipleSum(i, PageBytes(k), PageBytes(k));
  }

  /** The first i bytes of a run are mapped and no framebuffer leaf was in their way. */
  ghost predicate RunDone(m0: Memory, m: Memory, r: Root, base: nat, i: nat, phys: nat, flags: Flags, k: nat)
    requires r.levels > 0
  {
    ViewOf(m, r) == Put(ViewOf(m0, r), base, i, phys, flags) && UpperKept(m0, m, r, k) && !FbIn(m0, r, base, i, k)
  }

  /** What the next page of a run meets was there from the start. */
  lemma {:induction false} RunTurn(m0: Memory, m1: Memory, r: Root, base: nat, i: nat, step: nat, bytes: nat, phys: nat,
                                   flags: Flags, k: nat, rank: nat)
    requires r.levels > 0 && RunDone(m0, m1, r, base, i, phys, flags, k) && k <= rank
    requires 0 < step && i + step <= bytes && base + bytes <= Space(r)
    ensures Clear(m0, r, base, bytes, rank) ==> NoLeafAbove(m1, r, base + i, rank)
    ensures FbIn(m1, r, base + i, step, k) <==> FbIn(m0, r, base + i, step, k)
    ensures FbIn(m0, r, base, i + step, k) <==> FbIn(m0, r, base + i, step, k)
    ensures FbIn(m0, r, base + i, step, k) ==> FbIn(m0, r, base, bytes, k)
    ensures FbLeafAbove(m0, r, base, k) ==> FbIn(m0, r, base + i, step, k)
  {
    NoLeafAboveKept(m0, m1, r, k, base + i, rank);
    FbInKept(m0, m1, r, base + i, step, k);
    FbInParts(m0, r, base, i, step, k);
    FbInParts(m0, r, base, i + step, bytes - (i + step), k);
  }

  lemma {:induction false} RunGrows(m0: Memory, m1: Memory, m2: Memory, r: Root, base: nat, i: nat, step: nat,
                                    phys: nat, flags: Flags, k: nat)
    requires r.levels > 0 && RunDone(m0, m1, r, base, i, phys, flags, k) && !FbIn(m0, r, base, i + step, k)
    requires UpperKept(m1, m2, r, k) && ViewOf(m2, r) == Put(ViewOf(m1, r), base + i, step, phys + i, flags)
    ensures RunDone(m0, m2, r, base, i + step, phys, flags, k)
  {
    UpperKeptTrans(m0, m1, m2, r, k);
    PutTwice(ViewOf(m0, r), ViewOf(m1, r), ViewOf(m2, r), base, i, step, phys, flags);
  }

  lemma {:induction false} LargerIsAligned(a: nat, level: nat, k: nat)
    requires k <= level <= 2 && Offset(a, level) == 0
    ensures Offset(a, k) == 0
  {
  }

  lemma {:induction false} SpaceIsMultiple(r: Root, level: nat)
    requires level <= 2
    ensures Space(r) % PageBytes(level) == 0
  {
  }

  /** The page that holds v lies in the address space. */
  lemma {:induction false} PageOf(v: nat, level: nat, r: Root)
    requires level <= 2 && v < Space(r)
    ensures Offset(v, level) <= v
    ensures var base := v - Offset(v, level);
            Offset(base, level) == 0 && base <= v < base + PageBytes(level) <= Space(r)
  {
    RoundDown(v, PageBytes(level));
    SpaceIsMultiple(r, level);
    MultipleSum(v - v % PageBytes(level), Space(r), PageBytes(level));
  }

  lemma {:induction false} PageInSpace(virt: nat, level: nat, r: Root)
    requires level <= 2 && Offset(virt, level) == 0
    ensures Offset(Wrap(virt, r), level) == 0 && Wrap(virt, r) + PageBytes(level) <= Space(r)
  {
    SpaceIsMultiple(r, level);
    AlignedRemainder(virt, Space(r), PageBytes(level));
  }

  // ----- The operations

  /** How a call ends: normally, or in one of the two panics a well-formed map can reach. */
  datatype Outcome = Mapped | OutOfMemory | SplitOfFramebuffer

  /** An address that fits the address field of an entry. */
  predicate PageAddress(a: nat) {
    a % 0x1000 == 0 && a < PHYS_LIMIT
  }

  class Pagemap {
    const root: Root
    const patSupported: bool
    const gibSupported: bool
    var mem: Memory
    /** The zeroed pages ext_mem_alloc hands out, in order; it panics when they run out. */
    var pool: seq<nat>
    ghost var shape: Shape

    ghost predicate Valid()
      reads this
    {
      && WellFormed(mem, shape, root)
      && (forall t :: t in mem ==> PageAddress(t))
      && (forall i :: 0 <= i < |pool| ==> pool[i] !in mem && PageAddress(pool[i]))
      && (forall i, j :: 0 <= i < j < |pool| ==> pool[i] != pool[j])
    }

    ghost function View(): View
      requires root.levels > 0
      reads this
    {
      ViewOf(mem, root)
    }

    function Effective(flags: Flags): (r: Flags)
      ensures r == Flags(flags.write, flags.noexec, flags.fb && patSupported)
    {
      if flags.fb && !patSupported then flags.(fb := false) else flags
    }

    /** The smallest leaf level a request of this size writes. */
    function LeafLevel(size: PageSize): nat {
      if size == Size1GiB && !gibSupported then 1 else Rank(size)
    }

    constructor (levels: nat, pages: seq<nat>, pat: bool, gib: bool)
      requires levels == 4 || levels == 5
      requires |pages| > 0
      requires forall i :: 0 <= i < |pages| ==> PageAddress(pages[i])
      requires forall i, j :: 0 <= i < j < |pages| ==> pages[i] != pages[j]
      ensures Valid() && root.levels == levels && patSupported == pat && gibSupported == gib
      ensures View() == imap[] && pool == pages[1..] && forall w: nat :: NoLeafAbove(mem, root, w, 0)
    {
      root := Root(levels, pages[0]);
      patSupported := pat;
      gibSupported := gib;
      mem := map[pages[0] := EmptyTable()];
      pool := pages[1..];
      shape := map[pages[0] := Place(levels - 1, 0, 0)];
    }

    /** Maps one page.  Low and high halves share the index bits, so the address is taken modulo the
        address space. */
    method MapPage(virt: nat, phys: nat, flags: Flags, size: PageSize) returns (r: Outcome)
      requires Valid()
      requires Offset(virt, Rank(size)) == 0 && LeafOk(phys, Rank(size))
      modifies this
      ensures r.Mapped? ==> Valid()
      ensures r.Mapped? ==>
                View() == Put(old(View()), Wrap(virt, root), PageBytes(Rank(size)), phys,
                              Flags(flags.write, flags.noexec, flags.fb && patSupported))
      ensures r.Mapped? ==> UpperKept(old(mem), mem, root, LeafLevel(size))
      ensures r.OutOfMemory? ==> pool == []
      ensures r.SplitOfFramebuffer? <==>
              FbIn(old(mem), root, Wrap(virt, root), PageBytes(Rank(size)), LeafLevel(size))
      ensures (&& LeafLevel(size) == Rank(size) && |old(pool)| >= root.levels
               && NoLeafAbove(old(mem), root, Wrap(virt, root), Rank(size))) ==> r.Mapped?
      ensures r.Mapped? && LeafLevel(size) == Rank(size) ==>
                LeafOn(mem, root, Wrap(virt, root), Rank(size)) ==
                  Leaf(phys, Flags(flags.write, flags.noexec, flags.fb && patSupported))
      decreases Rank(size), (if NoLeafAbove(mem, root, Wrap(virt, root), Rank(size)) then 0 else 1), 1
    {
      ghost var m0 := mem;
      var v := Wrap(virt, root);
      PageInSpace(virt, Rank(size), root);
      FbInPage(m0, root, v, Rank(size), LeafLevel(size));
      var t;
      r, t := Descend(v, size);
      if !r.Mapped? { return; }
      ghost var m1 := mem;
      NoLeafAboveKept(m0, m1, root, LeafLevel(size), v, LeafLevel(size));
      r := PlacePage(t, v, phys, Effective(flags), size);
      if r.Mapped? {
        UpperKeptTrans(m0, m1, mem, root, LeafLevel(size));
      }
    }

    /** The end of map_page: the entry, or pages of 2 MiB where there are none of 1 GiB. */
    method PlacePage(t: nat, v: nat, phys: nat, flags: Flags, size: PageSize) returns (r: Outcome)
      requires Valid() && v < Space(root) && Offset(v, Rank(size)) == 0 && LeafOk(phys, Rank(size))
      requires TableAt(mem, root, v, Rank(size)) == Some(t) && flags == Effective(flags)
      requires LeafLevel(size) == Rank(size) ==> !FbLeafAbove(mem, root, v, Rank(size))
      modifies this
      ensures r.Mapped? ==> Valid() && View() == Put(old(View()), v, PageBytes(Rank(size)), phys, flags)
      ensures r.Mapped? ==> UpperKept(old(mem), mem, root, LeafLevel(size))
      ensures r.OutOfMemory? ==> pool == []
      ensures r.SplitOfFramebuffer? <==> FbLeafAbove(old(mem), root, v, LeafLevel(size))
      ensures LeafLevel(size) == Rank(size) ==>
                r.Mapped? && LeafOn(mem, root, v, Rank(size)) == Leaf(phys, flags)
      decreases Rank(size), 0, 0
    {
      if size == Size1GiB && !gibSupported {
        PageOf(v, 2, root);
        LargerIsAligned(v, 2, 1);
        LargerIsAligned(phys, 2, 1);
        FbInPage(mem, root, v, 2, 1);
        r := MapRun(v, phys, flags, PageBytes(2), Size2MiB);
      } else {
        WriteLeaf(t, v, Rank(size), phys, flags);
        r := Mapped;
      }
    }

    /** Walks from the top-level table down to the table whose entries have the requested size. */
    method Descend(v: nat, size: PageSize) returns (r: Outcome, t: nat)
      requires Valid() && v < Space(root)
      modifies this
      ensures r.Mapped? ==> Valid() && TableAt(mem, root, v, Rank(size)) == Some(t)
      ensures r.Mapped? ==> View() == old(View())
      ensures r.Mapped? ==> UpperKept(old(mem), mem, root, LeafLevel(size))
      ensures r.OutOfMemory? ==> pool == [] && TableAt(old(mem), root, v, Rank(size)).None?
      ensures r.SplitOfFramebuffer? <==> FbLeafAbove(old(mem), root, v, Rank(size))
      ensures NoLeafAbove(old(mem), root, v, Rank(size)) ==> |pool| + root.levels > |old(pool)| + Rank(size)
      decreases Rank(size), (if NoLeafAbove(mem, root, v, Rank(size)) then 0 else 1), 0, 2
    {
      ghost var m0, k := mem, LeafLevel(size);
      var level := root.levels - 1;
      t := root.top;
      r := Mapped;
      while level > Rank(size)
        invariant Rank(size) <= level < root.levels && r.Mapped?
        invariant Valid() && TableAt(mem, root, v, level) == Some(t)
        invariant DescentDone(m0, mem, root, v, level, k)
        invariant NoLeafAbove(m0, root, v, Rank(size)) ==> |pool| + root.levels > |old(pool)| + level
      {
        r, t := StepDown(t, v, size, level, m0);
        if !r.Mapped? { return; }
        level := level - 1;
      }
    }

    /** One turn of the descent, seen from the state m0 it began in. */
    method StepDown(t: nat, v: nat, size: PageSize, level: nat, ghost m0: Memory) returns (r: Outcome, next: nat)
      requires Valid() && v < Space(root) && Rank(size) < level < root.levels
      requires TableAt(mem, root, v, level) == Some(t) && DescentDone(m0, mem, root, v, level, LeafLevel(size))
      modifies this
      ensures r.Mapped? ==> Valid() && TableAt(mem, root, v, level - 1) == Some(next)
      ensures r.Mapped? ==> DescentDone(m0, mem, root, v, level - 1, LeafLevel(size))
      ensures r.OutOfMemory? ==> pool == [] && TableAt(m0, root, v, Rank(size)).None?
      ensures !r.Mapped? ==> (r.SplitOfFramebuffer? <==> FbLeafAbove(m0, root, v, Rank(size)))
      ensures NoLeafAbove(m0, root, v, Rank(size)) ==> |pool| + 1 >= |old(pool)|
      decreases Rank(size), (if NoLeafAbove(m0, root, v, Rank(size)) then 0 else 1), 0, 1
    {
      ghost var m1 := mem;
      DescentTurn(m0, m1, root, v, LeafLevel(size), Rank(size), level);
      r, next := GetNextLevel(t, v, size, level);
      if r.Mapped? {
        DescentGrows(m0, m1, mem, root, v, level, LeafLevel(size));
      }
    }

    /** The walk step: the table below entry Index(v, level) of table t, creating it, or splitting the
        large page found there into pages of the requested size. */
    method GetNextLevel(t: nat, v: nat, size: PageSize, level: nat) returns (r: Outcome, next: nat)
      requires Valid()
      requires v < Space(root) && Rank(size) < level < root.levels
      requires TableAt(mem, root, v, level) == Some(t)
      modifies this
      ensures r.Mapped? ==> Valid() && TableAt(mem, root, v, level - 1) == Some(next)
      ensures r.Mapped? ==> View() == old(View())
      ensures r.Mapped? ==> UpperKept(old(mem), mem, root, LeafLevel(size))
      ensures r.OutOfMemory? ==> pool == [] && TableAt(old(mem), root, v, level - 1).None?
      ensures r.SplitOfFramebuffer? <==> FbOn(old(mem), root, v, level)
      ensures NoLeafAbove(old(mem), root, v, Rank(size)) ==> |pool| + 1 >= |old(pool)|
      decreases Rank(size), (if NoLeafAbove(mem, root, v, Rank(size)) then 0 else 1), 0, 0
    {
      TableAtLevel(mem, shape, root, v, level);
      var e := mem[t][Index(v, level)];
      if e.Table? {
        return Mapped, e.addr;
      }
      assert LeafOn(mem, root, v, level) == e;
      assert EntryOk(e, t, Index(v, level), shape);
      if e.Leaf? && e.flags.fb {
        // The PAT bit of a large entry lies in its address field, which is then misaligned.
        return SplitOfFramebuffer, 0;
      }
      if pool == [] {
        return OutOfMemory, 0;
      }
      EntryReads(mem, root, v, level, t);
      next := pool[0];
      if e.Leaf? {
        r := SplitLarge(t, v, level, e, size);
      } else {
        ghost var m0 := mem;
        LinkFresh(t, v, level);
        UpperKeptHigher(m0, mem, root, 0, LeafLevel(size));
        LinkingEmptyKeepsView(m0, mem, root, v, level);
        r := Mapped;
      }
    }

    /** Replaces the large page e by a table, and recreates it with pages of the requested size. */
    method SplitLarge(t: nat, v: nat, level: nat, e: Entry, size: PageSize) returns (r: Outcome)
      requires Valid() && pool != []
      requires v < Space(root) && Rank(size) < level <= 2
      requires TableAt(mem, root, v, level) == Some(t) && t in mem && !mem[t][Index(v, level)].Table?
      requires e.Leaf? && LeafOk(e.phys, level) && !FbOn(mem, root, v, level) && !e.flags.fb
               && SlotReads(mem, root, v, level, e)
      modifies this
      ensures r.Mapped? ==> Valid() && TableAt(mem, root, v, level - 1) == Some(old(pool)[0])
      ensures r.Mapped? ==> View() == old(View())
      ensures r.Mapped? ==> UpperKept(old(mem), mem, root, LeafLevel(size))
      ensures r.OutOfMemory? ==> pool == []
      ensures !r.SplitOfFramebuffer?
      decreases Rank(size), 0, 5
    {
      ghost var m0 := mem;
      LinkFresh(t, v, level);
      ghost var m1 := mem;
      var base := v - Offset(v, level);
      PageOf(v, level, root);
      SameSlotSameInterval(v, base, level);
      LargerIsAligned(base, level, Rank(size));
      LargerIsAligned(e.phys, level, Rank(size));
      LargerIsAligned(PageBytes(level), level, Rank(size));
      ClearSlot(m0, mem, root, v, level, base, Rank(size));
      ClearHasNoFb(mem, root, base, PageBytes(level), Rank(size));
      r := MapRun(base, e.phys, e.flags, PageBytes(level), size);
      if r.Mapped? {
        SplitRestores(m0, m1, mem, root, v, level, e, base);
        assert KeptAt(m1, mem, root, LeafLevel(size), v, level - 1);
        UpperKeptHigher(m0, m1, root, 0, LeafLevel(size));
        UpperKeptTrans(m0, m1, mem, root, LeafLevel(size));
      }
    }

    /** Takes a page from the allocator and links it, zeroed, at entry Index(v, level) of table t. */
    method LinkFresh(t: nat, v: nat, level: nat)
      requires Valid() && pool != []
      requires v < Space(root) && 0 < level < root.levels
      requires TableAt(mem, root, v, level) == Some(t) && t in mem && !mem[t][Index(v, level)].Table?
      requires !FbOn(mem, root, v, level)
      modifies this
      ensures Valid() && pool == old(pool)[1..]
      ensures TableAt(mem, root, v, level - 1) == Some(old(pool)[0])
      ensures Cleared(old(mem), mem, root, v, level)
      ensures UpperKept(old(mem), mem, root, 0)
    {
      var a, i := pool[0], Index(v, level);
      pool := pool[1..];
      shape := shape[a := Place(level - 1, t, i)];
      mem := mem[a := EmptyTable()][t := mem[t][i := Table(a)]];
      LinkTable(old(mem), old(shape), root, v, level, a, mem);
    }

    method WriteLeaf(t: nat, v: nat, level: nat, phys: nat, flags: Flags)
      requires Valid()
      requires v < Space(root) && level <= 2 && Offset(v, level) == 0
      requires TableAt(mem, root, v, level) == Some(t)
      requires LeafOk(phys, level)
      modifies this`mem
      ensures Valid()
      ensures View() == Put(old(View()), v, PageBytes(level), phys, flags)
      ensures UpperKept(old(mem), mem, root, level)
      ensures LeafOn(mem, root, v, level) == Leaf(phys, flags)
    {
      TableAtLevel(mem, shape, root, v, level);
      mem := mem[t := mem[t][Index(v, level) := Leaf(phys, flags)]];
      SetLeaf(old(mem), shape, root, v, level, Leaf(phys, flags), mem);
      assert KeptAt(old(mem), mem, root, level, v, level);
      forall w: nat | w < Space(root)
        ensures Translate(mem, root, w) ==
                if v <= w < v + PageBytes(level) then Some(Target(phys + (w - v), flags))
                else Translate(old(mem), root, w)
      {
        SameSlotSameInterval(w, v, level);
      }
      PageOf(v, level, root);
      PutByAddress(old(mem), mem, root, v, PageBytes(level), phys, flags);
    }

    /** The page at offset i of a run. */
    method MapOffset(base: nat, phys: nat, flags: Flags, bytes: nat, size: PageSize, i: nat) returns (r: Outcome)
      requires Valid() && i < bytes && base + bytes <= Space(root) && phys + bytes <= PHYS_LIMIT
      requires RunAligned(base, phys, bytes, i, Rank(size))
      modifies this
      ensures r.Mapped? ==> Valid()
      ensures r.Mapped? ==> View() == Put(old(View()), base + i, PageBytes(Rank(size)), phys + i, Effective(flags))
      ensures r.Mapped? ==> UpperKept(old(mem), mem, root, LeafLevel(size))
      ensures r.OutOfMemory? ==> pool == []
      ensures r.SplitOfFramebuffer? <==> FbIn(old(mem), root, base + i, PageBytes(Rank(size)), LeafLevel(size))
      decreases Rank(size), (if NoLeafAbove(mem, root, base + i, Rank(size)) then 0 else 1), 2
    {
      RunStep(base, phys, bytes, i, Rank(size));
      assert Wrap(base + i, root) == base + i;
      r := MapPage(base + i, phys + i, flags, size);
    }

    /** One turn of MapRun, seen from the state m0 it began in. */
    method MapNext(base: nat, phys: nat, flags: Flags, bytes: nat, size: PageSize, i: nat, ghost m0: Memory)
      returns (r: Outcome)
      requires Valid() && i + PageBytes(Rank(size)) <= bytes && base + bytes <= Space(root)
               && phys + bytes <= PHYS_LIMIT
      requires RunAligned(base, phys, bytes, i, Rank(size))
      requires RunDone(m0, mem, root, base, i, phys, Effective(flags), LeafLevel(size))
      modifies this
      ensures r.Mapped? ==>
                Valid()
                && RunDone(m0, mem, root, base, i + PageBytes(Rank(size)), phys, Effective(flags), LeafLevel(size))
      ensures r.OutOfMemory? ==> pool == []
      ensures r.SplitOfFramebuffer? ==> FbIn(m0, root, base, bytes, LeafLevel(size))
      ensures FbLeafAbove(m0, root, base, LeafLevel(size)) ==> r.SplitOfFramebuffer?
      decreases Rank(size), (if Clear(m0, root, base, bytes, Rank(size)) then 0 else 1), 3
    {
      ghost var m1 := mem;
      RunTurn(m0, m1, root, base, i, PageBytes(Rank(size)), bytes, phys, Effective(flags), LeafLevel(size), Rank(size));
      r := MapOffset(base, phys, flags, bytes, size, i);
      if r.Mapped? {
        RunGrows(m0, m1, mem, root, base, i, PageBytes(Rank(size)), phys, Effective(flags), LeafLevel(size));
      }
    }

    /** Maps a run of bytes with pages of one size. */
    method MapRun(base: nat, phys: nat, flags: Flags, bytes: nat, size: PageSize) returns (r: Outcome)
      requires Valid()
      requires RunAligned(base, phys, bytes, 0, Rank(size))
      requires base + bytes <= Space(root) && phys + bytes <= PHYS_LIMIT
      modifies this
      ensures r.Mapped? ==> Valid()
      ensures r.Mapped? ==> View() == Put(old(View()), base, bytes, phys, Effective(flags))
      ensures r.Mapped? ==> UpperKept(old(mem), mem, root, LeafLevel(size))
      ensures r.OutOfMemory? ==> pool == []
      ensures r.SplitOfFramebuffer? ==> FbIn(old(mem), root, base, bytes, LeafLevel(size))
      ensures r.Mapped? ==> !FbIn(old(mem), root, base, bytes, LeafLevel(size))
      ensures bytes > 0 && FbLeafAbove(old(mem), root, base, LeafLevel(size)) ==> r.SplitOfFramebuffer?
      decreases Rank(size), (if Clear(mem, root, base, bytes, Rank(size)) then 0 else 1), 4
    {
      ghost var m0 := mem;
      var i := 0;
      r := Mapped;
      PutNothing(View(), base, phys, Effective(flags));
      while i < bytes
        invariant Valid() && i <= bytes && RunAligned(base, phys, bytes, i, Rank(size)) && r.Mapped?
        invariant RunDone(m0, mem, root, base, i, phys, Effective(flags), LeafLevel(size))
      {
        RunStep(base, phys, bytes, i, Rank(size));
        r := MapNext(base, phys, flags, bytes, size, i, m0);
        if !r.Mapped? { return; }
        i := i + PageBytes(Rank(size));
      }
    }
  }

  /** Splitting a framebuffer page: after a 2 MiB page with that flag no 4 KiB page can be mapped into it. */
  method SmallIntoFramebuffer(pm: Pagemap, virt: nat, phys: nat, flags: Flags, offset: nat, phys': nat, flags': Flags)
    returns (first: Outcome, second: Outcome)
    requires pm.Valid() && pm.patSupported && flags.fb
    requires Offset(virt, 1) == 0 && LeafOk(phys, 1) && Offset(offset, 0) == 0 && offset < PageBytes(1)
             && LeafOk(phys', 0)
    modifies pm
    ensures first.Mapped? ==> second.SplitOfFramebuffer?
    ensures NoLeafAbove(old(pm.mem), pm.root, Wrap(virt, pm.root), 1) && |old(pm.pool)| >= pm.root.levels ==>
              first.Mapped?
  {
    first := pm.MapPage(virt, phys, flags, Size2MiB);
    second := first;
    if first.Mapped? {
      SmallPlace(virt, offset, pm.root);
      FbInside(pm.mem, pm.root, Wrap(virt, pm.root), offset);
      second := pm.MapPage(virt + offset, phys', flags', Size4KiB);
    }
  }

  lemma {:induction false} SmallPlace(virt: nat, offset: nat, r: Root)
    requires Offset(virt, 1) == 0 && Offset(offset, 0) == 0 && offset < PageBytes(1)
    ensures Offset(virt + offset, 0) == 0 && Offset(Wrap(virt, r), 1) == 0
            && Wrap(virt + offset, r) == Wrap(virt, r) + offset
  {
    PageInSpace(virt, 1, r);
    ModuloSum(virt, offset, Space(r));
    LargerIsAligned(virt, 1, 0);
    MultipleSum(virt, offset, PageBytes(0));
  }

  lemma {:induction false} FbInside(mem: Memory, r: Root, v: nat, offset: nat)
    requires Offset(v, 1) == 0 && offset < PageBytes(1) && FbOn(mem, r, v, 1) && r.levels > 1
    ensures FbIn(mem, r, v + offset, PageBytes(0), 0)
  {
    var w := v + offset;
    SameSlotSameInterval(w, v, 1);
    SlotsAbove(v, w, 1, 2);
    TableAtSlot(mem, r, v, w, 1);
    assert FbOn(mem, r, w, 1) && FbLeafAbove(mem, r, w, 0);
  }

  /** An instance: on a new map the panic is reached. */
  method FramebufferPanic(pages: seq<nat>) returns (first: Outcome, second: Outcome)
    requires |pages| > 4
    requires forall i :: 0 <= i < |pages| ==> PageAddress(pages[i])
    requires forall i, j :: 0 <= i < j < |pages| ==> pages[i] != pages[j]
    ensures first.Mapped? && second.SplitOfFramebuffer?
  {
    var pm := new Pagemap(4, pages, true, true);
    assert NoLeafAbove(pm.mem, pm.root, 0, 0);
    first, second := SmallIntoFramebuffer(pm, 0, 0, Flags(true, false, true), 0, 0, Flags(true, false, false));
  }
}
