/**
 The 64-bit words of page-table entries (common/mm/vmm.c).  `PageTables` works on decoded
 entries; the lemmas here justify that: reading a written word back gives the entry, and
 the split of a large page sees a misaligned address exactly when the page is a
 framebuffer page.
 */
module PageEntryWords {
  import PageTables

  const VALID: bv64 := 1
  const WRITE: bv64 := 2
  const USER: bv64 := 4
  const LARGE: bv64 := 0x80
  const NX: bv64 := 0x8000_0000_0000_0000
  const PADDR_MASK: bv64 := 0x0000_FFFF_FFFF_F000

  const VMM_FLAG_FB: bv64 := 0x1008
  const VMM_FLAGS: bv64 := 0x8000_0000_0000_100A

  predicate IsTable(w: bv64) { w & (VALID | LARGE) == VALID }

  predicate IsLarge(w: bv64) { w & (VALID | LARGE) == VALID | LARGE }

  function PteAddr(w: bv64): bv64 { w & PADDR_MASK }

  function ToVmmFlags(w: bv64): bv64 { w & (WRITE | NX | VMM_FLAG_FB) }

  function TableWord(addr: bv64): bv64 { addr | (VALID | WRITE | USER) }

  /** The word map_page stores for a 2 MiB or 1 GiB page. */
  function LargeWord(phys: bv64, flags: bv64): bv64 { phys | (flags | VALID) | LARGE }

  /** The word map_page stores for a 4 KiB page: the PAT bit moves from bit 12 to bit 7. */
  function SmallWord(phys: bv64, flags: bv64): bv64 {
    var f := flags | VALID;
    phys | if f & 0x1000 != 0 then (f & !0x1000) | 0x80 else f
  }

  /** Reading a large entry back: it is a large entry; its flags are the ones given; its address field
      is the physical address, with the PAT bit in it for a framebuffer page. */
  lemma LargeWordReadBack(phys: bv64, flags: bv64, low: bv64)
    requires low == 0x1F_FFFF || low == 0x3FFF_FFFF
    requires phys & PADDR_MASK == phys && phys & low == 0
    requires flags & VMM_FLAGS == flags && (flags & VMM_FLAG_FB == 0 || flags & VMM_FLAG_FB == VMM_FLAG_FB)
    ensures var w := LargeWord(phys, flags);
            && IsLarge(w) && !IsTable(w) && ToVmmFlags(w) == flags
            && (PteAddr(w) & low == 0 <==> flags & VMM_FLAG_FB == 0)
            && (flags & VMM_FLAG_FB == 0 ==> PteAddr(w) == phys)
  {
    var w := LargeWord(phys, flags);
    if low == 0x1F_FFFF {
      assert PteAddr(w) & 0x1F_FFFF == 0 <==> flags & VMM_FLAG_FB == 0;
    } else {
      assert PteAddr(w) & 0x3FFF_FFFF == 0 <==> flags & VMM_FLAG_FB == 0;
    }
  }

  lemma TableWordReadBack(addr: bv64)
    requires addr & PADDR_MASK == addr
    ensures IsTable(TableWord(addr)) && !IsLarge(TableWord(addr)) && PteAddr(TableWord(addr)) == addr
    ensures TableWord(addr) & !PADDR_MASK == 7
  {
  }

  /** A 4 KiB entry keeps the physical address and every flag, the PAT bit at its small-page place. */
  lemma SmallWordReadBack(phys: bv64, flags: bv64)
    requires phys & PADDR_MASK == phys
    requires flags & VMM_FLAGS == flags && (flags & VMM_FLAG_FB == 0 || flags & VMM_FLAG_FB == VMM_FLAG_FB)
    ensures var w := SmallWord(phys, flags);
            && w & VALID != 0 && PteAddr(w) == phys
            && w & (WRITE | NX) == flags & (WRITE | NX)
            && (w & 0x88 == 0x88 <==> flags & VMM_FLAG_FB == VMM_FLAG_FB)
            && (w & 0x88 == 0 <==> flags & VMM_FLAG_FB == 0)
  {
  }

  function FlagWord(f: PageTables.Flags): bv64 {
    (if f.write then WRITE else 0) | (if f.noexec then NX else 0) | (if f.fb then VMM_FLAG_FB else 0)
  }

  /** The entry a word stands for in a table whose entries span low + 1 bytes.  A large page counts as
      framebuffer exactly if its address field is not aligned, which is what the split looks at. */
  function ReadEntry(w: bv64, low: bv64): PageTables.Entry {
    if w & VALID == 0 then PageTables.Empty
    else if low == 0xFFF then
      PageTables.Leaf(PteAddr(w) as nat, PageTables.Flags(w & WRITE != 0, w & NX != 0, w & 0x88 == 0x88))
    else if IsLarge(w) then
      PageTables.Leaf((PteAddr(w) & !low) as nat, PageTables.Flags(w & WRITE != 0, w & NX != 0, PteAddr(w) & low != 0))
    else PageTables.Table(PteAddr(w) as nat)
  }

  lemma FlagWordBits(f: PageTables.Flags)
    ensures var w := FlagWord(f);
            && w & VMM_FLAGS == w
            && w & VMM_FLAG_FB == (if f.fb then VMM_FLAG_FB else 0)
            && (w & WRITE != 0 <==> f.write) && (w & NX != 0 <==> f.noexec)
  {
  }

  lemma SameFlags(w: bv64, flags: bv64)
    requires w & (WRITE | NX) == flags & (WRITE | NX)
    ensures (w & WRITE != 0 <==> flags & WRITE != 0) && (w & NX != 0 <==> flags & NX != 0)
  {
  }

  lemma Cleared(phys: bv64, bit: bv64, low: bv64)
    requires phys & low == 0 && bit & low == bit
    ensures (phys | bit) & !low == phys
  {
  }

  lemma PatBitInside(flags: bv64, low: bv64)
    requires low == 0x1F_FFFF || low == 0x3FFF_FFFF
    ensures flags & 0x1000 & low == flags & 0x1000
  {
    if low == 0x1F_FFFF {
      assert flags & 0x1000 & 0x1F_FFFF == flags & 0x1000;
    } else {
      assert flags & 0x1000 & 0x3FFF_FFFF == flags & 0x1000;
    }
  }

  /** Without the bits inside the page, the address field of a large page is the physical address. */
  lemma LargeAddress(phys: bv64, flags: bv64, low: bv64)
    requires low == 0x1F_FFFF || low == 0x3FFF_FFFF
    requires phys & PADDR_MASK == phys && phys & low == 0 && flags & VMM_FLAGS == flags
    ensures PteAddr(LargeWord(phys, flags)) & !low == phys
  {
    PatBitInside(flags, low);
    Cleared(phys, flags & 0x1000, low);
  }

  /** A written 4 KiB page reads back as the leaf it was written for. */
  lemma SmallLeafReadBack(phys: bv64, f: PageTables.Flags)
    requires phys & PADDR_MASK == phys
    ensures ReadEntry(SmallWord(phys, FlagWord(f)), 0xFFF) == PageTables.Leaf(phys as nat, f)
  {
    FlagWordBits(f);
    SmallWordReadBack(phys, FlagWord(f));
    SameFlags(SmallWord(phys, FlagWord(f)), FlagWord(f));
  }

  /** A written large page reads back as the leaf it was written for: its address field is aligned
      exactly if it is not a framebuffer page. */
  lemma LargeLeafReadBack(phys: bv64, f: PageTables.Flags, low: bv64)
    requires low == 0x1F_FFFF || low == 0x3FFF_FFFF
    requires phys & PADDR_MASK == phys && phys & low == 0
    ensures ReadEntry(LargeWord(phys, FlagWord(f)), low) == PageTables.Leaf(phys as nat, f)
    ensures PteAddr(LargeWord(phys, FlagWord(f))) & low != 0 <==> f.fb
  {
    FlagWordBits(f);
    LargeWordReadBack(phys, FlagWord(f), low);
    LargeAddress(phys, FlagWord(f), low);
    SameFlags(LargeWord(phys, FlagWord(f)), FlagWord(f));
  }

  /** A written table reads back as that table, and an empty word as nothing. */
  lemma TableReadBack(addr: bv64, low: bv64)
    requires addr & PADDR_MASK == addr && low != 0xFFF
    ensures ReadEntry(TableWord(addr), low) == PageTables.Table(addr as nat) && ReadEntry(0, low) == PageTables.Empty
  {
    TableWordReadBack(addr);
  }

  /** Entries that were never written are neither tables nor pages. */
  lemma EmptyWord()
    ensures !IsTable(0) && !IsLarge(0)
  {
  }
}
