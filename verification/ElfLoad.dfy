/**
 Loading the segments of an ELF file (elf64_load and the RELR case of elf64_apply_relocations in
 common/lib/elf.c): the checks on the program headers, and copying and relocating segment by
 segment.
 */
module ElfLoad {
  import opened Bytes
  import ElfRelr
  import opened Wrappers

  const HIGHER_HALF: nat := 0xFFFF_FFFF_8000_0000

  datatype Phdr = Phdr(load: bool, vaddr: nat, memsz: nat, offset: nat, filesz: nat, flags: nat) {
    predicate Loadable() {
      load && memsz != 0
    }

    function Top(): nat {
      vaddr + memsz
    }

    predicate Lower() {
      vaddr < HIGHER_HALF
    }
  }

  // ----- The checks

  /** The overlap test; it looks for an end of b in a. */
  predicate Hits(a: Phdr, b: Phdr) {
    (b.vaddr >= a.vaddr && b.vaddr < a.Top()) || (b.Top() > a.vaddr && b.Top() <= a.Top())
  }

  function PageDown(x: nat): nat {
    x / 4096 * 4096
  }

  function PageUp(x: nat): nat {
    PageDown(x + 4095)
  }

  /** The permission test on the pages of the two. */
  predicate PageClash(a: Phdr, b: Phdr) {
    && ((PageDown(a.vaddr) >= PageDown(b.vaddr) && PageDown(a.vaddr) < PageUp(b.Top()))
        || (PageUp(a.Top()) > PageDown(b.vaddr) && PageUp(a.Top()) <= PageUp(b.Top())))
    && a.flags % 8 != b.flags % 8
  }

  /** The inner loop passes j when it looks at i. */
  predicate PairOk(a: Phdr, b: Phdr, reloc: bool, ranges: bool) {
    b.Loadable() && (b.Lower() ==> reloc) ==>
      && b.Top() < U64 && !Hits(a, b)
      && (ranges ==> a.Top() + 4095 < U64 && b.Top() + 4095 < U64 && !PageClash(a, b))
  }

  ghost predicate RowOk(phdrs: seq<Phdr>, i: nat, reloc: bool, ranges: bool)
    requires i < |phdrs|
  {
    forall j :: 0 <= j < |phdrs| && j != i ==> PairOk(phdrs[i], phdrs[j], reloc, ranges)
  }

  method CheckRow(phdrs: seq<Phdr>, i: nat, reloc: bool, ranges: bool) returns (ok: bool)
    requires i < |phdrs|
    ensures ok <==> RowOk(phdrs, i, reloc, ranges)
  {
    var j := 0;
    while j < |phdrs|
      invariant j <= |phdrs|
      invariant forall k :: 0 <= k < j && k != i ==> PairOk(phdrs[i], phdrs[k], reloc, ranges)
    {
      if j != i && !PairOk(phdrs[i], phdrs[j], reloc, ranges) {
        return false;
      }
      j := j + 1;
    }
    return true;
  }

  /** The outer loop passes i. */
  ghost predicate HeaderOk(phdrs: seq<Phdr>, i: nat, reloc: bool, ranges: bool)
    requires i < |phdrs|
  {
    phdrs[i].Loadable() ==>
      && (phdrs[i].Lower() ==> reloc)
      && (!phdrs[i].Lower() ==> forall k :: 0 <= k < i && phdrs[k].Loadable() ==> !phdrs[k].Lower())
      && phdrs[i].Top() < U64 && RowOk(phdrs, i, reloc, ranges)
  }

  ghost predicate Within64(phdrs: seq<Phdr>, n: nat, low: nat, high: nat)
    requires n <= |phdrs|
  {
    forall i :: 0 <= i < n && phdrs[i].Loadable() ==> low <= phdrs[i].vaddr && phdrs[i].Top() <= high
  }

  /** The first loop of elf64_load: the headers are accepted, and the bounds of the image. */
  method CheckHeaders(phdrs: seq<Phdr>, reloc: bool, ranges: bool) returns (ok: bool, low: nat, high: nat)
    ensures ok <==> && (forall i: nat :: i < |phdrs| ==> HeaderOk(phdrs, i, reloc, ranges))
                    && exists i :: 0 <= i < |phdrs| && phdrs[i].Loadable()
    ensures ok ==> low <= high && Within64(phdrs, |phdrs|, low, high)
                   && (exists i :: 0 <= i < |phdrs| && phdrs[i].Loadable() && phdrs[i].vaddr == low)
                   && exists i :: 0 <= i < |phdrs| && phdrs[i].Loadable() && phdrs[i].Top() == high
  {
    low, high := U64 - 1, 0;
    var lowerSeen := false;
    var i := 0;
    while i < |phdrs|
      invariant i <= |phdrs| && low <= U64 - 1
      invariant forall k: nat :: k < i ==> HeaderOk(phdrs, k, reloc, ranges)
      invariant lowerSeen <==> exists k :: 0 <= k < i && phdrs[k].Loadable() && phdrs[k].Lower()
      invariant Within64(phdrs, i, low, high)
      invariant low < U64 - 1 <==> exists k :: 0 <= k < i && phdrs[k].Loadable()
      invariant low == U64 - 1 ==> high == 0
      invariant low < U64 - 1 ==> && low <= high
                                  && (exists k :: 0 <= k < i && phdrs[k].Loadable() && phdrs[k].vaddr == low)
                                  && exists k :: 0 <= k < i && phdrs[k].Loadable() && phdrs[k].Top() == high
    {
      var p := phdrs[i];
      if p.Loadable() {
        if p.Lower() {
          if !reloc {
            assert !HeaderOk(phdrs, i, reloc, ranges);
            return false, 0, 0;
          }
          lowerSeen := true;
        } else if lowerSeen {
          assert !HeaderOk(phdrs, i, reloc, ranges);
          return false, 0, 0;
        }
        var row := CheckRow(phdrs, i, reloc, ranges);
        if p.Top() >= U64 || !row {
          assert !HeaderOk(phdrs, i, reloc, ranges);
          return false, 0, 0;
        }
        if p.vaddr < low {
          low := p.vaddr;
        }
        if p.Top() > high {
          high := p.Top();
        }
      }
      i := i + 1;
    }
    return low != U64 - 1, low, high;
  }

  /** No address belongs to two loadable segments. */
  ghost predicate Disjoint(phdrs: seq<Phdr>) {
    forall i, j :: 0 <= i < |phdrs| && 0 <= j < |phdrs| && i != j && phdrs[i].Loadable() && phdrs[j].Loadable() ==>
      phdrs[i].Top() <= phdrs[j].vaddr || phdrs[j].Top() <= phdrs[i].vaddr
  }

  /** The one-sided test, made for every ordered pair, finds every overlap and nothing else. */
  lemma {:induction false} AcceptedAreDisjoint(phdrs: seq<Phdr>, reloc: bool, ranges: bool)
    requires forall i: nat :: i < |phdrs| ==> HeaderOk(phdrs, i, reloc, ranges)
    ensures Disjoint(phdrs)
  {
    forall i, j | 0 <= i < |phdrs| && 0 <= j < |phdrs| && i != j && phdrs[i].Loadable() && phdrs[j].Loadable()
      ensures phdrs[i].Top() <= phdrs[j].vaddr || phdrs[j].Top() <= phdrs[i].vaddr
    {
      assert HeaderOk(phdrs, i, reloc, ranges) && HeaderOk(phdrs, j, reloc, ranges);
      assert PairOk(phdrs[i], phdrs[j], reloc, ranges) && PairOk(phdrs[j], phdrs[i], reloc, ranges);
    }
  }

  ghost predicate Owns(p: Phdr, a: nat) {
    p.vaddr <= a < p.vaddr + p.memsz
  }

  /** The page with this number holds a byte of the segment. */
  ghost predicate OnPage(p: Phdr, n: nat) {
    exists a: nat :: Owns(p, a) && a / 4096 == n
  }

  /** A page with bytes of both asks for the same permissions in both. */
  ghost predicate PagesAgree(a: Phdr, b: Phdr) {
    forall n: nat :: OnPage(a, n) && OnPage(b, n) ==> a.flags % 8 == b.flags % 8
  }

  lemma {:induction false} PagesOf(p: Phdr, n: nat)
    requires p.memsz != 0
    ensures OnPage(p, n) <==> PageDown(p.vaddr) <= n * 4096 < PageUp(p.Top())
  {
    if PageDown(p.vaddr) <= n * 4096 < PageUp(p.Top()) {
      var a := if n * 4096 < p.vaddr then p.vaddr else n * 4096;
      assert Owns(p, a) && a / 4096 == n;
    }
  }

  /** The two one-sided tests together find every page with bytes of both. */
  lemma {:induction false} ClashesArePages(a: Phdr, b: Phdr)
    requires a.memsz != 0 && b.memsz != 0
    ensures !PageClash(a, b) && !PageClash(b, a) <==> PagesAgree(a, b)
  {
    if !PageClash(a, b) && !PageClash(b, a) {
      forall n: nat | OnPage(a, n) && OnPage(b, n) ensures a.flags % 8 == b.flags % 8 {
        PagesOf(a, n);
        PagesOf(b, n);
      }
    }
    if PagesAgree(a, b) {
      var n, m := a.vaddr / 4096, b.vaddr / 4096;
      PagesOf(a, n);
      PagesOf(b, n);
      PagesOf(a, m);
      PagesOf(b, m);
    }
  }

  /** What is asked of one segment. */
  ghost predicate SegmentFits(p: Phdr, reloc: bool) {
    p.vaddr + p.memsz < 0x1_0000_0000_0000_0000 && (p.vaddr < 0xFFFF_FFFF_8000_0000 ==> reloc)
  }

  /** What is asked of two segments: no common address, and with ranges no quarrel on a page. */
  ghost predicate Apart(a: Phdr, b: Phdr, ranges: bool) {
    && (forall x: nat :: !(Owns(a, x) && Owns(b, x)))
    && (ranges ==> && a.vaddr + a.memsz <= 0xFFFF_FFFF_FFFF_F000 && b.vaddr + b.memsz <= 0xFFFF_FFFF_FFFF_F000
                   && PagesAgree(a, b))
  }

  /** The headers a caller can count on: every segment fits, any two are apart, and none in the higher half
      follows one in the lower half. */
  ghost predicate Acceptable(phdrs: seq<Phdr>, reloc: bool, ranges: bool) {
    && (forall i :: 0 <= i < |phdrs| && phdrs[i].Loadable() ==> SegmentFits(phdrs[i], reloc))
    && (forall i, j :: 0 <= i < |phdrs| && 0 <= j < |phdrs| && i != j && phdrs[i].Loadable() && phdrs[j].Loadable() ==>
          Apart(phdrs[i], phdrs[j], ranges))
    && (forall i, j :: 0 <= i < j < |phdrs| && phdrs[i].Loadable() && phdrs[j].Loadable() ==>
          !(phdrs[i].vaddr < 0xFFFF_FFFF_8000_0000 <= phdrs[j].vaddr))
  }

  lemma {:induction false} PairsApart(a: Phdr, b: Phdr, reloc: bool, ranges: bool)
    requires a.Loadable() && b.Loadable() && SegmentFits(a, reloc) && SegmentFits(b, reloc)
    ensures PairOk(a, b, reloc, ranges) && PairOk(b, a, reloc, ranges) <==> Apart(a, b, ranges)
  {
    ClashesArePages(a, b);
    if Apart(a, b, ranges) {
      assert !Owns(a, b.vaddr) && !Owns(a, b.Top() - 1) by {
        assert Owns(b, b.vaddr) && Owns(b, b.Top() - 1);
      }
      assert !Owns(b, a.vaddr) && !Owns(b, a.Top() - 1) by {
        assert Owns(a, a.vaddr) && Owns(a, a.Top() - 1);
      }
    }
  }

  /** The loops over the headers pass exactly the acceptable ones. */
  lemma {:induction false} AcceptedExactly(phdrs: seq<Phdr>, reloc: bool, ranges: bool)
    ensures (forall i: nat :: i < |phdrs| ==> HeaderOk(phdrs, i, reloc, ranges)) <==> Acceptable(phdrs, reloc, ranges)
  {
    if forall i: nat :: i < |phdrs| ==> HeaderOk(phdrs, i, reloc, ranges) {
      AcceptedIsAcceptable(phdrs, reloc, ranges);
    }
    if Acceptable(phdrs, reloc, ranges) {
      forall i: nat | i < |phdrs| ensures HeaderOk(phdrs, i, reloc, ranges) {
        AcceptableIsAccepted(phdrs, reloc, ranges, i);
      }
    }
  }

  lemma {:induction false} AcceptedIsAcceptable(phdrs: seq<Phdr>, reloc: bool, ranges: bool)
    requires forall i: nat :: i < |phdrs| ==> HeaderOk(phdrs, i, reloc, ranges)
    ensures Acceptable(phdrs, reloc, ranges)
  {
    forall i | 0 <= i < |phdrs| && phdrs[i].Loadable() ensures SegmentFits(phdrs[i], reloc) {
      assert HeaderOk(phdrs, i, reloc, ranges);
    }
    forall i, j | 0 <= i < j < |phdrs| && phdrs[i].Loadable() && phdrs[j].Loadable()
      ensures !(phdrs[i].vaddr < 0xFFFF_FFFF_8000_0000 <= phdrs[j].vaddr)
    {
      assert HeaderOk(phdrs, j, reloc, ranges);
    }
    forall i, j | 0 <= i < |phdrs| && 0 <= j < |phdrs| && i != j && phdrs[i].Loadable() && phdrs[j].Loadable()
      ensures Apart(phdrs[i], phdrs[j], ranges)
    {
      assert HeaderOk(phdrs, i, reloc, ranges) && HeaderOk(phdrs, j, reloc, ranges);
      PairsApart(phdrs[i], phdrs[j], reloc, ranges);
    }
  }

  lemma {:induction false} AcceptableIsAccepted(phdrs: seq<Phdr>, reloc: bool, ranges: bool, i: nat)
    requires i < |phdrs| && Acceptable(phdrs, reloc, ranges)
    ensures HeaderOk(phdrs, i, reloc, ranges)
  {
    if phdrs[i].Loadable() {
      forall j | 0 <= j < |phdrs| && j != i ensures PairOk(phdrs[i], phdrs[j], reloc, ranges) {
        if phdrs[j].Loadable() {
          PairsApart(phdrs[i], phdrs[j], reloc, ranges);
        }
      }
    }
  }

  /** Lower and higher half segments are refused together only where a higher one follows a lower one. */
  lemma {:induction false} HigherThenLower()
    ensures var phdrs := [Phdr(true, HIGHER_HALF, 0x1000, 0, 0, 5), Phdr(true, HIGHER_HALF - 0x1000, 0x1000, 0, 0, 5)];
            && (forall i: nat :: i < |phdrs| ==> HeaderOk(phdrs, i, true, false))
            && !HeaderOk([phdrs[1], phdrs[0]], 1, true, false)
  {
    var mixed := [Phdr(true, HIGHER_HALF - 0x1000, 0x1000, 0, 0, 5), Phdr(true, HIGHER_HALF, 0x1000, 0, 0, 5)];
    assert mixed[0].Loadable() && mixed[0].Lower();
  }

  // ----- Relocating

  /** The word at r lies in the segment. */
  predicate InSegment(p: Phdr, r: nat) {
    p.vaddr <= r && p.memsz >= 8 && r <= p.vaddr + p.memsz - 8
  }

  /** A relocation is applied in one segment at most. */
  lemma {:induction false} OneSegment(phdrs: seq<Phdr>, i: nat, j: nat, r: nat)
    requires Disjoint(phdrs) && i < |phdrs| && j < |phdrs| && phdrs[i].Loadable() && phdrs[j].Loadable()
    requires InSegment(phdrs[i], r) && InSegment(phdrs[j], r)
    ensures i == j
  {
  }

  type Word = w: seq<byte> | |w| == 8 witness [0, 0, 0, 0, 0, 0, 0, 0]

  /** The word with the slide added, modulo 2^64. */
  function Slid(word: Word, slide: nat): Word {
    Encode((Number(word) + slide) % U64, 8)
  }

  function Sliding(slide: nat): Word -> Word {
    (w: Word) => Slid(w, slide)
  }

  lemma {:induction false} SlidValue(word: Word, slide: nat)
    ensures Number(Slid(word, slide)) == (Number(word) + slide) % U64
  {
    assert Power256(4) == 256 * (256 * (256 * 256));
    assert Power256(8) == 256 * (256 * (256 * (256 * Power256(4)))) == U64;
    NumberOfEncoded((Number(word) + slide) % U64, 8);
  }

  /** The words that relocations name do not overlap. */
  ghost predicate Spread(relocs: seq<nat>) {
    forall i, j :: 0 <= i < j < |relocs| ==> relocs[i] + 8 <= relocs[j] || relocs[j] + 8 <= relocs[i]
  }

  /** A segment lies in an image that starts at low. */
  predicate Inside(p: Phdr, low: nat, size: nat) {
    low <= p.vaddr && p.Top() <= low + size
  }

  ghost function AddAt(s: seq<byte>, at: nat, f: Word -> Word): (r: seq<byte>)
    requires at + 8 <= |s|
    ensures |r| == |s|
  {
    Splice(s, at, f(s[at..at + 8]))
  }

  /** The apply loop over the first k relocations for one segment. */
  ghost function Applied(s: seq<byte>, low: nat, p: Phdr, relocs: seq<nat>, k: nat, f: Word -> Word): (r: seq<byte>)
    requires Inside(p, low, |s|) && k <= |relocs|
    ensures |r| == |s|
    decreases k
  {
    if k == 0 then s
    else
      var t := Applied(s, low, p, relocs, k - 1, f);
      if InSegment(p, relocs[k - 1]) then AddAt(t, relocs[k - 1] - low, f) else t
  }

  /** x belongs to the word of one of the first k relocations that lie in the segment. */
  ghost predicate Touched(p: Phdr, low: nat, relocs: seq<nat>, k: nat, x: nat)
    requires k <= |relocs|
  {
    exists i :: 0 <= i < k && InSegment(p, relocs[i]) && relocs[i] <= low + x < relocs[i] + 8
  }

  /** Bytes outside the relocated words stay. */
  lemma {:induction false} AppliedByte(s: seq<byte>, low: nat, p: Phdr, relocs: seq<nat>, k: nat, f: Word -> Word,
                                       x: nat)
    requires Inside(p, low, |s|) && k <= |relocs| && x < |s| && !Touched(p, low, relocs, k, x)
    ensures Applied(s, low, p, relocs, k, f)[x] == s[x]
    decreases k
  {
    if k > 0 {
      assert forall i :: 0 <= i < k - 1 ==> !(InSegment(p, relocs[i]) && relocs[i] <= low + x < relocs[i] + 8);
      AppliedByte(s, low, p, relocs, k - 1, f, x);
    }
  }

  /** The word of every relocation in the segment is slid once. */
  lemma {:induction false} AppliedWord(s: seq<byte>, low: nat, p: Phdr, relocs: seq<nat>, k: nat, f: Word -> Word,
                                       i: nat)
    requires Inside(p, low, |s|) && i < k <= |relocs| && Spread(relocs) && InSegment(p, relocs[i])
    ensures var at := relocs[i] - low;
            Applied(s, low, p, relocs, k, f)[at..at + 8] == f(s[at..at + 8])
    decreases k
  {
    var at := relocs[i] - low;
    var t := Applied(s, low, p, relocs, k - 1, f);
    if i == k - 1 {
      forall x | at <= x < at + 8 ensures t[x] == s[x] {
        AppliedByte(s, low, p, relocs, k - 1, f, x);
      }
      assert t[at..at + 8] == s[at..at + 8];
      assert AddAt(t, at, f)[at..at + 8] == f(t[at..at + 8]);
    } else {
      AppliedWord(s, low, p, relocs, k - 1, f, i);
      if InSegment(p, relocs[k - 1]) {
        assert AddAt(t, relocs[k - 1] - low, f)[at..at + 8] == t[at..at + 8];
      }
    }
  }

  // ----- Loading

  /** The checks on what the file provides. */
  predicate FileOk(p: Phdr, size: nat) {
    p.Loadable() ==> p.filesz <= p.memsz && p.offset + p.filesz < U64 && p.offset + p.filesz <= size
  }

  ghost function Copied(s: seq<byte>, low: nat, file: seq<byte>, p: Phdr): (r: seq<byte>)
    requires p.offset + p.filesz <= |file| && low <= p.vaddr
    ensures |r| == |s|
  {
    Splice(s, p.vaddr - low, file[p.offset..p.offset + p.filesz])
  }

  /** One turn of the second loop of elf64_load. */
  ghost function LoadedOne(s: seq<byte>, low: nat, file: seq<byte>, p: Phdr, relocs: seq<nat>,
                           f: Word -> Word): (r: seq<byte>)
    requires p.Loadable() ==> Inside(p, low, |s|) && FileOk(p, |file|)
    ensures |r| == |s|
  {
    if p.Loadable() then Applied(Copied(s, low, file, p), low, p, relocs, |relocs|, f) else s
  }

  ghost predicate AllInside(phdrs: seq<Phdr>, low: nat, size: nat, fileSize: nat) {
    forall i :: 0 <= i < |phdrs| && phdrs[i].Loadable() ==> Inside(phdrs[i], low, size) && FileOk(phdrs[i], fileSize)
  }

  ghost function Loaded(s: seq<byte>, low: nat, file: seq<byte>, phdrs: seq<Phdr>, n: nat, relocs: seq<nat>,
                        f: Word -> Word): (r: seq<byte>)
    requires n <= |phdrs| && AllInside(phdrs, low, |s|, |file|)
    ensures |r| == |s|
    decreases n
  {
    if n == 0 then s else LoadedOne(Loaded(s, low, file, phdrs, n - 1, relocs, f), low, file, phdrs[n - 1], relocs, f)
  }

  /** The bytes of a segment in an image. */
  ghost predicate SameIn(p: Phdr, low: nat, s: seq<byte>, t: seq<byte>)
    requires Inside(p, low, |s|) && |s| == |t|
  {
    forall x: nat :: p.vaddr <= low + x < p.Top() && x < |s| ==> s[x] == t[x]
  }

  /** A segment is loaded into its own bytes only. */
  lemma {:induction false} LoadedElsewhere(s: seq<byte>, low: nat, file: seq<byte>, p: Phdr, relocs: seq<nat>,
                                           f: Word -> Word, x: nat)
    requires Inside(p, low, |s|) && FileOk(p, |file|) && x < |s| && !(p.vaddr <= low + x < p.Top())
    ensures LoadedOne(s, low, file, p, relocs, f)[x] == s[x]
  {
    if p.Loadable() {
      var c := Copied(s, low, file, p);
      assert c[x] == s[x];
      AppliedByte(c, low, p, relocs, |relocs|, f, x);
    }
  }

  /** What is loaded into a segment depends on nothing outside it. */
  lemma {:induction false} AppliedLocal(s: seq<byte>, t: seq<byte>, low: nat, p: Phdr, relocs: seq<nat>, k: nat,
                                        f: Word -> Word)
    requires Inside(p, low, |s|) && |s| == |t| && k <= |relocs| && SameIn(p, low, s, t)
    ensures SameIn(p, low, Applied(s, low, p, relocs, k, f), Applied(t, low, p, relocs, k, f))
    decreases k
  {
    if k > 0 {
      AppliedLocal(s, t, low, p, relocs, k - 1, f);
      var s', t' := Applied(s, low, p, relocs, k - 1, f), Applied(t, low, p, relocs, k - 1, f);
      if InSegment(p, relocs[k - 1]) {
        var at := relocs[k - 1] - low;
        assert s'[at..at + 8] == t'[at..at + 8];
      }
    }
  }

  /** The segments do not disturb each other: each ends up as if it had been loaded alone. */
  lemma {:induction false} LoadedAlone(s: seq<byte>, low: nat, file: seq<byte>, phdrs: seq<Phdr>, n: nat,
                                       relocs: seq<nat>, f: Word -> Word, i: nat)
    requires n <= |phdrs| && i < |phdrs| && AllInside(phdrs, low, |s|, |file|) && Disjoint(phdrs) && phdrs[i].Loadable()
    ensures SameIn(phdrs[i], low, Loaded(s, low, file, phdrs, n, relocs, f),
                   if i < n then LoadedOne(s, low, file, phdrs[i], relocs, f) else s)
    decreases n
  {
    if n > 0 {
      var p, q := phdrs[i], phdrs[n - 1];
      LoadedAlone(s, low, file, phdrs, n - 1, relocs, f, i);
      var t := Loaded(s, low, file, phdrs, n - 1, relocs, f);
      if i == n - 1 {
        CopiedLocal(t, s, low, file, p);
        AppliedLocal(Copied(t, low, file, p), Copied(s, low, file, p), low, p, relocs, |relocs|, f);
      } else if q.Loadable() {
        forall x: nat | p.vaddr <= low + x < p.Top() && x < |s|
          ensures LoadedOne(t, low, file, q, relocs, f)[x] == t[x]
        {
          LoadedElsewhere(t, low, file, q, relocs, f, x);
        }
      }
    }
  }

  lemma {:induction false} CopiedLocal(s: seq<byte>, t: seq<byte>, low: nat, file: seq<byte>, p: Phdr)
    requires Inside(p, low, |s|) && |s| == |t| && SameIn(p, low, s, t) && p.offset + p.filesz <= |file|
    ensures SameIn(p, low, Copied(s, low, file, p), Copied(t, low, file, p))
  {
  }

  lemma {:induction false} LoadedWord(s: seq<byte>, low: nat, file: seq<byte>, p: Phdr, relocs: seq<nat>,
                                      f: Word -> Word, k: nat, image: seq<byte>)
    requires p.Loadable() && Inside(p, low, |s|) && FileOk(p, |file|) && Spread(relocs) && k < |relocs|
             && InSegment(p, relocs[k])
    requires |image| == |s| && SameIn(p, low, image, LoadedOne(s, low, file, p, relocs, f))
    ensures SlidAt(image, Copied(s, low, file, p), relocs[k] - low, f)
  {
    var c := Copied(s, low, file, p);
    var at := relocs[k] - low;
    AppliedWord(c, low, p, relocs, |relocs|, f, k);
  }

  /** In the loaded image f has been applied exactly once to every relocated word, and every other byte of a
      segment is the file's, or what the memory held where the file provides nothing. */
  lemma {:induction false} LoadedOnce(s: seq<byte>, low: nat, file: seq<byte>, phdrs: seq<Phdr>, relocs: seq<nat>,
                                      f: Word -> Word, i: nat)
    requires i < |phdrs| && AllInside(phdrs, low, |s|, |file|) && Disjoint(phdrs) && phdrs[i].Loadable()
             && Spread(relocs)
    ensures var image := Loaded(s, low, file, phdrs, |phdrs|, relocs, f);
            var c := Copied(s, low, file, phdrs[i]);
            && (forall k :: 0 <= k < |relocs| && InSegment(phdrs[i], relocs[k]) ==>
                  SlidAt(image, c, relocs[k] - low, f))
            && (forall x: nat | phdrs[i].vaddr <= low + x < phdrs[i].Top() && x < |s| ::
                  !Touched(phdrs[i], low, relocs, |relocs|, x) ==> image[x] == c[x])
  {
    var p := phdrs[i];
    var image := Loaded(s, low, file, phdrs, |phdrs|, relocs, f);
    var c := Copied(s, low, file, p);
    LoadedAlone(s, low, file, phdrs, |phdrs|, relocs, f, i);
    forall k | 0 <= k < |relocs| && InSegment(p, relocs[k]) ensures SlidAt(image, c, relocs[k] - low, f) {
      LoadedWord(s, low, file, p, relocs, f, k, image);
    }
    forall x: nat | p.vaddr <= low + x < p.Top() && x < |s| && !Touched(p, low, relocs, |relocs|, x)
      ensures image[x] == c[x]
    {
      AppliedByte(c, low, p, relocs, |relocs|, f, x);
    }
  }

  /** The word at this place is f of the one that was copied. */
  ghost predicate SlidAt(image: seq<byte>, copied: seq<byte>, at: nat, f: Word -> Word) {
    && at + 8 <= |image| == |copied|
    && image[at..at + 8] == f(copied[at..at + 8])
  }

  /** The word at this place is the one that was copied plus the slide. */
  ghost predicate SumAt(image: seq<byte>, copied: seq<byte>, at: nat, slide: nat) {
    at + 8 <= |image| == |copied| && Number(image[at..at + 8]) == (Number(copied[at..at + 8]) + slide) % U64
  }

  lemma {:induction false} SlidAtValue(image: seq<byte>, copied: seq<byte>, at: nat, slide: nat)
    requires SlidAt(image, copied, at, Sliding(slide))
    ensures SumAt(image, copied, at, slide)
  {
    SlidValue(copied[at..at + 8], slide);
  }

  /** Every relocated word of every segment is the copied word plus the slide, added once, whichever
      segments were loaded before and after. */
  lemma {:induction false} RelocatedOnce(s: seq<byte>, low: nat, file: seq<byte>, phdrs: seq<Phdr>, relocs: seq<nat>,
                                         slide: nat, i: nat, k: nat)
    requires i < |phdrs| && AllInside(phdrs, low, |s|, |file|) && Disjoint(phdrs) && phdrs[i].Loadable()
             && Spread(relocs)
    requires k < |relocs| && InSegment(phdrs[i], relocs[k])
    ensures SumAt(Loaded(s, low, file, phdrs, |phdrs|, relocs, Sliding(slide)), Copied(s, low, file, phdrs[i]),
                  relocs[k] - low, slide)
  {
    var f := Sliding(slide);
    LoadedOnce(s, low, file, phdrs, relocs, f, i);
    var image := Loaded(s, low, file, phdrs, |phdrs|, relocs, f);
    var c := Copied(s, low, file, phdrs[i]);
    SlidAtValue(image, c, relocs[k] - low, slide);
  }

  // ----- The image, byte by byte

  /** The eight bytes at r belong to the segment. */
  ghost predicate NamesWord(p: Phdr, r: nat) {
    p.vaddr <= r && r + 8 <= p.vaddr + p.memsz
  }

  /** The address belongs to a word that a relocation in the segment names. */
  ghost predicate Patched(p: Phdr, relocs: seq<nat>, a: nat) {
    exists k :: 0 <= k < |relocs| && NamesWord(p, relocs[k]) && relocs[k] <= a < relocs[k] + 8
  }

  /** A segment before relocation: what the file provides, then what its memory held. */
  ghost function Content(file: seq<byte>, p: Phdr, was: seq<byte>): (r: seq<byte>)
    requires |was| == p.memsz && p.filesz <= p.memsz && p.offset + p.filesz <= |file|
    ensures |r| == p.memsz
    ensures forall x :: 0 <= x < p.memsz ==> r[x] == if x < p.filesz then file[p.offset + x] else was[x]
  {
    file[p.offset..p.offset + p.filesz] + was[p.filesz..]
  }

  /** Every byte of a segment that no relocation names is the file's, or the old one behind what the file
      provides. */
  ghost predicate BytesPlaced(image: seq<byte>, was: seq<byte>, low: nat, file: seq<byte>, p: Phdr, relocs: seq<nat>)
    requires |image| == |was| && Inside(p, low, |image|) && FileOk(p, |file|) && p.Loadable()
  {
    forall y :: 0 <= y < |image| && p.vaddr <= low + y < p.vaddr + p.memsz && !Patched(p, relocs, low + y) ==>
      image[y] == var x := low + y - p.vaddr; if x < p.filesz then file[p.offset + x] else was[y]
  }

  /** The word of the image at address r is the content's plus the slide, modulo 2^64. */
  ghost predicate WordSlid(image: seq<byte>, was: seq<byte>, low: nat, file: seq<byte>, p: Phdr, r: nat, slide: nat)
    requires |image| == |was| && Inside(p, low, |image|) && FileOk(p, |file|) && p.Loadable() && NamesWord(p, r)
  {
    var content := Content(file, p, was[p.vaddr - low..p.vaddr - low + p.memsz]);
    Number(image[r - low..r - low + 8])
    == (Number(content[r - p.vaddr..r - p.vaddr + 8]) + slide) % 0x1_0000_0000_0000_0000
  }

  ghost predicate AllPlaced(image: seq<byte>, was: seq<byte>, low: nat, file: seq<byte>, phdrs: seq<Phdr>,
                            relocs: seq<nat>)
    requires |image| == |was| && AllInside(phdrs, low, |image|, |file|)
  {
    forall i :: 0 <= i < |phdrs| && phdrs[i].Loadable() ==> BytesPlaced(image, was, low, file, phdrs[i], relocs)
  }

  ghost predicate AllSlid(image: seq<byte>, was: seq<byte>, low: nat, file: seq<byte>, phdrs: seq<Phdr>,
                          relocs: seq<nat>, slide: nat)
    requires |image| == |was| && AllInside(phdrs, low, |image|, |file|)
  {
    forall i, k :: 0 <= i < |phdrs| && phdrs[i].Loadable() && 0 <= k < |relocs| && NamesWord(phdrs[i], relocs[k]) ==>
      WordSlid(image, was, low, file, phdrs[i], relocs[k], slide)
  }

  lemma {:induction false} CopiedWord(was: seq<byte>, low: nat, file: seq<byte>, p: Phdr, r: nat)
    requires Inside(p, low, |was|) && FileOk(p, |file|) && p.Loadable() && NamesWord(p, r)
    ensures Copied(was, low, file, p)[r - low..r - low + 8]
            == Content(file, p, was[p.vaddr - low..p.vaddr - low + p.memsz])[r - p.vaddr..r - p.vaddr + 8]
  {
  }

  lemma {:induction false} LoadedIsPlaced(was: seq<byte>, low: nat, file: seq<byte>, phdrs: seq<Phdr>,
                                          relocs: seq<nat>, f: Word -> Word, i: nat)
    requires AllInside(phdrs, low, |was|, |file|) && Disjoint(phdrs) && i < |phdrs| && phdrs[i].Loadable()
    ensures BytesPlaced(Loaded(was, low, file, phdrs, |phdrs|, relocs, f), was, low, file, phdrs[i], relocs)
  {
    var p := phdrs[i];
    var image := Loaded(was, low, file, phdrs, |phdrs|, relocs, f);
    var c := Copied(was, low, file, p);
    LoadedAlone(was, low, file, phdrs, |phdrs|, relocs, f, i);
    forall y | 0 <= y < |image| && p.vaddr <= low + y < p.vaddr + p.memsz && !Patched(p, relocs, low + y)
      ensures image[y] == c[y]
    {
      AppliedByte(c, low, p, relocs, |relocs|, f, y);
    }
  }

  lemma {:induction false} LoadedIsSlid(was: seq<byte>, low: nat, file: seq<byte>, phdrs: seq<Phdr>,
                                        relocs: seq<nat>, slide: nat, i: nat, k: nat)
    requires AllInside(phdrs, low, |was|, |file|) && Disjoint(phdrs) && Spread(relocs)
    requires i < |phdrs| && phdrs[i].Loadable() && k < |relocs| && NamesWord(phdrs[i], relocs[k])
    ensures WordSlid(Loaded(was, low, file, phdrs, |phdrs|, relocs, Sliding(slide)), was, low, file, phdrs[i],
                     relocs[k], slide)
  {
    RelocatedOnce(was, low, file, phdrs, relocs, slide, i, k);
    CopiedWord(was, low, file, phdrs[i], relocs[k]);
  }

  /** What the second loop of elf64_load leaves: bytes and words as they should be. */
  lemma {:induction false} LoadedImage(was: seq<byte>, low: nat, file: seq<byte>, phdrs: seq<Phdr>, relocs: seq<nat>,
                                       slide: nat)
    requires AllInside(phdrs, low, |was|, |file|) && Disjoint(phdrs)
    ensures var image := Loaded(was, low, file, phdrs, |phdrs|, relocs, Sliding(slide));
            && AllPlaced(image, was, low, file, phdrs, relocs)
            && (Spread(relocs) ==> AllSlid(image, was, low, file, phdrs, relocs, slide))
  {
    var image := Loaded(was, low, file, phdrs, |phdrs|, relocs, Sliding(slide));
    forall i | 0 <= i < |phdrs| && phdrs[i].Loadable() ensures BytesPlaced(image, was, low, file, phdrs[i], relocs) {
      LoadedIsPlaced(was, low, file, phdrs, relocs, Sliding(slide), i);
    }
    if Spread(relocs) {
      forall i, k | 0 <= i < |phdrs| && phdrs[i].Loadable() && 0 <= k < |relocs| && NamesWord(phdrs[i], relocs[k])
        ensures WordSlid(image, was, low, file, phdrs[i], relocs[k], slide)
      {
        LoadedIsSlid(was, low, file, phdrs, relocs, slide, i, k);
      }
    }
  }

  // ----- The code

  method CopyInto(image: array<byte>, at: nat, data: seq<byte>)
    requires at + |data| <= image.Length
    modifies image
    ensures image[..] == Splice(old(image[..]), at, data)
  {
    forall i | 0 <= i < |data| {
      image[at + i] := data[i];
    }
  }

  method AddSlide(image: array<byte>, at: nat, slide: nat)
    requires at + 8 <= image.Length
    modifies image
    ensures image[..] == AddAt(old(image[..]), at, Sliding(slide))
  {
    assert image[at..at + 8] == image[..][at..at + 8];
    CopyInto(image, at, Slid(image[at..at + 8], slide));
  }

  /** The apply loop of elf64_apply_relocations. */
  method ApplyRelocations(image: array<byte>, low: nat, p: Phdr, relocs: seq<nat>, slide: nat)
    requires Inside(p, low, image.Length)
    modifies image
    ensures image[..] == Applied(old(image[..]), low, p, relocs, |relocs|, Sliding(slide))
  {
    var i := 0;
    while i < |relocs|
      invariant i <= |relocs| && image[..] == Applied(old(image[..]), low, p, relocs, i, Sliding(slide))
    {
      var r := relocs[i];
      if r >= p.vaddr && !(p.memsz < 8 || r > p.vaddr + p.memsz - 8) {
        AddSlide(image, r - low, slide);
      }
      i := i + 1;
    }
  }

  /** The second loop of elf64_load, up to the first refusal. */
  method LoadSegments(image: array<byte>, low: nat, file: seq<byte>, phdrs: seq<Phdr>, relocs: seq<nat>, slide: nat)
    returns (ok: bool)
    requires forall i :: 0 <= i < |phdrs| && phdrs[i].Loadable() ==> Inside(phdrs[i], low, image.Length)
    modifies image
    ensures ok <==> forall i :: 0 <= i < |phdrs| ==> FileOk(phdrs[i], |file|)
    ensures ok ==> AllInside(phdrs, low, image.Length, |file|)
                   && image[..] == Loaded(old(image[..]), low, file, phdrs, |phdrs|, relocs, Sliding(slide))
    ensures ok && Disjoint(phdrs) ==> AllPlaced(image[..], old(image[..]), low, file, phdrs, relocs)
    ensures ok && Disjoint(phdrs) && Spread(relocs) ==>
              AllSlid(image[..], old(image[..]), low, file, phdrs, relocs, slide)
  {
    ghost var first := image[..];
    ghost var fine := AllInside(phdrs, low, image.Length, |file|);
    var i := 0;
    while i < |phdrs|
      invariant i <= |phdrs| && forall k :: 0 <= k < i ==> FileOk(phdrs[k], |file|)
      invariant fine ==> image[..] == Loaded(first, low, file, phdrs, i, relocs, Sliding(slide))
    {
      var p := phdrs[i];
      if !FileOk(p, |file|) {
        return false;
      }
      if p.Loadable() {
        CopyInto(image, p.vaddr - low, file[p.offset..p.offset + p.filesz]);
        ApplyRelocations(image, low, p, relocs, slide);
      }
      i := i + 1;
    }
    if Disjoint(phdrs) {
      LoadedImage(first, low, file, phdrs, relocs, slide);
    }
    return true;
  }

  /** The relocations of an ascending RELR table do not overlap. */
  lemma {:induction false} RisingIsSpread(table: seq<nat>)
    requires ElfRelr.Rising(table)
    ensures Spread(ElfRelr.Decode(table))
  {
    ElfRelr.DecodeAscends(table);
  }

  /** When the program headers and the file make an image. */
  ghost predicate Loads(phdrs: seq<Phdr>, reloc: bool, ranges: bool, fileSize: nat) {
    && Acceptable(phdrs, reloc, ranges)
    && (exists i :: 0 <= i < |phdrs| && phdrs[i].load && phdrs[i].memsz != 0)
    && (forall i :: 0 <= i < |phdrs| && phdrs[i].load && phdrs[i].memsz != 0 ==>
          phdrs[i].filesz <= phdrs[i].memsz && phdrs[i].offset + phdrs[i].filesz <= fileSize
          && phdrs[i].offset + phdrs[i].filesz < 0x1_0000_0000_0000_0000)
  }

  /** elf64_load: check, allocate zeroed memory for the image, copy and relocate. */
  method LoadElf(file: seq<byte>, phdrs: seq<Phdr>, reloc: bool, ranges: bool, relocs: seq<nat>, slide: nat)
    returns (ok: bool, low: nat, image: array<byte>)
    ensures fresh(image) && (ok <==> Loads(phdrs, reloc, ranges, |file|))
    ensures ok ==> Disjoint(phdrs) && AllInside(phdrs, low, image.Length, |file|)
    ensures ok ==> && (exists i :: 0 <= i < |phdrs| && phdrs[i].Loadable() && phdrs[i].vaddr == low)
                   && exists i :: 0 <= i < |phdrs| && phdrs[i].Loadable() && phdrs[i].Top() == low + image.Length
    ensures ok ==> image[..] == Loaded(Zeros(image.Length), low, file, phdrs, |phdrs|, relocs, Sliding(slide))
    ensures ok ==> AllPlaced(image[..], Zeros(image.Length), low, file, phdrs, relocs)
    ensures ok && Spread(relocs) ==> AllSlid(image[..], Zeros(image.Length), low, file, phdrs, relocs, slide)
  {
    var high;
    ok, low, high := CheckHeaders(phdrs, reloc, ranges);
    AcceptedExactly(phdrs, reloc, ranges);
    if !ok {
      image := new byte[0];
      return;
    }
    AcceptedAreDisjoint(phdrs, reloc, ranges);
    image := new byte[high - low](_ => 0);
    assert image[..] == Zeros(image.Length);
    ok := LoadSegments(image, low, file, phdrs, relocs, slide);
  }

  /** The same with the relocations of a RELR table: if its addresses ascend, every word it names is
      relocated once. */
  method LoadElfRelr(file: seq<byte>, phdrs: seq<Phdr>, reloc: bool, ranges: bool, table: seq<nat>, slide: nat)
    returns (ok: bool, low: nat, image: array<byte>)
    ensures fresh(image) && (ok <==> Loads(phdrs, reloc, ranges, |file|))
    ensures ok ==> Disjoint(phdrs) && AllInside(phdrs, low, image.Length, |file|)
    ensures ok ==> AllPlaced(image[..], Zeros(image.Length), low, file, phdrs, ElfRelr.Decode(table))
    ensures ok && ElfRelr.Rising(table) ==>
              AllSlid(image[..], Zeros(image.Length), low, file, phdrs, ElfRelr.Decode(table), slide)
  {
    var relocs := ElfRelr.DecodeRelr(table);
    if ElfRelr.Rising(table) {
      RisingIsSpread(table);
    }
    ok, low, image := LoadElf(file, phdrs, reloc, ranges, relocs[..], slide);
  }
}
