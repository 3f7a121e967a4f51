/**
 RELR relocations (elf64_apply_relocations in common/lib/elf.c): words that are addresses, if even,
 or bitmaps over the 63 words that follow, if odd.  A first pass counts by population count, a
 second one fills an array of that size by shifting.
 */
module ElfRelr {
  import opened Wrappers

  function Wrap(x: nat): nat {
    x % U64
  }

  // ----- Bits

  /** How many bits are set. */
  function Population(e: nat): nat {
    if e == 0 then 0 else e % 2 + Population(e / 2)
  }

  /** e shifted right. */
  function Shifted(e: nat, p: nat): nat
    decreases p
  {
    if p == 0 then e else Shifted(e / 2, p - 1)
  }

  predicate BitSet(e: nat, p: nat) {
    Shifted(e, p) % 2 == 1
  }

  /** The p-th word from at on. */
  function WordAt(at: nat, p: nat): nat {
    Wrap(at + 8 * p)
  }

  lemma {:induction false} ZeroHasNoBits(p: nat)
    ensures !BitSet(0, p)
    decreases p
  {
    if p > 0 {
      ZeroHasNoBits(p - 1);
    }
  }

  /** The addresses of the set bits, the lowest bit standing for the j-th word. */
  function Addresses(e: nat, at: nat, j: nat): seq<nat>
    decreases e
  {
    if e == 0 then [] else (if e % 2 == 1 then [WordAt(at, j)] else []) + Addresses(e / 2, at, j + 1)
  }

  lemma {:induction false} AddressesLength(e: nat, at: nat, j: nat)
    ensures |Addresses(e, at, j)| == Population(e)
    decreases e
  {
    if e > 0 {
      AddressesLength(e / 2, at, j + 1);
    }
  }

  /** Bit p of e is set and stands for a. */
  ghost predicate BitMeans(e: nat, at: nat, j: nat, p: nat, a: nat) {
    BitSet(e, p) && a == WordAt(at, j + p)
  }

  ghost predicate SomeBitMeans(e: nat, at: nat, j: nat, a: nat) {
    exists p: nat :: BitMeans(e, at, j, p, a)
  }

  /** Exactly the set bits are there. */
  lemma {:induction false} AddressesExact(e: nat, at: nat, j: nat, a: nat)
    ensures a in Addresses(e, at, j) <==> SomeBitMeans(e, at, j, a)
    decreases e
  {
    if e == 0 {
      forall p: nat ensures !BitSet(e, p) {
        ZeroHasNoBits(p);
      }
    } else {
      AddressesExact(e / 2, at, j + 1, a);
      NextBit(e, at, j, a);
    }
  }

  lemma {:induction false} NextBit(e: nat, at: nat, j: nat, a: nat)
    ensures SomeBitMeans(e, at, j, a) <==> (e % 2 == 1 && a == WordAt(at, j)) || SomeBitMeans(e / 2, at, j + 1, a)
  {
    if SomeBitMeans(e, at, j, a) {
      var p: nat :| BitMeans(e, at, j, p, a);
      if p > 0 {
        assert BitMeans(e / 2, at, j + 1, p - 1, a);
      }
    }
    if SomeBitMeans(e / 2, at, j + 1, a) {
      var p: nat :| BitMeans(e / 2, at, j + 1, p, a);
      assert BitMeans(e, at, j, p + 1, a);
    }
    if e % 2 == 1 && a == WordAt(at, j) {
      assert BitMeans(e, at, j, 0, a);
    }
  }

  // ----- Tables

  predicate IsAddress(entry: nat) {
    entry % 2 == 0
  }

  /** The word that a bitmap in position i of a table starts at. */
  function Where(table: seq<nat>, i: nat): nat
    requires i <= |table|
  {
    if i == 0 then 0
    else if IsAddress(table[i - 1]) then Wrap(table[i - 1] + 8)
    else Wrap(Where(table, i - 1) + 504)
  }

  /** What one entry stands for. */
  function Decoded(table: seq<nat>, i: nat): seq<nat>
    requires i < |table|
  {
    if IsAddress(table[i]) then [table[i]] else Addresses(table[i] / 2, Where(table, i), 0)
  }

  /** What the entries stand for, one after the other. */
  function Pieces(table: seq<nat>): (r: seq<seq<nat>>)
    ensures |r| == |table| && forall i :: 0 <= i < |table| ==> r[i] == Decoded(table, i)
  {
    seq(|table|, i requires 0 <= i < |table| => Decoded(table, i))
  }

  function Flat(pieces: seq<seq<nat>>): seq<nat> {
    if pieces == [] then [] else Flat(pieces[..|pieces| - 1]) + pieces[|pieces| - 1]
  }

  function Decode(table: seq<nat>): seq<nat> {
    Flat(Pieces(table))
  }

  lemma {:induction false} FlatNext(pieces: seq<seq<nat>>, i: nat)
    requires i < |pieces|
    ensures Flat(pieces[..i + 1]) == Flat(pieces[..i]) + pieces[i]
    ensures |Flat(pieces[..i + 1])| <= |Flat(pieces)|
  {
    assert pieces[..i + 1][..i] == pieces[..i];
    FlatGrows(pieces, i + 1);
  }

  lemma {:induction false} FlatGrows(pieces: seq<seq<nat>>, i: nat)
    requires i <= |pieces|
    ensures |Flat(pieces[..i])| <= |Flat(pieces)|
    decreases |pieces|
  {
    if i < |pieces| {
      FlatGrows(pieces[..|pieces| - 1], i);
      assert pieces[..|pieces| - 1][..i] == pieces[..i];
    } else {
      assert pieces[..i] == pieces;
    }
  }

  lemma {:induction false} InFlat(pieces: seq<seq<nat>>, a: nat)
    ensures a in Flat(pieces) <==> exists i :: 0 <= i < |pieces| && a in pieces[i]
    decreases |pieces|
  {
    if pieces != [] {
      var n := |pieces| - 1;
      InFlat(pieces[..n], a);
      assert forall i :: 0 <= i < n ==> pieces[..n][i] == pieces[i];
    }
  }

  /** The encoding, entry by entry and bit by bit: bit p + 1 of a bitmap stands for its p-th word. */
  ghost predicate Denotes(table: seq<nat>, i: nat, a: nat)
    requires i < |table|
  {
    if IsAddress(table[i]) then a == table[i]
    else exists p: nat :: BitSet(table[i], p + 1) && a == WordAt(Where(table, i), p)
  }

  lemma {:induction false} DecodedExact(table: seq<nat>, i: nat, a: nat)
    requires i < |table|
    ensures a in Decoded(table, i) <==> Denotes(table, i, a)
  {
    if !IsAddress(table[i]) {
      var e, at := table[i], Where(table, i);
      AddressesExact(e / 2, at, 0, a);
      forall p: nat ensures BitMeans(e / 2, at, 0, p, a) <==> BitSet(e, p + 1) && a == WordAt(at, p) {
      }
    }
  }

  /** The decoded addresses are those some entry denotes. */
  lemma {:induction false} DecodeExact(table: seq<nat>, a: nat)
    ensures a in Decode(table) <==> exists i: nat :: i < |table| && Denotes(table, i, a)
  {
    InFlat(Pieces(table), a);
    forall i: nat | i < |table| ensures a in Pieces(table)[i] <==> Denotes(table, i, a) {
      DecodedExact(table, i, a);
    }
  }

  // ----- Tables in ascending order

  /** Words in ascending order that do not overlap. */
  ghost predicate Ascends(words: seq<nat>) {
    forall i, j :: 0 <= i < j < |words| ==> words[i] + 8 <= words[j]
  }

  /** Ascending words in [low, high). */
  ghost predicate Run(words: seq<nat>, low: nat, high: nat) {
    low <= high && Ascends(words) && forall i :: 0 <= i < |words| ==> low <= words[i] && words[i] + 8 <= high
  }

  lemma {:induction false} RunJoin(a: seq<nat>, b: seq<nat>, low: nat, mid: nat, high: nat)
    requires Run(a, low, mid) && Run(b, mid, high)
    ensures Run(a + b, low, high)
  {
  }

  lemma {:induction false} RunOne(bit: bool, at: nat, j: nat)
    requires at + 8 * (j + 1) < U64
    ensures Run(if bit then [WordAt(at, j)] else [], at + 8 * j, at + 8 * (j + 1))
  {
  }

  function Power2(n: nat): nat {
    if n == 0 then 1 else 2 * Power2(n - 1)
  }

  lemma {:induction false} Power2Sum(m: nat, n: nat)
    ensures Power2(m + n) == Power2(m) * Power2(n)
  {
    if m > 0 {
      Power2Sum(m - 1, n);
    }
  }

  lemma {:induction false} Power2Of64()
    ensures Power2(64) == U64
  {
    Power2Sum(4, 4);
    Power2Sum(8, 8);
    Power2Sum(16, 16);
    Power2Sum(32, 32);
  }

  lemma {:induction false} HalfPower(e: nat, n: nat)
    requires 0 < e < Power2(n)
    ensures n > 0 && e / 2 < Power2(n - 1)
  {
  }

  /** The words of a bitmap of at most n bits, if they do not wrap around. */
  lemma {:induction false} AddressesAscend(e: nat, at: nat, j: nat, n: nat)
    requires e < Power2(n) && at + 8 * (j + n) < U64
    ensures Run(Addresses(e, at, j), at + 8 * j, at + 8 * (j + n))
    decreases n
  {
    if e > 0 {
      HalfPower(e, n);
      AddressesAscend(e / 2, at, j + 1, n - 1);
      RunOne(e % 2 == 1, at, j);
      RunJoin(if e % 2 == 1 then [WordAt(at, j)] else [], Addresses(e / 2, at, j + 1), at + 8 * j, at + 8 * (j + 1),
              at + 8 * (j + n));
    }
  }

  /** A table of 64-bit words whose addresses ascend: none lies below the word that the entries before
      it reached, and nothing wraps around. */
  ghost predicate Rising(table: seq<nat>) {
    forall i: nat :: i < |table| ==> RisesAt(table, i)
  }

  ghost predicate RisesAt(table: seq<nat>, i: nat)
    requires i < |table|
  {
    if IsAddress(table[i]) then Where(table, i) <= table[i] && table[i] + 8 < U64
    else table[i] < U64 && Where(table, i) + 504 < U64
  }

  lemma {:induction false} HalfWord(e: nat)
    requires e < U64
    ensures e / 2 < Power2(63)
  {
    Power2Of64();
  }

  lemma {:induction false} NextWhere(table: seq<nat>, i: nat)
    requires i < |table| && RisesAt(table, i)
    ensures Where(table, i + 1) == if IsAddress(table[i]) then table[i] + 8 else Where(table, i) + 504
  {
  }

  lemma {:induction false} EntryAscends(table: seq<nat>, i: nat, low: nat, high: nat)
    requires i < |table| && RisesAt(table, i) && low == Where(table, i) && high == Where(table, i + 1)
    ensures Run(Decoded(table, i), low, high)
  {
    NextWhere(table, i);
    if !IsAddress(table[i]) {
      HalfWord(table[i]);
      AddressesAscend(table[i] / 2, low, 0, 63);
    }
  }

  lemma {:induction false} PrefixAscends(table: seq<nat>, n: nat)
    requires Rising(table) && n <= |table|
    ensures Run(Flat(Pieces(table)[..n]), 0, Where(table, n))
    decreases n
  {
    if n > 0 {
      PrefixAscends(table, n - 1);
      assert RisesAt(table, n - 1);
      EntryAscends(table, n - 1, Where(table, n - 1), Where(table, n));
      FlatNext(Pieces(table), n - 1);
      RunJoin(Flat(Pieces(table)[..n - 1]), Decoded(table, n - 1), 0, Where(table, n - 1), Where(table, n));
    }
  }

  /** An ascending table names words that do not overlap, in ascending order. */
  lemma {:induction false} DecodeAscends(table: seq<nat>)
    requires Rising(table)
    ensures Ascends(Decode(table))
  {
    PrefixAscends(table, |table|);
    assert Pieces(table)[..|table|] == Pieces(table);
  }

  /** How many addresses an entry stands for. */
  lemma {:induction false} DecodedLength(table: seq<nat>, i: nat)
    requires i < |table|
    ensures |Decoded(table, i)| == if IsAddress(table[i]) then 1 else Population(table[i]) - 1
  {
    AddressesLength(table[i] / 2, Where(table, i), 0);
  }

  /** One entry of the first pass. */
  method CountEntry(table: seq<nat>, i: nat) returns (count: nat)
    requires i < |table|
    ensures count == |Decoded(table, i)|
  {
    DecodedLength(table, i);
    if IsAddress(table[i]) {
      count := 1;
    } else {
      count := Population(table[i]) - 1;
    }
  }

  /** The first pass. */
  method CountRelr(table: seq<nat>) returns (count: nat)
    ensures count == |Decode(table)|
  {
    count := 0;
    ghost var pieces := Pieces(table);
    var i := 0;
    while i < |table|
      invariant i <= |table| && count == |Flat(pieces[..i])|
    {
      FlatNext(pieces, i);
      var n := CountEntry(table, i);
      count := count + n;
      i := i + 1;
    }
    assert pieces[..i] == pieces;
  }

  /** The addresses written so far and those of the bits left make up the whole. */
  ghost predicate Remaining(whole: seq<nat>, done: seq<nat>, entry: nat, where: nat, j: nat) {
    whole == done + Addresses(entry, where, j)
  }

  lemma {:induction false} BitDone(whole: seq<nat>, done: seq<nat>, entry: nat, where: nat, j: nat)
    requires entry != 0 && Remaining(whole, done, entry, where, j)
    ensures entry % 2 == 1 ==> |done| < |whole| && Remaining(whole, done + [WordAt(where, j)], entry / 2, where, j + 1)
    ensures entry % 2 == 0 ==> Remaining(whole, done, entry / 2, where, j + 1)
  {
    var rest := Addresses(entry / 2, where, j + 1);
    if entry % 2 == 1 {
      assert done + ([WordAt(where, j)] + rest) == (done + [WordAt(where, j)]) + rest;
    } else {
      assert [] + rest == rest;
    }
  }

  /** The addresses of one bitmap into the array; the bit that marks it as one is shifted out. */
  method FillBitmap(relocs: array<nat>, start: nat, bitmap: nat, where: nat) returns (next: nat)
    requires start + |Addresses(bitmap / 2, where, 0)| <= relocs.Length
    modifies relocs
    ensures next == start + |Addresses(bitmap / 2, where, 0)|
    ensures relocs[..next] == old(relocs[..start]) + Addresses(bitmap / 2, where, 0)
  {
    next := start;
    var entry: nat, j: nat := bitmap / 2, 0;
    ghost var whole := Addresses(bitmap / 2, where, 0);
    ghost var done: seq<nat> := [];
    assert [] + whole == whole;
    while entry != 0
      invariant next == start + |done| <= start + |whole| && Remaining(whole, done, entry, where, j)
      invariant relocs[..next] == old(relocs[..start]) + done
      decreases entry
    {
      BitDone(whole, done, entry, where, j);
      ghost var before := relocs[..next];
      if entry % 2 == 1 {
        relocs[next] := WordAt(where, j);
        next := next + 1;
        done := done + [WordAt(where, j)];
        assert relocs[..next] == before + [WordAt(where, j)];
      }
      entry := entry / 2;
      j := j + 1;
    }
    assert whole == done;
  }

  /** One entry of the second pass. */
  method FillEntry(table: seq<nat>, i: nat, relocs: array<nat>, start: nat, where: nat) returns (next: nat, after: nat)
    requires i < |table| && where == Where(table, i) && start + |Decoded(table, i)| <= relocs.Length
    modifies relocs
    ensures next == start + |Decoded(table, i)| && relocs[..next] == old(relocs[..start]) + Decoded(table, i)
    ensures after == Where(table, i + 1)
  {
    if IsAddress(table[i]) {
      relocs[start] := table[i];
      return start + 1, Wrap(table[i] + 8);
    } else {
      next := FillBitmap(relocs, start, table[i], where);
      return next, Wrap(where + 504);
    }
  }

  /** The second pass writes as many addresses as the first one counted, and the right ones. */
  method FillRelr(table: seq<nat>, relocs: array<nat>)
    requires relocs.Length == |Decode(table)|
    modifies relocs
    ensures relocs[..] == Decode(table)
  {
    ghost var pieces := Pieces(table);
    var where, next := 0, 0;
    var i := 0;
    while i < |table|
      invariant i <= |table| && where == Where(table, i)
      invariant next == |Flat(pieces[..i])| <= relocs.Length && relocs[..next] == Flat(pieces[..i])
    {
      FlatNext(pieces, i);
      next, where := FillEntry(table, i, relocs, next, where);
      i := i + 1;
    }
    assert pieces[..i] == pieces;
    assert relocs[..] == relocs[..next];
  }

  /** Both passes together. */
  method DecodeRelr(table: seq<nat>) returns (relocs: array<nat>)
    ensures fresh(relocs) && relocs[..] == Decode(table)
  {
    var count := CountRelr(table);
    relocs := new nat[count](_ => 0);
    FillRelr(table, relocs);
  }
}
