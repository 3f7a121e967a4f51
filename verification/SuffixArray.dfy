/**
 Suffix array construction by prefix doubling (saca in tools/limlzpack.c).
 */
module SuffixArray {

  import opened Bytes

  // ----- The order of suffixes

  /** Lexicographic order, a proper prefix first. */
  ghost predicate LexLess(x: seq<byte>, y: seq<byte>) {
    if y == [] then false
    else if x == [] then true
    else if x[0] != y[0] then x[0] < y[0]
    else LexLess(x[1..], y[1..])
  }

  /** The suffix at i is smaller than the suffix at j within the first k bytes; beyond the end of the
      text there is something smaller than any byte. */
  ghost predicate LessIn(s: seq<byte>, i: nat, j: nat, k: nat)
    decreases k
  {
    if k == 0 || j >= |s| then false
    else if i >= |s| then true
    else if s[i] != s[j] then s[i] < s[j]
    else LessIn(s, i + 1, j + 1, k - 1)
  }

  ghost predicate EqualIn(s: seq<byte>, i: nat, j: nat, k: nat)
    decreases k
  {
    if k == 0 || (i >= |s| && j >= |s|) then true
    else if i >= |s| || j >= |s| then false
    else s[i] == s[j] && EqualIn(s, i + 1, j + 1, k - 1)
  }

  /** Exactly one of less, equal, greater. */
  lemma {:induction false} Trichotomy(s: seq<byte>, i: nat, j: nat, k: nat)
    ensures LessIn(s, i, j, k) ==> !EqualIn(s, i, j, k) && !LessIn(s, j, i, k)
    ensures LessIn(s, i, j, k) || EqualIn(s, i, j, k) || LessIn(s, j, i, k)
    ensures EqualIn(s, i, j, k) == EqualIn(s, j, i, k)
    ensures EqualIn(s, i, j, k) ==> !LessIn(s, i, j, k) && !LessIn(s, j, i, k)
    decreases k
  {
    if k > 0 && i < |s| && j < |s| && s[i] == s[j] {
      Trichotomy(s, i + 1, j + 1, k - 1);
    }
  }

  /** Comparing a + b bytes is comparing a bytes and, on a tie, the next b. */
  lemma {:induction false} Doubling(s: seq<byte>, i: nat, j: nat, a: nat, b: nat)
    ensures LessIn(s, i, j, a + b) <==> LessIn(s, i, j, a) || (EqualIn(s, i, j, a) && LessIn(s, i + a, j + a, b))
    ensures EqualIn(s, i, j, a + b) <==> EqualIn(s, i, j, a) && EqualIn(s, i + a, j + a, b)
    decreases a
  {
    if a > 0 {
      if i < |s| && j < |s| && s[i] == s[j] {
        Doubling(s, i + 1, j + 1, a - 1, b);
      } else if i >= |s| && j >= |s| {
        assert EqualIn(s, i + a, j + a, b);
      }
    }
  }

  /** Different suffixes differ within the length of the text. */
  lemma {:induction false} DifferentSuffixes(s: seq<byte>, i: nat, j: nat, k: nat)
    requires i < j && i < |s| && |s| <= i + k
    ensures !EqualIn(s, i, j, k)
    decreases k
  {
    if j < |s| && s[i] == s[j] {
      DifferentSuffixes(s, i + 1, j + 1, k - 1);
    }
  }

  lemma {:induction false} LessIsLexLess(s: seq<byte>, i: nat, j: nat, k: nat)
    requires i <= |s| && j <= |s| && LessIn(s, i, j, k)
    ensures LexLess(s[i..], s[j..])
    decreases k
  {
    if i < |s| && s[i] == s[j] {
      LessIsLexLess(s, i + 1, j + 1, k - 1);
      assert s[i..][1..] == s[i + 1..] && s[j..][1..] == s[j + 1..];
    }
  }

  // ----- Ranks

  /** The ranks order the suffixes by their first k bytes. */
  ghost predicate RanksBy(s: seq<byte>, rank: seq<int>, k: nat) {
    && |rank| == |s|
    && (forall i :: 0 <= i < |s| ==> rank[i] >= 0)
    && (forall i, j :: 0 <= i < |s| && 0 <= j < |s| ==>
          (rank[i] < rank[j] <==> LessIn(s, i, j, k)) && (rank[i] == rank[j] <==> EqualIn(s, i, j, k)))
  }

  /** sa_cmp_idx: the rank of the first half, then that of the second, -1 beyond the end. */
  function Compare(rank: seq<int>, k: nat, i: nat, j: nat): int
    requires i < |rank| && j < |rank|
  {
    if rank[i] != rank[j] then rank[i] - rank[j] else Second(rank, k, i) - Second(rank, k, j)
  }

  function Second(rank: seq<int>, k: nat, i: nat): int {
    if i + k < |rank| then rank[i + k] else -1
  }

  /** With ranks for k bytes, the comparison is that of 2k bytes. */
  lemma {:induction false} CompareDoubles(s: seq<byte>, rank: seq<int>, k: nat, i: nat, j: nat)
    requires RanksBy(s, rank, k) && k > 0 && i < |s| && j < |s|
    ensures Compare(rank, k, i, j) < 0 <==> LessIn(s, i, j, 2 * k)
    ensures Compare(rank, k, i, j) == 0 <==> EqualIn(s, i, j, 2 * k)
  {
    Doubling(s, i, j, k, k);
    assert 2 * k == k + k;
    Trichotomy(s, i, j, k);
  }

  lemma {:induction false} BytesRankOne(s: seq<byte>, rank: seq<int>)
    requires |rank| == |s| && forall i :: 0 <= i < |s| ==> rank[i] == s[i] as int
    ensures RanksBy(s, rank, 1)
  {
    forall i, j | 0 <= i < |s| && 0 <= j < |s|
      ensures (rank[i] < rank[j] <==> LessIn(s, i, j, 1)) && (rank[i] == rank[j] <==> EqualIn(s, i, j, 1))
    {
      assert !LessIn(s, i + 1, j + 1, 0) && EqualIn(s, i + 1, j + 1, 0);
    }
  }

  // ----- Sorting with the comparison

  ghost predicate InRange(p: seq<nat>, n: nat) {
    forall a :: 0 <= a < |p| ==> p[a] < n
  }

  ghost predicate SortedBy(rank: seq<int>, k: nat, p: seq<nat>)
    requires InRange(p, |rank|)
  {
    forall a, b :: 0 <= a < b < |p| ==> Compare(rank, k, p[a], p[b]) <= 0
  }

  function Insert(rank: seq<int>, k: nat, p: seq<nat>, x: nat): (r: seq<nat>)
    requires InRange(p, |rank|) && x < |rank|
    ensures InRange(r, |rank|) && multiset(r) == multiset(p) + multiset{x}
  {
    if p == [] || Compare(rank, k, x, p[0]) <= 0 then [x] + p
    else
      assert p == [p[0]] + p[1..];
      [p[0]] + Insert(rank, k, p[1..], x)
  }

  lemma {:induction false} InsertSorts(rank: seq<int>, k: nat, p: seq<nat>, x: nat)
    requires InRange(p, |rank|) && x < |rank| && SortedBy(rank, k, p)
    ensures SortedBy(rank, k, Insert(rank, k, p, x))
  {
    if p != [] && Compare(rank, k, x, p[0]) > 0 {
      InsertSorts(rank, k, p[1..], x);
      var r := Insert(rank, k, p[1..], x);
      forall b | 0 <= b < |r| ensures Compare(rank, k, p[0], r[b]) <= 0 {
        assert r[b] in multiset(r);
        assert r[b] == x || r[b] in p[1..];
      }
    }
  }

  function Sort(rank: seq<int>, k: nat, p: seq<nat>): (r: seq<nat>)
    requires InRange(p, |rank|)
    ensures InRange(r, |rank|) && multiset(r) == multiset(p)
  {
    if p == [] then []
    else
      assert p == [p[0]] + p[1..];
      Insert(rank, k, Sort(rank, k, p[1..]), p[0])
  }

  lemma {:induction false} SortSorts(rank: seq<int>, k: nat, p: seq<nat>)
    requires InRange(p, |rank|)
    ensures SortedBy(rank, k, Sort(rank, k, p))
  {
    if p != [] {
      SortSorts(rank, k, p[1..]);
      InsertSorts(rank, k, Sort(rank, k, p[1..]), p[0]);
    }
  }

  /** What the C library's qsort promises here; any sort would do. */
  method Qsort(sa: array<nat>, rank: seq<int>, k: nat)
    requires InRange(sa[..], |rank|)
    modifies sa
    ensures InRange(sa[..], |rank|) && multiset(sa[..]) == multiset(old(sa[..]))
    ensures SortedBy(rank, k, sa[..])
  {
    var r := Sort(rank, k, sa[..]);
    SortSorts(rank, k, sa[..]);
    assert |r| == sa.Length by {
      assert |multiset(r)| == |multiset(sa[..])|;
    }
    forall i | 0 <= i < sa.Length {
      sa[i] := r[i];
    }
    assert sa[..] == r;
  }

  // ----- Permutations

  /** p lists every position below n once. */
  ghost predicate Permutes(p: seq<nat>, n: nat) {
    && |p| == n && InRange(p, n)
    && (forall v: nat :: v < n ==> v in p)
    && (forall a, b :: 0 <= a < b < n ==> p[a] != p[b])
  }

  lemma {:induction false} CountOnce(p: seq<nat>, v: nat)
    requires forall a, b :: 0 <= a < b < |p| ==> p[a] != p[b]
    ensures multiset(p)[v] <= 1
  {
    if v in p {
      var c :| 0 <= c < |p| && p[c] == v;
      assert p == p[..c] + [v] + p[c + 1..];
      assert v !in p[..c] && v !in p[c + 1..];
    }
  }

  lemma {:induction false} PermutesKept(p: seq<nat>, q: seq<nat>, n: nat)
    requires Permutes(p, n) && multiset(p) == multiset(q) && InRange(q, n)
    ensures Permutes(q, n)
  {
    assert |q| == |multiset(q)| == |multiset(p)| == n;
    forall v: nat | v < n ensures v in q {
      assert v in p;
      assert v in multiset(q);
    }
    forall a, b | 0 <= a < b < n ensures q[a] != q[b] {
      if q[a] == q[b] {
        CountTwice(q, a, b);
        CountOnce(p, q[a]);
      }
    }
  }

  lemma {:induction false} CountTwice(q: seq<nat>, a: nat, b: nat)
    requires a < b < |q| && q[a] == q[b]
    ensures multiset(q)[q[a]] >= 2
  {
    assert q == q[..a] + [q[a]] + q[a + 1..];
    assert q[b] in q[a + 1..];
  }

  lemma {:induction false} Position(p: seq<nat>, n: nat, v: nat) returns (a: nat)
    requires Permutes(p, n) && v < n
    ensures a < n && p[a] == v
  {
    assert v in p;
    a :| 0 <= a < |p| && p[a] == v;
  }

  // ----- New ranks from the sorted order

  /** The rank of the a-th suffix in sorted order: how often the order is strict before it. */
  ghost function Level(rank: seq<int>, k: nat, p: seq<nat>, a: nat): nat
    requires InRange(p, |rank|) && a < |p|
  {
    if a == 0 then 0
    else Level(rank, k, p, a - 1) + if Compare(rank, k, p[a - 1], p[a]) < 0 then 1 else 0
  }

  ghost predicate RankedAt(rank: seq<int>, k: nat, p: seq<nat>, next: seq<int>, a: nat) {
    InRange(p, |rank|) && a < |p| && p[a] < |next| && next[p[a]] == Level(rank, k, p, a)
  }

  lemma {:induction false} LevelOrder(rank: seq<int>, k: nat, p: seq<nat>, a: nat, b: nat)
    requires InRange(p, |rank|) && SortedBy(rank, k, p) && a <= b < |p|
    ensures Level(rank, k, p, a) <= Level(rank, k, p, b)
    ensures Level(rank, k, p, a) == Level(rank, k, p, b) <==> Compare(rank, k, p[a], p[b]) == 0
    decreases b
  {
    if a < b {
      LevelOrder(rank, k, p, a, b - 1);
    }
  }

  lemma {:induction false} LevelBound(rank: seq<int>, k: nat, p: seq<nat>, a: nat)
    requires InRange(p, |rank|) && a < |p|
    ensures Level(rank, k, p, a) <= a
    ensures Level(rank, k, p, a) == a ==> forall b :: 0 < b <= a ==> Compare(rank, k, p[b - 1], p[b]) < 0
    ensures (forall b :: 0 < b <= a ==> Compare(rank, k, p[b - 1], p[b]) < 0) ==> Level(rank, k, p, a) == a
  {
    if a > 0 {
      LevelBound(rank, k, p, a - 1);
    }
  }

  /** The new ranks order the suffixes by twice as many bytes. */
  lemma {:induction false} LevelsRankDouble(s: seq<byte>, rank: seq<int>, k: nat, p: seq<nat>, next: seq<int>)
    requires RanksBy(s, rank, k) && k > 0 && Permutes(p, |s|) && SortedBy(rank, k, p)
    requires |next| == |s| && forall a: nat :: a < |s| ==> RankedAt(rank, k, p, next, a)
    ensures RanksBy(s, next, 2 * k)
  {
    forall i | 0 <= i < |s| ensures next[i] >= 0 {
      var a := Position(p, |s|, i);
      assert RankedAt(rank, k, p, next, a);
    }
    forall i, j | 0 <= i < |s| && 0 <= j < |s|
      ensures (next[i] < next[j] <==> LessIn(s, i, j, 2 * k)) && (next[i] == next[j] <==> EqualIn(s, i, j, 2 * k))
    {
      var a := Position(p, |s|, i);
      var b := Position(p, |s|, j);
      assert RankedAt(rank, k, p, next, a) && RankedAt(rank, k, p, next, b);
      CompareDoubles(s, rank, k, i, j);
      LevelsCompare(rank, k, p, a, b);
    }
  }

  lemma {:induction false} LevelsCompare(rank: seq<int>, k: nat, p: seq<nat>, a: nat, b: nat)
    requires InRange(p, |rank|) && SortedBy(rank, k, p) && a < |p| && b < |p|
    ensures Level(rank, k, p, a) < Level(rank, k, p, b) <==> Compare(rank, k, p[a], p[b]) < 0
    ensures Level(rank, k, p, a) == Level(rank, k, p, b) <==> Compare(rank, k, p[a], p[b]) == 0
  {
    if a <= b {
      LevelOrder(rank, k, p, a, b);
    } else {
      LevelOrder(rank, k, p, b, a);
    }
  }

  // ----- The construction

  /** p lists the suffixes of s in strictly increasing lexicographic order. */
  ghost predicate IsSuffixArray(s: seq<byte>, p: seq<nat>) {
    Permutes(p, |s|) && forall a, b :: 0 <= a < b < |s| ==> LexLess(s[p[a]..], s[p[b]..])
  }

  /** tmp[sa[a]] becomes the rank of the a-th suffix. */
  method Rerank(sa: array<nat>, rank: seq<int>, k: nat, tmp: array<int>)
    requires sa.Length == |rank| == tmp.Length > 0 && Permutes(sa[..], |rank|)
    modifies tmp
    ensures forall a: nat :: a < sa.Length ==> RankedAt(rank, k, sa[..], tmp[..], a)
  {
    ghost var p := sa[..];
    tmp[sa[0]] := 0;
    var i := 1;
    while i < sa.Length
      invariant 1 <= i <= sa.Length
      invariant forall a: nat :: a < i ==> RankedAt(rank, k, p, tmp[..], a)
    {
      ghost var t := tmp[..];
      assert RankedAt(rank, k, p, t, i - 1);
      tmp[sa[i]] := tmp[sa[i - 1]] + if Compare(rank, k, sa[i - 1], sa[i]) < 0 then 1 else 0;
      forall a: nat | a < i + 1 ensures RankedAt(rank, k, p, tmp[..], a) {
        assert a < i ==> RankedAt(rank, k, p, t, a);
      }
      i := i + 1;
    }
  }

  /** One round: sorts by the doubled prefix and replaces the ranks. */
  method Round(s: seq<byte>, sa: array<nat>, rank: array<int>, tmp: array<int>, k: nat)
    requires sa.Length == rank.Length == tmp.Length == |s| > 0 && rank != tmp && k > 0
    requires Permutes(sa[..], |s|) && RanksBy(s, rank[..], k)
    modifies sa, rank, tmp
    ensures Permutes(sa[..], |s|) && RanksBy(s, rank[..], 2 * k)
    ensures rank[sa[|s| - 1]] == |s| - 1 ==> IsSuffixArray(s, sa[..])
    ensures 2 * k >= |s| ==> rank[sa[|s| - 1]] == |s| - 1
  {
    ghost var ranks, p0 := rank[..], sa[..];
    Qsort(sa, rank[..], k);
    PermutesKept(p0, sa[..], |s|);
    Rerank(sa, rank[..], k, tmp);
    ghost var p, next := sa[..], tmp[..];
    var i := 0;
    while i < rank.Length
      invariant 0 <= i <= rank.Length && rank[..i] == next[..i] && tmp[..] == next && sa[..] == p
    {
      rank[i] := tmp[i];
      i := i + 1;
    }
    assert rank[..] == next;
    LevelsRankDouble(s, ranks, k, p, next);
    RoundEnds(s, ranks, k, p);
    assert RankedAt(ranks, k, p, next, |s| - 1);
  }

  lemma {:induction false} StrictlyBelow(rank: seq<int>, k: nat, p: seq<nat>, a: nat, b: nat)
    requires InRange(p, |rank|) && SortedBy(rank, k, p) && a < b < |p| && Compare(rank, k, p[b - 1], p[b]) < 0
    ensures Compare(rank, k, p[a], p[b]) < 0
  {
    LevelOrder(rank, k, p, a, b - 1);
    LevelOrder(rank, k, p, a, b);
  }

  lemma {:induction false} LessByRank(s: seq<byte>, rank: seq<int>, k: nat, i: nat, j: nat)
    requires RanksBy(s, rank, k) && k > 0 && i < |s| && j < |s| && Compare(rank, k, i, j) < 0
    ensures LexLess(s[i..], s[j..])
  {
    CompareDoubles(s, rank, k, i, j);
    LessIsLexLess(s, i, j, 2 * k);
  }

  lemma {:induction false} StrictIsSorted(s: seq<byte>, rank: seq<int>, k: nat, p: seq<nat>)
    requires RanksBy(s, rank, k) && k > 0 && Permutes(p, |s|) && SortedBy(rank, k, p) && |s| > 0
    requires Level(rank, k, p, |s| - 1) == |s| - 1
    ensures IsSuffixArray(s, p)
  {
    LevelBound(rank, k, p, |s| - 1);
    forall a, b | 0 <= a < b < |s| ensures LexLess(s[p[a]..], s[p[b]..]) {
      assert Compare(rank, k, p[b - 1], p[b]) < 0;
      StrictlyBelow(rank, k, p, a, b);
      LessByRank(s, rank, k, p[a], p[b]);
    }
  }

  /** The test of the loop: the last rank is n - 1 exactly if the order is strict, which it is once the
      prefixes are as long as the text. */
  lemma {:induction false} RoundEnds(s: seq<byte>, rank: seq<int>, k: nat, p: seq<nat>)
    requires RanksBy(s, rank, k) && k > 0 && Permutes(p, |s|) && SortedBy(rank, k, p) && |s| > 0
    ensures Level(rank, k, p, |s| - 1) == |s| - 1 ==> IsSuffixArray(s, p)
    ensures 2 * k >= |s| ==> Level(rank, k, p, |s| - 1) == |s| - 1
  {
    LevelBound(rank, k, p, |s| - 1);
    if Level(rank, k, p, |s| - 1) == |s| - 1 {
      StrictIsSorted(s, rank, k, p);
    }
    if 2 * k >= |s| {
      forall b | 0 < b < |s| ensures Compare(rank, k, p[b - 1], p[b]) < 0 {
        var i, j := p[b - 1], p[b];
        CompareDoubles(s, rank, k, i, j);
        if i < j {
          DifferentSuffixes(s, i, j, 2 * k);
        } else {
          DifferentSuffixes(s, j, i, 2 * k);
          Trichotomy(s, i, j, 2 * k);
        }
      }
    }
  }

  /** saca: terminates for every text and yields its suffix array. */
  method Saca(s: seq<byte>, sa: array<nat>, rank: array<int>, tmp: array<int>)
    requires sa.Length == rank.Length == tmp.Length == |s| && rank != tmp
    modifies sa, rank, tmp
    ensures IsSuffixArray(s, sa[..])
  {
    if |s| == 0 {
      return;
    }
    var i := 0;
    while i < |s|
      invariant 0 <= i <= |s|
      invariant forall a :: 0 <= a < i ==> sa[a] == a && rank[a] == s[a] as int
    {
      sa[i], rank[i] := i, s[i] as int;
      i := i + 1;
    }
    assert Permutes(sa[..], |s|) by {
      forall v: nat | v < |s| ensures v in sa[..] {
        assert sa[..][v] == v;
      }
    }
    BytesRankOne(s, rank[..]);
    var k := 1;
    var done := false;
    while !done
      invariant k > 0 && Permutes(sa[..], |s|)
      invariant !done ==> RanksBy(s, rank[..], k) && (k == 1 || k < |s|)
      invariant done ==> IsSuffixArray(s, sa[..])
      decreases !done, |s| + 1 - k
    {
      Round(s, sa, rank, tmp, k);
      done := rank[sa[|s| - 1]] == |s| - 1;
      k := 2 * k;
    }
  }
}
