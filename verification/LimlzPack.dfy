/**
 The packer itself (tools/limlzpack.c): match search, dynamic program, emission.
 */
module LimlzPack {
  import opened Bytes
  import opened SuffixArray
  import opened LimlzFormat
  import opened LimlzParse
  import opened Wrappers

  const NEIGHBORS: int := 32

  // ----- longest_matches

  /** The common prefix of the suffixes at i and j has this length. */
  ghost predicate IsCommon(s: seq<byte>, i: nat, j: nat, l: nat) {
    && i + l <= |s| && j + l <= |s|
    && (forall k :: i <= k < i + l ==> s[k] == s[k - i + j])
    && (i + l == |s| || j + l == |s| || s[i + l] != s[j + l])
  }

  /** lcp_bytes. */
  method CommonLength(s: seq<byte>, i: nat, j: nat) returns (l: nat)
    requires i <= |s| && j <= |s|
    ensures IsCommon(s, i, j, l)
  {
    l := 0;
    var m := |s| - if i > j then i else j;
    while l < m && s[i + l] == s[j + l]
      invariant l <= m
      invariant forall k :: i <= k < i + l ==> s[k] == s[k - i + j]
    {
      l := l + 1;
    }
  }

  /** Place q in suffix order, near place r, holds an earlier position within reach of i. */
  ghost predicate Near(sa: seq<nat>, i: nat, r: nat, q: nat) {
    q != r && r - 32 <= q <= r + 32 && q < |sa| && sa[q] < i && i - sa[q] <= 65535
  }

  /** The match is all that i has in common with such a neighbour. */
  ghost predicate FromNeighbour(s: seq<byte>, sa: seq<nat>, i: nat, r: nat, m: Match) {
    exists q: nat :: Near(sa, i, r, q) && sa[q] + m.off == i && IsCommon(s, i, sa[q], m.len)
  }

  /** A match at i with a neighbour within 32 places in suffix order that no other one beats, or none of
      length 4. */
  ghost predicate BestNeighbour(s: seq<byte>, sa: seq<nat>, i: nat, r: nat, m: Match) {
    && (m == Match(0, 0) || (&& m.len >= MIN_MATCH && m.off <= MAX_OFFSET && MatchAt(s, i, m.off, m.len)
                             && FromNeighbour(s, sa, i, r, m)))
    && (forall q: nat, l: nat :: Near(sa, i, r, q) && IsCommon(s, i, sa[q], l) ==> l <= m.len || l < 4)
  }

  /** The best match with the neighbours at places before r + d. */
  ghost predicate BestBefore(s: seq<byte>, sa: seq<nat>, i: nat, r: nat, d: int, len: nat, off: nat) {
    && (len == 0 || (off <= MAX_OFFSET && MatchAt(s, i, off, len) && FromNeighbour(s, sa, i, r, Match(len, off))))
    && (forall q: nat, l: nat :: q - r < d && Near(sa, i, r, q) && IsCommon(s, i, sa[q], l) ==> l <= len)
  }

  lemma {:induction false} PassPlace(s: seq<byte>, sa: seq<nat>, i: nat, r: nat, d: int, len: nat, off: nat)
    requires BestBefore(s, sa, i, r, d, len, off) && (r + d < 0 || !Near(sa, i, r, r + d))
    ensures BestBefore(s, sa, i, r, d + 1, len, off)
  {
  }

  lemma {:induction false} TryPlace(s: seq<byte>, sa: seq<nat>, i: nat, r: nat, d: int, len: nat, off: nat, l: nat)
    requires BestBefore(s, sa, i, r, d, len, off) && 0 <= r + d && Near(sa, i, r, r + d)
    requires IsCommon(s, i, sa[r + d], l)
    ensures if l > len then BestBefore(s, sa, i, r, d + 1, l, i - sa[r + d])
            else BestBefore(s, sa, i, r, d + 1, len, off)
  {
    var j := sa[r + d];
    forall l': nat | IsCommon(s, i, j, l') ensures l' == l {
    }
    if l > len {
      assert FromNeighbour(s, sa, i, r, Match(l, i - j));
    }
  }

  /** The loop over the neighbours of one position. */
  method FindMatch(s: seq<byte>, sa: array<nat>, i: nat, r: nat) returns (m: Match)
    requires sa.Length == |s| && i < |s| && r < |s| && InRange(sa[..], |s|)
    ensures BestNeighbour(s, sa[..], i, r, m)
  {
    var len: nat, off: nat := 0, 0;
    var d := -NEIGHBORS;
    while d <= NEIGHBORS
      invariant -NEIGHBORS <= d <= NEIGHBORS + 1 && BestBefore(s, sa[..], i, r, d, len, off)
    {
      if d != 0 && 0 <= r + d < |s| && sa[r + d] < i && i - sa[r + d] <= MAX_OFFSET {
        var j := sa[r + d];
        var l := CommonLength(s, i, j);
        TryPlace(s, sa[..], i, r, d, len, off, l);
        if l > len {
          len, off := l, i - j;
        }
      } else {
        PassPlace(s, sa[..], i, r, d, len, off);
      }
      d := d + 1;
    }
    m := if len >= MIN_MATCH then Match(len, off) else Match(0, 0);
  }

  /** Every position has the best match among its neighbours in suffix order. */
  ghost predicate AllBest(s: seq<byte>, sa: seq<nat>, mch: seq<Match>) {
    |mch| == |s| && forall i: nat, r: nat :: i < |s| && r < |sa| && sa[r] == i ==> BestNeighbour(s, sa, i, r, mch[i])
  }

  /** What longest_matches finds: matches that are there, the best among the neighbours in suffix order. */
  ghost predicate FoundMatches(s: seq<byte>, mch: seq<Match>) {
    GoodMatches(s, mch) && exists sa :: IsSuffixArray(s, sa) && AllBest(s, sa, mch)
  }

  /** longest_matches: for every position the best match among its neighbours in the suffix array. */
  method LongestMatches(s: seq<byte>) returns (mch: seq<Match>)
    ensures FoundMatches(s, mch)
  {
    var n := |s|;
    var sa, rank, tmp := new nat[n], new int[n], new int[n];
    Saca(s, sa, rank, tmp);
    ghost var p := sa[..];
    var inv := new nat[n];
    var i := 0;
    while i < n
      invariant 0 <= i <= n && sa[..] == p
      invariant forall a :: 0 <= a < i ==> inv[p[a]] == a
    {
      inv[sa[i]] := i;
      i := i + 1;
    }
    mch := [];
    i := 0;
    while i < n
      invariant 0 <= i <= n && |mch| == i && sa[..] == p
      invariant forall a :: 0 <= a < n ==> inv[p[a]] == a
      invariant forall k: nat, r: nat :: k < i && r < n && p[r] == k ==> BestNeighbour(s, p, k, r, mch[k])
    {
      ghost var a := Position(p, n, i);
      assert inv[p[a]] == a;
      var m := FindMatch(s, sa, i, inv[i]);
      mch := mch + [m];
      i := i + 1;
    }
    assert AllBest(s, p, mch);
    BestAreGood(s, p, mch);
  }

  lemma {:induction false} BestAreGood(s: seq<byte>, sa: seq<nat>, mch: seq<Match>)
    requires Permutes(sa, |s|) && AllBest(s, sa, mch)
    ensures GoodMatches(s, mch)
  {
    forall i | 0 <= i < |s| && mch[i].len >= MIN_MATCH
      ensures mch[i].off <= MAX_OFFSET && MatchAt(s, i, mch[i].off, mch[i].len)
    {
      var r := Position(sa, |s|, i);
      assert BestNeighbour(s, sa, i, r, mch[i]);
    }
  }

  // ----- The dynamic program

  /** The loop over lengths: the cheapest use of the match found at i. */
  method CheapestLength(mch: seq<Match>, dp: array<nat>, n: nat, i: nat) returns (best: Match)
    requires |mch| == n && dp.Length == n + 1 && i < n
    ensures BestOk(mch, dp[..], best, n, i)
    ensures best.len > 0 ==> MIN_MATCH <= best.len && i + best.len <= n
  {
    best := Match(0, 0);
    if mch[i].len >= MIN_MATCH {
      var lim := Limit(mch[i], n, i);
      var cost := NO_COST;
      var l := MIN_MATCH;
      while l <= lim
        invariant MIN_MATCH <= l
        invariant if best == Match(0, 0) then cost == NO_COST
                  else && best.off == mch[i].off && MIN_MATCH <= best.len <= lim
                       && cost == Wrap(MatchCost(best.len, best.off) + dp[i + best.len])
        invariant forall k :: MIN_MATCH <= k < l && k <= lim ==> cost <= Wrap(MatchCost(k, mch[i].off) + dp[i + k])
      {
        var c := Wrap(MatchCost(l, mch[i].off) + dp[i + l]);
        if c < cost {
          cost, best := c, Match(l, mch[i].off);
        }
        l := l + 1;
      }
    }
  }

  /** The loop over literal counts: the cheapest way on from i. */
  method CheapestWay(dp: array<nat>, best: array<Match>, n: nat, i: nat) returns (cost: nat, pick: Pick)
    requires best.Length == n && dp.Length == n + 1 && i < n && InBounds(best[..], n)
    ensures WayOk(dp[..], best[..], n, i, cost, pick)
  {
    ghost var d, b := dp[..], best[..];
    cost, pick := NO_COST, Pick(0, 0, 0);
    if n - i <= MAX_LIT {
      cost, pick := LitCost(n - i), Pick(n - i, 0, 0);
    }
    var lit := 0;
    while i + lit < n && lit <= MAX_LIT
      invariant i + lit <= n && lit <= MAX_LIT + 1 && WayUpTo(d, b, n, i, lit, cost, pick)
    {
      var m := best[i + lit];
      assert m == b[i + lit];
      if m.len > 0 {
        var c := Wrap(LitCost(lit) + MatchCost(m.len, m.off) + dp[i + lit + m.len]);
        assert c == Via(d, b, n, i, lit);
        if c < cost {
          cost, pick := c, Pick(lit, m.len, m.off);
        }
      } else {
      }
      lit := lit + 1;
    }
  }

  /** The backward loop. */
  method Solve(mch: seq<Match>) returns (dp: seq<nat>, best: seq<Match>, pick: seq<Pick>)
    ensures Solved(mch, dp, best, pick, |mch|)
  {
    var n := |mch|;
    var costs := new nat[n + 1](_ => 0);
    var bests := new Match[n](_ => Match(0, 0));
    var picks := new Pick[n + 1](_ => Pick(0, 0, 0));
    var i := n;
    while i > 0
      invariant 0 <= i <= n && costs[n] == 0
      invariant Shaped(mch, costs[..], bests[..], picks[..], n)
      invariant forall k: nat :: i <= k < n ==> SolvedAt(mch, costs[..], bests[..], picks[..], n, k)
    {
      i := i - 1;
      SolveOne(mch, costs, bests, picks, n, i);
    }
    dp, best, pick := costs[..], bests[..], picks[..];
  }

  /** One turn of the backward loop: fills in position i. */
  method SolveOne(mch: seq<Match>, costs: array<nat>, bests: array<Match>, picks: array<Pick>, n: nat, i: nat)
    requires costs.Length == picks.Length == n + 1 && bests.Length == n && i < n
    requires Shaped(mch, costs[..], bests[..], picks[..], n)
    requires forall k: nat :: i < k < n ==> SolvedAt(mch, costs[..], bests[..], picks[..], n, k)
    modifies costs, bests, picks
    ensures costs[n] == old(costs[n])
    ensures Shaped(mch, costs[..], bests[..], picks[..], n)
    ensures forall k: nat :: i <= k < n ==> SolvedAt(mch, costs[..], bests[..], picks[..], n, k)
  {
    ghost var d, b, p := costs[..], bests[..], picks[..];
    var m := CheapestLength(mch, costs, n, i);
    bests[i] := m;
    ghost var b1 := bests[..];
    assert b1 == b[i := m];
    var cost, pick := CheapestWay(costs, bests, n, i);
    costs[i], picks[i] := cost, pick;
    ghost var d1, p1 := costs[..], picks[..];
    assert d1 == d[i := cost] && p1 == p[i := pick];
    forall k: nat | i < k < n ensures SolvedAt(mch, d1, b1, p1, n, k) {
      SolvedAtLater(mch, d, b, p, d1, b1, p1, n, k);
    }
    SolvedHere(mch, d, d1, b1, p1, n, i, cost, pick);
  }

  lemma {:induction false} SolvedHere(mch: seq<Match>, d: seq<nat>, d1: seq<nat>, b1: seq<Match>, p1: seq<Pick>, n: nat,
                                      i: nat, cost: nat, pick: Pick)
    requires i < n && |d| == n + 1 && Shaped(mch, d1, b1, p1, n) && d1 == d[i := cost] && p1[i] == pick
    requires BestOk(mch, d, b1[i], n, i) && WayOk(d, b1, n, i, cost, pick)
    ensures SolvedAt(mch, d1, b1, p1, n, i)
  {
    assert forall lit :: 0 <= lit && i + lit < n && b1[i + lit].len > 0 ==>
             Via(d1, b1, n, i, lit) == Via(d, b1, n, i, lit);
  }

  // ----- Emission and the packer

  /** limlzpack: None is its return value 0.  What it returns decompresses to the source and has exactly
      the computed length.  The way it chose costs least among all ways with the found matches, where
      running into a stuck position counts as -1; packing succeeds exactly if that way is complete and
      its length within the capacity, for which twice the source is enough; it is complete without
      stuck positions. */
  method Pack(src: seq<byte>, capacity: nat)
    returns (r: Option<seq<byte>>, ghost mch: seq<Match>, ghost dp: seq<nat>, ghost pick: seq<Pick>)
    requires |src| < 0x1000_0000_0000_0000
    ensures r.Some? ==> Decode(r.value) == Some(src) && 0 < |r.value| <= capacity
    ensures |dp| == |pick| == |src| + 1 && FoundMatches(src, mch)
    ensures r.Some? ==> |r.value| == dp[0] + if EndsInMatch(pick, |src|, 0) then 1 else 0
    ensures Cheapest(Chosen(pick, |src|, 0), mch) && ParseCost(Chosen(pick, |src|, 0), mch, 0) == Worth(dp[0])
    ensures r.Some? <==> && Complete(Chosen(pick, |src|, 0))
                         && dp[0] + (if EndsInMatch(pick, |src|, 0) then 1 else 0) <= capacity
    ensures 0 < 2 * |src| <= capacity ==> (r.Some? <==> Complete(Chosen(pick, |src|, 0)))
    ensures (forall i: nat :: !Stuck(mch, i)) && 0 < 2 * |src| <= capacity ==> r.Some?
    ensures CompleteWins(mch) && 0 < 2 * |src| <= capacity ==> r.Some?
    ensures DeadEndWins(mch) ==> r.None?
  {
    ghost var best: seq<Match>;
    if src == [] {
      mch, dp, pick := [], [0], [Pick(0, 0, 0)];
      r := if capacity < 1 then None else Some([0]);
      EmptyFacts(pick);
      return;
    }
    var found := LongestMatches(src);
    var costs, kept, choice := Solve(found);
    mch, dp, best, pick := found, costs, kept, choice;
    r := EmitAll(src, choice, capacity);
    PackFacts(src, mch, dp, best, pick);
    WhoWins(Chosen(pick, |src|, 0), mch);
  }

  lemma {:induction false} EmptyFacts(pick: seq<Pick>)
    requires pick == [Pick(0, 0, 0)]
    ensures Decode([0]) == Some([]) && FoundMatches([], [])
    ensures Cheapest(Chosen(pick, 0, 0), []) && ParseCost(Chosen(pick, 0, 0), [], 0) == 0 && !DeadEndWins([])
  {
    RoundTrip([], pick, [0]);
    forall p | ValidParse(p, [], 0) ensures p == AtEnd {
    }
    assert IsSuffixArray([], []) && AllBest([], [], []);
  }

  lemma {:induction false} PackFacts(src: seq<byte>, mch: seq<Match>, dp: seq<nat>, best: seq<Match>, pick: seq<Pick>)
    requires GoodMatches(src, mch) && Solved(mch, dp, best, pick, |src|) && 0 < |src| < 0x1000_0000_0000_0000
    ensures Emit(src, pick, 0).Some? ==>
              var e := Emit(src, pick, 0).value;
              && Decode(e) == Some(src) && 0 < |e| <= 2 * |src|
              && |e| == dp[0] + if EndsInMatch(pick, |src|, 0) then 1 else 0
    ensures Emit(src, pick, 0).Some? <==> Complete(Chosen(pick, |src|, 0))
    ensures Cheapest(Chosen(pick, |src|, 0), mch) && ParseCost(Chosen(pick, |src|, 0), mch, 0) == Worth(dp[0])
  {
    CompleteEmits(src, mch, dp, best, pick, 0);
    ChosenIsCheapest(mch, dp, best, pick);
    if Emit(src, pick, 0).Some? {
      SolvedPicksAreGood(src, mch, dp, best, pick);
      RoundTrip(src, pick, Emit(src, pick, 0).value);
      EmitNotEmpty(src, pick, 0);
      EmittedLength(src, mch, dp, best, pick, 0);
    }
  }

  /** out is what has been emitted when the loop stands at position i. */
  ghost predicate Continues(src: seq<byte>, pick: seq<Pick>, out: seq<byte>, i: nat)
    requires |pick| == |src| + 1
  {
    Emit(src, pick, 0) == if Emit(src, pick, i).None? then None else Some(out + Emit(src, pick, i).value)
  }

  lemma {:induction false} ContinuesStart(src: seq<byte>, pick: seq<Pick>)
    requires |pick| == |src| + 1
    ensures Continues(src, pick, [], 0)
  {
    if Emit(src, pick, 0).Some? {
      assert [] + Emit(src, pick, 0).value == Emit(src, pick, 0).value;
    }
  }

  lemma {:induction false} ContinuesStep(src: seq<byte>, pick: seq<Pick>, out: seq<byte>, i: nat, p: Pick)
    requires |pick| == |src| + 1 && i < |src| && p == pick[i] && Continues(src, pick, out, i) && PickGoes(src, i, p)
    ensures i + p.lit == |src| ==> Emit(src, pick, 0) == Some(out + LastBytes(src, i, p.lit))
    ensures i + p.lit < |src| ==> Continues(src, pick, out + TokenBytes(src, i, p), i + p.lit + p.mlen)
    ensures i + p.lit < |src| && Emit(src, pick, 0).Some? ==>
              |Emit(src, pick, 0).value| > |out| + |TokenBytes(src, i, p)|
  {
    if i + p.lit < |src| {
      var rest := Emit(src, pick, i + p.lit + p.mlen);
      if rest.Some? {
        Assoc(out, TokenBytes(src, i, p), rest.value);
        EmitNotEmpty(src, pick, i + p.lit + p.mlen);
      }
    }
  }

  lemma {:induction false} EmitNotEmpty(src: seq<byte>, pick: seq<Pick>, i: nat)
    requires |pick| == |src| + 1 && Emit(src, pick, i).Some?
    ensures |Emit(src, pick, i).value| > 0
  {
  }

  /** Writes one piece if there is room. */
  method Put(out: seq<byte>, capacity: nat, piece: seq<byte>) returns (ok: bool, out': seq<byte>)
    ensures ok <==> |out| + |piece| <= capacity
    ensures ok ==> out' == out + piece
  {
    ok, out' := |out| + |piece| <= capacity, out + piece;
  }

  /** Writes the token byte as a placeholder, the length tail and the literals. */
  method PutLiterals(src: seq<byte>, i: nat, lit: nat, out: seq<byte>, capacity: nat)
    returns (ok: bool, out': seq<byte>)
    requires i + lit <= |src|
    ensures ok <==> |out| + 1 + |LitTail(lit)| + lit <= capacity
    ensures ok ==> out' == out + [0] + LitTail(lit) + src[i..i + lit]
  {
    ok, out' := Put(out, capacity, [0]);
    if ok && lit >= 15 {
      ok, out' := Put(out', capacity, [Low(lit - 15)]);
    }
    if ok {
      ok, out' := Put(out', capacity, src[i..i + lit]);
    }
  }

  /** Writes the offset and the length tail of a match. */
  method PutMatch(p: Pick, out: seq<byte>, capacity: nat) returns (ok: bool, out': seq<byte>)
    requires p.mlen >= MIN_MATCH
    ensures ok <==> |out| + |OffsetBytes(p.off)| + |MatchTail(p.mlen - 4)| <= capacity
    ensures ok ==> out' == out + OffsetBytes(p.off) + MatchTail(p.mlen - 4)
  {
    ok, out' := Put(out, capacity, OffsetBytes(p.off));
    if ok && p.mlen - 4 >= 7 {
      ok, out' := Put(out', capacity, [Low(p.mlen - 4 - 7)]);
    }
  }

  /** Writes one token, filling in its first byte when the rest is known. */
  method PutToken(src: seq<byte>, i: nat, p: Pick, out: seq<byte>, capacity: nat) returns (ok: bool, out': seq<byte>)
    requires PickGoes(src, i, p)
    ensures var piece := if i + p.lit == |src| then LastBytes(src, i, p.lit) else TokenBytes(src, i, p);
            (ok <==> |out| + |piece| <= capacity) && (ok ==> out' == out + piece)
  {
    var at := |out|;
    ok, out' := PutLiterals(src, i, p.lit, out, capacity);
    if !ok { return; }
    if i + p.lit == |src| {
      Patch(out, LitTail(p.lit), src[i..i + p.lit], Low(8 * Nibble(p.lit)));
      out' := out'[at := Low(8 * Nibble(p.lit))];
    } else {
      var token := Token(p.lit, p.mlen, p.off);
      Patch(out, LitTail(p.lit), src[i..i + p.lit], token);
      out' := out'[at := token];
      ok, out' := PutMatch(p, out', capacity);
    }
  }

  lemma {:induction false} Patch(out: seq<byte>, a: seq<byte>, b: seq<byte>, token: byte)
    ensures (out + [0] + a + b)[|out| := token] == out + ([token] + a + b)
  {
  }

  /** The emission loop: writes what Emit says if it fits, and fails otherwise. */
  method EmitAll(src: seq<byte>, pick: seq<Pick>, capacity: nat) returns (r: Option<seq<byte>>)
    requires |pick| == |src| + 1
    ensures r.Some? <==> Emit(src, pick, 0).Some? && |Emit(src, pick, 0).value| <= capacity
    ensures r.Some? ==> r == Emit(src, pick, 0)
  {
    var out: seq<byte> := [];
    var terminated := false;
    var i := 0;
    ContinuesStart(src, pick);
    while i < |src| && !terminated
      invariant |out| <= capacity
      invariant if terminated then Emit(src, pick, 0) == Some(out) else Continues(src, pick, out, i)
      decreases !terminated, |src| - i
    {
      var p := pick[i];
      if !PickGoes(src, i, p) {
        return None;
      }
      ContinuesStep(src, pick, out, i, p);
      var ok;
      ok, out := PutToken(src, i, p, out, capacity);
      if !ok {
        return None;
      }
      if i + p.lit == |src| {
        terminated := true;
      }
      i := i + p.lit + p.mlen;
    }
    if !terminated {
      var ok;
      ok, out := Put(out, capacity, [0]);
      if !ok {
        return None;
      }
    }
    r := Some(out);
  }
}
