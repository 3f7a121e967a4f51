/**
 The packer's choice of tokens (limlzpack in tools/limlzpack.c): what its backward dynamic
 program computes, why its choices can be emitted, and why they cost least.
 */
module LimlzParse {
  import opened Bytes
  import opened LimlzFormat
  import opened Wrappers

  /** (size_t)-1, the cost of a position from which no parse was found. */
  const NO_COST: nat := 0xffff_ffff_ffff_ffff

  /** size_t arithmetic wraps. */
  function Wrap(n: nat): nat { n % U64 }

  datatype Match = Match(len: nat, off: nat)

  function OffsetCost(off: nat): nat { if off > 255 then 2 else 1 }

  function LitCost(lit: nat): nat { 1 + lit + if lit >= 15 then 1 else 0 }

  function MatchCost(len: nat, off: nat): nat { OffsetCost(off) + if len >= 11 then 1 else 0 }

  /** The longest match the format can use at a position. */
  function Limit(m: Match, n: nat, i: nat): nat
    requires i <= n
  {
    Min(Min(m.len, MAX_MATCH), n - i)
  }

  // ----- What the program stores

  /** bestm[i]: the cheapest length at which the match found at i can be used. */
  ghost predicate BestOk(mch: seq<Match>, dp: seq<nat>, best: Match, n: nat, i: nat)
    requires |mch| == n && |dp| == n + 1 && i < n
  {
    if mch[i].len < MIN_MATCH then best == Match(0, 0)
    else
      && (best == Match(0, 0) || (best.off == mch[i].off && MIN_MATCH <= best.len <= Limit(mch[i], n, i)))
      && (forall l :: MIN_MATCH <= l <= Limit(mch[i], n, i) ==>
            (if best.len == 0 then NO_COST else Wrap(MatchCost(best.len, best.off) + dp[i + best.len]))
            <= Wrap(MatchCost(l, mch[i].off) + dp[i + l]))
  }

  /** The cost of lit literals and then the match at i + lit. */
  function Via(dp: seq<nat>, best: seq<Match>, n: nat, i: nat, lit: nat): nat {
    if |dp| == n + 1 && |best| == n && i + lit < n && i + lit + best[i + lit].len <= n
    then Wrap(LitCost(lit) + MatchCost(best[i + lit].len, best[i + lit].off) + dp[i + lit + best[i + lit].len])
    else NO_COST
  }

  /** The cost of ending with literals. */
  function EndCost(n: nat, i: nat): nat
    requires i <= n
  {
    if n - i <= MAX_LIT then LitCost(n - i) else NO_COST
  }

  ghost predicate InBounds(best: seq<Match>, n: nat) {
    |best| == n && forall j :: 0 <= j < n && best[j].len > 0 ==> MIN_MATCH <= best[j].len && j + best[j].len <= n
  }

  /** cost is at most that of ending here and of every match behind fewer than k literals. */
  ghost predicate NoneCheaper(dp: seq<nat>, best: seq<Match>, n: nat, i: nat, k: nat, cost: nat)
    requires |dp| == n + 1 && |best| == n && i < n
  {
    && cost <= EndCost(n, i)
    && forall lit :: 0 <= lit < k && lit <= MAX_LIT && i + lit < n && best[i + lit].len > 0 ==>
         cost <= Via(dp, best, n, i, lit)
  }

  /** pick is a way that has this cost. */
  ghost predicate PickCosts(dp: seq<nat>, best: seq<Match>, n: nat, i: nat, cost: nat, pick: Pick)
    requires |dp| == n + 1 && |best| == n && i < n
  {
    || (pick == Pick(n - i, 0, 0) && n - i <= MAX_LIT && cost == EndCost(n, i))
    || (pick == Pick(0, 0, 0) && n - i > MAX_LIT && cost == NO_COST)
    || (&& pick.lit <= MAX_LIT && i + pick.lit < n && best[i + pick.lit] == Match(pick.mlen, pick.off)
        && pick.mlen > 0 && cost == Via(dp, best, n, i, pick.lit) && cost != NO_COST)
  }

  /** The least cost over the first k literal counts, and a way that has it. */
  ghost predicate WayUpTo(dp: seq<nat>, best: seq<Match>, n: nat, i: nat, k: nat, cost: nat, pick: Pick)
    requires |dp| == n + 1 && |best| == n && i < n
  {
    NoneCheaper(dp, best, n, i, k, cost) && PickCosts(dp, best, n, i, cost, pick)
  }

  ghost predicate WayOk(dp: seq<nat>, best: seq<Match>, n: nat, i: nat, cost: nat, pick: Pick)
    requires |dp| == n + 1 && |best| == n && i < n
  {
    WayUpTo(dp, best, n, i, MAX_LIT + 1, cost, pick)
  }

  /** The tables have the right shape. */
  ghost predicate Shaped(mch: seq<Match>, dp: seq<nat>, best: seq<Match>, pick: seq<Pick>, n: nat) {
    |mch| == n && |dp| == n + 1 && |pick| == n + 1 && InBounds(best, n)
  }

  ghost predicate SolvedAt(mch: seq<Match>, dp: seq<nat>, best: seq<Match>, pick: seq<Pick>, n: nat, i: nat) {
    i < n && Shaped(mch, dp, best, pick, n) && BestOk(mch, dp, best[i], n, i) && WayOk(dp, best, n, i, dp[i], pick[i])
  }

  /** An entry looks at later entries only. */
  lemma {:induction false} SolvedAtLater(mch: seq<Match>, dp: seq<nat>, best: seq<Match>, pick: seq<Pick>,
                                         dp': seq<nat>, best': seq<Match>, pick': seq<Pick>, n: nat, i: nat)
    requires SolvedAt(mch, dp, best, pick, n, i) && Shaped(mch, dp', best', pick', n)
    requires forall k :: i <= k < n ==> best'[k] == best[k]
    requires forall k :: i <= k <= n ==> dp'[k] == dp[k]
    requires pick'[i] == pick[i]
    ensures SolvedAt(mch, dp', best', pick', n, i)
  {
    assert forall lit :: 0 <= lit && i + lit < n ==> Via(dp', best', n, i, lit) == Via(dp, best, n, i, lit);
  }

  /** The tables of the program, complete. */
  ghost predicate Solved(mch: seq<Match>, dp: seq<nat>, best: seq<Match>, pick: seq<Pick>, n: nat) {
    && Shaped(mch, dp, best, pick, n) && dp[n] == 0
    && (forall i: nat :: i < n ==> SolvedAt(mch, dp, best, pick, n, i))
  }

  /** What longest_matches finds. */
  ghost predicate GoodMatches(src: seq<byte>, mch: seq<Match>) {
    |mch| == |src| && forall i :: 0 <= i < |src| && mch[i].len >= MIN_MATCH ==>
      mch[i].off <= MAX_OFFSET && MatchAt(src, i, mch[i].off, mch[i].len)
  }

  // ----- The choices can be emitted

  lemma {:induction false} SolvedPicksAreGood(src: seq<byte>, mch: seq<Match>, dp: seq<nat>, best: seq<Match>,
                                              pick: seq<Pick>)
    requires GoodMatches(src, mch) && Solved(mch, dp, best, pick, |src|)
    ensures GoodPicks(src, pick)
  {
    forall i | 0 <= i < |src| && PickGoes(src, i, pick[i]) ensures GoodPick(src, i, pick[i]) {
      assert SolvedAt(mch, dp, best, pick, |src|, i);
      if i + pick[i].lit < |src| {
        assert SolvedAt(mch, dp, best, pick, |src|, i + pick[i].lit);
      }
    }
  }

  /** The parse from i on ends in a match, so that a final token follows. */
  ghost predicate EndsInMatch(pick: seq<Pick>, n: nat, i: nat)
    requires |pick| > n
    decreases n - i
  {
    if i >= n then true
    else if i + pick[i].lit >= n || pick[i].mlen == 0 then false
    else EndsInMatch(pick, n, i + pick[i].lit + pick[i].mlen)
  }

  // ----- Costs

  /** No token can start here: the end is too far for literals, and no match begins within their reach. */
  ghost predicate Stuck(mch: seq<Match>, i: nat) {
    i + MAX_LIT < |mch| && forall j: nat :: i <= j <= i + MAX_LIT ==> !CanMatch(mch, j)
  }

  ghost predicate CanMatch(mch: seq<Match>, j: nat) {
    j + MIN_MATCH <= |mch| && mch[j].len >= MIN_MATCH
  }

  /** What a stored cost is worth in a sum that wraps: (size_t)-1 is -1. */
  function Worth(d: nat): int { if d == NO_COST then -1 else d }

  /** A cost that has not run into the wrap-around, or the mark of a stuck position. */
  ghost predicate Sound(d: nat, left: nat) {
    d == NO_COST || d <= 2 * left
  }

  lemma {:induction false} WrapIsWorth(c: nat, d: nat, left: nat)
    requires 0 < c < 0x1_0000_0000 && Sound(d, left) && left < 0x1000_0000_0000_0000
    ensures Wrap(c + d) == c + Worth(d) < NO_COST
  {
  }

  /** The cost of a match is the plain sum, with -1 for a position from which no parse was found. */
  lemma {:induction false} ViaIsSum(dp: seq<nat>, best: seq<Match>, n: nat, i: nat, lit: nat)
    requires InBounds(best, n) && |dp| == n + 1 && i + lit < n < 0x1000_0000_0000_0000
    requires best[i + lit].len > 0 && lit <= MAX_LIT
    requires Sound(dp[i + lit + best[i + lit].len], n - (i + lit + best[i + lit].len))
    ensures var m := best[i + lit];
            && Via(dp, best, n, i, lit) == LitCost(lit) + MatchCost(m.len, m.off) + Worth(dp[i + lit + m.len])
            && Via(dp, best, n, i, lit) <= 2 * (n - i) < NO_COST
  {
    var m := best[i + lit];
    WrapIsWorth(LitCost(lit) + MatchCost(m.len, m.off), dp[i + lit + m.len], n - (i + lit + m.len));
  }

  /** The program keeps a match exactly where one can be used. */
  lemma {:induction false} BestIsThere(mch: seq<Match>, dp: seq<nat>, best: seq<Match>, n: nat, j: nat)
    requires |mch| == |best| == n && |dp| == n + 1 && j < n < 0x1000_0000_0000_0000
    requires BestOk(mch, dp, best[j], n, j) && forall k :: j < k <= n ==> Sound(dp[k], n - k)
    ensures best[j].len > 0 <==> CanMatch(mch, j)
  {
    if CanMatch(mch, j) {
      WrapIsWorth(MatchCost(MIN_MATCH, mch[j].off), dp[j + MIN_MATCH], n - (j + MIN_MATCH));
    }
  }

  /** One position, when the costs behind it are known to be sound. */
  lemma {:induction false} SoundHere(mch: seq<Match>, dp: seq<nat>, best: seq<Match>, pick: seq<Pick>, n: nat, i: nat)
    requires Solved(mch, dp, best, pick, n) && i < n < 0x1000_0000_0000_0000
    requires forall k :: i < k <= n ==> Sound(dp[k], n - k)
    ensures Sound(dp[i], n - i) && (dp[i] == NO_COST <==> Stuck(mch, i))
  {
    assert SolvedAt(mch, dp, best, pick, n, i);
    forall j: nat | i <= j <= i + MAX_LIT && j < n ensures ReachOk(mch, dp, best, n, i, j) {
      assert SolvedAt(mch, dp, best, pick, n, j);
      ReachHere(mch, dp, best, n, i, j);
    }
    StuckHere(mch, dp, best, n, i, dp[i], pick[i]);
  }

  /** A match at j is kept if there is one, and reaching it from i has a plain cost. */
  ghost predicate ReachOk(mch: seq<Match>, dp: seq<nat>, best: seq<Match>, n: nat, i: nat, j: nat)
    requires |best| == n && i <= j < n
  {
    && (best[j].len > 0 <==> CanMatch(mch, j))
    && (best[j].len > 0 ==> Via(dp, best, n, i, j - i) <= 2 * (n - i) < NO_COST)
  }

  lemma {:induction false} ReachHere(mch: seq<Match>, dp: seq<nat>, best: seq<Match>, n: nat, i: nat, j: nat)
    requires |mch| == n && InBounds(best, n) && |dp| == n + 1 && i <= j < n < 0x1000_0000_0000_0000 && j <= i + MAX_LIT
    requires BestOk(mch, dp, best[j], n, j) && forall k :: i < k <= n ==> Sound(dp[k], n - k)
    ensures ReachOk(mch, dp, best, n, i, j)
  {
    BestIsThere(mch, dp, best, n, j);
    if best[j].len > 0 {
      ViaIsSum(dp, best, n, i, j - i);
    }
  }

  lemma {:induction false} StuckHere(mch: seq<Match>, dp: seq<nat>, best: seq<Match>, n: nat, i: nat, cost: nat,
                                     p: Pick)
    requires |mch| == n && InBounds(best, n) && |dp| == n + 1 && i < n < 0x1000_0000_0000_0000
    requires WayOk(dp, best, n, i, cost, p)
    requires forall j: nat :: i <= j <= i + MAX_LIT && j < n ==> ReachOk(mch, dp, best, n, i, j)
    ensures Sound(cost, n - i) && (cost == NO_COST <==> Stuck(mch, i))
  {
    if p.mlen > 0 {
      assert ReachOk(mch, dp, best, n, i, i + p.lit);
    } else if cost == NO_COST {
      forall j: nat | i <= j <= i + MAX_LIT ensures !CanMatch(mch, j) {
        assert ReachOk(mch, dp, best, n, i, i + (j - i));
      }
    }
  }

  /** Every cost is at most two bytes per source byte, or marks a stuck position. */
  lemma {:induction false} AllSound(mch: seq<Match>, dp: seq<nat>, best: seq<Match>, pick: seq<Pick>, n: nat, i: nat)
    requires Solved(mch, dp, best, pick, n) && i <= n < 0x1000_0000_0000_0000
    ensures forall k :: i <= k <= n ==> Sound(dp[k], n - k) && (dp[k] == NO_COST <==> Stuck(mch, k))
    decreases n - i
  {
    if i < n {
      AllSound(mch, dp, best, pick, n, i + 1);
      SoundHere(mch, dp, best, pick, n, i);
    }
  }

  // ----- The emitted length

  lemma {:induction false} TokenLength(src: seq<byte>, i: nat, p: Pick)
    requires i + p.lit <= |src| && p.mlen >= MIN_MATCH
    ensures |TokenBytes(src, i, p)| == LitCost(p.lit) + MatchCost(p.mlen, p.off)
  {
  }

  /** Where a token is emitted, its match is the one the program chose there and its cost is the least. */
  lemma {:induction false} PickedStep(mch: seq<Match>, dp: seq<nat>, best: seq<Match>, pick: seq<Pick>, n: nat, i: nat)
    requires SolvedAt(mch, dp, best, pick, n, i) && i + pick[i].lit < n && pick[i].mlen >= MIN_MATCH
    ensures var p := pick[i];
            && best[i + p.lit] == Match(p.mlen, p.off) && i + p.lit + p.mlen <= n
            && dp[i] == Via(dp, best, n, i, p.lit)
  {
  }

  /** The stream from i on has this length, and one more if the parse ends in a match. */
  ghost predicate LengthIs(src: seq<byte>, pick: seq<Pick>, i: nat, cost: nat)
    requires |pick| > |src|
  {
    Emit(src, pick, i).Some? ==> |Emit(src, pick, i).value| == cost + if EndsInMatch(pick, |src|, i) then 1 else 0
  }

  lemma {:induction false} LengthStep(src: seq<byte>, pick: seq<Pick>, i: nat, cost: nat)
    requires |pick| > |src| && i < |src| && i + pick[i].lit < |src| && pick[i].mlen >= MIN_MATCH
    requires LengthIs(src, pick, i + pick[i].lit + pick[i].mlen, cost)
    ensures LengthIs(src, pick, i, LitCost(pick[i].lit) + MatchCost(pick[i].mlen, pick[i].off) + cost)
  {
    TokenLength(src, i, pick[i]);
  }

  lemma {:induction false} LengthHere(src: seq<byte>, mch: seq<Match>, dp: seq<nat>, best: seq<Match>, pick: seq<Pick>,
                                      i: nat)
    requires SolvedAt(mch, dp, best, pick, |src|, i) && |src| < 0x1000_0000_0000_0000
    requires i + pick[i].lit == |src| || (i + pick[i].lit < |src| && pick[i].mlen >= MIN_MATCH)
    requires i + pick[i].lit < |src| ==> Follows(src, dp, pick, i + pick[i].lit + pick[i].mlen)
    ensures Follows(src, dp, pick, i)
  {
    var p := pick[i];
    if i + p.lit < |src| {
      PickedStep(mch, dp, best, pick, |src|, i);
      ViaIsSum(dp, best, |src|, i, p.lit);
      LengthStep(src, pick, i, dp[i + p.lit + p.mlen]);
    } else {
    }
  }

  ghost predicate Follows(src: seq<byte>, dp: seq<nat>, pick: seq<Pick>, i: nat)
    requires |pick| == |dp| == |src| + 1
  {
    i <= |src| && LengthIs(src, pick, i, dp[i]) && dp[i] <= 2 * (|src| - i)
  }

  /** What can be emitted goes on with literals to the end, or with a token and the rest. */
  lemma {:induction false} EmitGoesOn(src: seq<byte>, pick: seq<Pick>, i: nat)
    requires |pick| > |src| && i < |src| && Emit(src, pick, i).Some?
    ensures var p := pick[i];
            || i + p.lit == |src|
            || (i + p.lit < |src| && p.mlen >= MIN_MATCH && Emit(src, pick, i + p.lit + p.mlen).Some?)
  {
  }

  /** A stream has exactly the length the program computed, one more if the parse ends in a match. */
  lemma {:induction false} EmittedLength(src: seq<byte>, mch: seq<Match>, dp: seq<nat>, best: seq<Match>,
                                         pick: seq<Pick>, i: nat)
    requires Solved(mch, dp, best, pick, |src|) && i <= |src| && |src| < 0x1000_0000_0000_0000
    requires Emit(src, pick, i).Some?
    ensures Follows(src, dp, pick, i)
    decreases |src| - i
  {
    if i < |src| {
      assert SolvedAt(mch, dp, best, pick, |src|, i);
      EmitGoesOn(src, pick, i);
      if i + pick[i].lit < |src| {
        PickedStep(mch, dp, best, pick, |src|, i);
        EmittedLength(src, mch, dp, best, pick, i + pick[i].lit + pick[i].mlen);
      }
      LengthHere(src, mch, dp, best, pick, i);
    }
  }

  // ----- Optimality

  /** A match at j can be used at this length. */
  predicate Permitted(mch: seq<Match>, j: nat, len: nat) {
    j < |mch| && 4 <= len <= mch[j].len && len <= 266 && j + len <= |mch|
  }

  /** A way on from some position: literals to the end, or literals and a match and the rest.  It may
      run into a stuck position. */
  datatype Parse = AtEnd | LastLits(lit: nat) | Step(lit: nat, len: nat, rest: Parse) | GivenUp

  ghost predicate ValidParse(p: Parse, mch: seq<Match>, i: nat)
    decreases p
  {
    match p
    case AtEnd => i == |mch|
    case LastLits(lit) => i < |mch| && i + lit == |mch| && lit <= 270
    case GivenUp => Stuck(mch, i)
    case Step(lit, len, rest) =>
      lit <= 270 && Permitted(mch, i + lit, len) && ValidParse(rest, mch, i + lit + len)
  }

  /** The parse reaches the end. */
  predicate Complete(p: Parse) {
    match p
    case AtEnd => true
    case LastLits(_) => true
    case GivenUp => false
    case Step(_, _, rest) => Complete(rest)
  }

  /** The bytes the parse takes; running into a stuck position counts as -1. */
  ghost function ParseCost(p: Parse, mch: seq<Match>, i: nat): int
    requires ValidParse(p, mch, i)
    decreases p
  {
    match p
    case AtEnd => 0
    case LastLits(lit) => LitCost(lit)
    case GivenUp => -1
    case Step(lit, len, rest) =>
      LitCost(lit) + MatchCost(len, mch[i + lit].off) + ParseCost(rest, mch, i + lit + len)
  }

  /** Without stuck positions every parse is complete. */
  lemma {:induction false} NoneStuckCompletes(p: Parse, mch: seq<Match>, i: nat)
    requires ValidParse(p, mch, i) && forall k: nat :: !Stuck(mch, k)
    ensures Complete(p)
    decreases p
  {
    if p.Step? {
      NoneStuckCompletes(p.rest, mch, i + p.lit + p.len);
    }
  }

  /** A complete parse of anything costs two bytes at least. */
  lemma {:induction false} CompleteCosts(p: Parse, mch: seq<Match>, i: nat)
    requires ValidParse(p, mch, i) && Complete(p)
    ensures ParseCost(p, mch, i) >= if i < |mch| then 2 else 0
    decreases p
  {
    if p.Step? {
      CompleteCosts(p.rest, mch, i + p.lit + p.len);
    }
  }

  /** The match kept at j costs no more than the one found there at any permitted length. */
  lemma {:induction false} BestIsCheapest(mch: seq<Match>, dp: seq<nat>, best: seq<Match>, pick: seq<Pick>, n: nat,
                                          j: nat, len: nat)
    requires Solved(mch, dp, best, pick, n) && j < n < 0x1000_0000_0000_0000
    requires Permitted(mch, j, len)
    ensures best[j].len > 0
    ensures MatchCost(best[j].len, best[j].off) + Worth(dp[j + best[j].len]) <=
              MatchCost(len, mch[j].off) + Worth(dp[j + len])
  {
    assert SolvedAt(mch, dp, best, pick, n, j);
    AllSound(mch, dp, best, pick, n, j);
    BestIsThere(mch, dp, best, n, j);
    WrapIsWorth(MatchCost(len, mch[j].off), dp[j + len], n - (j + len));
    WrapIsWorth(MatchCost(best[j].len, best[j].off), dp[j + best[j].len], n - (j + best[j].len));
  }

  /** The cost at i is at most that of any first step. */
  lemma {:induction false} StepBounds(mch: seq<Match>, dp: seq<nat>, best: seq<Match>, pick: seq<Pick>, i: nat,
                                      lit: nat, len: nat)
    requires Solved(mch, dp, best, pick, |mch|) && i < |mch| < 0x1000_0000_0000_0000 && lit <= MAX_LIT
    requires Permitted(mch, i + lit, len)
    ensures Worth(dp[i]) <= LitCost(lit) + MatchCost(len, mch[i + lit].off) + Worth(dp[i + lit + len])
  {
    var n := |mch|;
    assert SolvedAt(mch, dp, best, pick, n, i);
    BestIsCheapest(mch, dp, best, pick, n, i + lit, len);
    AllSound(mch, dp, best, pick, n, i);
    ViaIsSum(dp, best, n, i, lit);
    assert dp[i] <= Via(dp, best, n, i, lit);
  }

  lemma {:induction false} EndBounds(mch: seq<Match>, dp: seq<nat>, best: seq<Match>, pick: seq<Pick>, i: nat)
    requires Solved(mch, dp, best, pick, |mch|) && i < |mch| <= i + MAX_LIT
    ensures Worth(dp[i]) <= LitCost(|mch| - i)
  {
    assert SolvedAt(mch, dp, best, pick, |mch|, i);
  }

  /** The choice at i is a step whose cost is the stored one, or the mark of a stuck position. */
  ghost predicate Attains(mch: seq<Match>, dp: seq<nat>, p: Pick, i: nat)
    requires |dp| == |mch| + 1 && i < |mch|
  {
    if p.mlen == 0 then
      || (i + p.lit == |mch| && p.lit <= MAX_LIT && Worth(dp[i]) == LitCost(p.lit))
      || (p.lit == 0 && Stuck(mch, i) && Worth(dp[i]) == -1)
    else
      && p.lit <= MAX_LIT && Permitted(mch, i + p.lit, p.mlen) && p.off == mch[i + p.lit].off
      && Worth(dp[i]) == LitCost(p.lit) + MatchCost(p.mlen, p.off) + Worth(dp[i + p.lit + p.mlen])
  }

  lemma {:induction false} MatchAttains(mch: seq<Match>, dp: seq<nat>, best: seq<Match>, pick: seq<Pick>, i: nat)
    requires i < |mch| < 0x1000_0000_0000_0000 && Shaped(mch, dp, best, pick, |mch|) && pick[i].mlen > 0
    requires PickCosts(dp, best, |mch|, i, dp[i], pick[i])
             && BestOk(mch, dp, best[i + pick[i].lit], |mch|, i + pick[i].lit)
    requires Sound(dp[i + pick[i].lit + pick[i].mlen], |mch| - (i + pick[i].lit + pick[i].mlen))
    ensures Attains(mch, dp, pick[i], i)
  {
    ViaIsSum(dp, best, |mch|, i, pick[i].lit);
  }

  lemma {:induction false} ChoiceAttains(mch: seq<Match>, dp: seq<nat>, best: seq<Match>, pick: seq<Pick>, n: nat,
                                         i: nat)
    requires Solved(mch, dp, best, pick, n) && i < n < 0x1000_0000_0000_0000
    ensures Attains(mch, dp, pick[i], i)
  {
    assert SolvedAt(mch, dp, best, pick, n, i);
    AllSound(mch, dp, best, pick, n, i);
    if pick[i].mlen > 0 {
      assert SolvedAt(mch, dp, best, pick, n, i + pick[i].lit);
      MatchAttains(mch, dp, best, pick, i);
    }
  }

  /** No way on is cheaper. */
  lemma {:induction false} NoCheaperParse(mch: seq<Match>, dp: seq<nat>, best: seq<Match>, pick: seq<Pick>, p: Parse,
                                          i: nat)
    requires Solved(mch, dp, best, pick, |mch|) && i <= |mch| < 0x1000_0000_0000_0000
    requires ValidParse(p, mch, i)
    ensures Worth(dp[i]) <= ParseCost(p, mch, i)
    decreases p
  {
    match p
    case AtEnd =>
    case LastLits(_) =>
      EndBounds(mch, dp, best, pick, i);
    case GivenUp =>
      AllSound(mch, dp, best, pick, |mch|, i);
    case Step(lit, len, rest) =>
      NoCheaperParse(mch, dp, best, pick, rest, i + lit + len);
      StepBounds(mch, dp, best, pick, i, lit, len);
  }

  /** The way the program chose. */
  ghost function Chosen(pick: seq<Pick>, n: nat, i: nat): Parse
    requires |pick| > n
    decreases n - i
  {
    if i >= n then AtEnd
    else if i + pick[i].lit >= n then LastLits(pick[i].lit)
    else if pick[i].mlen == 0 then GivenUp
    else Step(pick[i].lit, pick[i].mlen, Chosen(pick, n, i + pick[i].lit + pick[i].mlen))
  }

  /** The chosen way is valid and attains the cost. */
  lemma {:induction false} ChosenAttains(mch: seq<Match>, dp: seq<nat>, best: seq<Match>, pick: seq<Pick>, i: nat)
    requires Solved(mch, dp, best, pick, |mch|) && i <= |mch| < 0x1000_0000_0000_0000
    ensures ValidParse(Chosen(pick, |mch|, i), mch, i)
    ensures ParseCost(Chosen(pick, |mch|, i), mch, i) == Worth(dp[i])
    decreases |mch| - i
  {
    var n := |mch|;
    if i < n {
      ChoiceAttains(mch, dp, best, pick, n, i);
      if pick[i].mlen > 0 {
        ChosenAttains(mch, dp, best, pick, i + pick[i].lit + pick[i].mlen);
      }
    }
  }

  /** The emission goes through exactly if the chosen way is complete, and then fits twice the source size. */
  lemma {:induction false} CompleteEmits(src: seq<byte>, mch: seq<Match>, dp: seq<nat>, best: seq<Match>,
                                         pick: seq<Pick>, i: nat)
    requires Solved(mch, dp, best, pick, |src|) && i <= |src| < 0x1000_0000_0000_0000
    ensures Emit(src, pick, i).Some? <==> Complete(Chosen(pick, |src|, i))
    ensures i < |src| && Emit(src, pick, i).Some? ==> |Emit(src, pick, i).value| <= 2 * (|src| - i)
    decreases |src| - i
  {
    if i < |src| {
      ChoiceAttains(mch, dp, best, pick, |src|, i);
      var p := pick[i];
      if p.mlen > 0 {
        CompleteEmits(src, mch, dp, best, pick, i + p.lit + p.mlen);
        TokenLength(src, i, p);
      }
    }
  }

  /** The way costs least, dead ends included. */
  ghost predicate Cheapest(p: Parse, mch: seq<Match>) {
    ValidParse(p, mch, 0) && forall q :: ValidParse(q, mch, 0) ==> ParseCost(p, mch, 0) <= ParseCost(q, mch, 0)
  }

  /** Some dead end is cheaper than every complete parse. */
  ghost predicate DeadEndWins(mch: seq<Match>) {
    exists p :: ValidParse(p, mch, 0) && !Complete(p)
      && forall q :: ValidParse(q, mch, 0) && Complete(q) ==> ParseCost(p, mch, 0) < ParseCost(q, mch, 0)
  }

  /** Some complete parse is cheaper than every dead end. */
  ghost predicate CompleteWins(mch: seq<Match>) {
    exists p :: ValidParse(p, mch, 0) && Complete(p)
      && forall q :: ValidParse(q, mch, 0) && !Complete(q) ==> ParseCost(p, mch, 0) < ParseCost(q, mch, 0)
  }

  /** Without stuck positions a cheapest way is complete; otherwise it is if a complete one is cheaper
      than all dead ends, and is not if a dead end is cheaper than all complete ones. */
  lemma {:induction false} WhoWins(p: Parse, mch: seq<Match>)
    requires Cheapest(p, mch)
    ensures (forall k: nat :: !Stuck(mch, k)) ==> Complete(p)
    ensures CompleteWins(mch) ==> Complete(p)
    ensures DeadEndWins(mch) ==> !Complete(p)
  {
    if forall k: nat :: !Stuck(mch, k) {
      NoneStuckCompletes(p, mch, 0);
    }
  }

  /** The chosen way is a cheapest one. */
  lemma {:induction false} ChosenIsCheapest(mch: seq<Match>, dp: seq<nat>, best: seq<Match>, pick: seq<Pick>)
    requires Solved(mch, dp, best, pick, |mch|) && |mch| < 0x1000_0000_0000_0000
    ensures Cheapest(Chosen(pick, |mch|, 0), mch) && ParseCost(Chosen(pick, |mch|, 0), mch, 0) == Worth(dp[0])
  {
    ChosenAttains(mch, dp, best, pick, 0);
    forall q | ValidParse(q, mch, 0) ensures Worth(dp[0]) <= ParseCost(q, mch, 0) {
      NoCheaperParse(mch, dp, best, pick, q, 0);
    }
  }

  /** Where a short match with a short offset can lead to a stuck position, the sum wraps to the least
      of all costs: the program goes there and fails. */
  lemma {:induction false} DeadEndTempts(src: seq<byte>, mch: seq<Match>, dp: seq<nat>, best: seq<Match>,
                                         pick: seq<Pick>, i: nat, len: nat)
    requires Solved(mch, dp, best, pick, |src|) && i < |src| < 0x1000_0000_0000_0000
    requires Permitted(mch, i, len) && len < 11 && mch[i].off <= 255 && Stuck(mch, i + len)
    ensures dp[i] == 1 && Emit(src, pick, i).None?
  {
    assert CanMatch(mch, i);
    AllSound(mch, dp, best, pick, |src|, i);
    StepBounds(mch, dp, best, pick, i, 0, len);
    ChosenAttains(mch, dp, best, pick, i);
    ChoiceAttains(mch, dp, best, pick, |src|, i);
    CompleteEmits(src, mch, dp, best, pick, i);
    if Complete(Chosen(pick, |src|, i)) {
      CompleteCosts(Chosen(pick, |src|, i), mch, i);
    }
  }
}
