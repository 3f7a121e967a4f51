/**
 A source that limlzpack (tools/limlzpack.c) refuses although it could be packed: a short match leads
 to a position from which no token can start, and the sum of costs wraps around there.
 */
module LimlzDeadEnd {
  import opened Bytes
  import opened LimlzFormat
  import opened LimlzPack
  import opened LimlzParse
  import opened SuffixArray
  import opened Wrappers

  const LENGTH: nat := 277

  /** Seven zeros, then bytes in which no four in a row come twice: 1 to 200 and 255 down to 186. */
  function ByteAt(k: nat): byte
    requires k < LENGTH
  {
    if k < 7 then 0 else if k < 207 then (k - 6) as byte else (462 - k) as byte
  }

  function Source(): (s: seq<byte>)
    ensures |s| == LENGTH && forall k :: 0 <= k < LENGTH ==> s[k] == ByteAt(k)
  {
    seq(LENGTH, k requires 0 <= k < LENGTH => ByteAt(k))
  }

  /** From position 4 on no four bytes repeat earlier ones. */
  lemma {:induction false} NoRepeat(i: nat, j: nat)
    requires 4 <= i && i + 4 <= LENGTH && j < i
    ensures !(ByteAt(i) == ByteAt(j) && ByteAt(i + 1) == ByteAt(j + 1)
              && ByteAt(i + 2) == ByteAt(j + 2) && ByteAt(i + 3) == ByteAt(j + 3))
  {
  }

  lemma {:induction false} NoMatch(mch: seq<Match>, i: nat)
    requires GoodMatches(Source(), mch) && 4 <= i
    ensures !CanMatch(mch, i)
  {
    if CanMatch(mch, i) {
      assert MatchAt(Source(), i, mch[i].off, mch[i].len);
      NoRepeat(i, i - mch[i].off);
    }
  }

  lemma {:induction false} StuckAtFive(mch: seq<Match>)
    requires GoodMatches(Source(), mch)
    ensures Stuck(mch, 5)
  {
    forall j: nat | 5 <= j <= 5 + MAX_LIT ensures !CanMatch(mch, j) {
      NoMatch(mch, j);
    }
  }

  /** A string with another byte among its first ones is not smaller than one that starts with zeros. */
  lemma {:induction false} NotBelowZeros(v: seq<byte>, y: seq<byte>, d: nat)
    requires d < |v| && d < |y| && v[d] != 0 && forall k :: 0 <= k <= d ==> y[k] == 0
    ensures !LexLess(v, y)
    decreases d
  {
    if d > 0 && v[0] == y[0] {
      NotBelowZeros(v[1..], y[1..], d - 1);
    }
  }

  /** Only the suffix at 0 is smaller than the one at 1. */
  lemma {:induction false} BelowSecond(m: nat)
    requires 1 < m < LENGTH
    ensures !LexLess(Source()[m..], Source()[1..])
  {
    NotBelowZeros(Source()[m..], Source()[1..], if m < 7 then 7 - m else 0);
  }

  lemma {:induction false} SecondNotBelowFirst()
    ensures !LexLess(Source()[1..], Source())
  {
    NotBelowZeros(Source()[1..], Source(), 6);
  }

  /** In suffix order the suffix at 1 comes right after the one at 0. */
  lemma {:induction false} FirstTwo(sa: seq<nat>) returns (q: nat, r: nat)
    requires IsSuffixArray(Source(), sa)
    ensures q < |sa| && r < |sa| && sa[q] == 0 && sa[r] == 1 && r == q + 1
  {
    q := Position(sa, LENGTH, 0);
    r := Position(sa, LENGTH, 1);
    assert Source()[0..] == Source();
    SecondNotBelowFirst();
    if q + 1 < r && sa[q + 1] > 1 {
      BelowSecond(sa[q + 1]);
    }
  }

  /** The match at 1 is found, in its full length. */
  lemma {:induction false} SecondMatches(mch: seq<Match>)
    requires FoundMatches(Source(), mch)
    ensures mch[1].len >= 6 && mch[1].off == 1 && mch[0].len < MIN_MATCH
  {
    var sa :| IsSuffixArray(Source(), sa) && AllBest(Source(), sa, mch);
    var q, r := FirstTwo(sa);
    assert BestNeighbour(Source(), sa, 1, r, mch[1]);
    assert IsCommon(Source(), 1, 0, 6) && Near(sa, 1, r, q);
  }

  /** A complete parse: one literal, the match, the rest as literals. */
  function Whole(): Parse {
    Step(1, 6, LastLits(270))
  }

  lemma {:induction false} DeadEndIsCheaper(mch: seq<Match>)
    requires FoundMatches(Source(), mch)
    ensures ValidParse(Whole(), mch, 0) && Complete(Whole()) && DeadEndWins(mch)
  {
    SecondMatches(mch);
    StuckAtFive(mch);
    var p := Step(1, 4, GivenUp);
    assert ValidParse(p, mch, 0) && ParseCost(p, mch, 0) == 2;
    forall q | ValidParse(q, mch, 0) && Complete(q) ensures ParseCost(q, mch, 0) > 2 {
      if q.Step? {
        CompleteCosts(q.rest, mch, q.lit + q.len);
      }
    }
  }

  /** Packing this source fails with any capacity; the parse that would have packed it is shorter than
      the source. */
  method RefusesSource(capacity: nat) returns (r: Option<seq<byte>>, ghost mch: seq<Match>)
    ensures r.None? && FoundMatches(Source(), mch)
    ensures ValidParse(Whole(), mch, 0) && Complete(Whole()) && ParseCost(Whole(), mch, 0) < LENGTH
  {
    ghost var dp, pick;
    r, mch, dp, pick := Pack(Source(), capacity);
    DeadEndIsCheaper(mch);
    SecondMatches(mch);
  }
}
