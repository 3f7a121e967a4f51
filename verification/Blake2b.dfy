/**
 Streaming BLAKE2b (common/crypt/blake2b.c) against the block schedule of section 3.3 of RFC 7693.
 The compression function is a parameter: it takes the chain value, a block of 128 bytes, the two
 words of the offset counter and the final flag.
 */
module Blake2b {
  import opened Bytes
  import opened Wrappers

  const BLOCK: nat := 128

  type Compress<!H> = (H, seq<byte>, nat, nat, bool) -> H

  // ----- The schedule of the standard

  function Low(t: nat): nat {
    t % U64
  }

  function High(t: nat): nat {
    t / U64 % U64
  }

  /** How many blocks of a message of n bytes come before the last one. */
  function Before(n: nat): (k: nat)
    ensures n == 0 ==> k == 0
    ensures n > 0 ==> BLOCK * k < n <= BLOCK * k + BLOCK
  {
    if n == 0 then 0 else (n - 1) / BLOCK
  }

  lemma {:induction false} BeforeUnique(n: nat, k: nat)
    requires BLOCK * k < n <= BLOCK * k + BLOCK
    ensures Before(n) == k
  {
  }

  /** The chain value after the first k blocks; block i is fed with the offset of its end. */
  function Chain<H>(f: Compress<H>, h: H, msg: seq<byte>, k: nat): H
    requires BLOCK * k <= |msg|
    decreases k
  {
    if k == 0 then h
    else f(Chain(f, h, msg, k - 1), msg[BLOCK * (k - 1)..BLOCK * k], Low(BLOCK * k), High(BLOCK * k), false)
  }

  /** The last block is padded with zeros, counted by its real length and flagged. */
  function Digest<H>(f: Compress<H>, h: H, msg: seq<byte>): H {
    var k := Before(|msg|);
    var last := msg[BLOCK * k..];
    f(Chain(f, h, msg, k), last + Zeros(BLOCK - |last|), Low(|msg|), High(|msg|), true)
  }

  // ----- The calls the schedule makes

  /** A call of the compression function, apart from its chain value. */
  datatype Call = Call(block: seq<byte>, t0: nat, t1: nat, final: bool)

  /** The compression function that writes its calls down. */
  function Record(h: seq<Call>, block: seq<byte>, t0: nat, t1: nat, final: bool): seq<Call> {
    h + [Call(block, t0, t1, final)]
  }

  function Replay<H>(f: Compress<H>, h: H, calls: seq<Call>): H
    decreases |calls|
  {
    if calls == [] then h
    else
      var c := calls[|calls| - 1];
      f(Replay(f, h, calls[..|calls| - 1]), c.block, c.t0, c.t1, c.final)
  }

  /** What call i is for a message of n blocks, the last one padded: 128 bytes, the number of message bytes
      up to their end in two words, and whether it is the last. */
  ghost predicate IsCall(msg: seq<byte>, n: nat, i: nat, c: Call)
    requires i < n && (i + 1 < n ==> 128 * (i + 1) <= |msg|) && 128 * i <= |msg| <= 128 * n
  {
    var end := if i + 1 < n then 128 * (i + 1) else |msg|;
    && c.block == msg[128 * i..end] + Zeros(128 * (i + 1) - end)
    && c.t0 == end % 0x1_0000_0000_0000_0000 && c.t1 == end / 0x1_0000_0000_0000_0000 % 0x1_0000_0000_0000_0000
    && c.final == (i + 1 == n)
  }

  lemma {:induction false} ChainCalls(msg: seq<byte>, k: nat, i: nat)
    requires BLOCK * k <= |msg|
    ensures |Chain(Record, [], msg, k)| == k
    ensures i < k ==> Chain(Record, [], msg, k)[i] == Call(msg[BLOCK * i..BLOCK * (i + 1)], Low(BLOCK * (i + 1)),
                                                            High(BLOCK * (i + 1)), false)
    decreases k
  {
    if k > 0 {
      ChainCalls(msg, k - 1, i);
    }
  }

  /** The message has n blocks; the empty one has one, too. */
  ghost predicate HasBlocks(msg: seq<byte>, n: nat) {
    n > 0 && 128 * (n - 1) <= |msg| <= 128 * n && (|msg| == 128 * (n - 1) ==> n == 1)
  }

  lemma {:induction false} InnerCall(msg: seq<byte>, n: nat, i: nat, c: Call)
    requires HasBlocks(msg, n) && i + 1 < n
    requires c == Call(msg[BLOCK * i..BLOCK * (i + 1)], Low(BLOCK * (i + 1)), High(BLOCK * (i + 1)), false)
    ensures IsCall(msg, n, i, c)
  {
    assert msg[128 * i..128 * (i + 1)] + Zeros(0) == msg[128 * i..128 * (i + 1)];
  }

  lemma {:induction false} LastCall(msg: seq<byte>, n: nat, c: Call)
    requires HasBlocks(msg, n)
    requires var last := msg[BLOCK * (n - 1)..];
             c == Call(last + Zeros(BLOCK - |last|), Low(|msg|), High(|msg|), true)
    ensures IsCall(msg, n, n - 1, c)
  {
  }

  /** One call for every block. */
  lemma {:induction false} DigestCalls(msg: seq<byte>, n: nat, i: nat)
    requires HasBlocks(msg, n) && i < n
    ensures var calls := Digest(Record, [], msg); |calls| == n && IsCall(msg, n, i, calls[i])
  {
    ChainCalls(msg, n - 1, i);
    var calls := Digest(Record, [], msg);
    assert Before(|msg|) == n - 1;
    if i + 1 < n {
      InnerCall(msg, n, i, calls[i]);
    } else {
      LastCall(msg, n, calls[i]);
    }
  }

  /** The digest is what those calls compute, whatever the compression function. */
  lemma {:induction false} DigestReplays<H>(f: Compress<H>, h: H, msg: seq<byte>)
    ensures Digest(f, h, msg) == Replay(f, h, Digest(Record, [], msg))
  {
    ChainReplays(f, h, msg, Before(|msg|));
    var calls := Digest(Record, [], msg);
    assert calls[..|calls| - 1] == Chain(Record, [], msg, Before(|msg|));
  }

  lemma {:induction false} ChainReplays<H>(f: Compress<H>, h: H, msg: seq<byte>, k: nat)
    requires BLOCK * k <= |msg|
    ensures Chain(f, h, msg, k) == Replay(f, h, Chain(Record, [], msg, k))
    decreases k
  {
    if k > 0 {
      ChainReplays(f, h, msg, k - 1);
      var calls := Chain(Record, [], msg, k);
      assert calls[..|calls| - 1] == Chain(Record, [], msg, k - 1);
    }
  }

  // ----- Streaming

  /** The chain value looks at its own blocks only. */
  lemma {:induction false} ChainPrefix<H>(f: Compress<H>, h: H, msg: seq<byte>, more: seq<byte>, k: nat)
    requires BLOCK * k <= |msg|
    ensures Chain(f, h, msg + more, k) == Chain(f, h, msg, k)
    decreases k
  {
    if k > 0 {
      ChainPrefix(f, h, msg, more, k - 1);
      assert (msg + more)[BLOCK * (k - 1)..BLOCK * k] == msg[BLOCK * (k - 1)..BLOCK * k];
    }
  }

  /** The carry into the second counter word. */
  lemma {:induction false} CounterCarry(t: nat, inc: nat)
    requires inc < U64
    ensures var low := (Low(t) + inc) % U64;
            && low == Low(t + inc)
            && (High(t) + if low < inc then 1 else 0) % U64 == High(t + inc)
  {
    var q, r := t / U64, t % U64;
    assert t == q * U64 + r;
    if r + inc < U64 {
      assert (t + inc) / U64 == q && (t + inc) % U64 == r + inc;
    } else {
      assert (t + inc) / U64 == q + 1 && (t + inc) % U64 == r + inc - U64;
    }
  }

  // ----- The hasher

  class State<!H> {
    const compress: Compress<H>
    ghost const start: H
    var h: H
    var t0: nat
    var t1: nat
    var final: bool
    const buf: array<byte>
    var bufLen: nat

    ghost predicate Shaped()
      reads this
    {
      buf.Length == BLOCK && bufLen <= BLOCK
    }

    /** The state of having absorbed msg: all blocks but the last are compressed, the last is
        buffered, even when it is full. */
    ghost predicate Absorbed(msg: seq<byte>)
      reads this, buf
    {
      var k := Before(|msg|);
      && Shaped() && !final
      && |msg| == BLOCK * k + bufLen
      && buf[..bufLen] == msg[BLOCK * k..]
      && Compressed(msg, k)
    }

    ghost predicate Compressed(msg: seq<byte>, k: nat)
      reads this
      requires BLOCK * k <= |msg|
    {
      h == Chain(compress, start, msg, k) && t0 == Low(BLOCK * k) && t1 == High(BLOCK * k)
    }

    /** blake2b_init; h is the initialisation vector mixed with the parameter block. */
    constructor (compress: Compress<H>, h: H)
      ensures fresh(buf) && Absorbed([]) && this.compress == compress && start == h
    {
      this.compress := compress;
      this.start := h;
      this.h := h;
      t0, t1, final, bufLen := 0, 0, false, 0;
      buf := new byte[BLOCK](_ => 0);
    }

    /** blake2b_increment_counter. */
    method IncrementCounter(inc: nat, ghost t: nat)
      requires inc < U64 && t0 == Low(t) && t1 == High(t)
      modifies this`t0, this`t1
      ensures t0 == Low(t + inc) && t1 == High(t + inc)
    {
      CounterCarry(t, inc);
      t0 := (t0 + inc) % U64;
      t1 := (t1 + if t0 < inc then 1 else 0) % U64;
    }

    /** Count and compress one block that is not the last. */
    method Block(block: seq<byte>, ghost msg: seq<byte>, ghost k: nat)
      requires BLOCK * (k + 1) <= |msg| && !final && Compressed(msg, k)
      requires block == msg[BLOCK * k..BLOCK * (k + 1)]
      modifies this`h, this`t0, this`t1
      ensures Compressed(msg, k + 1)
    {
      IncrementCounter(BLOCK, BLOCK * k);
      h := compress(h, block, t0, t1, final);
    }

    method CopyIn(at: nat, data: seq<byte>)
      requires Shaped() && at + |data| <= BLOCK
      modifies buf
      ensures buf[..at + |data|] == old(buf[..at]) + data
    {
      forall i | 0 <= i < |data| {
        buf[at + i] := data[i];
      }
    }

    /** The block loop of blake2b_update: the last block, full or not, is left over. */
    method Blocks(data: seq<byte>, ghost msg: seq<byte>, ghost first: nat) returns (rest: seq<byte>)
      requires data != [] && BLOCK * first + |data| == |msg| && data == msg[BLOCK * first..]
      requires !final && Compressed(msg, first)
      modifies this`h, this`t0, this`t1
      ensures var k := Before(|msg|);
              Compressed(msg, k) && |msg| == BLOCK * k + |rest| && rest == msg[BLOCK * k..]
    {
      rest := data;
      ghost var k := first;
      while |rest| > BLOCK
        invariant rest != [] && BLOCK * k + |rest| == |msg| && rest == msg[BLOCK * k..]
        invariant Compressed(msg, k)
      {
        assert rest[..BLOCK] == msg[BLOCK * k..BLOCK * (k + 1)];
        Block(rest[..BLOCK], msg, k);
        rest := rest[BLOCK..];
        k := k + 1;
      }
      BeforeUnique(|msg|, k);
    }

    /** The part of blake2b_update for data that does not fit: completes the buffered block, compresses
        it and all blocks behind it but the last. */
    method Overflow(data: seq<byte>, ghost msg: seq<byte>) returns (rest: seq<byte>)
      requires Absorbed(msg) && |data| > BLOCK - bufLen
      modifies this`h, this`t0, this`t1, this`bufLen, buf
      ensures bufLen == 0
      ensures var whole := msg + data; var k := Before(|whole|);
              Compressed(whole, k) && |whole| == BLOCK * k + |rest| && rest == whole[BLOCK * k..]
    {
      ghost var whole := msg + data;
      ghost var k := Before(|msg|);
      ChainPrefix(compress, start, msg, data, k);
      var left := bufLen;
      var fill := BLOCK - left;
      bufLen := 0;
      CopyIn(left, data[..fill]);
      assert buf[..BLOCK] == buf[..];
      Block(buf[..], whole, k);
      rest := Blocks(data[fill..], whole, k + 1);
    }

    /** blake2b_update. */
    method Update(data: seq<byte>, ghost msg: seq<byte>)
      requires Absorbed(msg)
      modifies this`h, this`t0, this`t1, this`bufLen, buf
      ensures Absorbed(msg + data)
    {
      ghost var whole := msg + data;
      ghost var k := Before(|msg|);
      if |data| == 0 {
        assert whole == msg;
        return;
      }
      var rest := data;
      if |data| > BLOCK - bufLen {
        rest := Overflow(data, msg);
      } else {
        ChainPrefix(compress, start, msg, data, k);
        BeforeUnique(|whole|, k);
      }
      CopyIn(bufLen, rest);
      bufLen := bufLen + |rest|;
    }

    /** blake2b_final. */
    method Finish(ghost msg: seq<byte>) returns (digest: H)
      requires Absorbed(msg)
      modifies this, buf
      ensures digest == Digest(compress, start, msg)
    {
      IncrementCounter(bufLen, BLOCK * Before(|msg|));
      final := true;
      CopyIn(bufLen, Zeros(BLOCK - bufLen));
      assert buf[..] == buf[..BLOCK];
      h := compress(h, buf[..], t0, t1, final);
      return h;
    }
  }

  /** However a message is cut, the digest is that of the schedule over the whole message. */
  method HashPieces<H>(compress: Compress<H>, h: H, pieces: seq<seq<byte>>) returns (digest: H)
    ensures digest == Digest(compress, h, Joined(pieces))
  {
    var state := new State<H>(compress, h);
    var i := 0;
    while i < |pieces|
      invariant i <= |pieces| && state.Absorbed(Joined(pieces[..i])) && fresh(state) && fresh(state.buf)
      invariant state.compress == compress && state.start == h
    {
      assert pieces[..i + 1][..i] == pieces[..i];
      state.Update(pieces[i], Joined(pieces[..i]));
      i := i + 1;
    }
    assert pieces[..i] == pieces;
    digest := state.Finish(Joined(pieces));
  }

  /** blake2b: the message in one piece. */
  method Hash<H>(compress: Compress<H>, h: H, msg: seq<byte>) returns (digest: H)
    ensures digest == Digest(compress, h, msg)
  {
    var state := new State<H>(compress, h);
    state.Update(msg, []);
    assert [] + msg == msg;
    digest := state.Finish(msg);
  }
}
