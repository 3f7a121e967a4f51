/** Byte strings, read and overwritten in the middle. */
module Bytes {

  newtype byte = x: int | 0 <= x < 256

  /** Nothing is in range everywhere. */
  predicate Within(size: nat, loc: nat, count: nat) {
    count == 0 || loc + count <= size
  }

  function Slice<T>(s: seq<T>, loc: nat, count: nat): (r: seq<T>)
    requires Within(|s|, loc, count)
    ensures |r| == count
  {
    if count == 0 then [] else s[loc..loc + count]
  }

  /** s with data written over it from loc on, as far as it reaches. */
  function Splice<T>(s: seq<T>, loc: nat, data: seq<T>): (r: seq<T>)
    ensures |r| == |s|
    ensures forall i :: 0 <= i < |s| ==> r[i] == if loc <= i < loc + |data| then data[i - loc] else s[i]
  {
    seq(|s|, i requires 0 <= i < |s| => if loc <= i < loc + |data| then data[i - loc] else s[i])
  }

  /** A slice grows by the slice that follows it. */
  lemma {:induction false} SliceJoin<T>(s: seq<T>, loc: nat, a: nat, b: nat)
    requires Within(|s|, loc, a) && Within(|s|, loc + a, b) && loc + a + b <= |s|
    ensures Slice(s, loc, a + b) == Slice(s, loc, a) + Slice(s, loc + a, b)
  {
  }

  /** Writing back what was there undoes a write. */
  lemma {:induction false} SpliceBack<T>(s: seq<T>, loc: nat, data: seq<T>)
    requires Within(|s|, loc, |data|)
    ensures Splice(Splice(s, loc, data), loc, Slice(s, loc, |data|)) == s
  {
  }

  /** The pieces one behind the other. */
  function Joined(pieces: seq<seq<byte>>): seq<byte>
    decreases |pieces|
  {
    if pieces == [] then [] else Joined(pieces[..|pieces| - 1]) + pieces[|pieces| - 1]
  }

  /** A little-endian number. */
  function Number(b: seq<byte>): nat {
    if b == [] then 0 else b[0] as nat + 256 * Number(b[1..])
  }

  lemma {:induction false} NumberOfEight(b: seq<byte>)
    requires |b| == 8
    ensures Number(b) == b[0] as nat + 0x100 * b[1] as nat + 0x1_0000 * b[2] as nat + 0x100_0000 * b[3] as nat
                         + 0x1_0000_0000 * b[4] as nat + 0x100_0000_0000 * b[5] as nat
                         + 0x1_0000_0000_0000 * b[6] as nat + 0x100_0000_0000_0000 * b[7] as nat
  {
    assert Number(b[6..]) == b[6] as nat + 256 * b[7] as nat by {
      assert b[6..][1..] == b[7..] && b[7..][1..] == [];
      assert Number(b[7..]) == b[7] as nat;
    }
    assert Number(b[4..]) == b[4] as nat + 256 * (b[5] as nat + 256 * Number(b[6..])) by {
      assert b[4..][1..] == b[5..] && b[5..][1..] == b[6..];
    }
    assert Number(b[2..]) == b[2] as nat + 256 * (b[3] as nat + 256 * Number(b[4..])) by {
      assert b[2..][1..] == b[3..] && b[3..][1..] == b[4..];
    }
    assert Number(b) == b[0] as nat + 256 * (b[1] as nat + 256 * Number(b[2..])) by {
      assert b[1..][1..] == b[2..];
    }
  }

  function Zeros(n: nat): (r: seq<byte>)
    ensures |r| == n && forall i :: 0 <= i < n ==> r[i] == 0
  {
    seq(n, _ => 0)
  }

  /** The n bytes of a number, lowest first. */
  function Encode(v: nat, n: nat): (r: seq<byte>)
    ensures |r| == n
    decreases n
  {
    if n == 0 then [] else [(v % 256) as byte] + Encode(v / 256, n - 1)
  }

  function Power256(n: nat): nat {
    if n == 0 then 1 else 256 * Power256(n - 1)
  }

  lemma {:induction false} NumberOfEncoded(v: nat, n: nat)
    requires v < Power256(n)
    ensures Number(Encode(v, n)) == v
    decreases n
  {
    if n > 0 {
      NumberOfEncoded(v / 256, n - 1);
      assert Encode(v, n)[1..] == Encode(v / 256, n - 1);
    }
  }
}
