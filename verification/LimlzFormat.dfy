/**
 The limlz stream: what the packer emits for a choice of tokens (tools/limlzpack.c) and how
 the stage 1 decompressor reads it (stage1/decompressor.asm).
 */
module LimlzFormat {
  import opened Bytes
  import opened Wrappers

  const MAX_LIT: nat := 270
  const MIN_MATCH: nat := 4
  const MAX_MATCH: nat := 266
  const MAX_OFFSET: nat := 65535

  // ----- Decompression

  /** A byte-by-byte copy from off bytes back, which may overlap what it writes. */
  function CopyMatch(out: seq<byte>, off: nat, count: nat): seq<byte>
    requires 0 < off <= |out|
    decreases count
  {
    if count == 0 then out else CopyMatch(out + [out[|out| - off]], off, count - 1)
  }

  /** The first part of a token: its byte, the number of literals and where they start. */
  datatype Head = Head(token: nat, lit: nat, start: nat)

  function ReadHead(input: seq<byte>, ip: nat): Option<Head> {
    if ip >= |input| then None
    else
      var token := input[ip] as nat;
      var nibble := token / 8 % 16;
      if nibble < 15 then Some(Head(token, nibble, ip + 1))
      else if ip + 1 >= |input| then None
      else Some(Head(token, 15 + input[ip + 1] as nat, ip + 2))
  }

  /** The second part of a token: how far back, how long, and where the next token is. */
  datatype Repeat = Repeat(off: nat, len: nat, next: nat)

  function ReadRepeat(input: seq<byte>, q: nat, token: nat): Option<Repeat> {
    var wide := token >= 128;
    var r := if wide then q + 2 else q + 1;
    if r > |input| then None
    else
      var off := if wide then input[q] as nat + 256 * input[q + 1] as nat else input[q] as nat;
      if token % 8 < 7 then Some(Repeat(off, 4 + token % 8, r))
      else if r >= |input| then None
      else Some(Repeat(off, 4 + 7 + input[r] as nat, r + 1))
  }

  /** One turn of the token loop: it reads outside its input or before its output, ends, or goes on. */
  datatype Turn = Bad | Finished(result: seq<byte>) | More(next: nat, out: seq<byte>)

  function TurnAt(input: seq<byte>, ip: nat, out: seq<byte>): (t: Turn)
    ensures t.More? ==> ip < t.next < |input|
  {
    var h := ReadHead(input, ip);
    if h.None? then Bad
    else
      var q := h.value.start + h.value.lit;
      if q > |input| then Bad
      else
        var out1 := out + input[h.value.start..q];
        if q == |input| then Finished(out1)
        else
          var m := ReadRepeat(input, q, h.value.token);
          if m.None? || m.value.off == 0 || m.value.off > |out1| then Bad
          else
            var out2 := CopyMatch(out1, m.value.off, m.value.len);
            if m.value.next >= |input| then Finished(out2) else More(m.value.next, out2)
  }

  /** The token loop from input position ip with the output so far. */
  function DecodeFrom(input: seq<byte>, ip: nat, out: seq<byte>): Option<seq<byte>>
    decreases |input| - ip
  {
    match TurnAt(input, ip, out)
    case Bad => None
    case Finished(result) => Some(result)
    case More(next, out') => DecodeFrom(input, next, out')
  }

  function Decode(input: seq<byte>): Option<seq<byte>> {
    DecodeFrom(input, 0, [])
  }

  // ----- Emission

  /** The packer's choice at a position: literals, then a match (or none). */
  datatype Pick = Pick(lit: nat, mlen: nat, off: nat)

  function Low(n: nat): byte { (n % 256) as byte }

  function LitTail(lit: nat): seq<byte> {
    if lit >= 15 then [Low(lit - 15)] else []
  }

  function MatchTail(n: nat): seq<byte> {
    if n >= 7 then [Low(n - 7)] else []
  }

  function OffsetBytes(off: nat): seq<byte> {
    if off > 255 then [Low(off), Low(off / 256)] else [Low(off)]
  }

  function Nibble(lit: nat): nat { if lit < 15 then lit else 15 }

  function Token(lit: nat, mlen: nat, off: nat): byte
    requires mlen >= MIN_MATCH
  {
    Low((if off > 255 then 128 else 0) + 8 * Nibble(lit) + if mlen - 4 < 7 then mlen - 4 else 7)
  }

  /** The bytes of one token whose match follows. */
  function TokenBytes(src: seq<byte>, i: nat, p: Pick): seq<byte>
    requires i + p.lit <= |src| && p.mlen >= MIN_MATCH
  {
    [Token(p.lit, p.mlen, p.off)] + LitTail(p.lit) + src[i..i + p.lit] + OffsetBytes(p.off) + MatchTail(p.mlen - 4)
  }

  /** The bytes of the literals that end the stream. */
  function LastBytes(src: seq<byte>, i: nat, lit: nat): seq<byte>
    requires i + lit <= |src|
  {
    [Low(8 * Nibble(lit))] + LitTail(lit) + src[i..i + lit]
  }

  /** What the emission loop writes from position i on: None where it gives up.  A parse that ends in
      a match is followed by a token without literals. */
  function Emit(src: seq<byte>, pick: seq<Pick>, i: nat): Option<seq<byte>>
    requires |pick| > |src|
    decreases |src| - i
  {
    if i >= |src| then Some([0])
    else
      var p := pick[i];
      if i + p.lit > |src| || (i + p.lit < |src| && p.mlen < MIN_MATCH) then None
      else if i + p.lit == |src| then Some(LastBytes(src, i, p.lit))
      else
        var rest := Emit(src, pick, i + p.lit + p.mlen);
        if rest.None? then None else Some(TokenBytes(src, i, p) + rest.value)
  }

  // ----- Valid choices

  /** The len bytes at j repeat the bytes off earlier. */
  ghost predicate MatchAt(src: seq<byte>, j: nat, off: nat, len: nat) {
    0 < off <= j && j + len <= |src| && forall k :: j <= k < j + len ==> src[k] == src[k - off]
  }

  /** A choice the format can express and that reproduces the source. */
  ghost predicate GoodPick(src: seq<byte>, i: nat, p: Pick) {
    && p.lit <= MAX_LIT && i + p.lit <= |src|
    && (i + p.lit < |src| ==>
          MIN_MATCH <= p.mlen <= MAX_MATCH && p.off <= MAX_OFFSET && MatchAt(src, i + p.lit, p.off, p.mlen))
  }

  lemma {:induction false} CopyRepeats(src: seq<byte>, j: nat, off: nat, len: nat)
    requires MatchAt(src, j, off, len)
    ensures CopyMatch(src[..j], off, len) == src[..j + len]
    decreases len
  {
    if len > 0 {
      assert src[j] == src[j - off];
      assert src[..j] + [src[..j][j - off]] == src[..j + 1];
      CopyRepeats(src, j + 1, off, len - 1);
    }
  }

  lemma {:induction false} ReadHeadBack(pre: seq<byte>, token: byte, lit: nat, rest: seq<byte>)
    requires lit <= MAX_LIT && token as nat / 8 % 16 == Nibble(lit)
    ensures var input := pre + [token] + LitTail(lit) + rest;
            ReadHead(input, |pre|) == Some(Head(token as nat, lit, |pre| + 1 + |LitTail(lit)|))
  {
    var input := pre + [token] + LitTail(lit) + rest;
    assert input[|pre|] == token;
    if lit >= 15 {
      assert input[|pre| + 1] == Low(lit - 15);
    }
  }

  lemma {:induction false} ReadRepeatBack(pre: seq<byte>, token: nat, mlen: nat, off: nat, rest: seq<byte>)
    requires MIN_MATCH <= mlen <= MAX_MATCH && off <= MAX_OFFSET
    requires token % 8 == (if mlen - 4 < 7 then mlen - 4 else 7) && (token >= 128 <==> off > 255)
    ensures var input := pre + OffsetBytes(off) + MatchTail(mlen - 4) + rest;
            ReadRepeat(input, |pre|, token) ==
              Some(Repeat(off, mlen, |pre| + |OffsetBytes(off)| + |MatchTail(mlen - 4)|))
  {
    var input := pre + OffsetBytes(off) + MatchTail(mlen - 4) + rest;
    assert input[|pre|] == OffsetBytes(off)[0];
    if off > 255 {
      assert input[|pre| + 1] == OffsetBytes(off)[1];
      assert Low(off) as nat + 256 * Low(off / 256) as nat == off;
    }
    if mlen - 4 >= 7 {
      assert input[|pre| + |OffsetBytes(off)|] == MatchTail(mlen - 4)[0] == Low(mlen - 4 - 7);
    }
  }

  /** The last literals end the decompression. */
  lemma {:induction false} DecodeLast(pre: seq<byte>, src: seq<byte>, i: nat, lit: nat)
    requires i + lit == |src| && lit <= MAX_LIT
    ensures DecodeFrom(pre + LastBytes(src, i, lit), |pre|, src[..i]) == Some(src)
  {
    var token := Low(8 * Nibble(lit));
    var lits := src[i..i + lit];
    var input := pre + LastBytes(src, i, lit);
    assert input == pre + [token] + LitTail(lit) + lits;
    ReadHeadBack(pre, token, lit, lits);
    var p := |pre| + 1 + |LitTail(lit)|;
    assert input[p..p + lit] == lits;
    assert src[..i] + lits == src;
  }

  lemma {:induction false} TokenFields(lit: nat, mlen: nat, off: nat)
    requires mlen >= MIN_MATCH
    ensures var token := Token(lit, mlen, off) as nat;
            && token / 8 % 16 == Nibble(lit) && token % 8 == (if mlen - 4 < 7 then mlen - 4 else 7)
            && (token >= 128 <==> off > 255)
  {
  }

  lemma {:induction false} Assoc(a: seq<byte>, b: seq<byte>, c: seq<byte>)
    ensures a + b + c == a + (b + c)
  {
  }

  /** Where the parts of a token lie in the input. */
  lemma {:induction false} Layout(pre: seq<byte>, token: byte, a: seq<byte>, lits: seq<byte>, b: seq<byte>,
                                  c: seq<byte>, rest: seq<byte>, input: seq<byte>)
    requires input == pre + ([token] + a + lits + b + c) + rest
    ensures input == pre + [token] + a + (lits + b + c + rest)
    ensures input == (pre + [token] + a + lits) + b + c + rest
    ensures var q := |pre| + 1 + |a|; q + |lits| <= |input| && input[q..q + |lits|] == lits
  {
  }

  /** The same for the bytes of a token. */
  lemma {:induction false} TokenLayout(pre: seq<byte>, src: seq<byte>, i: nat, p: Pick, rest: seq<byte>,
                                       input: seq<byte>)
    requires i + p.lit <= |src| && p.mlen >= MIN_MATCH && input == pre + TokenBytes(src, i, p) + rest
    ensures var lits, b, c := src[i..i + p.lit], OffsetBytes(p.off), MatchTail(p.mlen - 4);
            && input == pre + [Token(p.lit, p.mlen, p.off)] + LitTail(p.lit) + (lits + b + c + rest)
            && input == (pre + [Token(p.lit, p.mlen, p.off)] + LitTail(p.lit) + lits) + b + c + rest
    ensures var q := |pre| + 1 + |LitTail(p.lit)|; q + p.lit < |input| && input[q..q + p.lit] == src[i..i + p.lit]
  {
    Layout(pre, Token(p.lit, p.mlen, p.off), LitTail(p.lit), src[i..i + p.lit], OffsetBytes(p.off),
           MatchTail(p.mlen - 4), rest, input);
  }

  lemma {:induction false} TokenHead(pre: seq<byte>, src: seq<byte>, i: nat, p: Pick, rest: seq<byte>, input: seq<byte>)
    returns (h: Head)
    requires i + p.lit <= |src| && p.lit <= MAX_LIT && p.mlen >= MIN_MATCH
    requires input == pre + TokenBytes(src, i, p) + rest
    ensures h == Head(Token(p.lit, p.mlen, p.off) as nat, p.lit, |pre| + 1 + |LitTail(p.lit)|)
    ensures ReadHead(input, |pre|) == Some(h)
    ensures h.start + h.lit < |input| && input[h.start..h.start + h.lit] == src[i..i + p.lit]
  {
    var token := Token(p.lit, p.mlen, p.off);
    TokenFields(p.lit, p.mlen, p.off);
    var lits, b, c := src[i..i + p.lit], OffsetBytes(p.off), MatchTail(p.mlen - 4);
    TokenLayout(pre, src, i, p, rest, input);
    ReadHeadBack(pre, token, p.lit, lits + b + c + rest);
    h := Head(token as nat, p.lit, |pre| + 1 + |LitTail(p.lit)|);
  }

  lemma {:induction false} TokenRepeat(pre: seq<byte>, src: seq<byte>, i: nat, p: Pick, rest: seq<byte>,
                                       input: seq<byte>, q: nat)
    returns (m: Repeat)
    requires i + p.lit <= |src| && MIN_MATCH <= p.mlen <= MAX_MATCH && p.off <= MAX_OFFSET
    requires input == pre + TokenBytes(src, i, p) + rest && rest != []
    requires q == |pre| + 1 + |LitTail(p.lit)| + p.lit
    ensures ReadRepeat(input, q, Token(p.lit, p.mlen, p.off) as nat) == Some(m)
    ensures m == Repeat(p.off, p.mlen, |pre| + |TokenBytes(src, i, p)|) && |pre| < m.next < |input|
  {
    var token := Token(p.lit, p.mlen, p.off);
    TokenFields(p.lit, p.mlen, p.off);
    var lits, b, c := src[i..i + p.lit], OffsetBytes(p.off), MatchTail(p.mlen - 4);
    Layout(pre, token, LitTail(p.lit), lits, b, c, rest, input);
    ReadRepeatBack(pre + [token] + LitTail(p.lit) + lits, token as nat, p.mlen, p.off, rest);
    m := Repeat(p.off, p.mlen, |pre| + |TokenBytes(src, i, p)|);
  }

  /** One turn of the token loop. */
  lemma {:induction false} TurnGoesOn(input: seq<byte>, ip: nat, out: seq<byte>, h: Head, m: Repeat, out1: seq<byte>,
                                      out2: seq<byte>)
    requires ReadHead(input, ip) == Some(h) && h.start + h.lit < |input|
    requires ReadRepeat(input, h.start + h.lit, h.token) == Some(m)
    requires out1 == out + input[h.start..h.start + h.lit]
    requires 0 < m.off <= |out1| && ip < m.next < |input| && out2 == CopyMatch(out1, m.off, m.len)
    ensures TurnAt(input, ip, out) == More(m.next, out2)
  {
  }

  ghost predicate GoodPicks(src: seq<byte>, pick: seq<Pick>) {
    |pick| == |src| + 1 && forall i :: 0 <= i < |src| && PickGoes(src, i, pick[i]) ==> GoodPick(src, i, pick[i])
  }

  /** The emission loop accepts this choice. */
  predicate PickGoes(src: seq<byte>, i: nat, p: Pick) {
    i + p.lit <= |src| && (i + p.lit < |src| ==> p.mlen >= MIN_MATCH)
  }

  lemma {:induction false} PickCopies(src: seq<byte>, i: nat, p: Pick)
    requires GoodPick(src, i, p) && i + p.lit < |src|
    ensures i + p.lit + p.mlen <= |src| && 0 < p.off <= i + p.lit
    ensures src[..i] + src[i..i + p.lit] == src[..i + p.lit]
    ensures CopyMatch(src[..i + p.lit], p.off, p.mlen) == src[..i + p.lit + p.mlen]
  {
    CopyRepeats(src, i + p.lit, p.off, p.mlen);
  }

  lemma {:induction false} EmitToken(pre: seq<byte>, src: seq<byte>, i: nat, p: Pick, rest: seq<byte>, input: seq<byte>,
                                     out: seq<byte>, out1: seq<byte>, out2: seq<byte>)
    requires i + p.lit <= |src| && p.lit <= MAX_LIT && MIN_MATCH <= p.mlen <= MAX_MATCH && p.off <= MAX_OFFSET
             && rest != []
    requires input == pre + TokenBytes(src, i, p) + rest
    requires out1 == out + src[i..i + p.lit] && 0 < p.off <= |out1| && out2 == CopyMatch(out1, p.off, p.mlen)
    ensures TurnAt(input, |pre|, out) == More(|pre| + |TokenBytes(src, i, p)|, out2)
  {
    var h := TokenHead(pre, src, i, p, rest, input);
    var m := TokenRepeat(pre, src, i, p, rest, input, h.start + h.lit);
    TurnGoesOn(input, |pre|, out, h, m, out1, out2);
  }

  lemma {:induction false} GoesOn(input: seq<byte>, ip: nat, out: seq<byte>, next: nat, out': seq<byte>, r: seq<byte>)
    requires TurnAt(input, ip, out) == More(next, out') && DecodeFrom(input, next, out') == Some(r)
    ensures DecodeFrom(input, ip, out) == Some(r)
  {
  }

  /** Decompressing what is emitted from position i on completes the source. */
  lemma {:induction false} EmitDecodes(src: seq<byte>, pick: seq<Pick>, i: nat, pre: seq<byte>, e: seq<byte>,
                                       input: seq<byte>)
    requires GoodPicks(src, pick) && i <= |src| && Emit(src, pick, i) == Some(e) && input == pre + e
    ensures e != [] && DecodeFrom(input, |pre|, src[..i]) == Some(src)
    decreases |src| - i
  {
    if i == |src| {
      DecodeLast(pre, src, i, 0);
      assert LastBytes(src, i, 0) == e;
    } else {
      var p := pick[i];
      assert GoodPick(src, i, p);
      if i + p.lit == |src| {
        DecodeLast(pre, src, i, p.lit);
      } else {
        var t := TokenBytes(src, i, p);
        var rest := Emit(src, pick, i + p.lit + p.mlen).value;
        Assoc(pre, t, rest);
        EmitDecodes(src, pick, i + p.lit + p.mlen, pre + t, rest, input);
        PickCopies(src, i, p);
        EmitToken(pre, src, i, p, rest, input, src[..i], src[..i + p.lit], src[..i + p.lit + p.mlen]);
        GoesOn(input, |pre|, src[..i], |pre + t|, src[..i + p.lit + p.mlen], src);
      }
    }
  }

  /** The stream of a complete parse decodes to the source. */
  lemma {:induction false} RoundTrip(src: seq<byte>, pick: seq<Pick>, e: seq<byte>)
    requires GoodPicks(src, pick) && Emit(src, pick, 0) == Some(e)
    ensures Decode(e) == Some(src)
  {
    assert [] + e == e && src[..0] == [];
    EmitDecodes(src, pick, 0, [], e, e);
  }
}
