/**
 The undo log of the BIOS installer (host/limine.c), on values: saved bytes, writing them back,
 and why it does not matter which of the logged writes had reached the disk.
 */
module UndoLog {
  import opened Bytes

  /** One entry of uninstall_data: where a write went and what was there. */
  datatype Saved = Saved(loc: nat, data: seq<byte>)

  /** Write back the newest entry first. */
  ghost function Undo(log: seq<Saved>, s: seq<byte>): (r: seq<byte>)
    ensures |r| == |s|
    decreases |log|
  {
    if log == [] then s
    else var e := log[|log| - 1]; Undo(log[..|log| - 1], Splice(s, e.loc, e.data))
  }

  /** Write back in the order of the array. */
  ghost function Replay(log: seq<Saved>, s: seq<byte>): (r: seq<byte>)
    ensures |r| == |s|
    decreases |log|
  {
    if log == [] then s else Splice(Replay(log[..|log| - 1], s), log[|log| - 1].loc, log[|log| - 1].data)
  }

  ghost function Reversed(log: seq<Saved>): (r: seq<Saved>)
    ensures |r| == |log|
    ensures forall i :: 0 <= i < |log| ==> r[i] == log[|log| - 1 - i]
  {
    seq(|log|, i requires 0 <= i < |log| => log[|log| - 1 - i])
  }

  /** Some entry saved this byte. */
  ghost predicate Covered(log: seq<Saved>, i: nat) {
    exists k :: 0 <= k < |log| && log[k].loc <= i < log[k].loc + |log[k].data|
  }

  /** Two contents of the disk that differ in saved bytes only. */
  ghost predicate Agree(log: seq<Saved>, x: seq<byte>, y: seq<byte>) {
    |x| == |y| && forall i: nat :: i < |x| && !Covered(log, i) ==> x[i] == y[i]
  }

  ghost predicate Covers(log: seq<Saved>, loc: nat, count: nat) {
    forall i: nat :: loc <= i < loc + count ==> Covered(log, i)
  }

  lemma {:induction false} CoveredLonger(log: seq<Saved>, e: Saved, i: nat)
    ensures Covered(log + [e], i) <==> Covered(log, i) || e.loc <= i < e.loc + |e.data|
  {
    var l := log + [e];
    if e.loc <= i < e.loc + |e.data| {
      assert l[|log|] == e;
    }
    if Covered(log, i) {
      var k :| 0 <= k < |log| && log[k].loc <= i < log[k].loc + |log[k].data|;
      assert l[k] == log[k];
    }
  }

  lemma {:induction false} AgreeLonger(log: seq<Saved>, e: Saved, x: seq<byte>, y: seq<byte>)
    requires Agree(log, x, y)
    ensures Agree(log + [e], x, y)
    ensures Covers(log + [e], e.loc, |e.data|)
  {
    forall i: nat ensures Covered(log + [e], i) <==> Covered(log, i) || e.loc <= i < e.loc + |e.data| {
      CoveredLonger(log, e, i);
    }
  }

  /** Undoing forgets everything about the saved bytes. */
  lemma {:induction false} UndoForgets(log: seq<Saved>, x: seq<byte>, y: seq<byte>)
    requires Agree(log, x, y)
    ensures Undo(log, x) == Undo(log, y)
    decreases |log|
  {
    if log == [] {
      assert x == y;
    } else {
      var rest, e := log[..|log| - 1], log[|log| - 1];
      assert log == rest + [e];
      var x', y' := Splice(x, e.loc, e.data), Splice(y, e.loc, e.data);
      forall i: nat | i < |x| && !Covered(rest, i) ensures x'[i] == y'[i] {
        CoveredLonger(rest, e, i);
      }
      UndoForgets(rest, x', y');
    }
  }

  /** A logged write leaves what undoing gives. */
  lemma {:induction false} UndoLogged(log: seq<Saved>, s: seq<byte>, loc: nat, data: seq<byte>)
    requires Within(|s|, loc, |data|)
    ensures Undo(log + [Saved(loc, Slice(s, loc, |data|))], Splice(s, loc, data)) == Undo(log, s)
  {
    var e := Saved(loc, Slice(s, loc, |data|));
    assert (log + [e])[..|log|] == log;
    SpliceBack(s, loc, data);
  }

  /** The loop over the reversed array undoes. */
  lemma {:induction false} ReplayReversed(log: seq<Saved>, s: seq<byte>)
    ensures Replay(Reversed(log), s) == Undo(log, s)
    decreases |log|
  {
    if log != [] {
      var rest, e := log[..|log| - 1], log[|log| - 1];
      assert Reversed(log) == [e] + Reversed(rest);
      ReplayFirst(e, Reversed(rest), s);
      ReplayReversed(rest, Splice(s, e.loc, e.data));
    }
  }

  lemma {:induction false} ReplayFirst(e: Saved, log: seq<Saved>, s: seq<byte>)
    ensures Replay([e] + log, s) == Replay(log, Splice(s, e.loc, e.data))
    decreases |log|
  {
    var l := [e] + log;
    if log == [] {
      assert l[..0] == [];
    } else {
      assert l[..|l| - 1] == [e] + log[..|log| - 1];
      ReplayFirst(e, log[..|log| - 1], s);
    }
  }
}
