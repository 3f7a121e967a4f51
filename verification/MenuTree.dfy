/**
 The menu tree (common/menu.c): the path of an entry, finding an entry by its path, and the
 numbering of the visible entries.

 A list of siblings is a sequence; an entry with an empty list of children is a leaf.  Whether a
 leaf is hidden is a field; directories never are.  A place is the sequence of positions that
 leads to an entry.
 */
module MenuTree {
  import opened Wrappers

  datatype Entry = Entry(name: string, hidden: bool, sub: seq<Entry>, expanded: bool)

  /** should_skip_entry. */
  predicate Skips(e: Entry) {
    e.sub == [] && e.hidden
  }

  // ----- Numbering

  /** count_visible_entries. */
  function CountVisible(es: seq<Entry>): nat
    decreases es
  {
    if es == [] then 0 else CountVisible(es[..|es| - 1]) + Span(es[|es| - 1])
  }

  /** The lines an entry takes. */
  function Span(e: Entry): nat
    decreases e
  {
    if Skips(e) then 0 else if e.sub != [] && e.expanded then 1 + CountVisible(e.sub) else 1
  }

  type Place = seq<nat>

  /** The place exists and its last entry is not hidden. */
  ghost predicate Visible(es: seq<Entry>, at: Place)
    decreases |at|
  {
    && at != [] && at[0] < |es|
    && if |at| == 1 then !Skips(es[at[0]]) else Visible(es[at[0]].sub, at[1..])
  }

  /** All directories above the place are open, too. */
  ghost predicate Shown(es: seq<Entry>, at: Place)
    decreases |at|
  {
    && at != [] && at[0] < |es|
    && if |at| == 1 then !Skips(es[at[0]]) else es[at[0]].expanded && Shown(es[at[0]].sub, at[1..])
  }

  /** The number of a place: what comes before it, line by line. */
  ghost function Index(es: seq<Entry>, at: Place): nat
    requires Visible(es, at)
    decreases |at|
  {
    CountVisible(es[..at[0]]) + if |at| == 1 then 0 else 1 + Index(es[at[0]].sub, at[1..])
  }

  lemma {:induction false} ShownIsVisible(es: seq<Entry>, at: Place)
    requires Shown(es, at)
    ensures Visible(es, at)
    decreases |at|
  {
    if |at| > 1 {
      ShownIsVisible(es[at[0]].sub, at[1..]);
    }
  }

  lemma {:induction false} CountMonotone(es: seq<Entry>, i: nat, j: nat)
    requires i <= j <= |es|
    ensures CountVisible(es[..i]) <= CountVisible(es[..j])
    decreases j
  {
    if i < j {
      CountMonotone(es, i, j - 1);
      assert es[..j][..j - 1] == es[..j - 1];
    }
  }

  lemma {:induction false} CountNext(es: seq<Entry>, i: nat)
    requires i < |es|
    ensures CountVisible(es[..i + 1]) == CountVisible(es[..i]) + Span(es[i])
  {
    assert es[..i + 1][..i] == es[..i];
  }

  /** The number of a shown place lies among the lines of its sibling list. */
  lemma {:induction false} IndexInSpan(es: seq<Entry>, at: Place)
    requires Shown(es, at)
    ensures Visible(es, at)
    ensures CountVisible(es[..at[0]]) <= Index(es, at) < CountVisible(es[..at[0] + 1]) <= CountVisible(es)
    decreases |at|
  {
    ShownIsVisible(es, at);
    CountNext(es, at[0]);
    CountMonotone(es, at[0] + 1, |es|);
    assert es[..|es|] == es;
    if |at| > 1 {
      IndexInSpan(es[at[0]].sub, at[1..]);
    }
  }

  /** No two shown places have the same number. */
  lemma {:induction false} IndexInjective(es: seq<Entry>, a: Place, b: Place)
    requires Shown(es, a) && Shown(es, b)
    ensures Visible(es, a) && Visible(es, b)
    ensures Index(es, a) == Index(es, b) ==> a == b
    decreases |a|
  {
    IndexInSpan(es, a);
    IndexInSpan(es, b);
    if Index(es, a) == Index(es, b) {
      if a[0] < b[0] {
        CountMonotone(es, a[0] + 1, b[0]);
      } else if b[0] < a[0] {
        CountMonotone(es, b[0] + 1, a[0]);
      } else if |a| > 1 && |b| > 1 {
        IndexInjective(es[a[0]].sub, a[1..], b[1..]);
        assert a == [a[0]] + a[1..] && b == [b[0]] + b[1..];
      } else {
        assert a[..1] == b[..1];
      }
    }
  }

  /** Reading order: an entry comes before what is below it, and that before its later siblings. */
  ghost predicate Before(a: Place, b: Place)
    decreases |a|
  {
    b != [] && (a == [] || a[0] < b[0] || (a[0] == b[0] && Before(a[1..], b[1..])))
  }

  /** The numbers follow the reading order. */
  lemma {:induction false} IndexOrders(es: seq<Entry>, a: Place, b: Place)
    requires Shown(es, a) && Shown(es, b) && Visible(es, a) && Visible(es, b)
    ensures Index(es, a) < Index(es, b) <==> Before(a, b)
    decreases |a|
  {
    IndexInSpan(es, a);
    IndexInSpan(es, b);
    if a[0] < b[0] {
      CountMonotone(es, a[0] + 1, b[0]);
    } else if b[0] < a[0] {
      CountMonotone(es, b[0] + 1, a[0]);
    } else if |a| > 1 && |b| > 1 {
      IndexOrders(es[a[0]].sub, a[1..], b[1..]);
    }
  }

  /** Every number up to the count belongs to a shown place. */
  lemma {:induction false} IndexOnto(es: seq<Entry>, n: nat) returns (at: Place)
    requires n < CountVisible(es)
    ensures Shown(es, at) && Visible(es, at) && Index(es, at) == n
    decreases es
  {
    var k := |es| - 1;
    if n < CountVisible(es[..k]) {
      at := IndexOnto(es[..k], n);
      IndexOfFirst(es, k, at);
    } else if n == CountVisible(es[..k]) {
      at := [k];
    } else {
      var below := IndexOnto(es[k].sub, n - CountVisible(es[..k]) - 1);
      at := [k] + below;
      assert at[1..] == below;
    }
  }

  lemma {:induction false} IndexOfFirst(es: seq<Entry>, k: nat, at: Place)
    requires k <= |es| && Shown(es[..k], at) && Visible(es[..k], at)
    ensures Shown(es, at) && Visible(es, at) && Index(es, at) == Index(es[..k], at)
  {
    assert es[..k][..at[0]] == es[..at[0]];
  }

  /** The place has this line, the first one being base. */
  ghost predicate Numbered(es: seq<Entry>, at: Place, base: nat, line: nat) {
    Shown(es, at) && Visible(es, at) && base + Index(es, at) == line
  }

  ghost predicate HasLine(es: seq<Entry>, base: nat, line: nat) {
    exists at: Place :: Numbered(es, at, base, line)
  }

  /** The lines are numbered without a gap. */
  lemma {:induction false} LinesAreNumbers(es: seq<Entry>, base: nat, line: nat)
    ensures base <= line < base + CountVisible(es) <==> HasLine(es, base, line)
  {
    if base <= line < base + CountVisible(es) {
      var at := IndexOnto(es, line - base);
      assert Numbered(es, at, base, line);
    }
    if HasLine(es, base, line) {
      var at: Place :| Numbered(es, at, base, line);
      IndexInSpan(es, at);
    }
  }

  /** Line numbers level by level. */
  lemma {:induction false} NumberedHere(es: seq<Entry>, at: Place, base: nat, line: nat)
    requires at != [] && at[0] < |es|
    ensures var before := CountVisible(es[..at[0]]); var e := es[at[0]];
            Numbered(es, at, base, line) <==>
            if |at| == 1 then !Skips(e) && base + before == line
            else e.expanded && e.sub != [] && Numbered(e.sub, at[1..], base + before + 1, line)
  {
    if Shown(es, at) {
      ShownIsVisible(es, at);
    }
    if |at| > 1 && Shown(es[at[0]].sub, at[1..]) {
      ShownIsVisible(es[at[0]].sub, at[1..]);
    }
  }

  predicate InWindow(k: nat, quiet: bool, offset: nat, window: nat) {
    quiet || offset <= k < offset + window
  }

  /** None of the first i siblings, nor anything below them, has the line. */
  ghost predicate NoneBefore(es: seq<Entry>, i: nat, base: nat, line: nat) {
    forall at: Place :: at != [] && at[0] < i ==> !Numbered(es, at, base, line)
  }

  lemma {:induction false} NoneBeforeNext(es: seq<Entry>, i: nat, base: nat, line: nat, next: nat)
    requires i < |es| && NoneBefore(es, i, base, line)
    requires next == base + CountVisible(es[..i]) + 1 && (!Skips(es[i]) ==> next != line + 1)
    requires es[i].sub != [] && es[i].expanded ==> forall at: Place :: !Numbered(es[i].sub, at, next, line)
    ensures NoneBefore(es, i + 1, base, line)
  {
    forall at: Place | at != [] && at[0] < i + 1 ensures !Numbered(es, at, base, line) {
      NumberedHere(es, at, base, line);
    }
  }

  lemma {:induction false} NumberedBelow(es: seq<Entry>, i: nat, at: Place, base: nat, line: nat)
    requires i < |es| && es[i].sub != [] && es[i].expanded
             && Numbered(es[i].sub, at, base + CountVisible(es[..i]) + 1, line)
    ensures Numbered(es, [i] + at, base, line)
  {
    var whole: Place := [i] + at;
    assert whole[1..] == at;
    NumberedHere(es, whole, base, line);
  }

  /** The numbering of print_tree: the number of lines, and the entry at the selected line when that
      line is drawn or nothing is. */
  method PrintTree(es: seq<Entry>, base: nat, selected: nat, quiet: bool, offset: nat, window: nat)
    returns (count: nat, chosen: Option<Place>)
    ensures count == CountVisible(es)
    ensures forall line: nat :: base <= line < base + count <==> HasLine(es, base, line)
    ensures chosen.Some? ==>
              Numbered(es, chosen.value, base, selected) && (quiet || offset <= selected < offset + window)
    ensures chosen.None? && (quiet || offset <= selected < offset + window) ==>
              forall at: Place :: !Numbered(es, at, base, selected)
    decreases es
  {
    count, chosen := 0, None;
    var i := 0;
    while i < |es|
      invariant i <= |es| && count == CountVisible(es[..i])
      invariant chosen.Some? ==> Numbered(es, chosen.value, base, selected) && InWindow(selected, quiet, offset, window)
      invariant chosen.None? && InWindow(selected, quiet, offset, window) ==> NoneBefore(es, i, base, selected)
    {
      var e := es[i];
      CountNext(es, i);
      if Skips(e) {
        if chosen.None? && InWindow(selected, quiet, offset, window) {
          NoneBeforeNext(es, i, base, selected, base + count + 1);
        }
        i := i + 1;
        continue;
      }
      if base + count == selected && InWindow(base + count, quiet, offset, window) {
        NumberedHere(es, [i], base, selected);
        chosen := Some([i]);
      }
      var below, inner := 0, None;
      if e.sub != [] && e.expanded {
        below, inner := PrintTree(e.sub, base + count + 1, selected, quiet, offset, window);
        if inner.Some? {
          NumberedBelow(es, i, inner.value, base, selected);
          chosen := Some([i] + inner.value);
        }
      }
      if chosen.None? && InWindow(selected, quiet, offset, window) {
        NoneBeforeNext(es, i, base, selected, base + count + 1);
      }
      count := count + below + 1;
      i := i + 1;
    }
    assert es[..i] == es;
    forall line: nat ensures base <= line < base + count <==> HasLine(es, base, line) {
      LinesAreNumbers(es, base, line);
    }
  }
}
