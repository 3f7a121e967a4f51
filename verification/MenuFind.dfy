/**
 Paths of menu entries and the way back from a path to an entry (get_sibling_dup_index,
 get_entry_path and find_entry_by_path in common/menu.c).
 */
module MenuFind {
  import opened MenuPath
  import opened MenuTree
  import opened Wrappers

  // ----- Siblings with the same name

  /** How many of the first n siblings have this name and are not hidden; get_sibling_dup_index. */
  function SameNamed(es: seq<Entry>, n: nat, name: string): nat
    requires n <= |es|
  {
    if n == 0 then 0 else SameNamed(es, n - 1, name) + if !Skips(es[n - 1]) && es[n - 1].name == name then 1 else 0
  }

  /** The sibling a component means. */
  ghost predicate Picks(es: seq<Entry>, i: nat, name: string, dup: nat) {
    i < |es| && !Skips(es[i]) && es[i].name == name && SameNamed(es, i, name) == dup
  }

  lemma {:induction false} SameNamedMonotone(es: seq<Entry>, i: nat, j: nat, name: string)
    requires i <= j <= |es|
    ensures SameNamed(es, i, name) <= SameNamed(es, j, name)
    decreases j
  {
    if i < j {
      SameNamedMonotone(es, i, j - 1, name);
    }
  }

  lemma {:induction false} PicksUnique(es: seq<Entry>, i: nat, j: nat, name: string, dup: nat)
    requires Picks(es, i, name, dup) && Picks(es, j, name, dup)
    ensures i == j
  {
    if i < j {
      SameNamedMonotone(es, i + 1, j, name);
    } else if j < i {
      SameNamedMonotone(es, j + 1, i, name);
    }
  }

  // ----- Resolving a path

  /** The path leads to the leaf at this place. */
  ghost predicate Resolves(es: seq<Entry>, path: string, at: Place)
    decreases |at|
  {
    && at != []
    && var c := Parse(path); var rest := Past(c.rest);
       && Picks(es, at[0], c.name, c.dup)
       && if rest == "" then |at| == 1 && es[at[0]].sub == []
          else |at| > 1 && es[at[0]].sub != [] && Resolves(es[at[0]].sub, rest, at[1..])
  }

  lemma {:induction false} ResolvesUnique(es: seq<Entry>, path: string, a: Place, b: Place)
    requires Resolves(es, path, a) && Resolves(es, path, b)
    ensures a == b
    decreases |a|
  {
    var c := Parse(path);
    PicksUnique(es, a[0], b[0], c.name, c.dup);
    if Past(c.rest) != "" {
      ResolvesUnique(es[a[0]].sub, Past(c.rest), a[1..], b[1..]);
      assert a == [a[0]] + a[1..] && b == [b[0]] + b[1..];
    }
  }

  lemma {:induction false} ResolvesVisible(es: seq<Entry>, path: string, at: Place)
    requires Resolves(es, path, at)
    ensures Visible(es, at)
    decreases |at|
  {
    if |at| > 1 {
      ResolvesVisible(es[at[0]].sub, Past(Parse(path).rest), at[1..]);
    }
  }

  /** The tree with the directories along a path opened, as far as the path leads. */
  ghost function OpenAlong(es: seq<Entry>, path: string): (r: seq<Entry>)
    ensures |r| == |es|
    decreases es
  {
    var c := Parse(path);
    if i: nat :| Picks(es, i, c.name, c.dup) then
      if Past(c.rest) != "" && es[i].sub != [] then
        es[i := es[i].(expanded := true, sub := OpenAlong(es[i].sub, Past(c.rest)))]
      else es
    else es
  }

  lemma {:induction false} OpenAlongAt(es: seq<Entry>, path: string, i: nat)
    requires Picks(es, i, Parse(path).name, Parse(path).dup)
    ensures var rest := Past(Parse(path).rest);
            OpenAlong(es, path) ==
            if rest != "" && es[i].sub != [] then
              es[i := es[i].(expanded := true, sub := OpenAlong(es[i].sub, rest))]
            else es
  {
    var c := Parse(path);
    forall j: nat | Picks(es, j, c.name, c.dup) ensures j == i {
      PicksUnique(es, i, j, c.name, c.dup);
    }
  }

  /** Opening the way shows the entry and does not renumber it. */
  lemma {:induction false} OpenShows(es: seq<Entry>, path: string, at: Place)
    requires Resolves(es, path, at)
    ensures Visible(es, at) && Numbered(OpenAlong(es, path), at, 0, Index(es, at))
    decreases |at|
  {
    ResolvesVisible(es, path, at);
    OpenAlongAt(es, path, at[0]);
    var open := OpenAlong(es, path);
    assert open[..at[0]] == es[..at[0]];
    if |at| > 1 {
      OpenShows(es[at[0]].sub, Past(Parse(path).rest), at[1..]);
    }
  }

  lemma {:induction false} FoundHere(es: seq<Entry>, path: string, i: nat, base: nat)
    requires Picks(es, i, Parse(path).name, Parse(path).dup) && Past(Parse(path).rest) == "" && es[i].sub == []
    ensures Resolves(es, path, [i]) && Visible(es, [i]) && Index(es, [i]) == CountVisible(es[..i])
    ensures Numbered(OpenAlong(es, path), [i], base, base + CountVisible(es[..i])) && OpenAlong(es, path) == es
  {
    OpenAlongAt(es, path, i);
    OpenShows(es, path, [i]);
  }

  /** find_entry_by_path. */
  method FindEntryByPath(path: string, es: seq<Entry>, base: nat, expandDirs: bool)
    returns (found: Option<Place>, index: nat, after: seq<Entry>)
    ensures found.Some? ==>
              Resolves(es, path, found.value) && Visible(es, found.value) && index == base + Index(es, found.value)
    ensures found.Some? ==> Numbered(OpenAlong(es, path), found.value, base, index)
    ensures found.None? ==> forall at: Place :: !Resolves(es, path, at)
    ensures after == if expandDirs then OpenAlong(es, path) else es
    decreases es, 1
  {
    var name, dup, rest := ParsePathComponent(path);
    var isLast := rest == "";
    var idx, same := base, 0;
    found, index, after := None, 0, es;
    var i := 0;
    while i < |es|
      invariant i <= |es| && found == None && after == es
      invariant idx == base + CountVisible(es[..i]) && same == SameNamed(es, i, name)
      invariant forall k: nat :: k < i && Picks(es, k, name, dup) ==> Mismatch(es[k], isLast)
    {
      var e := es[i];
      CountNext(es, i);
      if !Skips(e) {
        var matches := e.name == name;
        if matches && same == dup {
          if isLast && e.sub == [] {
            FoundHere(es, path, i, base);
            found, index := Some([i]), idx;
            return;
          } else if !isLast && e.sub != [] {
            found, index, after := Enter(path, rest, es, i, idx, base, expandDirs);
            return;
          }
        }
        if matches {
          same := same + 1;
        }
        idx := idx + 1;
        if e.sub != [] && e.expanded {
          idx := idx + CountVisible(e.sub);
        }
      }
      i := i + 1;
    }
    NothingThere(es, path);
  }

  /** The recursive call of find_entry_by_path for the directory at i. */
  method Enter(path: string, rest: string, es: seq<Entry>, i: nat, idx: nat, ghost base: nat, expandDirs: bool)
    returns (found: Option<Place>, index: nat, after: seq<Entry>)
    requires i < |es| && idx == base + CountVisible(es[..i])
    requires Picks(es, i, Parse(path).name, Parse(path).dup) && rest == Past(Parse(path).rest) != "" && es[i].sub != []
    ensures found.Some? ==>
              Resolves(es, path, found.value) && Visible(es, found.value) && index == base + Index(es, found.value)
    ensures found.Some? ==> Numbered(OpenAlong(es, path), found.value, base, index)
    ensures found.None? ==> forall at: Place :: !Resolves(es, path, at)
    ensures after == if expandDirs then OpenAlong(es, path) else es
    decreases es, 0
  {
    OpenAlongAt(es, path, i);
    var inner, sub;
    inner, index, sub := FindEntryByPath(rest, es[i].sub, idx + 1, expandDirs);
    after := if expandDirs then es[i := es[i].(expanded := true, sub := sub)] else es;
    if inner.Some? {
      FoundBelow(es, path, i, inner.value);
      found := Some([i] + inner.value);
      OpenShows(es, path, found.value);
    } else {
      OnlyHere(es, path, i);
      found := None;
    }
  }

  /** An entry of the wrong kind for its position in the path. */
  predicate Mismatch(e: Entry, isLast: bool) {
    isLast != (e.sub == [])
  }

  lemma {:induction false} FoundBelow(es: seq<Entry>, path: string, i: nat, at: Place)
    requires Picks(es, i, Parse(path).name, Parse(path).dup) && Past(Parse(path).rest) != "" && es[i].sub != []
    requires Resolves(es[i].sub, Past(Parse(path).rest), at)
    ensures Resolves(es, path, [i] + at) && Visible(es[i].sub, at) && Visible(es, [i] + at)
    ensures Index(es, [i] + at) == CountVisible(es[..i]) + 1 + Index(es[i].sub, at)
  {
    var whole: Place := [i] + at;
    assert whole[1..] == at;
    ResolvesVisible(es, path, whole);
    ResolvesVisible(es[i].sub, Past(Parse(path).rest), at);
  }

  lemma {:induction false} OnlyHere(es: seq<Entry>, path: string, i: nat)
    requires Picks(es, i, Parse(path).name, Parse(path).dup) && Past(Parse(path).rest) != ""
    requires forall at: Place :: !Resolves(es[i].sub, Past(Parse(path).rest), at)
    ensures forall at: Place :: !Resolves(es, path, at)
  {
    forall at: Place ensures !Resolves(es, path, at) {
      if Resolves(es, path, at) {
        PicksUnique(es, i, at[0], Parse(path).name, Parse(path).dup);
      }
    }
  }

  lemma {:induction false} NothingThere(es: seq<Entry>, path: string)
    requires forall k: nat :: k < |es| && Picks(es, k, Parse(path).name, Parse(path).dup) ==>
               Mismatch(es[k], Past(Parse(path).rest) == "")
    ensures forall at: Place :: !Resolves(es, path, at)
    ensures OpenAlong(es, path) == es
  {
  }

  // ----- The path of an entry

  /** The place exists. */
  ghost predicate Exists(es: seq<Entry>, at: Place)
    decreases |at|
  {
    at != [] && at[0] < |es| && (|at| > 1 ==> Exists(es[at[0]].sub, at[1..]))
  }

  /** The list the last position of a place points into. */
  function Siblings(es: seq<Entry>, at: Place): (r: seq<Entry>)
    requires Exists(es, at)
    ensures at[|at| - 1] < |r|
    decreases |at|
  {
    if |at| == 1 then es else Siblings(es[at[0]].sub, at[1..])
  }

  function PrintedAt(es: seq<Entry>, i: nat): string
    requires i < |es|
  {
    Printed(es[i].name, SameNamed(es, i, es[i].name))
  }

  /** The components from the root down, with slashes between them. */
  ghost function PathOf(es: seq<Entry>, at: Place): string
    requires Exists(es, at)
    decreases |at|
  {
    if |at| == 1 then PrintedAt(es, at[0])
    else PrintedAt(es, at[0]) + ("/" + PathOf(es[at[0]].sub, at[1..]))
  }

  /** The last component is added to the path of the parent. */
  lemma {:induction false} PathOfParent(es: seq<Entry>, at: Place)
    requires Exists(es, at) && |at| > 1
    ensures var n := |at| - 1;
            Exists(es, at[..n]) && PathOf(es, at) == PathOf(es, at[..n]) + ("/" + PrintedAt(Siblings(es, at), at[n]))
    decreases |at|
  {
    var n := |at| - 1;
    if |at| > 2 {
      var below := at[1..];
      PathOfParent(es[at[0]].sub, below);
      assert at[..n][1..] == below[..n - 1];
      var a, b := PrintedAt(es, at[0]), PathOf(es[at[0]].sub, below[..n - 1]);
      var c := "/" + PrintedAt(Siblings(es, at), at[n]);
      Regroup("/", b, c);
      Regroup(a, "/" + b, c);
    }
  }

  function Power10(k: nat): nat {
    if k == 0 then 1 else 10 * Power10(k - 1)
  }

  /** How many digits a number has. */
  lemma {:induction false} DecimalLength(n: nat, k: nat)
    requires k > 0
    ensures |Decimal(n)| <= k <==> n < Power10(k)
    decreases k
  {
    if n >= 10 {
      if k > 1 {
        DecimalLength(n / 10, k - 1);
      } else {
        assert Power10(1) == 10 * Power10(0);
      }
    } else {
      TenOrMore(k);
    }
  }

  lemma {:induction false} TenOrMore(k: nat)
    requires k > 0
    ensures Power10(k) >= 10
  {
    if k > 1 {
      TenOrMore(k - 1);
    }
  }

  lemma {:induction false} Power10Of16()
    ensures Power10(16) == 10_000_000_000_000_000
  {
    assert Power10(4) == 10_000;
    assert Power10(8) == 10_000 * Power10(4);
    assert Power10(12) == 10_000 * Power10(8);
    assert Power10(16) == 10_000 * Power10(12);
  }

  /** The digits of a number, the last one first; the 16 bytes of the program's array are enough
      exactly for numbers below 10^16. */
  method Digits(n: nat) returns (digits: string)
    requires n > 0
    ensures Reversed(digits) == Decimal(n)
    ensures |digits| <= 16 <==> n < 10_000_000_000_000_000
  {
    DecimalLength(n, 16);
    Power10Of16();
    digits := "";
    var val := n;
    while val > 0
      invariant Decimal(n) == (if val > 0 then Decimal(val) else "") + Reversed(digits)
    {
      NextDigit(val, digits);
      digits := digits + [Digit(val % 10)];
      val := val / 10;
    }
  }

  /** The number behind a name, into a buffer of limited size. */
  method AppendDup(start: string, bufSize: nat, dup: nat) returns (buf: string)
    requires |start| < bufSize
    ensures |buf| < bufSize
    ensures buf <= start + Suffix(dup) && (|buf| == bufSize - 1 || buf == start + Suffix(dup))
  {
    buf := start;
    if dup > 0 && |buf| < bufSize - 1 {
      buf := buf + "#";
      var digits := Digits(dup);
      ghost var whole := start + "#" + Decimal(dup);
      var i := |digits|;
      while i > 0 && |buf| < bufSize - 1
        invariant 0 <= i <= |digits| && |buf| < bufSize && |buf| + i == |whole| && buf == whole[..|buf|]
      {
        DigitOf(start, Decimal(dup), digits, i);
        buf := buf + [digits[i - 1]];
        i := i - 1;
      }
      assert start + Suffix(dup) == whole;
    }
  }

  lemma {:induction false} DigitOf(start: string, number: string, digits: string, i: nat)
    requires 0 < i <= |digits| && number == Reversed(digits)
    ensures (start + "#" + number)[|start| + 1 + |digits| - i] == digits[i - 1]
  {
    assert number[|digits| - i] == digits[i - 1];
  }

  ghost function Reversed(s: string): (r: string)
    ensures |r| == |s| && forall i :: 0 <= i < |s| ==> r[i] == s[|s| - 1 - i]
  {
    seq(|s|, i requires 0 <= i < |s| => s[|s| - 1 - i])
  }

  lemma {:induction false} NextDigit(val: nat, digits: string)
    requires val > 0
    ensures Decimal(val) + Reversed(digits) ==
            (if val / 10 > 0 then Decimal(val / 10) else "") + Reversed(digits + [Digit(val % 10)])
  {
    assert Reversed(digits + [Digit(val % 10)]) == [Digit(val % 10)] + Reversed(digits);
  }

  /** One component behind what the buffer holds. */
  method AppendComponent(start: string, bufSize: nat, name: string, dup: nat) returns (buf: string)
    requires |start| < bufSize
    ensures |buf| < bufSize
    ensures |start + Printed(name, dup)| < bufSize ==> buf == start + Printed(name, dup)
  {
    Regroup(start, Escaped(name), Suffix(dup));
    var escaped := EscapeName(name, bufSize - |start|);
    buf := AppendDup(start + escaped, bufSize, dup);
  }

  /** get_entry_path: the path of an entry when it fits the buffer with its terminator. */
  method GetEntryPath(es: seq<Entry>, at: Place, bufSize: nat) returns (buf: string)
    requires Exists(es, at) && bufSize > 0
    ensures |buf| < bufSize
    ensures |PathOf(es, at)| < bufSize ==> buf == PathOf(es, at)
    decreases |at|
  {
    buf := "";
    var n := |at| - 1;
    var siblings := Siblings(es, at);
    var dup := SameNamed(siblings, at[n], siblings[at[n]].name);
    if |at| > 1 {
      PathOfParent(es, at);
      Regroup(PathOf(es, at[..n]), "/", PrintedAt(siblings, at[n]));
      buf := GetEntryPath(es, at[..n], bufSize);
      if |buf| < bufSize - 1 {
        buf := buf + "/";
      }
    } else {
      assert "" + PrintedAt(siblings, at[n]) == PrintedAt(siblings, at[n]);
    }
    buf := AppendComponent(buf, bufSize, siblings[at[n]].name, dup);
  }

  // ----- The round trip

  ghost predicate LeafAt(es: seq<Entry>, at: Place) {
    Exists(es, at) && Siblings(es, at)[at[|at| - 1]].sub == []
  }

  /** A leaf below the root that prints as nothing: its path reads as that of its directory. */
  ghost predicate Lost(es: seq<Entry>, at: Place)
    requires Exists(es, at)
  {
    |at| > 1 && PrintedAt(Siblings(es, at), at[|at| - 1]) == ""
  }

  lemma {:induction false} VisibleExists(es: seq<Entry>, at: Place)
    requires Visible(es, at)
    ensures Exists(es, at)
    decreases |at|
  {
    if |at| > 1 {
      VisibleExists(es[at[0]].sub, at[1..]);
    }
  }

  /** What the first component of the path of a place picks, and what is left of the path. */
  lemma {:induction false} FirstComponent(es: seq<Entry>, at: Place)
    requires Exists(es, at) && (|at| == 1 ==> !Skips(es[at[0]]))
    ensures var c := Parse(PathOf(es, at));
            && Picks(es, at[0], c.name, c.dup)
            && Past(c.rest) == if |at| == 1 then "" else PathOf(es[at[0]].sub, at[1..])
  {
    var e := es[at[0]];
    var tail := if |at| == 1 then "" else "/" + PathOf(e.sub, at[1..]);
    assert PathOf(es, at) == PrintedAt(es, at[0]) + tail;
    ParsePrinted(e.name, SameNamed(es, at[0], e.name), tail);
  }

  /** Only the last component can vanish. */
  lemma {:induction false} LostStep(es: seq<Entry>, at: Place)
    requires Exists(es, at) && |at| > 1
    ensures Lost(es, at) <==> PathOf(es[at[0]].sub, at[1..]) == "" || Lost(es[at[0]].sub, at[1..])
  {
    var sub, below := es[at[0]].sub, at[1..];
    assert below[|below| - 1] == at[|at| - 1];
    assert Siblings(es, at) == Siblings(sub, below);
    if |below| > 1 {
      var first, more := PrintedAt(sub, below[0]), PathOf(sub[below[0]].sub, below[1..]);
      assert |PathOf(sub, below)| == |first| + 1 + |more|;
    }
  }

  /** The path of a place resolves level by level. */
  lemma {:induction false} ResolvesStep(es: seq<Entry>, at: Place, other: Place)
    requires Exists(es, at) && |at| > 1
    ensures var rest := PathOf(es[at[0]].sub, at[1..]);
            Resolves(es, PathOf(es, at), other) <==>
            rest != "" && |other| > 1 && other[0] == at[0] && Resolves(es[at[0]].sub, rest, other[1..])
  {
    FirstComponent(es, at);
    if Resolves(es, PathOf(es, at), other) {
      var c := Parse(PathOf(es, at));
      PicksUnique(es, at[0], other[0], c.name, c.dup);
    }
  }

  /** The path of a visible leaf leads back to it, and to nothing else, unless the leaf is lost; then
      it leads nowhere. */
  lemma {:induction false} RoundTrip(es: seq<Entry>, at: Place)
    requires Visible(es, at) && LeafAt(es, at)
    ensures Resolves(es, PathOf(es, at), at) <==> !Lost(es, at)
    ensures Lost(es, at) ==> forall other: Place :: !Resolves(es, PathOf(es, at), other)
    decreases |at|
  {
    if |at| > 1 {
      RoundTrip(es[at[0]].sub, at[1..]);
      LostStep(es, at);
      ResolvesStep(es, at, at);
      forall other: Place | Lost(es, at) ensures !Resolves(es, PathOf(es, at), other) {
        ResolvesStep(es, at, other);
      }
    } else {
      FirstComponent(es, at);
    }
  }

  /** When a leaf is lost: its name is empty and it is the first of that name in its directory. */
  lemma {:induction false} LostIff(es: seq<Entry>, at: Place)
    requires Exists(es, at)
    ensures var list := Siblings(es, at); var i := at[|at| - 1];
            Lost(es, at) <==> |at| > 1 && list[i].name == "" && SameNamed(list, i, "") == 0
  {
    var list := Siblings(es, at);
    var i := at[|at| - 1];
    if list[i].name != "" {
      EscapedHead(list[i].name);
    }
  }

  /** A directory with one entry, whose name is empty: the path of that entry leads nowhere. */
  lemma {:induction false} NamelessIsLost(es: seq<Entry>, name: string, expanded: bool)
    requires es == [Entry(name, false, [Entry("", false, [], false)], expanded)]
    ensures Visible(es, [0, 0]) && LeafAt(es, [0, 0]) && Lost(es, [0, 0])
    ensures forall other: Place :: !Resolves(es, PathOf(es, [0, 0]), other)
  {
    var at: Place := [0, 0];
    assert at[1..] == [0];
    assert Visible(es[0].sub, at[1..]) && Exists(es[0].sub, at[1..]);
    assert Siblings(es, at) == es[0].sub;
    LostIff(es, at);
    RoundTrip(es, at);
  }

  /** What a look-up of the path of a leaf finds. */
  lemma {:induction false} FoundAgain(es: seq<Entry>, at: Place, found: Option<Place>)
    requires Visible(es, at) && LeafAt(es, at) && !Lost(es, at)
    requires found.Some? ==> Resolves(es, PathOf(es, at), found.value)
    requires found.None? ==> forall other: Place :: !Resolves(es, PathOf(es, at), other)
    ensures found == Some(at)
    ensures Numbered(OpenAlong(es, PathOf(es, at)), at, 0, Index(es, at))
  {
    var path := PathOf(es, at);
    RoundTrip(es, at);
    if found.Some? {
      ResolvesUnique(es, path, at, found.value);
    }
    OpenShows(es, path, at);
  }

  /** What is drawn at the line of an entry. */
  lemma {:induction false} ChosenAgain(es: seq<Entry>, at: Place, line: nat, chosen: Option<Place>)
    requires Numbered(es, at, 0, line)
    requires chosen.Some? ==> Numbered(es, chosen.value, 0, line)
    requires chosen.None? ==> forall other: Place :: !Numbered(es, other, 0, line)
    ensures chosen == Some(at)
  {
    if chosen.Some? {
      IndexInjective(es, at, chosen.value);
    }
  }

  /** A remembered entry is found again: print its path, look the path up with the directories opened,
      draw the menu, and the line found selects the same entry. */
  method Reopen(es: seq<Entry>, at: Place, bufSize: nat) returns (chosen: Option<Place>)
    requires Visible(es, at) && LeafAt(es, at) && !Lost(es, at) && |PathOf(es, at)| < bufSize
    ensures chosen == Some(at)
  {
    var path := GetEntryPath(es, at, bufSize);
    var found, index, after := FindEntryByPath(path, es, 0, true);
    FoundAgain(es, at, found);
    var count;
    count, chosen := PrintTree(after, 0, index, true, 0, 0);
    ChosenAgain(after, at, index, chosen);
  }
}
