/**
 One component of a menu path (common/menu.c): a name with the characters \, / and # escaped, and
 a number behind # for all but the first of several siblings with the same name.
 */
module MenuPath {

  // ----- Decimal numbers

  predicate IsDigit(c: char) {
    '0' <= c <= '9'
  }

  function Digit(n: nat): (c: char)
    requires n < 10
    ensures IsDigit(c)
  {
    ('0' as int + n) as char
  }

  predicate AllDigits(s: string) {
    forall i :: 0 <= i < |s| ==> IsDigit(s[i])
  }

  function Decimal(n: nat): (s: string)
    ensures s != "" && AllDigits(s)
  {
    if n < 10 then [Digit(n)] else Decimal(n / 10) + [Digit(n % 10)]
  }

  function Value(s: string): nat
    requires AllDigits(s)
  {
    if s == "" then 0 else 10 * Value(s[..|s| - 1]) + (s[|s| - 1] as int - '0' as int)
  }

  lemma {:induction false} DecimalValue(n: nat)
    ensures Value(Decimal(n)) == n
  {
    if n >= 10 {
      DecimalValue(n / 10);
      assert Decimal(n)[..|Decimal(n)| - 1] == Decimal(n / 10);
    } else {
      assert Decimal(n)[..0] == "";
    }
  }

  // ----- Printing

  predicate Special(c: char) {
    c == '\\' || c == '/' || c == '#'
  }

  function EscapedChar(c: char): string {
    if Special(c) then ['\\', c] else [c]
  }

  function Escaped(name: string): string {
    if name == "" then "" else Escaped(name[..|name| - 1]) + EscapedChar(name[|name| - 1])
  }

  function Suffix(dup: nat): string {
    if dup == 0 then "" else "#" + Decimal(dup)
  }

  function Printed(name: string, dup: nat): string {
    Escaped(name) + Suffix(dup)
  }

  lemma {:induction false} EscapedMonotone(name: string, k: nat)
    requires k <= |name|
    ensures Escaped(name[..k]) <= Escaped(name)
    decreases |name|
  {
    if k < |name| {
      EscapedMonotone(name[..|name| - 1], k);
      assert name[..|name| - 1][..k] == name[..k];
    } else {
      assert name[..k] == name;
    }
  }

  /** escape_name: as much of the escaped name as fits with a terminator, no escape cut in two. */
  method EscapeName(name: string, bufSize: nat) returns (buf: string)
    ensures buf <= Escaped(name)
    ensures bufSize == 0 ==> buf == ""
    ensures bufSize > 0 ==> |buf| < bufSize
    ensures |Escaped(name)| < bufSize ==> buf == Escaped(name)
  {
    buf := "";
    if bufSize == 0 {
      return;
    }
    var i := 0;
    while i < |name|
      invariant i <= |name| && buf == Escaped(name[..i]) && |buf| < bufSize
    {
      EscapedMonotone(name, i);
      EscapedMonotone(name, i + 1);
      assert name[..i + 1][..i] == name[..i];
      if Special(name[i]) {
        if |buf| + 2 < bufSize {
          buf := buf + ['\\', name[i]];
        } else {
          return;
        }
      } else {
        if |buf| + 1 < bufSize {
          buf := buf + [name[i]];
        } else {
          return;
        }
      }
      i := i + 1;
    }
    assert name[..i] == name;
  }

  // ----- Parsing

  /** The number of digits a string starts with. */
  function DigitRun(s: string): (n: nat)
    ensures n <= |s| && AllDigits(s[..n]) && (n < |s| ==> !IsDigit(s[n]))
  {
    if s == "" || !IsDigit(s[0]) then 0
    else
      var n := DigitRun(s[1..]);
      assert s[..n + 1] == [s[0]] + s[1..][..n];
      n + 1
  }

  predicate AtEnd(s: string) {
    s == "" || s[0] == '/'
  }

  /** A # with a number up to the end of the component. */
  predicate IsDup(s: string) {
    s != "" && s[0] == '#' && DigitRun(s[1..]) > 0 && AtEnd(s[1 + DigitRun(s[1..])..])
  }

  datatype Component = Component(name: string, dup: nat, rest: string)

  /** What parse_path_component makes of a string, up to the separator. */
  function Parse(s: string): Component
    decreases |s|
  {
    if AtEnd(s) then Component("", 0, s)
    else if s[0] == '\\' && |s| > 1 then
      var c := Parse(s[2..]);
      c.(name := [s[1]] + c.name)
    else if IsDup(s) then
      var n := DigitRun(s[1..]);
      Component("", Value(s[1..][..n]), s[1 + n..])
    else
      var c := Parse(s[1..]);
      c.(name := [s[0]] + c.name)
  }

  /** The separator is passed. */
  function Past(rest: string): string {
    if rest != "" && rest[0] == '/' then rest[1..] else rest
  }

  /** A character of the name, escaped or not, parses as itself. */
  lemma {:induction false} ParseChar(c: char, more: string)
    ensures var m := Parse(more); Parse(EscapedChar(c) + more) == m.(name := [c] + m.name)
  {
    var s := EscapedChar(c) + more;
    if Special(c) {
      assert s[0] == '\\' && s[1] == c && s[2..] == more;
    } else {
      assert s[0] == c && s[1..] == more;
    }
  }

  /** Printing and parsing: the escapes come off and the number stays apart from the name. */
  lemma {:induction false} ParseEscaped(name: string, tail: string)
    requires Parse(tail).name == ""
    ensures Parse(Escaped(name) + tail) == Parse(tail).(name := name)
    decreases |name|
  {
    if name == "" {
      assert Escaped(name) + tail == tail;
    } else {
      EscapedHead(name);
      ParseEscaped(name[1..], tail);
      Regroup(EscapedChar(name[0]), Escaped(name[1..]), tail);
      ParseChar(name[0], Escaped(name[1..]) + tail);
      assert name == [name[0]] + name[1..];
    }
  }

  lemma {:induction false} EscapedHead(name: string)
    requires name != ""
    ensures Escaped(name) == EscapedChar(name[0]) + Escaped(name[1..])
    decreases |name|
  {
    if |name| == 1 {
      assert name[..0] == "" && name[1..] == "";
      assert Escaped(name[..0]) == "" && Escaped(name[1..]) == "";
    } else {
      var n := |name| - 1;
      var last := EscapedChar(name[n]);
      var middle := Escaped(name[1..n]);
      EscapedHead(name[..n]);
      assert name[..n][1..] == name[1..n];
      assert name[1..][..n - 1] == name[1..n] && name[1..][n - 1] == name[n];
      assert Escaped(name[1..]) == middle + last;
      Regroup(EscapedChar(name[0]), middle, last);
    }
  }

  lemma {:induction false} Regroup(a: string, b: string, c: string)
    ensures (a + b) + c == a + (b + c)
  {
  }

  lemma {:induction false} RunLength(d: string, tail: string)
    requires AllDigits(d) && AtEnd(tail)
    ensures DigitRun(d + tail) == |d|
    decreases |d|
  {
    if d != "" {
      assert (d + tail)[1..] == d[1..] + tail;
      RunLength(d[1..], tail);
    } else {
      assert d + tail == tail;
    }
  }

  lemma {:induction false} ParseNumber(d: string, tail: string)
    requires d != "" && AllDigits(d) && AtEnd(tail)
    ensures var s := ("#" + d) + tail; IsDup(s) && Parse(s) == Component("", Value(d), tail)
  {
    var s := ("#" + d) + tail;
    assert s[0] == '#' && s[1..] == d + tail;
    RunLength(d, tail);
    assert s[1..][..|d|] == d && s[1 + |d|..] == tail;
  }

  lemma {:induction false} ParseSuffix(dup: nat, tail: string)
    requires AtEnd(tail)
    ensures var s := Suffix(dup) + tail;
            Parse(s) == Component("", dup, tail)
  {
    if dup == 0 {
      assert "" + tail == tail;
    } else {
      DecimalValue(dup);
      ParseNumber(Decimal(dup), tail);
    }
  }

  /** A printed component parses back, whatever the name and the number. */
  lemma {:induction false} ParsePrinted(name: string, dup: nat, tail: string)
    requires AtEnd(tail)
    ensures Parse(Printed(name, dup) + tail) == Component(name, dup, tail)
  {
    Regroup(Escaped(name), Suffix(dup), tail);
    ParseSuffix(dup, tail);
    ParseEscaped(name, Suffix(dup) + tail);
  }

  // ----- parse_path_component

  /** One step of both passes. */
  datatype Step = Stop(dup: nat, next: nat) | Take(c: char, next: nat)

  /** What is at p: the end of the component, with a number or without, or one character of the name. */
  ghost function StepAt(path: string, p: nat): Step
    requires p <= |path|
  {
    if AtEnd(path[p..]) then Stop(0, p)
    else if path[p] == '\\' && p + 1 < |path| then Take(path[p + 1], p + 2)
    else if IsDup(path[p..]) then var n := DigitRun(path[p + 1..]); Stop(Value(path[p + 1..][..n]), p + 1 + n)
    else Take(path[p], p + 1)
  }

  lemma {:induction false} ParseStep(path: string, p: nat)
    requires p <= |path|
    ensures var step := StepAt(path, p);
            && step.next <= |path|
            && (step.Stop? ==> Parse(path[p..]) == Component("", step.dup, path[step.next..]))
            && (step.Take? ==>
                  p < step.next && var c := Parse(path[step.next..]); Parse(path[p..]) == c.(name := [step.c] + c.name))
  {
    var s := path[p..];
    if !AtEnd(s) {
      assert s[1..] == path[p + 1..];
      if s[0] == '\\' && |s| > 1 {
        assert s[2..] == path[p + 2..];
      } else if IsDup(s) {
        var n := DigitRun(s[1..]);
        assert s[1 + n..] == path[p + 1 + n..];
      }
    }
  }

  /** How the two passes tell a number at the end from a # in the name. */
  lemma {:induction false} DupTest(path: string, p: nat, q: nat)
    requires p < |path| && path[p] == '#' && p + 1 <= q <= |path| && q - (p + 1) == DigitRun(path[p + 1..])
    ensures IsDup(path[p..]) <==> q > p + 1 && (q == |path| || path[q] == '/')
    ensures path[p + 1..][..q - (p + 1)] == path[p + 1..q]
  {
    var s := path[p..];
    assert s[1..] == path[p + 1..];
    assert s[1 + (q - (p + 1))..] == path[q..];
  }

  method SkipDigits(path: string, start: nat) returns (q: nat)
    requires start <= |path|
    ensures start <= q <= |path| && q - start == DigitRun(path[start..])
  {
    q := start;
    while q < |path| && IsDigit(path[q])
      invariant start <= q <= |path| && (q - start) + DigitRun(path[q..]) == DigitRun(path[start..])
    {
      assert path[q..][1..] == path[q + 1..];
      q := q + 1;
    }
  }

  /** The body of the loop that the two passes share. */
  method Look(path: string, p: nat) returns (step: Step)
    requires p < |path| && path[p] != '/'
    ensures step == StepAt(path, p)
  {
    if path[p] == '\\' && p + 1 < |path| {
      return Take(path[p + 1], p + 2);
    }
    if path[p] == '#' {
      var q := SkipDigits(path, p + 1);
      DupTest(path, p, q);
      if q > p + 1 && (q == |path| || path[q] == '/') {
        return Stop(Value(path[p + 1..q]), q);
      }
    }
    return Take(path[p], p + 1);
  }

  /** The first pass: how long the unescaped name is. */
  method Measure(path: string) returns (len: nat)
    ensures len == |Parse(path).name|
  {
    len := 0;
    var scan := 0;
    assert path[0..] == path;
    while scan < |path| && path[scan] != '/'
      invariant scan <= |path| && len + |Parse(path[scan..]).name| == |Parse(path).name|
      decreases |path| - scan
    {
      ParseStep(path, scan);
      var step := Look(path, scan);
      if step.Stop? {
        break;
      }
      len := len + 1;
      scan := step.next;
    }
  }

  /** The name so far and what is still to come make up the component. */
  ghost predicate Filling(path: string, p: nat, name: string) {
    p <= |path| && var c := Parse(path[p..]); Parse(path) == c.(name := name + c.name)
  }

  lemma {:induction false} FillingStep(path: string, p: nat, name: string)
    requires Filling(path, p, name)
    ensures var step := StepAt(path, p);
            && (step.Stop? ==> step.next <= |path| && Parse(path) == Component(name, step.dup, path[step.next..]))
            && (step.Take? ==>
                  p < step.next && |name| < |Parse(path).name| && Filling(path, step.next, name + [step.c]))
  {
    ParseStep(path, p);
    var step := StepAt(path, p);
    if step.Take? {
      Regroup(name, [step.c], Parse(path[step.next..]).name);
    } else {
      assert name + "" == name;
    }
  }

  /** The second pass: it fills exactly the space the first one measured. */
  method Fill(path: string, buf: array<char>) returns (dup: nat, p: nat)
    requires buf.Length == |Parse(path).name|
    modifies buf
    ensures p <= |path| && Parse(path) == Component(buf[..], dup, path[p..])
  {
    dup, p := 0, 0;
    var j := 0;
    assert path[0..] == path && "" + Parse(path).name == Parse(path).name;
    while p < |path| && path[p] != '/'
      invariant j <= buf.Length && Filling(path, p, buf[..j])
      decreases |path| - p
    {
      FillingStep(path, p, buf[..j]);
      var step := Look(path, p);
      if step.Stop? {
        assert buf[..j] == buf[..];
        return step.dup, step.next;
      }
      ghost var before := buf[..j];
      buf[j] := step.c;
      j := j + 1;
      assert buf[..j] == before + [step.c];
      p := step.next;
    }
    FillingStep(path, p, buf[..j]);
    assert buf[..j] == buf[..];
    return 0, p;
  }

  /** parse_path_component. */
  method ParsePathComponent(path: string) returns (name: string, dup: nat, rest: string)
    ensures name == Parse(path).name && dup == Parse(path).dup && rest == Past(Parse(path).rest)
  {
    var len := Measure(path);
    var buf := new char[len](_ => ' ');
    var p;
    dup, p := Fill(path, buf);
    name := buf[..];
    rest := if p < |path| && path[p] == '/' then path[p + 1..] else path[p..];
  }
}
