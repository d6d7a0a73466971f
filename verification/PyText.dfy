/** The Python string and text-file operations that the style checks use. */
module PyText {
  import opened Strings

  /** The characters for which `str.isspace` holds; `\s` in a pattern matches the same ones. */
  predicate IsSpace(c: char) {
    var n := c as int;
    || 0x09 <= n <= 0x0d || 0x1c <= n <= 0x20 || n == 0x85 || n == 0xa0 || n == 0x1680
    || 0x2000 <= n <= 0x200a || n == 0x2028 || n == 0x2029 || n == 0x202f || n == 0x205f || n == 0x3000
  }

  // ----- strip

  function TrimLeft(s: string, p: char -> bool): string {
    if s != "" && p(s[0]) then TrimLeft(s[1..], p) else s
  }

  function TrimRight(s: string, p: char -> bool): string {
    if s != "" && p(s[|s| - 1]) then TrimRight(s[..|s| - 1], p) else s
  }

  function Strip(s: string, p: char -> bool): string {
    TrimLeft(TrimRight(s, p), p)
  }

  /** A nonempty string that `strip` leaves alone. */
  predicate Solid(s: string, p: char -> bool) {
    s != "" && !p(s[0]) && !p(s[|s| - 1])
  }

  lemma {:induction false} TrimLeftSplit(s: string, p: char -> bool) returns (a: string)
    ensures s == a + TrimLeft(s, p) && All(a, p)
  {
    if s != "" && p(s[0]) {
      var b := TrimLeftSplit(s[1..], p);
      a := [s[0]] + b;
      assert s == [s[0]] + s[1..];
    } else {
      a := "";
    }
  }

  lemma {:induction false} TrimRightSplit(s: string, p: char -> bool) returns (b: string)
    ensures s == TrimRight(s, p) + b && All(b, p)
  {
    if s != "" && p(s[|s| - 1]) {
      var n := |s| - 1;
      var c := TrimRightSplit(s[..n], p);
      b := c + [s[n]];
      assert s == s[..n] + [s[n]];
    } else {
      b := "";
    }
  }

  lemma StripSplit(s: string, p: char -> bool) returns (a: string, b: string)
    ensures s == a + Strip(s, p) + b && All(a, p) && All(b, p)
  {
    b := TrimRightSplit(s, p);
    a := TrimLeftSplit(TrimRight(s, p), p);
  }

  lemma {:induction false} TrimLeftAround(a: string, x: string, p: char -> bool)
    requires x != "" && !p(x[0])
    ensures TrimLeft(a + x, p) == TrimLeft(a, p) + x
  {
    if a == "" {
      assert a + x == x;
    } else {
      assert (a + x)[1..] == a[1..] + x;
      if p(a[0]) {
        TrimLeftAround(a[1..], x, p);
      }
    }
  }

  lemma {:induction false} TrimRightAround(x: string, b: string, p: char -> bool)
    requires x != "" && !p(x[|x| - 1])
    ensures TrimRight(x + b, p) == x + TrimRight(b, p)
  {
    if b == "" {
      assert x + b == x;
    } else {
      var n := |b| - 1;
      assert (x + b)[..|x + b| - 1] == x + b[..n];
      if p(b[n]) {
        TrimRightAround(x, b[..n], p);
      }
    }
  }

  /** Stripping works on the two sides of a solid middle part independently. */
  lemma StripAround(a: string, x: string, b: string, p: char -> bool)
    requires Solid(x, p)
    ensures Strip(a + x + b, p) == TrimLeft(a, p) + x + TrimRight(b, p)
  {
    var ax := a + x;
    assert ax[|ax| - 1] == x[|x| - 1];
    TrimRightAround(ax, b, p);
    var xr := x + TrimRight(b, p);
    assert ax + TrimRight(b, p) == a + xr;
    TrimLeftAround(a, xr, p);
    assert TrimLeft(a, p) + xr == TrimLeft(a, p) + x + TrimRight(b, p);
  }

  lemma {:induction false} TrimLeftAll(a: string, p: char -> bool)
    requires All(a, p)
    ensures TrimLeft(a, p) == ""
  {
    if a != "" {
      TrimLeftAll(a[1..], p);
    }
  }

  lemma {:induction false} TrimRightAll(b: string, p: char -> bool)
    requires All(b, p)
    ensures TrimRight(b, p) == ""
  {
    if b != "" {
      TrimRightAll(b[..|b| - 1], p);
    }
  }

  lemma StripExact(a: string, x: string, b: string, p: char -> bool)
    requires All(a, p) && Solid(x, p) && All(b, p)
    ensures Strip(a + x + b, p) == x
  {
    StripAround(a, x, b, p);
    TrimLeftAll(a, p);
    TrimRightAll(b, p);
  }

  /** `strip` removes exactly the characters of the two ends: what is left is empty or solid,
      and no other such middle part fits. */
  lemma StripIff(s: string, x: string, p: char -> bool)
    ensures Strip(s, p) == x <==> StripsTo(s, x, p)
  {
    var a, b := StripSplit(s, p);
    StrippedIsSolid(s, p);
    if Strip(s, p) == x {
      assert Around(s, a, x, b) && All(a, p) && All(b, p);
    }
    if StripsTo(s, x, p) {
      var c, d :| Around(s, c, x, d) && All(c, p) && All(d, p);
      if x != "" {
        StripExact(c, x, d, p);
      } else {
        assert s == c + d && All(s, p);
        TrimRightAll(s, p);
      }
    }
  }

  predicate Around(s: string, a: string, x: string, b: string) {
    s == a + x + b
  }

  /** The string is `x` between characters satisfying `p`, and `x` is empty or begins and ends otherwise. */
  ghost predicate StripsTo(s: string, x: string, p: char -> bool) {
    (x == "" || Solid(x, p)) && exists a, b :: Around(s, a, x, b) && All(a, p) && All(b, p)
  }

  lemma {:induction false} TrimLeftKeepsEnd(s: string, p: char -> bool)
    ensures var t := TrimLeft(s, p); t != "" ==> !p(t[0]) && s != "" && t[|t| - 1] == s[|s| - 1]
  {
    if s != "" && p(s[0]) {
      TrimLeftKeepsEnd(s[1..], p);
    }
  }

  lemma {:induction false} TrimRightEnd(s: string, p: char -> bool)
    ensures var t := TrimRight(s, p); t != "" ==> !p(t[|t| - 1])
  {
    if s != "" && p(s[|s| - 1]) {
      TrimRightEnd(s[..|s| - 1], p);
    }
  }

  lemma StrippedIsSolid(s: string, p: char -> bool)
    ensures Strip(s, p) == "" || Solid(Strip(s, p), p)
  {
    TrimRightEnd(s, p);
    TrimLeftKeepsEnd(TrimRight(s, p), p);
  }

  lemma OccursShifted(a: string, x: string, b: string, pattern: string, i: nat)
    requires i + |pattern| <= |x|
    ensures OccursAt(x, pattern, i) <==> OccursAt(a + x + b, pattern, |a| + i)
  {
    assert (a + x + b)[|a| + i..|a| + i + |pattern|] == x[i..i + |pattern|];
  }

  /** Stripping hides no text that begins and ends with other characters. */
  lemma ContainsStripped(s: string, pattern: string, p: char -> bool)
    requires Solid(pattern, p)
    ensures Contains(Strip(s, p), pattern) <==> Contains(s, pattern)
  {
    var a, b := StripSplit(s, p);
    var x := Strip(s, p);
    if i :| 0 <= i <= |x| && OccursAt(x, pattern, i) {
      OccursShifted(a, x, b, pattern, i);
    }
    if i :| 0 <= i <= |s| && OccursAt(s, pattern, i) {
      var n := |pattern|;
      assert s[i] == pattern[0] && s[i + n - 1] == pattern[n - 1];
      OccursShifted(a, x, b, pattern, i - |a|);
    }
  }

  // ----- replace

  /** `str.replace`: every occurrence from the left, without overlap. */
  function Replace(s: string, from: string, to: string): string
    requires from != ""
  {
    if |s| < |from| then s
    else if s[..|from|] == from then to + Replace(s[|from|..], from, to)
    else [s[0]] + Replace(s[1..], from, to)
  }

  lemma ReplaceStep(c: char, s: string, from: string, to: string)
    requires from != "" && from[0] != c
    ensures Replace([c] + s, from, to) == [c] + Replace(s, from, to)
  {
    var t := [c] + s;
    assert t[1..] == s && t[0] == c;
    if |t| >= |from| {
      assert t[..|from|][0] == c;
    }
  }

  lemma {:induction false} ReplaceSkips(a: string, s: string, from: string, to: string)
    requires from != "" && from[0] !in a
    ensures Replace(a + s, from, to) == a + Replace(s, from, to)
  {
    if a == "" {
      assert a + s == s;
    } else {
      ReplaceSkips(a[1..], s, from, to);
      Rejoin(a, s);
      ReplaceStep(a[0], a[1..] + s, from, to);
      Rejoin(a, Replace(s, from, to));
    }
  }

  lemma Rejoin(a: string, s: string)
    requires a != ""
    ensures [a[0]] + (a[1..] + s) == a + s
  {
  }

  lemma ReplaceAbsent(s: string, from: string, to: string)
    requires from != "" && from[0] !in s
    ensures Replace(s, from, to) == s
  {
    ReplaceSkips(s, "", from, to);
    assert s + "" == s;
  }

  lemma ReplaceHere(s: string, from: string, to: string)
    requires from != ""
    ensures Replace(from + s, from, to) == to + Replace(s, from, to)
  {
    assert (from + s)[..|from|] == from && (from + s)[|from|..] == s;
  }

  // ----- lines

  /** A line as `readlines` gives it: a newline only at the end. */
  predicate IsLine(l: string) {
    l != "" && '\r' !in l && '\n' !in l[..|l| - 1]
  }

  predicate Terminated(l: string) {
    l != "" && l[|l| - 1] == '\n'
  }

  /** The lines of a file: only the last may lack its newline. */
  ghost predicate FileLines(ls: seq<string>) {
    && (forall i :: 0 <= i < |ls| ==> IsLine(ls[i]))
    && (forall i :: 0 <= i < |ls| - 1 ==> Terminated(ls[i]))
  }

  /** Universal newlines: "\r\n" and "\r" read as "\n". */
  function Translate(s: string): (t: string)
    ensures '\r' !in t
    ensures '\r' !in s ==> t == s
    decreases |s|
  {
    if s == "" then ""
    else if s[0] != '\r' then
      assert s == [s[0]] + s[1..];
      [s[0]] + Translate(s[1..])
    else if |s| > 1 && s[1] == '\n' then "\n" + Translate(s[2..])
    else "\n" + Translate(s[1..])
  }

  /** Length of the first line, its newline included. */
  function LineEnd(s: string): (k: nat)
    requires s != ""
    ensures 0 < k <= |s|
    ensures '\n' !in s[..k - 1]
    ensures s[k - 1] == '\n' || k == |s|
  {
    if s[0] == '\n' || |s| == 1 then 1
    else
      var k := LineEnd(s[1..]);
      assert s[..k] == [s[0]] + s[1..][..k - 1];
      k + 1
  }

  function SplitLines(s: string): (ls: seq<string>)
    decreases |s|
  {
    if s == "" then [] else [s[..LineEnd(s)]] + SplitLines(s[LineEnd(s)..])
  }

  function ReadLines(contents: string): seq<string> {
    SplitLines(Translate(contents))
  }

  function Concat(ls: seq<string>): string {
    if ls == [] then "" else ls[0] + Concat(ls[1..])
  }

  lemma ConsLines(l: string, ls: seq<string>)
    requires IsLine(l) && FileLines(ls) && (ls != [] ==> Terminated(l))
    ensures FileLines([l] + ls)
  {
  }

  lemma CutLine(s: string, k: nat)
    requires '\r' !in s && 0 < k <= |s| && '\n' !in s[..k - 1]
    ensures IsLine(s[..k]) && '\r' !in s[k..]
  {
    assert s[..k][..k - 1] == s[..k - 1];
  }

  lemma {:induction false} SplitGivesLines(s: string)
    requires '\r' !in s
    ensures FileLines(SplitLines(s))
    ensures SplitLines(s) == [] <==> s == ""
    decreases |s|
  {
    if s != "" {
      var k := LineEnd(s);
      CutLine(s, k);
      SplitGivesLines(s[k..]);
      assert s[..k][k - 1] == s[k - 1];
      ConsLines(s[..k], SplitLines(s[k..]));
    }
  }

  lemma {:induction false} FirstLine(l: string, rest: string)
    requires IsLine(l) && (rest != "" ==> Terminated(l))
    ensures LineEnd(l + rest) == |l|
  {
    var s := l + rest;
    if |l| > 1 {
      assert l[..|l| - 1][0] == l[0];
      assert l[1..][..|l| - 2] == l[..|l| - 1][1..];
      FirstLine(l[1..], rest);
      assert s[1..] == l[1..] + rest;
    }
  }

  lemma {:induction false} SplitConcat(ls: seq<string>)
    requires FileLines(ls)
    ensures SplitLines(Concat(ls)) == ls && '\r' !in Concat(ls)
  {
    if ls != [] {
      var l, rest := ls[0], ls[1..];
      assert FileLines(rest) by {
        assert forall i :: 0 <= i < |rest| ==> rest[i] == ls[i + 1];
      }
      SplitConcat(rest);
      FirstLine(l, Concat(rest));
      assert (l + Concat(rest))[..|l|] == l && (l + Concat(rest))[|l|..] == Concat(rest);
    }
  }

  /** Writing lines and reading them back gives the same lines. */
  lemma ReadBack(ls: seq<string>)
    requires FileLines(ls)
    ensures ReadLines(Concat(ls)) == ls
  {
    SplitConcat(ls);
  }

  lemma ReadGivesLines(contents: string)
    ensures FileLines(ReadLines(contents))
  {
    SplitGivesLines(Translate(contents));
  }

  lemma {:induction false} SplitWhole(s: string)
    ensures Concat(SplitLines(s)) == s
    decreases |s|
  {
    if s != "" {
      var k := LineEnd(s);
      SplitWhole(s[k..]);
      assert s == s[..k] + s[k..];
      assert SplitLines(s)[1..] == SplitLines(s[k..]);
    }
  }

  /** Reading cuts the translated text into lines, in the only possible way. */
  lemma ReadLinesIff(contents: string, ls: seq<string>)
    ensures ReadLines(contents) == ls <==> FileLines(ls) && Concat(ls) == Translate(contents)
  {
    ReadGivesLines(contents);
    SplitWhole(Translate(contents));
    if FileLines(ls) && Concat(ls) == Translate(contents) {
      SplitConcat(ls);
    }
  }

  lemma TranslateFirst(c: char, s: string)
    requires c != '\r' || s == "" || s[0] != '\n'
    ensures Translate([c] + s) == [if c == '\r' then '\n' else c] + Translate(s)
  {
    var t := [c] + s;
    assert t[1..] == s;
  }

  /** Translation turns "\r\n" and a lone "\r" into "\n" and keeps the rest. */
  lemma TranslatePair(s: string)
    ensures Translate("\r\n" + s) == "\n" + Translate(s)
  {
    var t := "\r\n" + s;
    assert t[2..] == s;
  }
}
