/** The line checks that need nothing but the line itself, and the proofs that
    each of them repairs what it rejects. */
module StyleChecks {
  import opened Strings
  import opened PyText
  import opened StyleEngine

  const TAB_SIZE: nat := 4

  // ----- tabs

  function Spaces(n: nat): (s: string)
    ensures |s| == n && forall i :: 0 <= i < n ==> s[i] == ' '
  {
    if n == 0 then "" else " " + Spaces(n - 1)
  }

  /** What a character becomes at a column, and the column after it. */
  function Piece(c: char, column: nat): (s: string)
    ensures s != "" && '\t' !in s
  {
    if c == '\t' then Spaces(TAB_SIZE - column % TAB_SIZE) else [c]
  }

  function Advance(c: char, column: nat): nat {
    if c == '\t' then column + (TAB_SIZE - column % TAB_SIZE)
    else if c == '\n' || c == '\r' then 0
    else column + 1
  }

  /** `str.expandtabs(TAB_SIZE)` from a given column. */
  function ExpandTabs(s: string, column: nat): string
    decreases |s|
  {
    if s == "" then "" else Piece(s[0], column) + ExpandTabs(s[1..], Advance(s[0], column))
  }

  function CheckTabsLine(line: string): LineResult {
    if '\t' in line then LineResult(false, ExpandTabs(line, 0)) else LineResult(true, line)
  }

  function ColumnAfter(s: string, column: nat): nat
    decreases |s|
  {
    if s == "" then column else ColumnAfter(s[1..], Advance(s[0], column))
  }

  lemma {:induction false} ExpandConcat(a: string, b: string, column: nat)
    ensures ExpandTabs(a + b, column) == ExpandTabs(a, column) + ExpandTabs(b, ColumnAfter(a, column))
    decreases |a|
  {
    if a == "" {
      assert a + b == b;
    } else {
      assert (a + b)[1..] == a[1..] + b;
      ExpandConcat(a[1..], b, Advance(a[0], column));
    }
  }

  lemma {:induction false} ExpandTabless(s: string, column: nat)
    requires '\t' !in s
    ensures ExpandTabs(s, column) == s
    decreases |s|
  {
    if s != "" {
      assert s == [s[0]] + s[1..];
      ExpandTabless(s[1..], Advance(s[0], column));
    }
  }

  /** Expansion introduces only spaces: no tab is left and no other character appears. */
  lemma {:induction false} ExpandChars(s: string, column: nat)
    ensures '\t' !in ExpandTabs(s, column)
    ensures forall c :: c in ExpandTabs(s, column) ==> c == ' ' || c in s
    ensures s != "" ==> ExpandTabs(s, column) != ""
    decreases |s|
  {
    if s != "" {
      ExpandChars(s[1..], Advance(s[0], column));
      assert forall c :: c in Piece(s[0], column) ==> c == ' ' || c == s[0];
    }
  }

  lemma ExpandSpace(s: string, column: nat)
    requires All(s, IsSpace)
    ensures All(ExpandTabs(s, column), IsSpace)
  {
    ExpandChars(s, column);
  }

  lemma LineBody(l: string) returns (body: string, end: string)
    requires IsLine(l)
    ensures l == body + end && '\n' !in body && '\r' !in body
    ensures end == (if Terminated(l) then "\n" else "")
    ensures !Terminated(l) ==> body != ""
  {
    if Terminated(l) {
      body, end := l[..|l| - 1], "\n";
    } else {
      body, end := l, "";
      assert l == l[..|l| - 1] + [l[|l| - 1]];
    }
  }

  lemma BodyLine(body: string, end: string)
    requires '\n' !in body && '\r' !in body && (end == "\n" || (end == "" && body != ""))
    ensures IsLine(body + end) && (Terminated(body + end) <==> end == "\n")
  {
    var l := body + end;
    assert end == "\n" ==> l[..|l| - 1] == body;
    assert end == "" ==> l == body;
  }

  lemma ExpandLine(l: string)
    requires IsLine(l)
    ensures IsLine(ExpandTabs(l, 0)) && (Terminated(l) ==> Terminated(ExpandTabs(l, 0)))
  {
    var body, end := LineBody(l);
    ExpandConcat(body, end, 0);
    ExpandChars(body, 0);
    ExpandTabless(end, ColumnAfter(body, 0));
    BodyLine(ExpandTabs(body, 0), end);
  }

  const GUARDS := FORMAT_GUARD_ON + FORMAT_GUARD_OFF

  lemma GuardText(l: string)
    requires GuardOf(l) != NoGuard
    ensures Strip(l, IsSpace) in GUARDS
  {
  }

  lemma GuardsAreSolid(g: string)
    requires g in GUARDS
    ensures Solid(g, IsSpace) && '\t' !in g && 'y' !in g && 9 <= |g| <= 19
    ensures (g[0] == '/' && g[1] == '/' && g[2] == ' ') || (g[0] == '#' && g[1] == ' ')
  {
    assert GUARDS == ["// clang-format on", "# cmake-format: on", "# fmt: on",
                      "// clang-format off", "# cmake-format: off", "# fmt: off"];
  }

  lemma SameGuard(l: string, m: string)
    requires Strip(l, IsSpace) == Strip(m, IsSpace)
    ensures GuardOf(l) == GuardOf(m)
  {
  }

  lemma ExpandKeepsGuard(l: string)
    requires GuardOf(l) != NoGuard
    ensures GuardOf(ExpandTabs(l, 0)) == GuardOf(l)
  {
    GuardText(l);
    var g := Strip(l, IsSpace);
    GuardsAreSolid(g);
    var a, b := StripSplit(l, IsSpace);
    var c := ColumnAfter(a, 0);
    var d := ColumnAfter(a + g, 0);
    ExpandConcat(a + g, b, 0);
    ExpandConcat(a, g, 0);
    ExpandTabless(g, c);
    ExpandSpace(a, 0);
    ExpandSpace(b, d);
    StripExact(ExpandTabs(a, 0), g, ExpandTabs(b, d), IsSpace);
    SameGuard(ExpandTabs(l, 0), l);
  }

  lemma TabsRepair()
    ensures GoodCheck(CheckTabsLine, true)
  {
    forall l | IsLine(l) ensures Repairs(CheckTabsLine, true, l) {
      ExpandLine(l);
      ExpandChars(l, 0);
      if GuardOf(l) != NoGuard {
        ExpandKeepsGuard(l);
      }
    }
  }

  // ----- whitespace

  function CheckWhitespaceLine(line: string): LineResult {
    var fixed := TrimRight(line, IsSpace) + "\n";
    LineResult(fixed == line, fixed)
  }

  lemma TrimmedEnd(s: string)
    ensures TrimRight(s, IsSpace) != "" ==> !IsSpace(TrimRight(s, IsSpace)[|TrimRight(s, IsSpace)| - 1])
  {
  }

  lemma TrimNewline(body: string)
    requires body == "" || !IsSpace(body[|body| - 1])
    ensures TrimRight(body + "\n", IsSpace) == body
  {
    TrimRightAll("\n", IsSpace);
    if body == "" {
      assert body + "\n" == "\n";
    } else {
      TrimRightAround(body, "\n", IsSpace);
    }
  }

  lemma TrimInside(l: string)
    requires IsLine(l)
    ensures '\n' !in TrimRight(l, IsSpace) && '\r' !in TrimRight(l, IsSpace)
  {
    var b := TrimRightSplit(l, IsSpace);
    var t := TrimRight(l, IsSpace);
    TrimmedEnd(l);
    if t != "" {
      assert t == l[..|t|];
      if |t| == |l| {
        assert t[..|t| - 1] == l[..|l| - 1] && t == t[..|t| - 1] + [t[|t| - 1]];
        assert IsSpace('\n');
      } else {
        assert t == l[..|l| - 1][..|t|];
      }
    }
  }

  lemma WhitespaceRepair()
    ensures GoodCheck(CheckWhitespaceLine, false)
  {
    forall l | IsLine(l) ensures Repairs(CheckWhitespaceLine, false, l) {
      var t := TrimRight(l, IsSpace);
      TrimInside(l);
      TrimmedEnd(l);
      TrimNewline(t);
      BodyLine(t, "\n");
    }
  }

  lemma ExpandEnd(t: string)
    requires t == "" || !IsSpace(t[|t| - 1])
    ensures var r := ExpandTabs(t, 0); r == "" || !IsSpace(r[|r| - 1])
  {
    if t != "" {
      var n := |t| - 1;
      assert t == t[..n] + [t[n]];
      ExpandConcat(t[..n], [t[n]], 0);
      assert IsSpace('\t');
      ExpandTabless([t[n]], ColumnAfter(t[..n], 0));
    }
  }

  /** Expanding tabs leaves no trailing whitespace where there was none. */
  lemma TabsKeepWhitespace(l: string)
    requires IsLine(l)
    ensures Keeps(CheckWhitespaceLine, CheckTabsLine, l)
  {
    if CheckWhitespaceLine(l).compliant {
      var t := TrimRight(l, IsSpace);
      TrimmedEnd(l);
      ExpandConcat(t, "\n", 0);
      ExpandTabless("\n", ColumnAfter(t, 0));
      ExpandEnd(t);
      TrimNewline(ExpandTabs(t, 0));
    }
  }

  // ----- emacs style comments

  function CheckEmacsLine(line: string): LineResult {
    var stripped := Strip(line, IsSpace);
    if Contains(stripped, "c-file-style:") || Contains(stripped, "py-indent-offset:")
    then LineResult(false, "")
    else LineResult(true, line)
  }

  lemma ContainsChar(s: string, pattern: string, c: char)
    requires Contains(s, pattern) && c in pattern
    ensures c in s
  {
    var i :| 0 <= i <= |s| && OccursAt(s, pattern, i);
    var k :| 0 <= k < |pattern| && pattern[k] == c;
    assert s[i + k] == c;
  }

  lemma EmacsRepair()
    ensures GoodCheck(CheckEmacsLine, true)
  {
    forall l | IsLine(l) ensures Repairs(CheckEmacsLine, true, l) {
      if GuardOf(l) != NoGuard {
        GuardText(l);
        var g := Strip(l, IsSpace);
        GuardsAreSolid(g);
        if Contains(g, "c-file-style:") {
          ContainsChar(g, "c-file-style:", 'y');
        }
        if Contains(g, "py-indent-offset:") {
          ContainsChar(g, "py-indent-offset:", 'y');
        }
      }
    }
  }

  // ----- quoted ns-3 includes

  function Quote(c: char): char {
    if c == '<' || c == '>' then '"' else c
  }

  function QuoteAll(s: string): (r: string)
    ensures |r| == |s| && forall i :: 0 <= i < |s| ==> r[i] == Quote(s[i])
  {
    seq(|s|, i requires 0 <= i < |s| => Quote(s[i]))
  }

  const INCLUDE_HEAD := "#include <ns3/"

  /** The pattern ^#include <ns3/.*\.h> */
  predicate AngledInclude(line: string) {
    && |line| >= |INCLUDE_HEAD| && line[..|INCLUDE_HEAD|] == INCLUDE_HEAD
    && Contains(line[|INCLUDE_HEAD|..], ".h>")
  }

  function CheckIncludeQuotesLine(line: string): LineResult {
    if AngledInclude(line) then LineResult(false, QuoteAll(line)) else LineResult(true, line)
  }

  lemma QuotesLine(l: string)
    requires IsLine(l)
    ensures IsLine(QuoteAll(l)) && (Terminated(l) ==> Terminated(QuoteAll(l)))
  {
    var q := QuoteAll(l);
    forall i | 0 <= i < |l| - 1 ensures q[i] != '\n' {
      assert l[..|l| - 1][i] == l[i];
    }
  }

  lemma IncludeIsNoGuard(l: string)
    requires AngledInclude(l)
    ensures GuardOf(l) == NoGuard
  {
    assert l[0] == l[..|INCLUDE_HEAD|][0] == '#' && l[1] == l[..|INCLUDE_HEAD|][1] == 'i';
    var b := TrimRightSplit(l, IsSpace);
    var t := TrimRight(l, IsSpace);
    TrimRightAround(l[..2], l[2..], IsSpace);
    assert l == l[..2] + l[2..];
    assert t[0] == '#' && t[1] == 'i';
    assert Strip(l, IsSpace) == t;
    if t in GUARDS {
      GuardsAreSolid(t);
    }
  }

  lemma IncludeQuotesRepair()
    ensures GoodCheck(CheckIncludeQuotesLine, true)
  {
    forall l | IsLine(l) ensures Repairs(CheckIncludeQuotesLine, true, l) {
      if AngledInclude(l) {
        QuotesLine(l);
        IncludeIsNoGuard(l);
        assert INCLUDE_HEAD[9] == '<' && l[..|INCLUDE_HEAD|][9] == l[9];
        assert QuoteAll(l)[9] == '"';
        assert QuoteAll(l)[..|INCLUDE_HEAD|][9] == '"';
      }
    }
  }

  // ----- licence text

  predicate IsMark(c: char) {
    c == '*' || c == '#' || c == '/'
  }

  const GPL_FIRST_LINE := "This program is free software; " + "you can redistribute it and/or modify"

  const GPL_LICENSE_LINES := [
    GPL_FIRST_LINE,
    "it under the terms of the GNU " + "General Public License version 2 as",
    "published by the Free " + "Software Foundation;",
    "This program is distributed in " + "the hope that it will be useful,",
    "but WITHOUT ANY WARRANTY; " + "without even the implied warranty of",
    "MERCHANTABILITY or FITNESS FOR " + "A PARTICULAR PURPOSE.  See the",
    "GNU General Public License " + "for more details.",
    "You should have received a copy " + "of the GNU General Public License",
    "along with this program; if not, " + "write to the Free Software",
    "Foundation, Inc., 59 Temple Place, " + "Suite 330, Boston, MA  02111-1307  USA"
  ]

  const SPDX_LICENSE := "SPDX-License-Identifier: GPL-2.0-only"

  /** The line without surrounding whitespace and comment marks. */
  function Core(line: string): string {
    Strip(Strip(Strip(line, IsSpace), IsMark), IsSpace)
  }

  function CheckLicensesLine(line: string): LineResult {
    var core := Core(line);
    if core !in GPL_LICENSE_LINES then LineResult(true, line)
    else if core == GPL_FIRST_LINE then LineResult(false, Replace(line, core, SPDX_LICENSE))
    else LineResult(false, "")
  }

  predicate Outer(c: char) {
    IsSpace(c) || IsMark(c)
  }

  lemma Nest(a: string, b: string, c: string, x: string, d: string, e: string, f: string)
    ensures a + (b + (c + x + d) + e) + f == (a + b + c) + x + (d + e + f)
  {
  }

  lemma CoreSplit(l: string) returns (a: string, b: string)
    ensures l == a + Core(l) + b && All(a, Outer) && All(b, Outer)
  {
    var a1, b1 := StripSplit(l, IsSpace);
    var s1 := Strip(l, IsSpace);
    var a2, b2 := StripSplit(s1, IsMark);
    var s2 := Strip(s1, IsMark);
    var a3, b3 := StripSplit(s2, IsSpace);
    a, b := a1 + a2 + a3, b3 + b2 + b1;
    Nest(a1, a2, a3, Core(l), b3, b2, b1);
  }

  lemma CoreAround(a: string, x: string, b: string)
    requires Solid(x, IsSpace) && Solid(x, IsMark)
    ensures Core(a + x + b) ==
            TrimLeft(TrimLeft(TrimLeft(a, IsSpace), IsMark), IsSpace) + x +
            TrimRight(TrimRight(TrimRight(b, IsSpace), IsMark), IsSpace)
  {
    StripAround(a, x, b, IsSpace);
    var a1, b1 := TrimLeft(a, IsSpace), TrimRight(b, IsSpace);
    StripAround(a1, x, b1, IsMark);
    StripAround(TrimLeft(a1, IsMark), x, TrimRight(b1, IsMark), IsSpace);
  }

  /** Another solid text put in place of the core becomes the core. */
  lemma CoreSwap(a: string, x: string, b: string, y: string)
    requires Solid(x, IsSpace) && Solid(x, IsMark) && Solid(y, IsSpace) && Solid(y, IsMark)
    requires Core(a + x + b) == x
    ensures Core(a + y + b) == y
  {
    CoreAround(a, x, b);
    CoreAround(a, y, b);
    var p := TrimLeft(TrimLeft(TrimLeft(a, IsSpace), IsMark), IsSpace);
    var q := TrimRight(TrimRight(TrimRight(b, IsSpace), IsMark), IsSpace);
    assert |p + x + q| == |p| + |x| + |q|;
    assert p == "" && q == "";
  }

  lemma SwapLine(a: string, x: string, b: string, y: string)
    requires IsLine(a + x + b) && x != "" && x[|x| - 1] != '\n'
    requires y != "" && '\n' !in y && '\r' !in y
    ensures IsLine(a + y + b) && (Terminated(a + x + b) ==> Terminated(a + y + b))
  {
    var l, m := a + x + b, a + y + b;
    forall i | 0 <= i < |a| ensures a[i] != '\n' && a[i] != '\r' {
      assert a[i] == l[i] && l[i] == l[..|l| - 1][i];
    }
    forall i | 0 <= i < |b| ensures b[i] != '\r' && (i < |b| - 1 ==> b[i] != '\n') {
      var k := |a| + |x| + i;
      assert b[i] == l[k];
      assert i < |b| - 1 ==> l[k] == l[..|l| - 1][k];
    }
    forall i | 0 <= i < |m| - 1 ensures m[i] != '\n' {
      if i < |a| {
        assert m[i] == a[i];
      } else if i < |a| + |y| {
        assert m[i] == y[i - |a|];
      } else {
        assert m[i] == b[i - |a| - |y|];
      }
    }
    if b == "" {
      assert l[|l| - 1] == x[|x| - 1];
    } else {
      assert m[|m| - 1] == b[|b| - 1] == l[|l| - 1];
    }
  }

  lemma LicenseTexts()
    ensures GPL_FIRST_LINE[0] == 'T' && GPL_FIRST_LINE[|GPL_FIRST_LINE| - 1] == 'y'
    ensures SPDX_LICENSE[0] == 'S' && SPDX_LICENSE[|SPDX_LICENSE| - 1] == 'y'
    ensures '\n' !in SPDX_LICENSE && '\r' !in SPDX_LICENSE
  {
    var head, tail := "This program is free software; ", "you can redistribute it and/or modify";
    assert |SPDX_LICENSE| == 37 && |head| == 31 && |tail| == 37;
    assert head[0] == 'T' && tail[36] == 'y';
  }

  lemma LicenseLinesAreLong(t: string)
    requires t in GPL_LICENSE_LINES
    ensures |t| > 37
  {
  }

  lemma ReplacedCore(l: string, x: string, y: string)
    requires IsLine(l) && Core(l) == x
    requires x != "" && !Outer(x[0]) && !Outer(x[|x| - 1])
    requires y != "" && !Outer(y[0]) && !Outer(y[|y| - 1]) && '\n' !in y && '\r' !in y
    ensures IsLine(Replace(l, x, y)) && (Terminated(l) ==> Terminated(Replace(l, x, y)))
    ensures Core(Replace(l, x, y)) == y
  {
    var a, b := CoreSplit(l);
    assert x[0] !in a && x[0] !in b;
    assert l == a + (x + b);
    ReplaceSkips(a, x + b, x, y);
    ReplaceHere(b, x, y);
    ReplaceAbsent(b, x, y);
    assert a + (y + b) == a + y + b;
    assert IsSpace('\n');
    SwapLine(a, x, b, y);
    CoreSwap(a, x, b, y);
  }

  lemma GuardCoreIsShort(l: string)
    requires GuardOf(l) != NoGuard
    ensures |Core(l)| <= 19
  {
    GuardText(l);
    GuardsAreSolid(Strip(l, IsSpace));
    var a, b := StripSplit(Strip(l, IsSpace), IsMark);
    var c, d := StripSplit(Strip(Strip(l, IsSpace), IsMark), IsSpace);
  }

  /** What becomes of a line: the first licence line is turned into the SPDX line with its
      surroundings kept out of the core, the other licence lines go, and nothing else does. */
  lemma LicenseLineBecomes(l: string)
    requires IsLine(l)
    ensures var r, core := CheckLicensesLine(l), Core(l);
            && (r.compliant <==> core !in GPL_LICENSE_LINES)
            && (r.compliant ==> r.fixed == l)
            && (core == GPL_FIRST_LINE ==> Core(r.fixed) == SPDX_LICENSE)
            && (core in GPL_LICENSE_LINES && core != GPL_FIRST_LINE ==> r.fixed == "")
  {
    if Core(l) == GPL_FIRST_LINE {
      LicenseTexts();
      ReplacedCore(l, Core(l), SPDX_LICENSE);
    }
  }

  lemma LicenseRepairs(l: string)
    requires IsLine(l)
    ensures Repairs(CheckLicensesLine, true, l)
  {
    var core := Core(l);
    if core in GPL_LICENSE_LINES {
      LicenseLinesAreLong(core);
      if GuardOf(l) != NoGuard {
        GuardCoreIsShort(l);
      }
      if core == GPL_FIRST_LINE {
        LicenseTexts();
        assert |SPDX_LICENSE| == 37;
        ReplacedCore(l, core, SPDX_LICENSE);
        if SPDX_LICENSE in GPL_LICENSE_LINES {
          LicenseLinesAreLong(SPDX_LICENSE);
        }
      }
    }
  }

  lemma LicensesRepair()
    ensures GoodCheck(CheckLicensesLine, true)
  {
    forall l | IsLine(l) ensures Repairs(CheckLicensesLine, true, l) {
      LicenseRepairs(l);
    }
  }

  // ----- doxygen tags

  const IGNORED_WORDS := ["\\dots", "\\langle", "\\quad"]

  /** `\w`, on ASCII text. */
  predicate IsWord(c: char) {
    'a' <= c <= 'z' || 'A' <= c <= 'Z' || '0' <= c <= '9' || c == '_'
  }

  function WordLength(s: string): (n: nat)
    ensures n <= |s|
  {
    if s != "" && IsWord(s[0]) then 1 + WordLength(s[1..]) else 0
  }

  /** Length of the comment marker that starts `s`, or 0. */
  function MarkerLength(s: string): (n: nat)
    ensures n <= |s|
  {
    if s != "" && s[0] == '*' then 1
    else if |s| >= 3 && s[0] == '/' && ((s[1] == '*' && s[2] == '*') || (s[1] == '/' && s[2] == '/')) then 3
    else 0
  }

  /** The text that can be a tag: what follows the comment marker and spaces. */
  function AfterMarker(line: string): string {
    var s := Strip(line, IsSpace);
    if MarkerLength(s) == 0 then "" else TrimLeft(s[MarkerLength(s)..], IsSpace)
  }

  /** The tag matched by ^\s*(?:\*|/\*\*|///)\s*(\\\w{3,})(?=(?:\s|$)), or "". */
  function TagOf(line: string): (tag: string)
    ensures tag != "" ==> tag[0] == '\\' && tag <= AfterMarker(line)
  {
    var t := AfterMarker(line);
    if t == "" || t[0] != '\\' then ""
    else
      var n := WordLength(t[1..]);
      if n >= 3 && (n + 1 == |t| || IsSpace(t[n + 1])) then t[..n + 1] else ""
  }

  function CheckDoxygenTagsLine(line: string): LineResult {
    var tag := TagOf(line);
    if tag == "" || tag in IGNORED_WORDS then LineResult(true, line)
    else LineResult(false, Replace(line, tag, "@" + tag[1..]))
  }

  /** The line up to its tag: spaces, marker, spaces. */
  lemma TagParts(l: string) returns (a: string, m: string, b: string, r: string)
    requires TagOf(l) != ""
    ensures l == a + m + b + TagOf(l) + r
    ensures All(a, IsSpace) && All(b, IsSpace) && m != "" && MarkerLength(m) == |m| && '\\' !in m
  {
    var s, c := Strip(l, IsSpace), "";
    a, c := StripSplit(l, IsSpace);
    var n := MarkerLength(s);
    m := s[..n];
    b := TrimLeftSplit(s[n..], IsSpace);
    var t := AfterMarker(l);
    var tail := t[|TagOf(l)|..];
    r := tail + c;
    assert s == m + s[n..] && t == TagOf(l) + tail;
    Assemble(l, a, s, c, m, s[n..], b, t, TagOf(l), tail);
  }

  lemma Assemble(l: string, a: string, s: string, c: string, m: string, w: string, b: string,
                 t: string, tag: string, tail: string)
    requires l == a + s + c && s == m + w && w == b + t && t == tag + tail
    ensures l == a + m + b + tag + (tail + c)
  {
  }

  lemma MarkerPrefix(m: string, x: string)
    requires m != "" && MarkerLength(m) == |m|
    ensures MarkerLength(m + x) == |m| && (m + x)[|m|..] == x && !IsSpace(m[0])
  {
  }

  /** A line whose first character after the marker is '@' has no tag. */
  lemma AtSignIsNoTag(a: string, m: string, b: string, y: string)
    requires All(a, IsSpace) && All(b, IsSpace) && m != "" && MarkerLength(m) == |m|
    ensures TagOf(a + m + b + "@" + y) == ""
  {
    var head := a + m + b + "@";
    TrimRightAround(head, y, IsSpace);
    var z := TrimRight(y, IsSpace);
    var at := "@" + z;
    assert head + z == a + (m + (b + at));
    MarkerPrefix(m, b + at);
    TrimLeftAround(a, m + (b + at), IsSpace);
    TrimLeftAll(a, IsSpace);
    assert "" + (m + (b + at)) == m + (b + at);
    assert Strip(head + y, IsSpace) == m + (b + at);
    TrimLeftAround(b, at, IsSpace);
    TrimLeftAll(b, IsSpace);
    assert "" + at == at;
    assert AfterMarker(head + y) == at;
  }

  /** Replacing a tag by its '@' form changes backslashes into '@' and nothing else. */
  lemma {:induction false} RetagChars(s: string, tag: string)
    requires tag != "" && tag[0] == '\\'
    ensures var r := Replace(s, tag, "@" + tag[1..]);
            |r| == |s| && forall i :: 0 <= i < |s| ==> r[i] == s[i] || (s[i] == '\\' && r[i] == '@')
    decreases |s|
  {
    var to := "@" + tag[1..];
    if |s| >= |tag| {
      if s[..|tag|] == tag {
        var rest := s[|tag|..];
        RetagChars(rest, tag);
        var r := to + Replace(rest, tag, to);
        forall i | 0 <= i < |s| ensures r[i] == s[i] || (s[i] == '\\' && r[i] == '@') {
          if i < |tag| {
            assert s[i] == s[..|tag|][i] == tag[i];
          } else {
            assert s[i] == rest[i - |tag|];
          }
        }
      } else {
        RetagChars(s[1..], tag);
      }
    }
  }

  lemma RetagLine(l: string, r: string)
    requires IsLine(l) && |r| == |l|
    requires forall i :: 0 <= i < |l| ==> r[i] == l[i] || (l[i] == '\\' && r[i] == '@')
    ensures IsLine(r) && (Terminated(l) ==> Terminated(r))
  {
    forall i | 0 <= i < |l| - 1 ensures r[i] != '\n' {
      assert l[i] == l[..|l| - 1][i];
    }
  }

  lemma RetagFirst(head: string, tag: string, r: string) returns (y: string)
    requires tag != "" && tag[0] == '\\' && '\\' !in head
    ensures Replace(head + tag + r, tag, "@" + tag[1..]) == head + "@" + y
  {
    var to := "@" + tag[1..];
    assert head + tag + r == head + (tag + r);
    ReplaceSkips(head, tag + r, tag, to);
    ReplaceHere(r, tag, to);
    y := tag[1..] + Replace(r, tag, to);
    assert head + (to + Replace(r, tag, to)) == head + "@" + y;
  }

  lemma Retagged(l: string)
    requires IsLine(l) && TagOf(l) != ""
    ensures var f := Replace(l, TagOf(l), "@" + TagOf(l)[1..]);
            IsLine(f) && (Terminated(l) ==> Terminated(f)) && TagOf(f) == ""
  {
    var tag := TagOf(l);
    RetagChars(l, tag);
    RetagLine(l, Replace(l, tag, "@" + tag[1..]));
    var a, m, b, r := TagParts(l);
    assert !IsSpace('\\');
    var y := RetagFirst(a + m + b, tag, r);
    AtSignIsNoTag(a, m, b, y);
  }

  lemma GuardHasNoTag(l: string)
    requires GuardOf(l) != NoGuard
    ensures TagOf(l) == ""
  {
    GuardText(l);
    GuardsAreSolid(Strip(l, IsSpace));
  }

  lemma DoxygenTagsRepair()
    ensures GoodCheck(CheckDoxygenTagsLine, true)
  {
    forall l | IsLine(l) ensures Repairs(CheckDoxygenTagsLine, true, l) {
      if GuardOf(l) != NoGuard {
        GuardHasNoTag(l);
      } else if TagOf(l) != "" {
        Retagged(l);
      }
    }
  }

  // ----- whole files

  /** For each of the guarded fixers: fixing makes the file compliant, and fixing it
      again after writing and reading changes nothing. */
  lemma FixersAreFixpoints(check: LineCheck, contents: string)
    requires check in [CheckTabsLine, CheckEmacsLine, CheckIncludeQuotesLine, CheckLicensesLine, CheckDoxygenTagsLine]
    ensures CheckFile(check, true, FixFile(check, true, contents))
    ensures FixFile(check, true, FixFile(check, true, contents)) == FixFile(check, true, contents)
  {
    TabsRepair();
    EmacsRepair();
    IncludeQuotesRepair();
    LicensesRepair();
    DoxygenTagsRepair();
    FixIsFixpoint(check, true, contents);
  }

  /** Whitespace first, tabs second: the file then passes both checks. */
  lemma WhitespaceThenTabs(contents: string)
    ensures var trimmed := FixFile(CheckWhitespaceLine, false, contents);
            var fixed := FixFile(CheckTabsLine, true, trimmed);
            CheckFile(CheckWhitespaceLine, false, fixed) && CheckFile(CheckTabsLine, true, fixed)
  {
    WhitespaceRepair();
    TabsRepair();
    FixIsFixpoint(CheckWhitespaceLine, false, contents);
    var trimmed := FixFile(CheckWhitespaceLine, false, contents);
    FixIsFixpoint(CheckTabsLine, true, trimmed);
    forall l | IsLine(l) ensures Keeps(CheckWhitespaceLine, CheckTabsLine, l) {
      TabsKeepWhitespace(l);
    }
    FixKeepsOther(CheckWhitespaceLine, CheckTabsLine, true, trimmed);
  }

  /** Expansion can turn a line into a guard line, which switches the check off for
      the lines after it; `FixIsFixpoint` covers this case. */
  lemma ExpansionMakesGuard()
    ensures var l := "  #" + "\t" + "fmt: off\n";
            GuardOf(l) == NoGuard && GuardOf(CheckTabsLine(l).fixed) == Off
  {
    var l, text := "  #" + "\t" + "fmt: off\n", "#\tfmt: off";
    assert l[3] == '\t';
    assert l == "  " + text + "\n";
    StripExact("  ", text, "\n", IsSpace);
    if text in GUARDS {
      assert text[1] == '\t';
      GuardsAreSolid(text);
    }
    ExpandedGuardLine("  #", "fmt: off\n");
    var guard := "# fmt: off";
    assert "  #" + " " + "fmt: off\n" == "  " + guard + "\n";
    StripExact("  ", guard, "\n", IsSpace);
    assert guard == FORMAT_GUARD_OFF[2];
  }

  lemma ExpandedGuardLine(a: string, b: string)
    requires |a| == 3 && '\t' !in a && '\n' !in a && '\r' !in a && '\t' !in b
    ensures ExpandTabs(a + "\t" + b, 0) == a + " " + b
  {
    ExpandConcat(a + "\t", b, 0);
    ExpandConcat(a, "\t", 0);
    ExpandTabless(a, 0);
    ExpandTabless(b, ColumnAfter(a + "\t", 0));
    ColumnPlain(a, 0);
    assert ExpandTabs("\t", 3) == Spaces(1) + ExpandTabs("", 4);
  }

  lemma {:induction false} ColumnPlain(a: string, column: nat)
    requires '\t' !in a && '\n' !in a && '\r' !in a
    ensures ColumnAfter(a, column) == column + |a|
    decreases |a|
  {
    if a != "" {
      ColumnPlain(a[1..], column + 1);
    }
  }
}
