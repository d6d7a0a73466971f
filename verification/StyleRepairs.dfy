/** What each line check does to a line, stated on its characters: which lines it rejects and
    what it puts in their place. */
module StyleRepairs {
  import opened Strings
  import opened PyText
  import opened StyleEngine
  import opened StyleChecks

  // ----- whitespace

  /** `t` is the line without its trailing whitespace. */
  ghost predicate Trimmed(l: string, t: string) {
    t <= l && All(l[|t|..], IsSpace) && (t == "" || !IsSpace(t[|t| - 1]))
  }

  lemma LongerEndsInSpace(l: string, t: string, u: string)
    requires t <= l && u <= l && All(l[|t|..], IsSpace)
    ensures |t| < |u| ==> IsSpace(u[|u| - 1])
  {
    if |t| < |u| {
      assert u[|u| - 1] == l[|t|..][|u| - 1 - |t|];
    }
  }

  lemma TrimmedUnique(l: string, t: string, u: string)
    requires Trimmed(l, t) && Trimmed(l, u)
    ensures t == u
  {
    LongerEndsInSpace(l, t, u);
    LongerEndsInSpace(l, u, t);
    assert t == l[..|t|] && u == l[..|u|];
  }

  /** The repair is the line without its trailing whitespace and with a newline; a line
      complies exactly when it is its own repair. */
  lemma WhitespaceLineBecomes(l: string, t: string)
    requires Trimmed(l, t)
    ensures CheckWhitespaceLine(l).fixed == t + "\n"
    ensures CheckWhitespaceLine(l).compliant <==> l == t + "\n"
  {
    var u := TrimmedExists(l);
    TrimmedUnique(l, t, u);
  }

  lemma TrimmedExists(l: string) returns (t: string)
    ensures Trimmed(l, t) && t == TrimRight(l, IsSpace)
  {
    t := TrimRight(l, IsSpace);
    var b := TrimRightSplit(l, IsSpace);
    TrimRightEnd(l, IsSpace);
    assert l[|t|..] == b;
  }

  /** After the fix, line `k` of the file is line `k` of the original without its trailing
      whitespace, ended by a newline. */
  lemma WhitespaceFileBecomes(contents: string)
    ensures var before, after := ReadLines(contents), ReadLines(FixFile(CheckWhitespaceLine, false, contents));
            |after| == |before| && forall k :: 0 <= k < |before| ==> TrimmedTo(before[k], after[k])
  {
    WhitespaceRepair();
    var lines := ReadLines(contents);
    var fixed := FixedFileLines(CheckWhitespaceLine, false, contents);
    forall k | 0 <= k < |lines| ensures TrimmedTo(lines[k], fixed[k]) {
      var t := TrimmedExists(lines[k]);
      WhitespaceLineBecomes(lines[k], t);
      assert fixed[k] == t + "\n";
    }
    KeptAll(fixed);
  }

  ghost predicate TrimmedTo(l: string, r: string) {
    exists t :: Trimmed(l, t) && r == t + "\n"
  }

  // ----- tabs

  /** `columns` says where each character of `s` stands in `r`: a tab fills up with spaces to
      the next multiple of four, and every other character takes one place. */
  ghost predicate Expands(s: string, r: string, columns: seq<nat>) {
    && |columns| == |s| + 1 && columns[0] == 0 && columns[|s|] == |r|
    && forall i :: 0 <= i < |s| ==> StandsAt(s[i], r, columns[i], columns[i + 1])
  }

  ghost predicate StandsAt(c: char, r: string, from: nat, to: nat) {
    && from < to <= |r|
    && if c == '\t' then to % 4 == 0 && to - from <= 4 && forall j :: from <= j < to ==> r[j] == ' '
       else to == from + 1 && r[from] == c
  }

  lemma StandsStill(c: char, r: string, more: string, from: nat, to: nat)
    requires StandsAt(c, r, from, to)
    ensures StandsAt(c, r + more, from, to)
  {
  }

  lemma {:induction false} ExpandsTo(s: string) returns (columns: seq<nat>)
    requires '\n' !in s && '\r' !in s
    ensures Expands(s, ExpandTabs(s, 0), columns) && ColumnAfter(s, 0) == |ExpandTabs(s, 0)|
  {
    if s == "" {
      columns := [0];
    } else {
      var n := |s| - 1;
      var init, c := s[..n], s[n];
      assert s == init + [c];
      var cols := ExpandsTo(init);
      var r, at := ExpandTabs(init, 0), ColumnAfter(init, 0);
      ExpandConcat(init, [c], 0);
      ColumnConcat(init, [c], 0);
      var p := Piece(c, at);
      assert ExpandTabs([c], at) == p + ExpandTabs("", Advance(c, at)) == p;
      columns := cols + [at + |p|];
      assert ExpandTabs(s, 0) == r + p;
      forall i | 0 <= i < |s| ensures StandsAt(s[i], r + p, columns[i], columns[i + 1]) {
        if i < n {
          StandsStill(s[i], r, p, cols[i], cols[i + 1]);
        } else {
          LastStands(c, r, at);
        }
      }
    }
  }

  lemma LastStands(c: char, r: string, at: nat)
    requires at == |r|
    ensures StandsAt(c, r + Piece(c, at), at, at + |Piece(c, at)|)
  {
  }

  lemma {:induction false} ColumnConcat(a: string, b: string, column: nat)
    ensures ColumnAfter(a + b, column) == ColumnAfter(b, ColumnAfter(a, column))
    decreases |a|
  {
    if a == "" {
      assert a + b == b;
    } else {
      assert (a + b)[1..] == a[1..] + b;
      ColumnConcat(a[1..], b, Advance(a[0], column));
    }
  }

  /** Exactly the lines with a tab are rejected; in their place come the same characters with
      every tab filled up to the next multiple of four columns. */
  lemma TabsLineBecomes(l: string) returns (body: string, end: string, r: string, columns: seq<nat>)
    requires IsLine(l)
    ensures CheckTabsLine(l).compliant <==> '\t' !in l
    ensures l == body + end && end == (if Terminated(l) then "\n" else "")
    ensures Expands(body, r, columns)
    ensures !CheckTabsLine(l).compliant ==> CheckTabsLine(l).fixed == r + end
  {
    body, end := LineBody(l);
    r := ExpandTabs(body, 0);
    columns := ExpandsTo(body);
    ExpandConcat(body, end, 0);
    ExpandTabless(end, ColumnAfter(body, 0));
  }

  // ----- emacs comments

  /** Exactly the lines that mention one of the two settings are deleted. */
  lemma EmacsLineBecomes(l: string)
    ensures CheckEmacsLine(l).compliant <==> !Contains(l, "c-file-style:") && !Contains(l, "py-indent-offset:")
    ensures !CheckEmacsLine(l).compliant ==> CheckEmacsLine(l).fixed == ""
  {
    var c, py := "c-file-style:", "py-indent-offset:";
    assert c[0] == 'c' && c[|c| - 1] == ':' && py[0] == 'p' && py[|py| - 1] == ':';
    ContainsStripped(l, c, IsSpace);
    ContainsStripped(l, py, IsSpace);
  }

  // ----- includes

  ghost predicate IncludeOf(l: string, x: string, y: string) {
    l == "#include <ns3/" + x + ".h>" + y
  }

  /** Exactly the angled includes of the project's own headers are rejected; the repair has a
      quotation mark for every angle bracket, and is otherwise the line. */
  lemma IncludeLineBecomes(l: string)
    ensures CheckIncludeQuotesLine(l).compliant <==> !exists x, y :: IncludeOf(l, x, y)
    ensures !CheckIncludeQuotesLine(l).compliant ==>
              && |CheckIncludeQuotesLine(l).fixed| == |l|
              && forall i :: 0 <= i < |l| ==>
                   CheckIncludeQuotesLine(l).fixed[i] == if l[i] in "<>" then '"' else l[i]
  {
    var head := "#include <ns3/";
    if AngledInclude(l) {
      var rest := l[|head|..];
      var i :| 0 <= i <= |rest| && OccursAt(rest, ".h>", i);
      assert rest == rest[..i] + ".h>" + rest[i + 3..];
      assert l == head + rest;
      assert IncludeOf(l, rest[..i], rest[i + 3..]);
    }
    if x, y :| IncludeOf(l, x, y) {
      var rest := x + ".h>" + y;
      assert l == head + rest;
      assert l[..|head|] == head && l[|head|..] == rest;
      assert OccursAt(rest, ".h>", |x|);
    }
  }

  // ----- doxygen tags

  ghost predicate TagAt(l: string, a: string, m: string, b: string, w: string, r: string) {
    && All(a, IsSpace) && m in ["*", "/**", "///"] && All(b, IsSpace)
    && |w| >= 3 && All(w, IsWord) && (r == "" || IsSpace(r[0]))
    && l == a + m + b + ("\\" + w) + r
  }

  /** The line begins with a comment marker and then, apart from whitespace, a backslash and a
      word of at least three characters. */
  ghost predicate TaggedWith(l: string, w: string) {
    exists a, m, b, r :: TagAt(l, a, m, b, w, r)
  }

  lemma {:induction false} WordRun(w: string, z: string)
    requires All(w, IsWord) && (z == "" || !IsWord(z[0]))
    ensures WordLength(w + z) == |w|
  {
    if w == "" {
      assert w + z == z;
    } else {
      assert (w + z)[1..] == w[1..] + z && IsWord(w[0]);
      WordRun(w[1..], z);
    }
  }

  lemma {:induction false} WordsOnly(s: string)
    ensures All(s[..WordLength(s)], IsWord)
  {
    if s != "" && IsWord(s[0]) {
      WordsOnly(s[1..]);
      assert s[..WordLength(s)] == [s[0]] + s[1..][..WordLength(s[1..])];
    }
  }

  lemma MarkersAre(m: string)
    ensures m in ["*", "/**", "///"] <==> m != "" && MarkerLength(m) == |m|
  {
    if m != "" && MarkerLength(m) == |m| {
      if |m| == 1 {
        assert m == "*";
      } else {
        assert m == [m[0], m[1], m[2]];
      }
    }
  }

  /** What follows the marker, when it begins and ends with other characters than whitespace. */
  lemma AfterMarkerIs(a: string, m: string, b: string, x: string, r: string)
    requires All(a, IsSpace) && All(b, IsSpace) && m != "" && MarkerLength(m) == |m| && Solid(x, IsSpace)
    ensures AfterMarker(a + m + b + x + r) == x + TrimRight(r, IsSpace)
  {
    var t := x + TrimRight(r, IsSpace);
    MarkerPrefix(m, b + t);
    StripsToMarker(a, m, b, x, r);
    SkipSpaces(b, t);
  }

  lemma StripsToMarker(a: string, m: string, b: string, x: string, r: string)
    requires All(a, IsSpace) && m != "" && !IsSpace(m[0]) && Solid(x, IsSpace)
    ensures Strip(a + m + b + x + r, IsSpace) == m + (b + (x + TrimRight(r, IsSpace)))
  {
    var y, z := m + b + x, TrimRight(r, IsSpace);
    SolidMiddle(m, b, x);
    StripAround(a, y, r, IsSpace);
    TrimLeftAll(a, IsSpace);
    FiveParts(a, m, b, x, r);
    FiveParts("", m, b, x, z);
  }

  lemma FiveParts(a: string, m: string, b: string, x: string, r: string)
    ensures a + m + b + x + r == a + (m + b + x) + r == a + (m + (b + (x + r)))
  {
  }

  lemma SolidMiddle(m: string, b: string, x: string)
    requires m != "" && !IsSpace(m[0]) && Solid(x, IsSpace)
    ensures Solid(m + b + x, IsSpace)
  {
  }

  lemma SkipSpaces(b: string, t: string)
    requires All(b, IsSpace) && t != "" && !IsSpace(t[0])
    ensures TrimLeft(b + t, IsSpace) == t
  {
    TrimLeftAround(b, t, IsSpace);
    TrimLeftAll(b, IsSpace);
  }

  lemma TrimKeepsFirst(r: string)
    ensures TrimRight(r, IsSpace) == "" ==> All(r, IsSpace)
    ensures TrimRight(r, IsSpace) != "" ==> r != "" && TrimRight(r, IsSpace)[0] == r[0]
  {
    var c := TrimRightSplit(r, IsSpace);
  }

  lemma WordIsNoSpace(c: char)
    requires IsWord(c)
    ensures !IsSpace(c)
  {
  }

  lemma SpaceIsNoWord(c: char)
    requires IsSpace(c)
    ensures !IsWord(c)
  {
  }

  lemma TagIsFound(l: string, a: string, m: string, b: string, w: string, r: string)
    requires TagAt(l, a, m, b, w, r)
    ensures TagOf(l) == "\\" + w
  {
    var tag, z := "\\" + w, TrimRight(r, IsSpace);
    WordIsNoSpace(w[|w| - 1]);
    MarkersAre(m);
    AfterMarkerIs(a, m, b, tag, r);
    TrimKeepsFirst(r);
    if z != "" {
      SpaceIsNoWord(z[0]);
    }
    var t := tag + z;
    assert t[1..] == w + z && t[..|tag|] == tag;
    WordRun(w, z);
  }

  lemma FoundIsTag(l: string) returns (a: string, m: string, b: string, w: string, r: string)
    requires TagOf(l) != ""
    ensures TagAt(l, a, m, b, w, r) && TagOf(l) == "\\" + w
  {
    a, m, b, r := TagParts(l);
    MarkersAre(m);
    var tag, t := TagOf(l), AfterMarker(l);
    w := tag[1..];
    WordsOnly(t[1..]);
    assert w == t[1..][..WordLength(t[1..])];
    assert tag == "\\" + w;
    WordIsNoSpace(w[|w| - 1]);
    AfterMarkerIs(a, m, b, tag, r);
    TrimKeepsFirst(r);
  }

  lemma TagIff(l: string, w: string)
    ensures TagOf(l) == "\\" + w <==> TaggedWith(l, w)
  {
    if TagOf(l) == "\\" + w {
      var a, m, b, v, r := FoundIsTag(l);
      assert v == ("\\" + v)[1..] == w;
    }
    if a, m, b, r :| TagAt(l, a, m, b, w, r) {
      TagIsFound(l, a, m, b, w, r);
    }
  }

  /** Replacing a tag turns the backslash of each of its occurrences into '@', and nothing else. */
  lemma {:induction false} RetaggedAt(s: string, w: string, i: nat)
    requires '\\' !in w && i < |s|
    ensures var r := Replace(s, "\\" + w, "@" + w);
            |r| == |s| && r[i] == if OccursAt(s, "\\" + w, i) then '@' else s[i]
    decreases |s|
  {
    var tag, to := "\\" + w, "@" + w;
    var n := |tag|;
    RetagChars(s, tag);
    assert tag[1..] == w;
    if |s| >= n {
      if s[..n] == tag {
        var rest := s[n..];
        if i >= n {
          RetaggedAt(rest, w, i - n);
          SameOccurrence(s, tag, n, i);
        } else if i > 0 {
          assert s[i] == tag[i] == w[i - 1];
          OccursStarts(s, tag, i);
        }
      } else if i > 0 {
        RetaggedAt(s[1..], w, i - 1);
        SameOccurrence(s, tag, 1, i);
      }
    }
  }

  lemma OccursStarts(s: string, pattern: string, i: nat)
    requires i < |s| && pattern != "" && s[i] != pattern[0]
    ensures !OccursAt(s, pattern, i)
  {
    if i + |pattern| <= |s| {
      assert s[i..i + |pattern|][0] == s[i];
    }
  }

  lemma SameOccurrence(s: string, pattern: string, n: nat, i: nat)
    requires n <= i <= |s|
    ensures OccursAt(s[n..], pattern, i - n) <==> OccursAt(s, pattern, i)
  {
    if i + |pattern| <= |s| {
      assert s[n..][i - n..i - n + |pattern|] == s[i..i + |pattern|];
    }
  }

  lemma TagHasWord(l: string) returns (w: string)
    requires TagOf(l) != ""
    ensures TaggedWith(l, w) && TagOf(l) == "\\" + w
  {
    w := TagOf(l)[1..];
    assert TagOf(l) == "\\" + w;
    TagIff(l, w);
  }

  lemma Retagging(l: string, w: string)
    requires '\\' !in w
    ensures RetaggedLine(l, w, Replace(l, "\\" + w, "@" + w))
  {
    var r := Replace(l, "\\" + w, "@" + w);
    forall i | 0 <= i < |l| ensures |r| == |l| && r[i] == if OccursAt(l, "\\" + w, i) then '@' else l[i] {
      RetaggedAt(l, w, i);
    }
    if l == "" {
      assert r == l;
    }
  }

  /** Exactly the lines with a tag that is not one of the ignored words are rejected; the
      repair has '@' for the backslash of every occurrence of that tag in the line. */
  lemma DoxygenLineBecomes(l: string)
    ensures CheckDoxygenTagsLine(l).compliant <==> forall w :: TaggedWith(l, w) ==> w in ["dots", "langle", "quad"]
    ensures forall w :: TaggedWith(l, w) && !CheckDoxygenTagsLine(l).compliant ==> RetaggedLine(l, w, CheckDoxygenTagsLine(l).fixed)
  {
    forall w | TaggedWith(l, w)
      ensures CheckDoxygenTagsLine(l).compliant <==> w in ["dots", "langle", "quad"]
      ensures !CheckDoxygenTagsLine(l).compliant ==> RetaggedLine(l, w, CheckDoxygenTagsLine(l).fixed)
    {
      TaggedLineBecomes(l, w);
    }
    if TagOf(l) != "" {
      var w := TagHasWord(l);
    }
  }

  lemma TaggedLineBecomes(l: string, w: string)
    requires TaggedWith(l, w)
    ensures CheckDoxygenTagsLine(l).compliant <==> w in ["dots", "langle", "quad"]
    ensures !CheckDoxygenTagsLine(l).compliant ==> RetaggedLine(l, w, CheckDoxygenTagsLine(l).fixed)
  {
    TagIff(l, w);
    IgnoredAre(w);
    assert ("\\" + w)[1..] == w;
    TaggedWordIsPlain(l, w);
    Retagging(l, w);
  }

  ghost predicate RetaggedLine(l: string, w: string, r: string) {
    |r| == |l| && forall i :: 0 <= i < |l| ==> r[i] == if OccursAt(l, "\\" + w, i) then '@' else l[i]
  }

  lemma TaggedWordIsPlain(l: string, w: string)
    requires TaggedWith(l, w)
    ensures '\\' !in w
  {
    assert !IsWord('\\');
  }

  lemma IgnoredAre(w: string)
    ensures "\\" + w in IGNORED_WORDS <==> w in ["dots", "langle", "quad"]
  {
    assert "\\dots" == "\\" + "dots" && "\\langle" == "\\" + "langle" && "\\quad" == "\\" + "quad";
    var tag := "\\" + w;
    assert tag[1..] == w;
    assert ("\\" + "dots")[1..] == "dots" && ("\\" + "langle")[1..] == "langle" && ("\\" + "quad")[1..] == "quad";
  }

  // ----- licence text

  ghost predicate FrameOf(f: string, a: string, b: string, c: string) {
    f == a + b + c && All(a, IsSpace) && All(b, IsMark) && All(c, IsSpace)
  }

  /** Whitespace, comment marks, whitespace. */
  ghost predicate Frame(f: string) {
    exists a, b, c :: FrameOf(f, a, b, c)
  }

  /** The line is `x` within comment marks and whitespace, `before` and `after` it. */
  ghost predicate Framed(l: string, before: string, x: string, after: string) {
    Frame(before) && Frame(after) && l == before + x + after
  }

  lemma FrameTrims(f: string)
    requires Frame(f)
    ensures TrimLeft(TrimLeft(TrimLeft(f, IsSpace), IsMark), IsSpace) == ""
    ensures TrimRight(TrimRight(TrimRight(f, IsSpace), IsMark), IsSpace) == ""
  {
    var a, b, c :| FrameOf(f, a, b, c);
    if b == "" {
      assert f == a + c && All(f, IsSpace);
      TrimLeftAll(f, IsSpace);
      TrimRightAll(f, IsSpace);
    } else {
      MarkIsNoSpace(b[0]);
      MarkIsNoSpace(b[|b| - 1]);
      assert f == a + (b + c) == (a + b) + c;
      TrimLeftAround(a, b + c, IsSpace);
      TrimLeftAll(a, IsSpace);
      assert "" + (b + c) == b + c;
      LeftMarks(b, c);
      TrimLeftAll(c, IsSpace);
      TrimRightAround(a + b, c, IsSpace);
      TrimRightAll(c, IsSpace);
      assert (a + b) + "" == a + b;
      RightMarks(a, b);
      TrimRightAll(a, IsSpace);
    }
  }

  lemma MarkIsNoSpace(c: char)
    requires IsMark(c)
    ensures !IsSpace(c)
  {
  }

  lemma LeftMarks(b: string, c: string)
    requires All(b, IsMark) && All(c, IsSpace)
    ensures TrimLeft(b + c, IsMark) == c
  {
    TrimLeftAll(b, IsMark);
    if c == "" {
      assert b + c == b;
    } else {
      assert IsSpace(c[0]);
      TrimLeftAround(b, c, IsMark);
      assert "" + c == c;
    }
  }

  lemma RightMarks(a: string, b: string)
    requires All(a, IsSpace) && All(b, IsMark)
    ensures TrimRight(a + b, IsMark) == a
  {
    TrimRightAll(b, IsMark);
    if a == "" {
      assert a + b == b;
    } else {
      assert IsSpace(a[|a| - 1]);
      TrimRightAround(a, b, IsMark);
      assert a + "" == a;
    }
  }

  lemma CoreFramed(l: string) returns (before: string, after: string)
    ensures Framed(l, before, Core(l), after)
  {
    var a1, b1 := StripSplit(l, IsSpace);
    var s1 := Strip(l, IsSpace);
    var a2, b2 := StripSplit(s1, IsMark);
    var s2 := Strip(s1, IsMark);
    var a3, b3 := StripSplit(s2, IsSpace);
    before, after := a1 + a2 + a3, b3 + b2 + b1;
    assert FrameOf(before, a1, a2, a3) && FrameOf(after, b3, b2, b1);
    Nest(a1, a2, a3, Core(l), b3, b2, b1);
  }

  lemma CoreIff(l: string, x: string)
    requires Solid(x, IsSpace) && Solid(x, IsMark)
    ensures Core(l) == x <==> exists before, after :: Framed(l, before, x, after)
  {
    if Core(l) == x {
      var before, after := CoreFramed(l);
    }
    if before, after :| Framed(l, before, x, after) {
      CoreAround(before, x, after);
      FrameTrims(before);
      FrameTrims(after);
      assert "" + x + "" == x;
    }
  }

  /** The text begins and ends with neither a mark nor whitespace. */
  predicate Bare(x: string) {
    x != "" && !Outer(x[0]) && !Outer(x[|x| - 1])
  }

  lemma HalvesAreBare(a: string, b: string, c: char, d: char)
    requires a != "" && b != "" && a[0] == c && b[|b| - 1] == d && !Outer(c) && !Outer(d)
    ensures Bare(a + b)
  {
  }

  lemma LicenseTextsAreBare1()
    ensures Bare(GPL_LICENSE_LINES[0]) && Bare(GPL_LICENSE_LINES[1]) && Bare(GPL_LICENSE_LINES[2])
  {
    HalvesAreBare("This program is free software; ", "you can redistribute it and/or modify", 'T', 'y');
    HalvesAreBare("it under the terms of the GNU ", "General Public License version 2 as", 'i', 's');
    HalvesAreBare("published by the Free ", "Software Foundation;", 'p', ';');
  }

  lemma LicenseTextsAreBare2()
    ensures Bare(GPL_LICENSE_LINES[3]) && Bare(GPL_LICENSE_LINES[4]) && Bare(GPL_LICENSE_LINES[5])
  {
    HalvesAreBare("This program is distributed in ", "the hope that it will be useful,", 'T', ',');
    HalvesAreBare("but WITHOUT ANY WARRANTY; ", "without even the implied warranty of", 'b', 'f');
    HalvesAreBare("MERCHANTABILITY or FITNESS FOR ", "A PARTICULAR PURPOSE.  See the", 'M', 'e');
  }

  lemma LicenseTextsAreBare3()
    ensures Bare(GPL_LICENSE_LINES[6]) && Bare(GPL_LICENSE_LINES[7])
    ensures Bare(GPL_LICENSE_LINES[8]) && Bare(GPL_LICENSE_LINES[9])
  {
    HalvesAreBare("GNU General Public License ", "for more details.", 'G', '.');
    HalvesAreBare("You should have received a copy ", "of the GNU General Public License", 'Y', 'e');
    HalvesAreBare("along with this program; if not, ", "write to the Free Software", 'a', 'e');
    HalvesAreBare("Foundation, Inc., 59 Temple Place, ", "Suite 330, Boston, MA  02111-1307  USA", 'F', 'A');
  }

  lemma LicenseTextIsBare(x: string)
    requires x in GPL_LICENSE_LINES
    ensures Bare(x)
  {
    LicenseTextsAreBare1();
    LicenseTextsAreBare2();
    LicenseTextsAreBare3();
  }

  lemma LicenseIff(l: string, x: string)
    requires x in GPL_LICENSE_LINES
    ensures Core(l) == x <==> exists before, after :: Framed(l, before, x, after)
  {
    LicenseTextIsBare(x);
    CoreIff(l, x);
  }

  lemma {:induction false} FrameIsOuter(f: string)
    requires Frame(f)
    ensures All(f, Outer)
  {
  }

  /** Exactly the lines that are one of the licence texts within comment marks and whitespace
      are rejected. The first text is replaced by the SPDX text where it stands; a line with
      another text is deleted. */
  lemma LicenseTextReplaced(l: string)
    ensures CheckLicensesLine(l).compliant <==>
            forall x, before, after :: x in GPL_LICENSE_LINES ==> !Framed(l, before, x, after)
    ensures forall before, after :: Framed(l, before, GPL_FIRST_LINE, after) ==>
              CheckLicensesLine(l).fixed == before + SPDX_LICENSE + after
    ensures forall x, before, after :: x in GPL_LICENSE_LINES && x != GPL_FIRST_LINE && Framed(l, before, x, after) ==>
              CheckLicensesLine(l).fixed == ""
  {
    forall x | x in GPL_LICENSE_LINES
      ensures Core(l) == x <==> exists before, after :: Framed(l, before, x, after)
    {
      LicenseIff(l, x);
    }
    assert GPL_LICENSE_LINES[0] == GPL_FIRST_LINE;
    forall before, after | Framed(l, before, GPL_FIRST_LINE, after)
      ensures CheckLicensesLine(l).fixed == before + SPDX_LICENSE + after
    {
      LicenseIff(l, GPL_FIRST_LINE);
      FirstLineReplaced(l, before, after);
    }
  }

  lemma FirstLineReplaced(l: string, before: string, after: string)
    requires Framed(l, before, GPL_FIRST_LINE, after) && Core(l) == GPL_FIRST_LINE
    ensures Replace(l, GPL_FIRST_LINE, SPDX_LICENSE) == before + SPDX_LICENSE + after
  {
    var x := GPL_FIRST_LINE;
    assert GPL_LICENSE_LINES[0] == x;
    LicenseTextIsBare(x);
    FrameIsOuter(before);
    FrameIsOuter(after);
    assert l == before + (x + after);
    ReplaceSkips(before, x + after, x, SPDX_LICENSE);
    ReplaceHere(after, x, SPDX_LICENSE);
    ReplaceAbsent(after, x, SPDX_LICENSE);
    assert before + (SPDX_LICENSE + after) == before + SPDX_LICENSE + after;
  }
}
