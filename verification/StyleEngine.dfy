/** The line-by-line style checker with formatting guards, for an arbitrary line
    check, and what "fix, write, read again, check" gives. */
module StyleEngine {
  import opened Strings
  import opened PyText

  /** Whether a line complies, and its replacement when it does not. */
  datatype LineResult = LineResult(compliant: bool, fixed: string)

  type LineCheck = string -> LineResult

  datatype Guard = On | Off | NoGuard

  const FORMAT_GUARD_ON := ["// clang-format on", "# cmake-format: on", "# fmt: on"]
  const FORMAT_GUARD_OFF := ["// clang-format off", "# cmake-format: off", "# fmt: off"]

  function GuardOf(line: string): Guard {
    var stripped := Strip(line, IsSpace);
    if stripped in FORMAT_GUARD_ON then On
    else if stripped in FORMAT_GUARD_OFF then Off
    else NoGuard
  }

  function Enabled(respect: bool, before: bool, g: Guard): bool {
    if respect && g == On then true
    else if respect && g == Off then false
    else before
  }

  /** Guard lines are always examined; other lines only while formatting is enabled. */
  predicate Examined(respect: bool, enabled: bool, g: Guard) {
    !respect || enabled || g != NoGuard
  }

  predicate Compliant(check: LineCheck, respect: bool, enabled: bool, lines: seq<string>)
    decreases |lines|
  {
    lines == [] ||
    var g := GuardOf(lines[0]);
    && (Examined(respect, Enabled(respect, enabled, g), g) ==> check(lines[0]).compliant)
    && Compliant(check, respect, Enabled(respect, enabled, g), lines[1..])
  }

  function FixLine(check: LineCheck, respect: bool, enabled: bool, line: string): string {
    var g := GuardOf(line);
    if Examined(respect, Enabled(respect, enabled, g), g) && !check(line).compliant then check(line).fixed else line
  }

  function FixLines(check: LineCheck, respect: bool, enabled: bool, lines: seq<string>): (r: seq<string>)
    ensures |r| == |lines|
    decreases |lines|
  {
    if lines == [] then []
    else [FixLine(check, respect, enabled, lines[0])] +
         FixLines(check, respect, Enabled(respect, enabled, GuardOf(lines[0])), lines[1..])
  }

  predicate CheckFile(check: LineCheck, respect: bool, contents: string) {
    Compliant(check, respect, true, ReadLines(contents))
  }

  /** A compliant file is not written. */
  function FixFile(check: LineCheck, respect: bool, contents: string): string {
    if CheckFile(check, respect, contents) then contents
    else Concat(FixLines(check, respect, true, ReadLines(contents)))
  }

  // ----- what a line check must do

  /** A repair deletes the line or leaves a line, keeps its newline, complies with
      the check, and keeps guard lines what they are. */
  ghost predicate Repairs(check: LineCheck, respect: bool, l: string) {
    var r := check(l);
    r.compliant ||
    (&& (r.fixed == "" || (IsLine(r.fixed) && (Terminated(l) ==> Terminated(r.fixed)) && check(r.fixed).compliant))
     && (respect && GuardOf(l) != NoGuard ==> r.fixed != "" && GuardOf(r.fixed) == GuardOf(l)))
  }

  ghost predicate GoodCheck(check: LineCheck, respect: bool) {
    forall l :: IsLine(l) ==> Repairs(check, respect, l)
  }

  // ----- fix, write, read, check

  /** What reading finds of a written list: deleted lines have left no trace. */
  function Kept(ls: seq<string>): seq<string> {
    if ls == [] then [] else (if ls[0] == "" then [] else [ls[0]]) + Kept(ls[1..])
  }

  lemma {:induction false} ConcatKept(ls: seq<string>)
    ensures Concat(ls) == Concat(Kept(ls))
  {
    if ls != [] {
      ConcatKept(ls[1..]);
      if ls[0] != "" {
        assert Kept(ls)[1..] == Kept(ls[1..]);
      } else {
        assert Kept(ls) == Kept(ls[1..]);
        assert Concat(ls) == Concat(ls[1..]);
      }
    }
  }

  lemma TailLines(lines: seq<string>)
    requires FileLines(lines) && lines != []
    ensures FileLines(lines[1..]) && IsLine(lines[0]) && (lines[1..] != [] ==> Terminated(lines[0]))
  {
    var rest := lines[1..];
    assert forall i :: 0 <= i < |rest| ==> rest[i] == lines[i + 1];
  }

  lemma {:induction false} FixedAreLines(check: LineCheck, respect: bool, enabled: bool, lines: seq<string>)
    requires GoodCheck(check, respect) && FileLines(lines)
    ensures FileLines(Kept(FixLines(check, respect, enabled, lines)))
    ensures lines == [] ==> Kept(FixLines(check, respect, enabled, lines)) == []
    decreases |lines|
  {
    if lines != [] {
      TailLines(lines);
      var l, e := lines[0], Enabled(respect, enabled, GuardOf(lines[0]));
      FixedAreLines(check, respect, e, lines[1..]);
      assert Repairs(check, respect, l);
      var f, rest := FixLine(check, respect, enabled, l), FixLines(check, respect, e, lines[1..]);
      assert FixLines(check, respect, enabled, lines)[1..] == rest;
      if f != "" {
        ConsLines(f, Kept(rest));
      } else {
        assert [] + Kept(rest) == Kept(rest);
      }
    }
  }

  /** The second pass, started with formatting enabled only if it was enabled in the
      first, finds nothing: a line it examines was examined and repaired before. */
  lemma {:induction false} SecondPass(check: LineCheck, respect: bool, first: bool, second: bool, lines: seq<string>)
    requires GoodCheck(check, respect) && FileLines(lines) && (respect && second ==> first)
    ensures Compliant(check, respect, second, Kept(FixLines(check, respect, first, lines)))
    decreases |lines|
  {
    if lines != [] {
      TailLines(lines);
      var l, g := lines[0], GuardOf(lines[0]);
      var e := Enabled(respect, first, g);
      var f, rest := FixLine(check, respect, first, l), FixLines(check, respect, e, lines[1..]);
      assert Repairs(check, respect, l);
      var out := Kept(FixLines(check, respect, first, lines));
      assert FixLines(check, respect, first, lines)[1..] == rest;
      if f == "" {
        assert out == Kept(rest);
        SecondPass(check, respect, e, second, lines[1..]);
      } else {
        assert out[0] == f && out[1..] == Kept(rest);
        SecondPass(check, respect, e, Enabled(respect, second, GuardOf(f)), lines[1..]);
      }
    }
  }

  /** Fixing a file makes it compliant, and fixing it again changes nothing. */
  lemma FixIsFixpoint(check: LineCheck, respect: bool, contents: string)
    requires GoodCheck(check, respect)
    ensures CheckFile(check, respect, FixFile(check, respect, contents))
    ensures FixFile(check, respect, FixFile(check, respect, contents)) == FixFile(check, respect, contents)
  {
    if !CheckFile(check, respect, contents) {
      RereadFixed(check, respect, contents);
      ReadGivesLines(contents);
      SecondPass(check, respect, true, true, ReadLines(contents));
    }
  }

  lemma RereadFixed(check: LineCheck, respect: bool, contents: string)
    requires GoodCheck(check, respect)
    ensures var fixed := FixLines(check, respect, true, ReadLines(contents));
            ReadLines(Concat(fixed)) == Kept(fixed)
  {
    var lines := ReadLines(contents);
    ReadGivesLines(contents);
    FixedAreLines(check, respect, true, lines);
    ConcatKept(FixLines(check, respect, true, lines));
    ReadBack(Kept(FixLines(check, respect, true, lines)));
  }

  // ----- which lines are examined

  /** A guard line is one of the six guard texts between whitespace. */
  lemma GuardIff(l: string)
    ensures GuardOf(l) == On <==>
            exists g :: g in ["// clang-format on", "# cmake-format: on", "# fmt: on"] && StripsTo(l, g, IsSpace)
    ensures GuardOf(l) == Off <==>
            exists g :: g in ["// clang-format off", "# cmake-format: off", "# fmt: off"] && StripsTo(l, g, IsSpace)
  {
    forall g: string ensures Strip(l, IsSpace) == g <==> StripsTo(l, g, IsSpace) {
      StripIff(l, g, IsSpace);
    }
    var s := Strip(l, IsSpace);
    if s in FORMAT_GUARD_ON {
      OnIsNotOff(s);
    }
    assert s in FORMAT_GUARD_ON ==> StripsTo(l, s, IsSpace);
    assert s in FORMAT_GUARD_OFF ==> StripsTo(l, s, IsSpace);
  }

  lemma OnIsNotOff(s: string)
    requires s in FORMAT_GUARD_ON
    ensures s !in FORMAT_GUARD_OFF
  {
    var on, off := FORMAT_GUARD_ON, FORMAT_GUARD_OFF;
    assert |on[0]| == 18 && |on[1]| == 18 && |on[2]| == 9 && |off[0]| == 19 && |off[1]| == 19 && |off[2]| == 10;
  }

  function GuardsOf(lines: seq<string>): (gs: seq<Guard>)
    ensures |gs| == |lines| && forall i :: 0 <= i < |lines| ==> gs[i] == GuardOf(lines[i])
  {
    seq(|lines|, i requires 0 <= i < |lines| => GuardOf(lines[i]))
  }

  /** The guard line closest before line `k` switches formatting on, or there is none and
      formatting is on at the start. */
  ghost predicate SwitchedOn(enabled: bool, gs: seq<Guard>, k: nat)
    requires k <= |gs|
  {
    || (exists j :: 0 <= j < k && gs[j] == On && forall i :: j < i < k ==> gs[i] == NoGuard)
    || (enabled && forall i :: 0 <= i < k ==> gs[i] == NoGuard)
  }

  /** Guards are examined, and lines not behind a guard that switches off; all lines are when
      guards are not respected. */
  ghost predicate Reached(respect: bool, enabled: bool, gs: seq<Guard>, k: nat)
    requires k < |gs|
  {
    !respect || gs[k] != NoGuard || SwitchedOn(enabled, gs, k)
  }

  lemma SwitchedOnStep(enabled: bool, gs: seq<Guard>, k: nat)
    requires 0 < k <= |gs|
    ensures SwitchedOn(enabled, gs, k) <==> SwitchedOn(Enabled(true, enabled, gs[0]), gs[1..], k - 1)
  {
    var rest, e := gs[1..], Enabled(true, enabled, gs[0]);
    if j :| 0 <= j < k && gs[j] == On && forall i :: j < i < k ==> gs[i] == NoGuard {
      assert j > 0 ==> rest[j - 1] == On;
    }
    if SwitchedOn(e, rest, k - 1) {
      forall i | 0 < i < k ensures gs[i] == rest[i - 1] {
      }
      if j :| 0 <= j < k - 1 && rest[j] == On && forall i :: j < i < k - 1 ==> rest[i] == NoGuard {
        assert gs[j + 1] == On;
      }
    }
  }

  lemma ReachedStep(respect: bool, enabled: bool, gs: seq<Guard>, k: nat)
    requires 0 < k < |gs|
    ensures Reached(respect, enabled, gs, k) <==> Reached(respect, Enabled(respect, enabled, gs[0]), gs[1..], k - 1)
  {
    if respect {
      SwitchedOnStep(enabled, gs, k);
    }
  }

  lemma FirstReached(respect: bool, enabled: bool, gs: seq<Guard>)
    requires gs != []
    ensures Reached(respect, enabled, gs, 0) <==> Examined(respect, Enabled(respect, enabled, gs[0]), gs[0])
  {
  }

  lemma GuardsOfRest(lines: seq<string>)
    requires lines != []
    ensures GuardsOf(lines[1..]) == GuardsOf(lines)[1..]
  {
  }

  /** What becomes of a line: if it is reached and does not comply it is replaced by its
      repair, otherwise it stays. */
  ghost function Repaired(check: LineCheck, reached: bool, line: string): string {
    if reached && !check(line).compliant then check(line).fixed else line
  }

  lemma {:induction false} FixedLineIs(check: LineCheck, respect: bool, enabled: bool, lines: seq<string>, k: nat)
    requires k < |lines|
    ensures FixLines(check, respect, enabled, lines)[k] ==
            Repaired(check, Reached(respect, enabled, GuardsOf(lines), k), lines[k])
    decreases |lines|
  {
    if k > 0 {
      GuardsOfRest(lines);
      ReachedStep(respect, enabled, GuardsOf(lines), k);
      FixedLineIs(check, respect, Enabled(respect, enabled, GuardOf(lines[0])), lines[1..], k - 1);
    }
  }

  /** The verdict: every line that is reached complies. */
  lemma {:induction false} CompliantIff(check: LineCheck, respect: bool, enabled: bool, lines: seq<string>)
    ensures Compliant(check, respect, enabled, lines) <==>
            forall k :: 0 <= k < |lines| && Reached(respect, enabled, GuardsOf(lines), k) ==> check(lines[k]).compliant
    decreases |lines|
  {
    if lines != [] {
      var gs, rest := GuardsOf(lines), lines[1..];
      var e := Enabled(respect, enabled, gs[0]);
      GuardsOfRest(lines);
      CompliantIff(check, respect, e, rest);
      FirstReached(respect, enabled, gs);
      forall k | 0 < k < |lines| ensures Reached(respect, enabled, gs, k) <==> Reached(respect, e, gs[1..], k - 1) {
        ReachedStep(respect, enabled, gs, k);
      }
      forall k | 0 <= k < |rest| ensures Reached(respect, e, gs[1..], k) <==> Reached(respect, enabled, gs, k + 1) {
        ReachedStep(respect, enabled, gs, k + 1);
      }
    }
  }

  lemma SwitchedOff(gs: seq<Guard>, j: nat, k: nat)
    requires j < k < |gs| && gs[j] == Off && forall i :: j < i <= k ==> gs[i] == NoGuard
    ensures !Reached(true, true, gs, k)
  {
  }

  /** A line behind a guard that switches formatting off, with no guard in between, is not touched. */
  lemma DisabledUntouched(check: LineCheck, lines: seq<string>, gs: seq<Guard>, fixed: seq<string>, j: nat, k: nat)
    requires gs == GuardsOf(lines) && fixed == FixLines(check, true, true, lines)
    requires j < k < |lines| && gs[j] == Off && forall i :: j < i <= k ==> gs[i] == NoGuard
    ensures fixed[k] == lines[k]
  {
    SwitchedOff(gs, j, k);
    FixedLineIs(check, true, true, lines, k);
  }

  /** The lines of the fixed file: those of the original, each reached one repaired if need be,
      without the deleted ones. */
  lemma FixedFileLines(check: LineCheck, respect: bool, contents: string) returns (fixed: seq<string>)
    requires GoodCheck(check, respect)
    ensures ReadLines(FixFile(check, respect, contents)) == Kept(fixed) && |fixed| == |ReadLines(contents)|
    ensures forall k :: 0 <= k < |fixed| ==>
              fixed[k] == Repaired(check, Reached(respect, true, GuardsOf(ReadLines(contents)), k), ReadLines(contents)[k])
  {
    var lines := ReadLines(contents);
    fixed := FixLines(check, respect, true, lines);
    forall k | 0 <= k < |lines|
      ensures fixed[k] == Repaired(check, Reached(respect, true, GuardsOf(lines), k), lines[k])
    {
      FixedLineIs(check, respect, true, lines, k);
    }
    if CheckFile(check, respect, contents) {
      CompliantIff(check, respect, true, lines);
      assert fixed == lines;
      ReadGivesLines(contents);
      KeptAll(lines);
    } else {
      RereadFixed(check, respect, contents);
    }
  }

  lemma {:induction false} KeptAll(ls: seq<string>)
    requires forall i :: 0 <= i < |ls| ==> ls[i] != ""
    ensures Kept(ls) == ls
  {
    if ls != [] {
      KeptAll(ls[1..]);
      assert ls == [ls[0]] + ls[1..];
    }
  }

  // ----- two checks in a row

  ghost predicate Keeps(other: LineCheck, check: LineCheck, l: string) {
    other(l).compliant && !check(l).compliant ==> check(l).fixed == "" || other(check(l).fixed).compliant
  }

  /** A check that ignores guards stays satisfied when another check's repairs keep it. */
  lemma {:induction false} OtherStaysCompliant(other: LineCheck, check: LineCheck, respect: bool,
                                               first: bool, second: bool, lines: seq<string>)
    requires FileLines(lines) && Compliant(other, false, second, lines)
    requires forall l :: IsLine(l) ==> Keeps(other, check, l)
    ensures Compliant(other, false, second, Kept(FixLines(check, respect, first, lines)))
    decreases |lines|
  {
    if lines != [] {
      TailLines(lines);
      var g := GuardOf(lines[0]);
      var e := Enabled(respect, first, g);
      OtherStaysCompliant(other, check, respect, e, second, lines[1..]);
      assert Keeps(other, check, lines[0]);
      var f, rest := FixLine(check, respect, first, lines[0]), FixLines(check, respect, e, lines[1..]);
      var out := Kept(FixLines(check, respect, first, lines));
      assert FixLines(check, respect, first, lines)[1..] == rest;
      if f == "" {
        assert out == Kept(rest);
      } else {
        assert out[0] == f && out[1..] == Kept(rest);
      }
    }
  }

  lemma FixKeepsOther(other: LineCheck, check: LineCheck, respect: bool, contents: string)
    requires GoodCheck(check, respect) && CheckFile(other, false, contents)
    requires forall l :: IsLine(l) ==> Keeps(other, check, l)
    ensures CheckFile(other, false, FixFile(check, respect, contents))
  {
    if !CheckFile(check, respect, contents) {
      ReadGivesLines(contents);
      OtherStaysCompliant(other, check, respect, true, true, ReadLines(contents));
      RereadFixed(check, respect, contents);
    }
  }

  // ----- the code

  class TextFile {
    var contents: string

    constructor (contents: string)
      ensures this.contents == contents
    {
      this.contents := contents;
    }
  }

  /** Some lines have been examined and repaired, giving `done`; `rest` is to come. */
  ghost predicate Progress(check: LineCheck, respect: bool, original: seq<string>, done: seq<string>,
                           enabled: bool, rest: seq<string>, compliant: bool)
  {
    && done + FixLines(check, respect, enabled, rest) == FixLines(check, respect, true, original)
    && (Compliant(check, respect, true, original) <==> compliant && Compliant(check, respect, enabled, rest))
  }

  /** Whether a line is examined and found not to comply. */
  predicate Faulty(check: LineCheck, respect: bool, enabled: bool, line: string) {
    Examined(respect, Enabled(respect, enabled, GuardOf(line)), GuardOf(line)) && !check(line).compliant
  }

  lemma ProgressStep(check: LineCheck, respect: bool, original: seq<string>, done: seq<string>,
                     enabled: bool, rest: seq<string>, compliant: bool)
    requires rest != [] && Progress(check, respect, original, done, enabled, rest, compliant)
    ensures var bad := Faulty(check, respect, enabled, rest[0]);
            && (bad ==> !Compliant(check, respect, true, original))
            && Progress(check, respect, original, done + [FixLine(check, respect, enabled, rest[0])],
                        Enabled(respect, enabled, GuardOf(rest[0])), rest[1..], compliant && !bad)
  {
    var f := FixLine(check, respect, enabled, rest[0]);
    var later := FixLines(check, respect, Enabled(respect, enabled, GuardOf(rest[0])), rest[1..]);
    assert done + ([f] + later) == done + [f] + later;
  }

  /** The guard tests at the head of the loop. */
  method GuardState(respect: bool, before: bool, line: string) returns (enabled: bool)
    ensures enabled == Enabled(respect, before, GuardOf(line))
  {
    enabled := before;
    if respect {
      var stripped := Strip(line, IsSpace);
      if stripped in FORMAT_GUARD_ON {
        enabled := true;
      } else if stripped in FORMAT_GUARD_OFF {
        enabled := false;
      }
    }
  }

  /** The verdict is about the file before the call and is the same in every mode,
      the early stop included; the file changes only in fix mode. */
  method CheckManuallyFile(file: TextFile, fix: bool, verbose: bool, respectGuards: bool, check: LineCheck)
    returns (compliant: bool)
    modifies file
    ensures compliant == CheckFile(check, respectGuards, old(file.contents))
    ensures file.contents == if fix then FixFile(check, respectGuards, old(file.contents)) else old(file.contents)
  {
    compliant := true;
    var enabled := true;
    var lines := ReadLines(file.contents);
    ghost var original, done, rest := lines, [], lines;
    var i := 0;
    while i < |lines|
      invariant 0 <= i <= |lines| && file.contents == old(file.contents)
      invariant |done| == i && lines == done + rest
      invariant Progress(check, respectGuards, original, done, enabled, rest, compliant)
    {
      var line := lines[i];
      assert line == rest[0];
      ghost var before, fixed := enabled, FixLine(check, respectGuards, enabled, line);
      ProgressStep(check, respectGuards, original, done, enabled, rest, compliant);
      enabled := GuardState(respectGuards, enabled, line);
      var examined := Examined(respectGuards, enabled, GuardOf(line));
      if examined {
        var r := check(line);
        if !r.compliant {
          compliant := false;
          lines := lines[i := r.fixed];
          if !fix && !verbose {
            return;
          }
        }
      }
      SpliceOne(done, rest, fixed, lines);
      done, rest := done + [fixed], rest[1..];
      i := i + 1;
    }
    assert done + [] == done;
    if fix && !compliant {
      file.contents := Concat(lines);
    }
  }

  lemma SpliceOne(done: seq<string>, rest: seq<string>, fixed: string, lines: seq<string>)
    requires rest != [] && lines == (done + rest)[|done| := fixed]
    ensures lines == done + [fixed] + rest[1..]
  {
  }
}
