/** Reading the attachment log from its text: which lines are headers, failures and
    successes. Turning the text of a time into a number is a parameter. */
module EventLog {
  import opened Common
  import opened Strings
  import PyText
  import opened EventAlignment

  const HEAD := "---- INIT_ATTACH t="
  const MIDDLE := " UE(imsi)="
  const END := " ----"
  const LOW_RSRP := "INIT_ATTACH_FAIL_ALL_LOW_RSRP"
  const ALL_FULL := "INIT_ATTACH_FAIL_ALL_FULL"
  const ATTACHED := "INIT_ATTACH_OK"

  /** The class `[0-9.+-eE]`: `+-e` in it is a range, which contains all the others. */
  predicate IsTimeChar(c: char) {
    '+' <= c <= 'e'
  }

  /** The line is a header with these texts for time and IMSI. */
  ghost predicate IsHeader(line: string, time: string, imsi: string) {
    && time != "" && (forall i :: 0 <= i < |time| ==> '+' <= time[i] <= 'e')
    && imsi != "" && (forall i :: 0 <= i < |imsi| ==> '0' <= imsi[i] <= '9')
    && line == HEAD + time + (MIDDLE + imsi + END)
  }

  /** What follows `prefix`, if the string begins with it. */
  function After(s: string, prefix: string): (r: Option<string>)
    ensures r.Some? <==> prefix <= s
    ensures r.Some? ==> s == prefix + r.value
  {
    if prefix <= s then Some(s[|prefix|..]) else None
  }

  function ReadImsi(s: string): Option<string> {
    var imsi := TakeWhile(s, IsDigit);
    if imsi != "" && s[|imsi|..] == END then Some(imsi) else None
  }

  function ReadTimeAndImsi(s: string): Option<(string, string)> {
    var time := TakeWhile(s, IsTimeChar);
    if time == "" then None
    else
      match After(s[|time|..], MIDDLE)
      case None => None
      case Some(rest) =>
        match ReadImsi(rest)
        case None => None
        case Some(imsi) => Some((time, imsi))
  }

  function ReadHeader(line: string): Option<(string, string)> {
    match After(line, HEAD)
    case None => None
    case Some(rest) => ReadTimeAndImsi(rest)
  }

  lemma ImsiIff(s: string, imsi: string)
    ensures ReadImsi(s) == Some(imsi) <==> imsi != "" && All(imsi, IsDigit) && s == imsi + END
  {
    if imsi != "" && All(imsi, IsDigit) && s == imsi + END {
      TakeWhileRun(imsi, END, IsDigit);
      assert s[|imsi|..] == END;
    }
  }

  lemma TimeAndImsiIff(s: string, time: string, imsi: string)
    ensures ReadTimeAndImsi(s) == Some((time, imsi)) <==>
            && time != "" && All(time, IsTimeChar) && imsi != "" && All(imsi, IsDigit)
            && s == time + (MIDDLE + imsi + END)
  {
    if time != "" && All(time, IsTimeChar) && imsi != "" && All(imsi, IsDigit) && s == time + (MIDDLE + imsi + END) {
      var rest := MIDDLE + imsi + END;
      assert rest[0] == ' ';
      TakeWhileRun(time, rest, IsTimeChar);
      assert s[|time|..] == rest == MIDDLE + (imsi + END);
      assert rest[|MIDDLE|..] == imsi + END;
      ImsiIff(imsi + END, imsi);
    }
    if ReadTimeAndImsi(s) == Some((time, imsi)) {
      var rest := After(s[|time|..], MIDDLE).value;
      ImsiIff(rest, imsi);
      assert s == time + s[|time|..];
      assert MIDDLE + (imsi + END) == MIDDLE + imsi + END;
    }
  }

  /** The header pattern: a line is read as a header exactly when it has the form, and the
      two texts are determined by the line. */
  lemma HeaderIff(line: string, time: string, imsi: string)
    ensures ReadHeader(line) == Some((time, imsi)) <==> IsHeader(line, time, imsi)
  {
    if IsHeader(line, time, imsi) {
      assert line == HEAD + (time + (MIDDLE + imsi + END));
      assert line[|HEAD|..] == time + (MIDDLE + imsi + END);
      TimeAndImsiIff(time + (MIDDLE + imsi + END), time, imsi);
    }
    if ReadHeader(line) == Some((time, imsi)) {
      var rest := After(line, HEAD).value;
      TimeAndImsiIff(rest, time, imsi);
      assert HEAD + (time + (MIDDLE + imsi + END)) == HEAD + time + (MIDDLE + imsi + END);
    }
  }

  lemma ImsiIsDigits(line: string)
    ensures ReadHeader(line).Some? ==> All(ReadHeader(line).value.1, IsDigit)
  {
    var r := ReadHeader(line);
    if r.Some? {
      HeaderIff(line, r.value.0, r.value.1);
    }
  }

  /** How the loop sees a raw line. `float` is the conversion of the time text, which
      fails on some texts that the pattern accepts. */
  function ReadLine(raw: string, float: string -> Option<Time>): LogLine {
    var line := PyText.Strip(raw, PyText.IsSpace);
    ImsiIsDigits(line);
    var head :=
      match ReadHeader(line)
      case None => NoHead
      case Some((time, imsi)) => if float(time).None? then BadTime else Head(float(time).value, Number(imsi));
    LogLine(head, Contains(line, LOW_RSRP) || Contains(line, ALL_FULL), Contains(line, ATTACHED))
  }

  function ReadLines(raws: seq<string>, float: string -> Option<Time>): (lines: seq<LogLine>)
    ensures |lines| == |raws| && forall i :: 0 <= i < |raws| ==> lines[i] == ReadLine(raws[i], float)
  {
    seq(|raws|, i requires 0 <= i < |raws| => ReadLine(raws[i], float))
  }

  // ----- the log as text

  /** Apart from whitespace around it, the raw line is a header with these texts. */
  ghost predicate HeaderLine(raw: string, time: string, imsi: string) {
    exists a, line, b :: PyText.Around(raw, a, line, b) && All(a, PyText.IsSpace) && All(b, PyText.IsSpace)
      && IsHeader(line, time, imsi)
  }

  ghost predicate SomeHeader(raw: string) {
    exists time, imsi :: HeaderLine(raw, time, imsi)
  }

  /** The line reports that no cell took the UE: all too weak, or all full. */
  ghost predicate FailureLine(raw: string) {
    !SomeHeader(raw) && (Contains(raw, LOW_RSRP) || Contains(raw, ALL_FULL))
  }

  /** The line is neither a header nor an outcome. */
  ghost predicate Chatter(raw: string) {
    !SomeHeader(raw) && !Contains(raw, LOW_RSRP) && !Contains(raw, ALL_FULL) && !Contains(raw, ATTACHED)
  }

  /** The line announces an attempt of `node` at time `t`. */
  ghost predicate Announces(raw: string, nodes: map<nat, string>, float: string -> Option<Time>, t: Time, node: string) {
    exists time, imsi :: HeaderLine(raw, time, imsi) && float(time) == Some(t)
      && Number(imsi) in nodes && nodes[Number(imsi)] == node
  }

  /** Line `h` announces an attempt of the node at `t`, and line `j` is its failure: between
      them is nothing but chatter. */
  ghost predicate FailedBetween(raws: seq<string>, nodes: map<nat, string>, float: string -> Option<Time>, t: Time, node: string,
                                h: nat, j: nat)
  {
    && h < j < |raws| && Announces(raws[h], nodes, float, t, node) && FailureLine(raws[j])
    && forall k :: h < k < j ==> Chatter(raws[k])
  }

  ghost predicate AttachFailed(raws: seq<string>, nodes: map<nat, string>, float: string -> Option<Time>, t: Time, node: string) {
    exists h: nat, j: nat :: FailedBetween(raws, nodes, float, t, node, h, j)
  }

  lemma HeaderIsSolid(line: string, time: string, imsi: string)
    requires IsHeader(line, time, imsi)
    ensures PyText.Solid(line, PyText.IsSpace)
  {
    assert line[0] == HEAD[0] == '-';
    assert line[|line| - 1] == END[|END| - 1] == '-';
  }

  lemma HeaderLineIff(raw: string, time: string, imsi: string)
    ensures HeaderLine(raw, time, imsi) <==> ReadHeader(PyText.Strip(raw, PyText.IsSpace)) == Some((time, imsi))
  {
    var line := PyText.Strip(raw, PyText.IsSpace);
    HeaderIff(line, time, imsi);
    if IsHeader(line, time, imsi) {
      var a, b := PyText.StripSplit(raw, PyText.IsSpace);
      assert PyText.Around(raw, a, line, b);
    }
    if HeaderLine(raw, time, imsi) {
      var a, x, b :| PyText.Around(raw, a, x, b) && All(a, PyText.IsSpace) && All(b, PyText.IsSpace)
        && IsHeader(x, time, imsi);
      HeaderIsSolid(x, time, imsi);
      PyText.StripExact(a, x, b, PyText.IsSpace);
    }
  }

  lemma TextsAreSolid()
    ensures PyText.Solid(LOW_RSRP, PyText.IsSpace) && PyText.Solid(ALL_FULL, PyText.IsSpace)
    ensures PyText.Solid(ATTACHED, PyText.IsSpace)
  {
    assert LOW_RSRP[0] == 'I' && LOW_RSRP[|LOW_RSRP| - 1] == 'P';
    assert ALL_FULL[0] == 'I' && ALL_FULL[|ALL_FULL| - 1] == 'L';
    assert ATTACHED[0] == 'I' && ATTACHED[|ATTACHED| - 1] == 'K';
  }

  /** What reading a line makes of its text. */
  lemma ReadLineMeans(raw: string, float: string -> Option<Time>)
    ensures var l := ReadLine(raw, float);
            && (l.head.NoHead? <==> !SomeHeader(raw))
            && (l.head.NoHead? && l.failed <==> FailureLine(raw))
            && (Quiet(l) <==> Chatter(raw))
            && (forall time, imsi :: HeaderLine(raw, time, imsi) ==>
                  l.head == if float(time).None? then BadTime else Head(float(time).value, Number(imsi)))
  {
    var line := PyText.Strip(raw, PyText.IsSpace);
    TextsAreSolid();
    PyText.ContainsStripped(raw, LOW_RSRP, PyText.IsSpace);
    PyText.ContainsStripped(raw, ALL_FULL, PyText.IsSpace);
    PyText.ContainsStripped(raw, ATTACHED, PyText.IsSpace);
    if ReadHeader(line).Some? {
      HeaderLineIff(raw, ReadHeader(line).value.0, ReadHeader(line).value.1);
    }
    forall time, imsi ensures HeaderLine(raw, time, imsi) <==> ReadHeader(line) == Some((time, imsi)) {
      HeaderLineIff(raw, time, imsi);
    }
  }

  lemma AnnouncesIff(raw: string, nodes: map<nat, string>, float: string -> Option<Time>, t: Time, node: string)
    ensures var head := ReadLine(raw, float).head;
            Announces(raw, nodes, float, t, node) <==>
            head.Head? && head.time == t && head.imsi in nodes && nodes[head.imsi] == node
  {
    ReadLineMeans(raw, float);
    if ReadLine(raw, float).head.Head? {
      var time, imsi :| HeaderLine(raw, time, imsi);
    }
  }

  lemma FailedBetweenIff(raws: seq<string>, nodes: map<nat, string>, float: string -> Option<Time>, t: Time, node: string,
                         h: nat, j: nat)
    ensures var lines := ReadLines(raws, float);
            FailedBetween(raws, nodes, float, t, node, h, j) <==>
            && j < |raws| && Fails(lines, h, j) && lines[h].head.time == t
            && lines[h].head.imsi in nodes && nodes[lines[h].head.imsi] == node
  {
    if h < j < |raws| {
      AnnouncesIff(raws[h], nodes, float, t, node);
      ReadLineMeans(raws[j], float);
      forall k | h < k < j ensures Quiet(ReadLine(raws[k], float)) <==> Chatter(raws[k]) {
        ReadLineMeans(raws[k], float);
      }
    }
  }

  lemma AttachFailedIff(raws: seq<string>, nodes: map<nat, string>, float: string -> Option<Time>, t: Time, node: string)
    ensures AttachFailed(raws, nodes, float, t, node) <==> Underserved(ReadLines(raws, float), nodes, |raws|, t, node)
  {
    var lines := ReadLines(raws, float);
    forall h: nat, j: nat
      ensures FailedBetween(raws, nodes, float, t, node, h, j) <==>
              && j < |raws| && Fails(lines, h, j) && lines[h].head.time == t
              && lines[h].head.imsi in nodes && nodes[lines[h].head.imsi] == node
    {
      FailedBetweenIff(raws, nodes, float, t, node, h, j);
    }
  }

  /** The log file, from its text: a node is listed at a time exactly when an announced attempt
      of it failed, and reading fails exactly when some header has a time that is not a number. */
  method ParseLogFile(raws: seq<string>, nodes: map<nat, string>, float: string -> Option<Time>) returns (r: Result<Events, string>)
    ensures r.Success? <==>
            forall i, time, imsi :: 0 <= i < |raws| && HeaderLine(raws[i], time, imsi) ==> float(time).Some?
    ensures r.Success? ==>
              && (forall t, node :: Lists(r.value, t, node) <==> AttachFailed(raws, nodes, float, t, node))
              && (forall t :: t in r.value ==> r.value[t] != {})
  {
    r := ParseLogUnderservedEvents(ReadLines(raws, float), nodes);
    forall i | 0 <= i < |raws|
      ensures ReadLine(raws[i], float).head.BadTime? <==>
              exists time, imsi :: HeaderLine(raws[i], time, imsi) && float(time).None?
    {
      ReadLineMeans(raws[i], float);
    }
    forall t, node ensures AttachFailed(raws, nodes, float, t, node) <==>
                           Underserved(ReadLines(raws, float), nodes, |raws|, t, node)
    {
      AttachFailedIff(raws, nodes, float, t, node);
    }
  }
}
