/** String operations that the models of Python and of C++ code share. */
module Strings {

  ghost predicate All(s: string, p: char -> bool) {
    forall i :: 0 <= i < |s| ==> p(s[i])
  }

  /** The longest prefix whose characters satisfy `p`. */
  function TakeWhile(s: string, p: char -> bool): (t: string)
    ensures All(t, p) && t <= s
    ensures |t| < |s| ==> !p(s[|t|])
  {
    if s != "" && p(s[0]) then [s[0]] + TakeWhile(s[1..], p) else ""
  }

  /** A run of such characters is the longest prefix when something else follows it. */
  lemma {:induction false} TakeWhileRun(a: string, b: string, p: char -> bool)
    requires All(a, p) && (b == "" || !p(b[0]))
    ensures TakeWhile(a + b, p) == a
  {
    if a != "" {
      assert (a + b)[1..] == a[1..] + b;
      assert p(a[0]);
      TakeWhileRun(a[1..], b, p);
    } else {
      assert a + b == b;
    }
  }

  predicate OccursAt(s: string, pattern: string, i: nat) {
    i + |pattern| <= |s| && s[i..i + |pattern|] == pattern
  }

  predicate Contains(s: string, pattern: string) {
    exists i :: 0 <= i <= |s| && OccursAt(s, pattern, i)
  }

  predicate IsDigit(c: char) {
    '0' <= c <= '9'
  }

  /** The value of a string of decimal digits. */
  function Number(s: string): nat
    requires All(s, IsDigit)
  {
    if s == "" then 0 else 10 * Number(s[..|s| - 1]) + (s[|s| - 1] as int - '0' as int)
  }
}
