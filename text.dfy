/**
 * String operations of the Java and JavaScript runtimes, on `string` (a sequence
 * of Unicode scalar values).
 *
 * Case mapping covers ASCII plus the four non-ASCII characters whose simple case
 * mapping lands in ASCII (dotless i, long s, capital I with dot above, the Kelvin
 * sign). Every other character maps to a non-ASCII character or to itself, so for
 * comparisons against ASCII words ("ADMIN", ".pdf", "SIGNED") the result is the
 * runtime's.
 */
module Text {

  /** Character.toUpperCase, for the characters whose upper-case form is ASCII. */
  function UpperChar(c: char): char {
    if 'a' <= c <= 'z' then (c as int - 32) as char
    else if c == '\U{131}' then 'I'   // LATIN SMALL LETTER DOTLESS I
    else if c == '\U{17F}' then 'S'   // LATIN SMALL LETTER LONG S
    else c
  }

  /** Character.toLowerCase, for the characters whose lower-case form is ASCII. */
  function LowerChar(c: char): char {
    if 'A' <= c <= 'Z' then (c as int + 32) as char
    else if c == '\U{130}' then 'i'   // LATIN CAPITAL LETTER I WITH DOT ABOVE
    else if c == '\U{212A}' then 'k'  // KELVIN SIGN
    else c
  }

  /** toUpperCase on a whole string, character by character. */
  function Upper(s: string): (r: string)
    ensures |r| == |s|
    ensures forall i :: 0 <= i < |s| ==> r[i] == UpperChar(s[i])
  {
    if s == [] then [] else [UpperChar(s[0])] + Upper(s[1..])
  }

  /** toLowerCase on a whole string, character by character. */
  function Lower(s: string): (r: string)
    ensures |r| == |s|
    ensures forall i :: 0 <= i < |s| ==> r[i] == LowerChar(s[i])
  {
    if s == [] then [] else [LowerChar(s[0])] + Lower(s[1..])
  }

  lemma LowerAppend(a: string, b: string)
    ensures Lower(a + b) == Lower(a) + Lower(b)
  {
    assert forall i :: 0 <= i < |a + b| ==> Lower(a + b)[i] == (Lower(a) + Lower(b))[i];
  }

  /** Java's per-character test in String.equalsIgnoreCase. */
  predicate CharEqualsIgnoreCase(c: char, d: char) {
    c == d || UpperChar(c) == UpperChar(d) || LowerChar(UpperChar(c)) == LowerChar(UpperChar(d))
  }

  /** String.equalsIgnoreCase: same length, and equal position by position up to case. */
  predicate EqualsIgnoreCase(a: string, b: string) {
    |a| == |b| && forall i :: 0 <= i < |a| ==> CharEqualsIgnoreCase(a[i], b[i])
  }

  /** String.endsWith in both runtimes. */
  predicate EndsWith(s: string, suffix: string) {
    |suffix| <= |s| && s[|s| - |suffix|..] == suffix
  }

  lemma EndsWithAppended(s: string, suffix: string)
    ensures EndsWith(s + suffix, suffix)
  {
    assert (s + suffix)[|s|..] == suffix;
  }

  /** Whether `t` occurs in `s`. */
  predicate Contains(s: string, t: string)
    decreases |s|
  {
    |t| <= |s| && (s[..|t|] == t || (|s| > 0 && Contains(s[1..], t)))
  }

  /** A suffix occurs in the string. */
  lemma {:induction false} EndsWithContains(s: string, t: string)
    requires EndsWith(s, t)
    ensures Contains(s, t)
    decreases |s|
  {
    if |s| > |t| {
      assert s[1..][|s| - 1 - |t|..] == s[|s| - |t|..];
      EndsWithContains(s[1..], t);
    }
  }

  /**
   * String.replace(CharSequence, CharSequence): every occurrence of `target`,
   * found scanning left to right without overlaps, is replaced by `replacement`.
   */
  function ReplaceAll(s: string, target: string, replacement: string): string
    requires |target| > 0
    decreases |s|
  {
    if |s| < |target| then s
    else if s[..|target|] == target then replacement + ReplaceAll(s[|target|..], target, replacement)
    else [s[0]] + ReplaceAll(s[1..], target, replacement)
  }

  /** A string without the target comes back unchanged. */
  lemma {:induction false} ReplaceAllAbsent(s: string, target: string, replacement: string)
    requires |target| > 0
    requires !Contains(s, target)
    ensures ReplaceAll(s, target, replacement) == s
    decreases |s|
  {
    if |s| >= |target| {
      ReplaceAllAbsent(s[1..], target, replacement);
      assert [s[0]] + s[1..] == s;
    }
  }

  /**
   * Under the same conditions, a non-empty prefix without the target does not
   * start the target off: the combined string does not begin with it.
   */
  lemma TargetNotAtStart(p: string, target: string)
    requires |target| > 0
    requires forall i :: 0 < i < |target| ==> target[i] != target[0]
    requires !Contains(p, target) && p != []
    ensures (p + target)[..|target|] != target
  {
    var s := p + target;
    if |p| >= |target| {
      assert s[..|target|] == p[..|target|];
    } else {
      assert s[..|target|][|p|] == target[0];
    }
  }

  /**
   * When the target's first character does not recur in it (".pdf" is such a
   * target), a string that holds the target only at its very end has just that
   * occurrence replaced.
   */
  lemma {:induction false} ReplaceAllAtEnd(p: string, target: string, replacement: string)
    requires |target| > 0
    requires forall i :: 0 < i < |target| ==> target[i] != target[0]
    requires !Contains(p, target)
    ensures ReplaceAll(p + target, target, replacement) == p + replacement
    decreases |p|
  {
    var s := p + target;
    if p == [] {
      assert s == target;
      assert s[|target|..] == [];
    } else {
      TargetNotAtStart(p, target);
      assert s[1..] == p[1..] + target;
      assert ReplaceAll(s, target, replacement) == [p[0]] + ReplaceAll(p[1..] + target, target, replacement);
      ReplaceAllAtEnd(p[1..], target, replacement);
      assert [p[0]] + p[1..] == p;
    }
  }

  predicate IsDigit(c: char) {
    '0' <= c <= '9'
  }

  function DigitChar(d: int): (c: char)
    requires 0 <= d < 10
    ensures IsDigit(c)
  {
    ('0' as int + d) as char
  }

  function DigitValue(c: char): int
    requires IsDigit(c)
  {
    c as int - '0' as int
  }

  /** Decimal digits of a natural number, most significant first, no leading zeros. */
  function NatToString(n: nat): (r: string)
    ensures |r| > 0
    ensures forall i :: 0 <= i < |r| ==> IsDigit(r[i])
    decreases n
  {
    if n < 10 then [DigitChar(n)] else NatToString(n / 10) + [DigitChar(n % 10)]
  }

  /** The value of a string of decimal digits. */
  function ParseNat(s: string): nat
    requires forall i :: 0 <= i < |s| ==> IsDigit(s[i])
    decreases |s|
  {
    if s == [] then 0 else ParseNat(s[..|s| - 1]) * 10 + DigitValue(s[|s| - 1])
  }

  lemma {:induction false} ParseNatToString(n: nat)
    ensures ParseNat(NatToString(n)) == n
    decreases n
  {
    var r := NatToString(n);
    if n >= 10 {
      ParseNatToString(n / 10);
      assert r[..|r| - 1] == NatToString(n / 10);
    }
  }

  /** A decimal numeral with an optional minus sign. */
  predicate IsInteger(s: string) {
    (|s| > 0 && forall i :: 0 <= i < |s| ==> IsDigit(s[i]))
    || (|s| > 1 && s[0] == '-' && forall i :: 1 <= i < |s| ==> IsDigit(s[i]))
  }

  /** Long.toString and JavaScript's number-to-string, on integers. */
  function IntToString(n: int): (r: string)
    ensures IsInteger(r)
    ensures (r[0] == '-') <==> n < 0
  {
    if n < 0 then "-" + NatToString(-n) else NatToString(n)
  }
}
