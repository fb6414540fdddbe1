/** Small text helpers shared by the models: an Option type, ASCII letter
    classes and case mapping (the subset of Python's `str.lower` and of
    case-insensitive regular expressions that the tools rely on), prefixes,
    and the code-point lexicographic order Python uses to sort strings. */
module Text {

  datatype Option<+T> = None | Some(value: T)

  /** JavaScript / Python truthiness of an optional string: present and non-empty. */
  predicate Truthy(s: Option<string>) {
    s.Some? && s.value != ""
  }

  predicate IsAsciiLetter(c: char) {
    ('a' <= c <= 'z') || ('A' <= c <= 'Z')
  }

  /** Exactly two ASCII letters. */
  predicate IsTwoLetters(s: string) {
    |s| == 2 && IsAsciiLetter(s[0]) && IsAsciiLetter(s[1])
  }

  /** The length JavaScript reports for a string: UTF-16 code units, two
      for every character beyond the Basic Multilingual Plane. */
  function Utf16Length(s: string): (n: nat)
    ensures |s| <= n <= 2 * |s|
    ensures (forall i :: 0 <= i < |s| ==> s[i] as int <= 0xFFFF) ==> n == |s|
  {
    if |s| == 0 then 0 else (if s[0] as int > 0xFFFF then 2 else 1) + Utf16Length(s[1..])
  }

  function LowerChar(c: char): char {
    if 'A' <= c <= 'Z' then (c as int + 32) as char else c
  }

  function Lower(s: string): (r: string)
    ensures |r| == |s|
  {
    seq(|s|, i requires 0 <= i < |s| => LowerChar(s[i]))
  }

  predicate IsLowerCase(s: string) {
    forall i :: 0 <= i < |s| ==> !('A' <= s[i] <= 'Z')
  }

  /** Case-insensitive equality, as a case-insensitive regular expression
      compares a literal. */
  predicate EqualsIgnoreCase(a: string, b: string) {
    Lower(a) == Lower(b)
  }

  predicate StartsWith(s: string, prefix: string) {
    |prefix| <= |s| && s[..|prefix|] == prefix
  }

  /** Whether a string is two letters does not depend on its case. */
  lemma TwoLettersIgnoresCase(s: string)
    ensures IsTwoLetters(s) <==> IsTwoLetters(Lower(s))
  {
    if |s| == 2 {
      assert Lower(s)[0] == LowerChar(s[0]) && Lower(s)[1] == LowerChar(s[1]);
    }
  }

  lemma LowerIsLowerCase(s: string)
    ensures IsLowerCase(Lower(s))
  {
  }

  lemma LowerOfLowerCase(s: string)
    requires IsLowerCase(s)
    ensures Lower(s) == s
  {
  }

  lemma LowerOfConcat(a: string, b: string)
    ensures Lower(a + b) == Lower(a) + Lower(b)
  {
  }

  /** Python's `<=` on `str`: lexicographic by code point, a proper prefix
      ordered first. */
  predicate LexLeq(a: string, b: string)
    decreases |a|
  {
    |a| == 0 || (|b| > 0 && (a[0] < b[0] || (a[0] == b[0] && LexLeq(a[1..], b[1..]))))
  }

  lemma LexLeqTotal(a: string, b: string)
    ensures LexLeq(a, b) || LexLeq(b, a)
    decreases |a|
  {
    if |a| > 0 && |b| > 0 && a[0] == b[0] {
      LexLeqTotal(a[1..], b[1..]);
    }
  }
}
