/**
 * The string operations the sort key needs: ASCII lower-casing (standing in for
 * `String.prototype.toLowerCase`) and JavaScript's `<` on strings, which orders
 * strings lexicographically element by element, a proper prefix first.
 */
module Strings {

  /** Lower-cases one character when it is an ASCII capital. */
  function LowerChar(c: char): (d: char)
    ensures !('A' <= d <= 'Z')
    ensures !('A' <= c <= 'Z') ==> d == c
  {
    if 'A' <= c <= 'Z' then (c as int - 'A' as int + 'a' as int) as char else c
  }

  /** ASCII stand-in for `String.prototype.toLowerCase`. */
  function ToLowerAscii(s: string): string {
    seq(|s|, i requires 0 <= i < |s| => LowerChar(s[i]))
  }

  /** Lower-casing keeps the length, turns each ASCII capital into its own small letter,
      and changes nothing else. */
  lemma ToLowerAsciiSpec(s: string)
    ensures |ToLowerAscii(s)| == |s|
    ensures forall i :: 0 <= i < |s| && 'A' <= s[i] <= 'Z' ==> ToLowerAscii(s)[i] == (s[i] as int + 32) as char
    ensures forall i :: 0 <= i < |s| ==> !('A' <= ToLowerAscii(s)[i] <= 'Z')
    ensures forall i :: 0 <= i < |s| && !('A' <= s[i] <= 'Z') ==> ToLowerAscii(s)[i] == s[i]
  {
  }

  /** `a` and `b` spell the same text up to the case of ASCII letters. */
  predicate SameIgnoringAsciiCase(a: string, b: string) {
    && |a| == |b|
    && forall i :: 0 <= i < |a| ==>
      || a[i] == b[i]
      || ('A' <= a[i] <= 'Z' && b[i] as int == a[i] as int + 32)
      || ('A' <= b[i] <= 'Z' && a[i] as int == b[i] as int + 32)
  }

  /** Two strings lower-case alike exactly when they differ at most in the case of ASCII letters. */
  lemma {:induction false} ToLowerAsciiIgnoresCase(a: string, b: string)
    ensures ToLowerAscii(a) == ToLowerAscii(b) <==> SameIgnoringAsciiCase(a, b)
  {
    ToLowerAsciiSpec(a);
    ToLowerAsciiSpec(b);
    if ToLowerAscii(a) == ToLowerAscii(b) {
      forall i | 0 <= i < |a|
        ensures || a[i] == b[i]
                || ('A' <= a[i] <= 'Z' && b[i] as int == a[i] as int + 32)
                || ('A' <= b[i] <= 'Z' && a[i] as int == b[i] as int + 32)
      {
        assert ToLowerAscii(a)[i] == ToLowerAscii(b)[i];
      }
    }
    if SameIgnoringAsciiCase(a, b) {
      forall i | 0 <= i < |a|
        ensures ToLowerAscii(a)[i] == ToLowerAscii(b)[i]
      {
      }
    }
  }

  /** JavaScript `a < b` on strings. */
  predicate Lt(a: string, b: string)
    decreases |a|
  {
    if |a| == 0 then |b| > 0
    else if |b| == 0 then false
    else if a[0] != b[0] then a[0] < b[0]
    else Lt(a[1..], b[1..])
  }

  lemma {:induction false} LtIrreflexive(a: string)
    ensures !Lt(a, a)
    decreases |a|
  {
    if |a| > 0 { LtIrreflexive(a[1..]); }
  }

  lemma {:induction false} LtAsymmetric(a: string, b: string)
    ensures Lt(a, b) ==> !Lt(b, a)
    decreases |a|
  {
    if |a| > 0 && |b| > 0 && a[0] == b[0] { LtAsymmetric(a[1..], b[1..]); }
  }

  lemma {:induction false} LtTransitive(a: string, b: string, c: string)
    requires Lt(a, b) && Lt(b, c)
    ensures Lt(a, c)
    decreases |a|
  {
    if |a| > 0 && a[0] == b[0] && b[0] == c[0] {
      LtTransitive(a[1..], b[1..], c[1..]);
    }
  }

  /** Any two strings are equal or ordered one way or the other. */
  lemma {:induction false} LtTotal(a: string, b: string)
    ensures a == b || Lt(a, b) || Lt(b, a)
    decreases |a|
  {
    if |a| > 0 && |b| > 0 && a[0] == b[0] {
      LtTotal(a[1..], b[1..]);
      if a[1..] == b[1..] {
        assert a == [a[0]] + a[1..] && b == [b[0]] + b[1..];
      }
    }
  }
}
