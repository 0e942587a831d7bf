/**
 * C strings as the library sees them: a string value never holds a NUL
 * byte, and a buffer holds a string s when its first |s| bytes are s and
 * the next one is the terminator. Also the <ctype.h> classes of the "C"
 * locale and the <stdlib.h>/<string.h> helpers the library calls.
 */
module CString {

  /** A C string: no NUL byte inside. */
  predicate NoNul(s: string)
  {
    '\0' !in s
  }

  /** The buffer a holds the NUL-terminated string s from index i on. */
  ghost predicate HoldsAt(a: array<char>, i: nat, s: string)
    reads a
  {
    NoNul(s) && i + |s| < a.Length && a[i..i + |s|] == s && a[i + |s|] == '\0'
  }

  /** The buffer a holds the NUL-terminated string s from index 0. */
  ghost predicate Holds(a: array<char>, s: string)
    reads a
  {
    HoldsAt(a, 0, s)
  }

  /** strcat: a buffer holding p, then q from where p ends, holds p + q. */
  lemma HoldsConcat(a: array<char>, p: string, q: string)
    requires NoNul(p) && |p| <= a.Length && a[..|p|] == p && HoldsAt(a, |p|, q)
    ensures Holds(a, p + q)
  {
    assert a[0..0 + |p + q|] == a[..|p|] + a[|p|..|p| + |q|];
  }

  /** strlen(a + i): the number of bytes from index i up to the terminator. */
  method StrLen(a: array<char>, i: nat, ghost s: string) returns (n: nat)
    requires HoldsAt(a, i, s)
    ensures n == |s|
  {
    n := 0;
    while a[i + n] != '\0'
      invariant n <= |s|
      decreases |s| - n
    {
      assert a[i + n] == s[n];
      n := n + 1;
    }
  }

  /** s[i], reading the terminator (and, past it, NUL bytes) beyond the end. */
  function At(s: string, i: nat): char
  {
    if i < |s| then s[i] else '\0'
  }

  /** The string that starts i bytes into s (pointer arithmetic `s + i`), empty past the end. */
  function Drop(s: string, i: nat): (t: string)
    ensures |t| == if i <= |s| then |s| - i else 0
  {
    if i <= |s| then s[i..] else []
  }

  /** isspace in the "C" locale: blank, or tab, newline, vertical tab, form feed, carriage return. */
  predicate IsSpace(c: char)
  {
    c == ' ' || '\t' <= c <= '\r'
  }

  /** isdigit. */
  predicate IsDigit(c: char)
  {
    '0' <= c <= '9'
  }

  /** isalpha in the "C" locale. */
  predicate IsAlpha(c: char)
  {
    ('a' <= c <= 'z') || ('A' <= c <= 'Z')
  }

  /** isalnum in the "C" locale. */
  predicate IsAlnum(c: char)
  {
    IsAlpha(c) || IsDigit(c)
  }

  /** strchr(s, c) + 1: the text after the first c in s, or "" when s has none. */
  function AfterFirst(s: string, c: char): string
    decreases |s|
  {
    if s == [] then []
    else if s[0] == c then s[1..]
    else AfterFirst(s[1..], c)
  }

  /** strchr finds the first c: text before it that holds no c is skipped whole. */
  lemma {:induction false} AfterFirstSkips(x: string, c: char, v: string)
    requires c !in x
    ensures AfterFirst(x + [c] + v, c) == v
    decreases |x|
  {
    var s := x + [c] + v;
    if x == [] {
      assert s == [c] + v;
    } else {
      assert s[0] == x[0] && s[1..] == x[1..] + [c] + v;
      AfterFirstSkips(x[1..], c, v);
    }
  }

  /**
   * atoi: leading white space, an optional sign, then the longest run of
   * decimal digits; 0 when there are none. The result is not bounded to
   * the width of int.
   */
  function Atoi(s: string): int
    decreases |s|
  {
    if s == [] then 0
    else if IsSpace(s[0]) then Atoi(s[1..])
    else if s[0] == '-' then -(DigitsValue(s[1..], 0) as int)
    else if s[0] == '+' then DigitsValue(s[1..], 0)
    else DigitsValue(s, 0)
  }

  /** The value of the leading decimal digits of s, appended to acc. */
  function DigitsValue(s: string, acc: nat): nat
    decreases |s|
  {
    if s != [] && IsDigit(s[0]) then DigitsValue(s[1..], acc * 10 + (s[0] - '0') as nat)
    else acc
  }
}
