/**
 * spl_str_clean of spl_str.h: trims the white space (the isspace class) at
 * both ends of a C string in place, by moving the start forward and
 * writing a terminator after the last other byte.
 */
module SplStr {
  import opened CString

  /** The length of the run of white space that starts s. */
  function LeadingSpaces(s: string): (n: nat)
    ensures n <= |s|
    ensures forall j :: 0 <= j < n ==> IsSpace(s[j])
    ensures n < |s| ==> !IsSpace(s[n])
    decreases |s|
  {
    if s != [] && IsSpace(s[0]) then 1 + LeadingSpaces(s[1..]) else 0
  }

  /** The index just past the last byte of s that is not white space (0 when there is none). */
  function TrailingEnd(s: string): (e: nat)
    ensures e <= |s|
    ensures forall j :: e <= j < |s| ==> IsSpace(s[j])
    ensures e > 0 ==> !IsSpace(s[e - 1])
    decreases |s|
  {
    if s != [] && IsSpace(s[|s| - 1]) then TrailingEnd(s[..|s| - 1]) else |s|
  }

  /** s holds a byte that is not white space. */
  predicate HasText(s: string)
  {
    exists j :: 0 <= j < |s| && !IsSpace(s[j])
  }

  /** Every byte of s is white space. */
  predicate AllSpace(s: string)
  {
    forall j :: 0 <= j < |s| ==> IsSpace(s[j])
  }

  /** s neither starts nor ends with white space. */
  predicate Trimmed(s: string)
  {
    s == [] || (!IsSpace(s[0]) && !IsSpace(s[|s| - 1]))
  }

  /**
   * The text spl_str_clean leaves: s from its first to its last byte that
   * is not white space, or "" when s is all white space.
   */
  function Trim(s: string): (t: string)
    ensures |t| <= |s|
    ensures Trimmed(t)
    ensures t == [] <==> !HasText(s)
  {
    var i, e := LeadingSpaces(s), TrailingEnd(s);
    if i < |s| then
      assert i < e;
      s[i..e]
    else
      assert !HasText(s) by {
        assert forall j :: 0 <= j < |s| ==> IsSpace(s[j]);
      }
      []
  }

  /**
   * Trim takes off white space only: s is white space, then Trim(s), then
   * white space.
   */
  lemma TrimSplits(s: string)
    ensures var i, t := LeadingSpaces(s), Trim(s);
      && i + |t| <= |s|
      && AllSpace(s[..i]) && s[i..i + |t|] == t && AllSpace(s[i + |t|..])
  {
    var i, e := LeadingSpaces(s), TrailingEnd(s);
    LeadIsSpace(s);
    if i < |s| {
      assert i < e;
      TailIsSpace(s);
    } else {
      assert s[i..] == [];
    }
  }

  lemma LeadIsSpace(s: string)
    ensures AllSpace(s[..LeadingSpaces(s)])
  {
    var i := LeadingSpaces(s);
    forall j | 0 <= j < i ensures IsSpace(s[..i][j]) {
      assert s[..i][j] == s[j];
    }
  }

  lemma TailIsSpace(s: string)
    ensures AllSpace(s[TrailingEnd(s)..])
  {
    var e := TrailingEnd(s);
    forall j | 0 <= j < |s| - e ensures IsSpace(s[e..][j]) {
      assert s[e..][j] == s[e + j];
    }
  }

  /**
   * White space, then a trimmed text, then white space: Trim finds exactly
   * that text. With TrimSplits this pins Trim down completely.
   */
  lemma TrimUnique(p: string, t: string, q: string)
    requires AllSpace(p) && AllSpace(q) && Trimmed(t)
    ensures Trim(p + t + q) == t
  {
    var s := p + t + q;
    var i, e := LeadingSpaces(s), TrailingEnd(s);
    if t == [] {
      assert s == p + q;
      SpaceConcat(p, q);
    } else {
      assert s[|p|] == t[0];
      assert s[|p| + |t| - 1] == t[|t| - 1];
      assert i == |p|;
      assert e == |p| + |t|;
      assert s[i..e] == t;
    }
  }

  /** White space after white space is white space, and holds no text. */
  lemma SpaceConcat(p: string, q: string)
    requires AllSpace(p) && AllSpace(q)
    ensures AllSpace(p + q) && !HasText(p + q)
  {
    var s := p + q;
    forall j | 0 <= j < |s|
      ensures IsSpace(s[j])
    {
      if j < |p| { assert s[j] == p[j]; } else { assert s[j] == q[j - |p|]; }
    }
  }

  /** Trimming a trimmed string gives it back. */
  lemma TrimIdempotent(s: string)
    ensures Trim(Trim(s)) == Trim(s)
  {
    var t := Trim(s);
    assert [] + t + [] == t;
    TrimUnique([], t, []);
  }

  /**
   * The trailing loop of spl_str_clean as written: from index i of the
   * buffer, step back over white space. It stops at the last byte before
   * i + 1 that is not white space, or at -1 when it has left the buffer
   * without finding one; the loop has no lower bound of its own. Clean
   * runs the same loop as LastText, on input where it stays in bounds;
   * ScanBack is the loop on every input, for the blank-input finding.
   */
  function ScanBack(buf: string, i: int): (j: int)
    requires -1 <= i < |buf|
    ensures -1 <= j <= i
    ensures j >= 0 ==> !IsSpace(buf[j])
    ensures forall k :: j < k <= i ==> IsSpace(buf[k])
    decreases i + 1
  {
    if i < 0 then i
    else if IsSpace(buf[i]) then ScanBack(buf, i - 1)
    else i
  }

  /** On text with a byte that is not white space, the trailing loop stops just before the trimmed end. */
  lemma ScanBackFindsEnd(s: string)
    requires HasText(s)
    ensures ScanBack(s + ['\0'], |s| - 1) == TrailingEnd(s) - 1
  {
    var buf := s + ['\0'];
    var j, e := ScanBack(buf, |s| - 1), TrailingEnd(s);
    assert e > 0;
    assert buf[e - 1] == s[e - 1];
    if j >= 0 {
      assert buf[j] == s[j];
    }
  }

  /**
   * On a string that is all white space (the empty string included) the
   * trailing loop runs off the front of the buffer: it reads index -1.
   */
  lemma ScanBackLeavesBlank(s: string)
    requires AllSpace(s)
    ensures ScanBack(s + ['\0'], |s| - 1) == -1
  {
    var buf := s + ['\0'];
    assert buf[..|s|] == s;
  }

  /** The leading loop of spl_str_clean: the index of the first byte that is not white space. */
  method SkipSpace(a: array<char>, ghost s: string) returns (start: nat)
    requires Holds(a, s) && HasText(s)
    ensures start == LeadingSpaces(s) < |s|
  {
    ghost var lead := LeadingSpaces(s);
    start := 0;
    while IsSpace(a[start])
      invariant start <= lead < |s|
      decreases lead - start
    {
      assert a[start] == s[start];
      start := start + 1;
    }
  }

  /**
   * The trailing loop of spl_str_clean, once the start is known: the index
   * of the last byte that is not white space.
   */
  method LastText(a: array<char>, start: nat, ghost s: string) returns (i: nat)
    requires Holds(a, s) && HasText(s) && start == LeadingSpaces(s)
    ensures i + 1 == TrailingEnd(s)
  {
    ghost var end := TrailingEnd(s);
    assert start < end;
    assert a[start..start + (|s| - start)] == s[start..];
    var n := StrLen(a, start, s[start..]);
    var j: int := start + n - 1;
    while IsSpace(a[j])
      invariant end - 1 <= j < |s|
      decreases j
    {
      assert a[j] == s[j];
      j := j - 1;
    }
    i := j;
  }

  /**
   * spl_str_clean on the C string s held in a: returns the index of the
   * first byte that is not white space, and writes a terminator after the
   * last one, which is the only byte written. The C code reads before the
   * string when it is all white space, so such input is excluded.
   */
  method Clean(a: array<char>, ghost s: string) returns (start: nat)
    requires Holds(a, s) && HasText(s)
    modifies a
    ensures start == LeadingSpaces(s)
    ensures HoldsAt(a, start, Trim(s))
    ensures a[..] == old(a[..])[start + |Trim(s)| := '\0']
  {
    ghost var before := a[..];
    start := SkipSpace(a, s);
    var i := LastText(a, start, s);
    a[i + 1] := '\0';
    assert a[..] == before[i + 1 := '\0'];
    assert Trim(s) == s[start..i + 1] == before[start..i + 1];
    assert a[start..i + 1] == before[start..i + 1];
  }
}
