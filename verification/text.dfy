/** ASCII models of the java.lang.String operations the lineup code relies on:
    toUpperCase, equalsIgnoreCase and trim. */
module Text {

  /** Upper-cases an ASCII letter and leaves every other character alone. */
  function UpperChar(c: char): char
  {
    if 'a' <= c <= 'z' then (c as int - 32) as char else c
  }

  /** toUpperCase restricted to ASCII case folding. */
  function Upper(s: string): (r: string)
    ensures |r| == |s|
    ensures forall i :: 0 <= i < |s| ==> r[i] == UpperChar(s[i])
  {
    seq(|s|, i requires 0 <= i < |s| => UpperChar(s[i]))
  }

  /** equalsIgnoreCase: same length and the same characters after folding. */
  predicate EqualsIgnoreCase(a: string, b: string)
  {
    Upper(a) == Upper(b)
  }

  /** Folding twice is folding once, and no lower-case ASCII letter survives it. */
  lemma UpperIdempotent(s: string)
    ensures Upper(Upper(s)) == Upper(s)
    ensures forall i :: 0 <= i < |s| ==> !('a' <= Upper(s)[i] <= 'z')
  {
  }

  /** trim() removes every leading and trailing character at or below U+0020. */
  predicate IsPadding(c: char)
  {
    c <= ' '
  }

  /** The number of leading padding characters. */
  function LeadingPadding(s: string): (n: nat)
    ensures n <= |s|
    ensures forall i :: 0 <= i < n ==> IsPadding(s[i])
    ensures n == |s| || !IsPadding(s[n])
  {
    if |s| > 0 && IsPadding(s[0]) then 1 + LeadingPadding(s[1..]) else 0
  }

  /** Where the text ends once trailing padding is dropped, never before `lo`. */
  function UnpaddedEnd(s: string, lo: nat): (n: nat)
    requires lo <= |s|
    ensures lo <= n <= |s|
    ensures forall i :: n <= i < |s| ==> IsPadding(s[i])
    ensures n == lo || !IsPadding(s[n - 1])
    decreases |s| - lo
  {
    if |s| > lo && IsPadding(s[|s| - 1]) then UnpaddedEnd(s[..|s| - 1], lo) else |s|
  }

  function Trim(s: string): (r: string)
    ensures |r| <= |s|
    ensures r == [] || (!IsPadding(r[0]) && !IsPadding(r[|r| - 1]))
  {
    var lo := LeadingPadding(s);
    s[lo..UnpaddedEnd(s, lo)]
  }

  /** The trimmed text neither starts nor ends with padding, and only padding
      was cut from either side. */
  lemma TrimShape(s: string)
    ensures var t := Trim(s); t == [] || (!IsPadding(t[0]) && !IsPadding(t[|t| - 1]))
    ensures exists lo, hi :: 0 <= lo <= hi <= |s| && Trim(s) == s[lo..hi]
                             && (forall i :: 0 <= i < lo ==> IsPadding(s[i]))
                             && (forall i :: hi <= i < |s| ==> IsPadding(s[i]))
  {
    var lo := LeadingPadding(s);
    var hi := UnpaddedEnd(s, lo);
    assert Trim(s) == s[lo..hi];
  }

  /** A string that neither starts nor ends with padding is its own trim. */
  lemma TrimUnpadded(s: string)
    requires s == [] || (!IsPadding(s[0]) && !IsPadding(s[|s| - 1]))
    ensures Trim(s) == s
  {
  }

  /** Trimming twice is trimming once. */
  lemma TrimIdempotent(s: string)
    ensures Trim(Trim(s)) == Trim(s)
  {
    TrimShape(s);
    TrimUnpadded(Trim(s));
  }
}
