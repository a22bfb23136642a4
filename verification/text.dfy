/**
  JavaScript's `String.prototype.trim`, which the schemas' `trim: true`
  option applies to a string field before it is validated and stored.
 */
module Text {

  /** The code points `trim` removes: ECMAScript WhiteSpace (tab, vertical
      tab, form feed, space, no-break space, byte-order mark and the space
      separators U+1680, U+2000 to U+200A, U+202F, U+205F, U+3000) and
      LineTerminator (LF, CR, LS, PS). */
  const WhitespaceChars: set<char> :=
    {'\t', '\n', '\U{000B}', '\U{000C}', '\r', ' ', '\U{00A0}', '\U{1680}',
     '\U{2000}', '\U{2001}', '\U{2002}', '\U{2003}', '\U{2004}', '\U{2005}',
     '\U{2006}', '\U{2007}', '\U{2008}', '\U{2009}', '\U{200A}',
     '\U{2028}', '\U{2029}', '\U{202F}', '\U{205F}', '\U{3000}', '\U{FEFF}'}

  predicate IsWhitespace(c: char) {
    c in WhitespaceChars
  }

  /** Neither starts nor ends with whitespace. */
  predicate Trimmed(s: string) {
    s == [] || (!IsWhitespace(s[0]) && !IsWhitespace(s[|s| - 1]))
  }

  predicate AllWhitespace(s: string) {
    forall i :: 0 <= i < |s| ==> IsWhitespace(s[i])
  }

  /** How many whitespace characters `s` starts with. */
  function LeadingWhitespace(s: string): (n: nat)
    ensures n <= |s|
    ensures forall k :: 0 <= k < n ==> IsWhitespace(s[k])
    ensures n < |s| ==> !IsWhitespace(s[n])
  {
    if s != [] && IsWhitespace(s[0]) then 1 + LeadingWhitespace(s[1..]) else 0
  }

  /** How many whitespace characters `s` ends with. */
  function TrailingWhitespace(s: string): (n: nat)
    ensures n <= |s|
    ensures forall k :: |s| - n <= k < |s| ==> IsWhitespace(s[k])
    ensures n < |s| ==> !IsWhitespace(s[|s| - 1 - n])
  {
    if s != [] && IsWhitespace(s[|s| - 1]) then 1 + TrailingWhitespace(s[..|s| - 1]) else 0
  }

  /** Where the trimmed value ends: after the last character that is not
      whitespace, or at the end when there is none. */
  function TrimEndIndex(s: string): (j: nat)
    ensures LeadingWhitespace(s) <= j <= |s|
    ensures forall k :: j <= k < |s| ==> IsWhitespace(s[k])
    ensures LeadingWhitespace(s) < j ==> !IsWhitespace(s[j - 1])
  {
    var i := LeadingWhitespace(s);
    if i == |s| then |s|
    else
      assert !IsWhitespace(s[i]);
      |s| - TrailingWhitespace(s)
  }

  /** `s.trim()`: the longest infix of `s` that neither starts nor ends with
      whitespace, cut out of a whitespace-only prefix and suffix. */
  function Trim(s: string): (r: string)
    ensures exists i, j :: 0 <= i <= j <= |s| && r == s[i..j]
                        && AllWhitespace(s[..i]) && AllWhitespace(s[j..])
    ensures Trimmed(r)
  {
    var i, j := LeadingWhitespace(s), TrimEndIndex(s);
    assert AllWhitespace(s[..i]) && AllWhitespace(s[j..]);
    s[i..j]
  }

  /** A trimmed string is blank exactly when the original was all whitespace. */
  lemma TrimEmptyIff(s: string)
    ensures Trim(s) == [] <==> AllWhitespace(s)
  {
  }

  /** Trimming twice changes nothing more than trimming once: the value the
      schema stores is already in trimmed form. */
  lemma TrimIdempotent(s: string)
    ensures Trim(Trim(s)) == Trim(s)
  {
    TrimmedIsFixed(Trim(s));
  }

  /** A string that neither starts nor ends with whitespace is its own trim. */
  lemma TrimmedIsFixed(s: string)
    requires Trimmed(s)
    ensures Trim(s) == s
  {
    if s != [] {
      assert LeadingWhitespace(s) == 0;
      assert TrailingWhitespace(s) == 0;
    }
  }
}
