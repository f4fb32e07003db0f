/** Characters and trimming shared by the contact form and the email pattern.
    ECMAScript's `String.prototype.trim` and the regular-expression class `\s`
    both stand for the same set of characters: WhiteSpace plus LineTerminator.
    IsWs is that set, and both uses below go through it. */
module Text {

  /** WhiteSpace and LineTerminator code points of ECMAScript: tab, line feed,
      vertical tab, form feed, carriage return, space, no-break space, the
      Unicode space separators (U+1680, U+2000 to U+200A, U+202F, U+205F,
      U+3000), line and paragraph separators, and the byte order mark. */
  const WhiteSpace: set<char> := {
    '\t', '\n', '\U{000B}', '\U{000C}', '\r', ' ', '\U{00A0}', '\U{1680}',
    '\U{2000}', '\U{2001}', '\U{2002}', '\U{2003}', '\U{2004}', '\U{2005}',
    '\U{2006}', '\U{2007}', '\U{2008}', '\U{2009}', '\U{200A}',
    '\U{2028}', '\U{2029}', '\U{202F}', '\U{205F}', '\U{3000}', '\U{FEFF}'
  }

  predicate IsWs(c: char)
  {
    c in WhiteSpace
  }

  /** Every character of `s` is white space (vacuously true of ""). */
  ghost predicate AllWs(s: string)
  {
    forall k :: 0 <= k < |s| ==> IsWs(s[k])
  }

  /** `r` is the slice of `s` starting at `a`, and every character of `s`
      outside that slice is white space. */
  ghost predicate TrimmedAt(s: string, a: int, r: string)
  {
    && 0 <= a && a + |r| <= |s| && r == s[a..a + |r|]
    && (forall k :: 0 <= k < a ==> IsWs(s[k]))
    && (forall k :: a + |r| <= k < |s| ==> IsWs(s[k]))
  }

  /** `s` without its leading white space. */
  function TrimStart(s: string): string
  {
    if s == [] || !IsWs(s[0]) then s else TrimStart(s[1..])
  }

  /** `s` without its trailing white space. */
  function TrimEnd(s: string): string
  {
    if s == [] || !IsWs(s[|s| - 1]) then s else TrimEnd(s[..|s| - 1])
  }

  /** TrimStart keeps a suffix of its input, cuts off only white space, and
      what it keeps does not start with white space. */
  lemma {:induction false} TrimStartSpec(s: string)
    ensures |TrimStart(s)| <= |s| && TrimStart(s) == s[|s| - |TrimStart(s)|..]
    ensures forall k :: 0 <= k < |s| - |TrimStart(s)| ==> IsWs(s[k])
    ensures TrimStart(s) == [] || !IsWs(TrimStart(s)[0])
  {
    if s != [] && IsWs(s[0]) {
      TrimStartSpec(s[1..]);
    }
  }

  /** TrimEnd keeps a prefix of its input, cuts off only white space, and
      what it keeps does not end with white space. */
  lemma {:induction false} TrimEndSpec(s: string)
    ensures |TrimEnd(s)| <= |s| && TrimEnd(s) == s[..|TrimEnd(s)|]
    ensures forall k :: |TrimEnd(s)| <= k < |s| ==> IsWs(s[k])
    ensures TrimEnd(s) == [] || !IsWs(TrimEnd(s)[|TrimEnd(s)| - 1])
  {
    if s != [] && IsWs(s[|s| - 1]) {
      TrimEndSpec(s[..|s| - 1]);
    }
  }

  /** `String.prototype.trim`: `s` without its leading and trailing white
      space. What is left neither starts nor ends with white space, and it is
      empty exactly when `s` is all white space. */
  function Trim(s: string): (r: string)
    ensures r == [] || (!IsWs(r[0]) && !IsWs(r[|r| - 1]))
    ensures r == [] <==> AllWs(s)
  {
    TrimStartSpec(s);
    TrimEndSpec(TrimStart(s));
    TrimEnd(TrimStart(s))
  }

  /** What `trim` keeps is one contiguous slice of its input, with only white
      space cut off on either side. */
  lemma TrimIsSlice(s: string)
    ensures exists a :: TrimmedAt(s, a, Trim(s))
  {
    var t := TrimStart(s);
    var r := TrimEnd(t);
    TrimStartSpec(s);
    TrimEndSpec(t);
    var a := |s| - |t|;
    forall k | a + |r| <= k < |s|
      ensures IsWs(s[k])
    {
      assert s[k] == t[k - a];
    }
    assert r == s[a..a + |r|];
    assert TrimmedAt(s, a, Trim(s));
  }
}
