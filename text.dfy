/** Python's `str.strip()` with no argument, which every window applies to a typed name. */
module Text {

  /** The characters `str.isspace()` accepts, which `str.strip()` removes: the ASCII
      space, tab, line feed, vertical tab, form feed and carriage return, the four
      information separators U+001C..U+001F, and the Unicode spaces and line breaks. */
  predicate IsSpace(c: char)
  {
    || c == ' ' || '\t' <= c <= '\r' || '\U{1C}' <= c <= '\U{1F}'
    || c == '\U{85}' || c == '\U{A0}' || c == '\U{1680}' || '\U{2000}' <= c <= '\U{200A}'
    || c == '\U{2028}' || c == '\U{2029}' || c == '\U{202F}' || c == '\U{205F}' || c == '\U{3000}'
  }

  /** Neither end of `s` is whitespace (vacuously so for the empty string). */
  predicate IsStripped(s: string)
  {
    s == [] || (!IsSpace(s[0]) && !IsSpace(s[|s| - 1]))
  }

  /** A name as the windows store it: non-empty and already stripped. */
  predicate ValidName(s: string)
  {
    s != [] && IsStripped(s)
  }

  /** `s` without its leading whitespace. */
  function StripStart(s: string): (r: string)
    ensures |r| <= |s| && r == s[|s| - |r|..]
    ensures forall i :: 0 <= i < |s| - |r| ==> IsSpace(s[i])
    ensures r == [] || !IsSpace(r[0])
  {
    if s != [] && IsSpace(s[0]) then
      var r := StripStart(s[1..]);
      assert s[1..][|s| - 1 - |r|..] == s[|s| - |r|..];
      r
    else s
  }

  /** `s` without its trailing whitespace. */
  function StripEnd(s: string): (r: string)
    ensures |r| <= |s| && r == s[..|r|]
    ensures forall i :: |r| <= i < |s| ==> IsSpace(s[i])
    ensures r == [] || !IsSpace(r[|r| - 1])
  {
    if s != [] && IsSpace(s[|s| - 1]) then StripEnd(s[..|s| - 1]) else s
  }

  /** Python's `s.strip()`: `s` without its leading and its trailing whitespace. */
  function Strip(s: string): (r: string)
    ensures IsStripped(r)
    ensures |r| <= |s|
  {
    StripEnd(StripStart(s))
  }

  /** What stripping keeps is the middle of `s`, unchanged: it starts where the leading
      whitespace ends, and everything before and after it is whitespace. */
  lemma StripIsSlice(s: string)
    ensures var i := |s| - |StripStart(s)|;
      && i + |Strip(s)| <= |s|
      && (forall k :: 0 <= k < |Strip(s)| ==> Strip(s)[k] == s[i + k])
      && (forall k :: 0 <= k < i ==> IsSpace(s[k]))
      && (forall k :: i + |Strip(s)| <= k < |s| ==> IsSpace(s[k]))
  {
    var t := StripStart(s);
    var r := StripEnd(t);
    MiddleSlice(s, t, r);
    assert Strip(s) == r;
  }

  /** A prefix r of the suffix t of s is a slice of s, followed in s by what follows it in t. */
  lemma MiddleSlice(s: string, t: string, r: string)
    requires |t| <= |s| && t == s[|s| - |t|..]
    requires |r| <= |t| && r == t[..|r|] && forall k :: |r| <= k < |t| ==> IsSpace(t[k])
    ensures var i := |s| - |t|;
      (forall k :: 0 <= k < |r| ==> r[k] == s[i + k]) && forall k :: i + |r| <= k < |s| ==> IsSpace(s[k])
  {
    var i := |s| - |t|;
    forall k | i + |r| <= k < |s| ensures IsSpace(s[k]) { assert s[k] == t[k - i]; }
    forall k | 0 <= k < |r| ensures r[k] == s[i + k] { assert r[k] == t[k]; }
  }

  /** Stripping leaves nothing exactly when the input is all whitespace. */
  lemma StripEmptyIff(s: string)
    ensures Strip(s) == [] <==> forall k :: 0 <= k < |s| ==> IsSpace(s[k])
  {
    var t := StripStart(s);
    if t != [] {
      assert t[0] == s[|s| - |t|] && !IsSpace(t[0]);
    }
  }

  /** A stripped string is left as it is. */
  lemma {:induction false} StrippedIsFixed(s: string)
    requires IsStripped(s)
    ensures Strip(s) == s
  {
  }

  /** Stripping twice is stripping once, and a non-empty result is a valid name. */
  lemma {:induction false} StripIdempotent(s: string)
    ensures Strip(Strip(s)) == Strip(s)
    ensures Strip(s) != [] ==> ValidName(Strip(s))
  {
    StrippedIsFixed(Strip(s));
  }
}
