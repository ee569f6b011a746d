/**
 * Python's per-character string operations used by the backend:
 * `str.strip()`, `str.lower()` and deleting the characters of
 * `string.punctuation` with `str.translate`.
 */
module CharClasses {

  /**
   * Python's `str.isspace()` on one character: the characters `str.strip()`
   * removes when called without an argument.
   */
  predicate IsSpace(c: char)
  {
    || '\t' <= c <= '\r'
    || '\U{1C}' <= c <= ' '
    || c == '\U{85}' || c == '\U{A0}' || c == '\U{1680}'
    || '\U{2000}' <= c <= '\U{200A}'
    || c == '\U{2028}' || c == '\U{2029}' || c == '\U{202F}' || c == '\U{205F}'
    || c == '\U{3000}'
  }

  /** Membership in `string.punctuation`, the 32 ASCII punctuation characters. */
  predicate IsPunctuation(c: char)
  {
    || '!' <= c <= '/'
    || ':' <= c <= '@'
    || '[' <= c <= '`'
    || '{' <= c <= '~'
  }

  /** The upper-case letters whose lower-casing this model covers: ASCII and Latin-1. */
  predicate IsUpper(c: char)
  {
    || 'A' <= c <= 'Z'
    || ('\U{C0}' <= c <= '\U{DE}' && c != '\U{D7}')
  }

  /** `c.lower()` for one character; every covered upper-case letter sits 32 below its lower case. */
  function LowerChar(c: char): (r: char)
    ensures !IsUpper(r)
    ensures IsUpper(c) ==> r as int == c as int + 32
    ensures !IsUpper(c) ==> r == c
    ensures IsPunctuation(r) <==> IsPunctuation(c)
  {
    if IsUpper(c) then (c as int + 32) as char else c
  }

  /**
   * `s.lower()`: the same length, no upper-case letter left, each covered
   * upper-case letter moved up by 32 and every other character kept in place.
   */
  function Lower(s: string): (r: string)
    ensures |r| == |s|
    ensures forall c :: c in r ==> !IsUpper(c)
    ensures forall k | 0 <= k < |s| && IsUpper(s[k]) :: r[k] as int == s[k] as int + 32
    ensures forall k | 0 <= k < |s| && !IsUpper(s[k]) :: r[k] == s[k]
  {
    seq(|s|, k requires 0 <= k < |s| => LowerChar(s[k]))
  }

  /** `s.translate(str.maketrans("", "", string.punctuation))`. */
  function DeletePunctuation(s: string): (r: string)
    ensures |r| <= |s|
    ensures forall c :: c in r <==> c in s && !IsPunctuation(c)
  {
    if s == [] then []
    else if IsPunctuation(s[0]) then DeletePunctuation(s[1..])
    else [s[0]] + DeletePunctuation(s[1..])
  }

  /** Leading part of `str.strip()`: drops the whitespace at the front. */
  function StripLeading(s: string): (r: string)
    ensures |r| <= |s| && r == s[|s| - |r|..]
    ensures r == [] || !IsSpace(r[0])
    ensures forall k :: 0 <= k < |s| - |r| ==> IsSpace(s[k])
  {
    if s != [] && IsSpace(s[0]) then StripLeading(s[1..]) else s
  }

  /** Trailing part of `str.strip()`: drops the whitespace at the end. */
  function StripTrailing(s: string): (r: string)
    ensures |r| <= |s| && r == s[..|r|]
    ensures r == [] || !IsSpace(r[|r| - 1])
    ensures forall k :: |r| <= k < |s| ==> IsSpace(s[k])
  {
    if s != [] && IsSpace(s[|s| - 1]) then StripTrailing(s[..|s| - 1]) else s
  }

  /** `r` is the slice of `s` at `i` and everything around it is whitespace. */
  ghost predicate SpaceFramed(s: string, r: string, i: int)
  {
    && 0 <= i <= |s| - |r| && r == s[i..i + |r|]
    && (forall k :: 0 <= k < i ==> IsSpace(s[k]))
    && (forall k :: i + |r| <= k < |s| ==> IsSpace(s[k]))
  }

  /**
   * `s.strip()`: the slice of `s` left after removing all leading and
   * trailing whitespace; it neither begins nor ends with whitespace.
   */
  function Strip(s: string): (r: string)
    ensures exists i :: SpaceFramed(s, r, i)
    ensures r == [] || (!IsSpace(r[0]) && !IsSpace(r[|r| - 1]))
  {
    var t := StripLeading(s);
    var r := StripTrailing(t);
    StripsFrame(s, t, r);
    assert r != [] ==> r[0] == t[0];
    r
  }

  /** Whitespace dropped from the front and then from the back frames what is left. */
  lemma StripsFrame(s: string, t: string, r: string)
    requires |t| <= |s| && t == s[|s| - |t|..]
    requires forall k :: 0 <= k < |s| - |t| ==> IsSpace(s[k])
    requires |r| <= |t| && r == t[..|r|]
    requires forall k :: |r| <= k < |t| ==> IsSpace(t[k])
    ensures SpaceFramed(s, r, |s| - |t|)
  {
    var i := |s| - |t|;
    assert r == s[i..i + |r|];
    forall k | i + |r| <= k < |s| ensures IsSpace(s[k]) {
      assert s[k] == t[k - i];
    }
  }

  /** A string that neither begins nor ends with whitespace is its own strip. */
  lemma StripUntrimmed(s: string)
    requires s == [] || (!IsSpace(s[0]) && !IsSpace(s[|s| - 1]))
    ensures Strip(s) == s
  {
  }
}
