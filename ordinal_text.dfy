/**
  The .NET string operations the two windows rely on, restricted to what they
  use: `String.Trim`, `ToLowerInvariant`, and ordinal case-insensitive equality
  (`StringComparison.OrdinalIgnoreCase`, `StringComparer.OrdinalIgnoreCase`).
 */
module OrdinalText {

  /** `Char.IsWhiteSpace`: the control characters TAB..CR, NEL, and the
      members of the Unicode space, line and paragraph separator categories. */
  predicate IsWhiteSpace(c: char) {
    || ('\t' <= c <= '\r')
    || c == ' '
    || c == '\U{85}'
    || c == '\U{A0}'
    || c == '\U{1680}'
    || ('\U{2000}' <= c <= '\U{200A}')
    || c == '\U{2028}'
    || c == '\U{2029}'
    || c == '\U{202F}'
    || c == '\U{205F}'
    || c == '\U{3000}'
  }

  /** Every character of `s` is white space. */
  predicate AllWhiteSpace(s: string) {
    forall k :: 0 <= k < |s| ==> IsWhiteSpace(s[k])
  }

  /** Removes the leading white space. */
  function TrimStart(s: string): (r: string)
    ensures |r| <= |s| && r == s[|s| - |r|..]
    ensures AllWhiteSpace(s[..|s| - |r|])
    ensures r == [] || !IsWhiteSpace(r[0])
  {
    if s != [] && IsWhiteSpace(s[0]) then
      var r := TrimStart(s[1..]);
      assert s[..|s| - |r|] == [s[0]] + s[1..][..|s| - 1 - |r|];
      r
    else s
  }

  /** Removes the trailing white space. */
  function TrimEnd(s: string): (r: string)
    ensures |r| <= |s| && r == s[..|r|]
    ensures AllWhiteSpace(s[|r|..])
    ensures r == [] || !IsWhiteSpace(r[|r| - 1])
  {
    if s != [] && IsWhiteSpace(s[|s| - 1]) then
      var r := TrimEnd(s[..|s| - 1]);
      assert s[|r|..] == s[..|s| - 1][|r|..] + [s[|s| - 1]];
      r
    else s
  }

  /** `String.Trim()`: removes the white space at both ends. */
  function Trim(s: string): (r: string)
    ensures r == [] || (!IsWhiteSpace(r[0]) && !IsWhiteSpace(r[|r| - 1]))
  {
    TrimEnd(TrimStart(s))
  }

  /** What `Trim` removes is white space, and what it keeps is an infix of
      the original. */
  lemma TrimIsInfix(s: string)
    ensures exists i, j :: 0 <= i <= j <= |s| && Trim(s) == s[i..j]
                           && AllWhiteSpace(s[..i]) && AllWhiteSpace(s[j..])
  {
    var t := TrimStart(s);
    var r := TrimEnd(t);
    var i := |s| - |t|;
    var j := i + |r|;
    assert t == s[i..];
    assert r == s[i..j] by { assert r == t[..|r|]; }
    assert s[j..] == t[|r|..];
    assert 0 <= i <= j <= |s| && Trim(s) == s[i..j];
  }

  /** Trimming twice is trimming once. */
  lemma TrimIdempotent(s: string)
    ensures Trim(Trim(s)) == Trim(s)
  {
    var r := Trim(s);
    assert TrimStart(r) == r;
    assert TrimEnd(r) == r;
  }

  /** The invariant-culture upper case of an ASCII letter; other characters unchanged. */
  function UpperAscii(c: char): char {
    if 'a' <= c <= 'z' then (c as int - 32) as char else c
  }

  /** The invariant-culture lower case of an ASCII letter; other characters unchanged. */
  function LowerAscii(c: char): char {
    if 'A' <= c <= 'Z' then (c as int + 32) as char else c
  }

  predicate IsAscii(c: char) {
    c < '\U{80}'
  }

  /** A mapping of single characters to their upper case. Ordinal
      case-insensitive comparison uses the invariant culture's simple upper
      case of each character; a file system compares names through a table
      of its own. Beyond ASCII letters neither is modelled, so each enters
      as a parameter. */
  type CaseMap = char -> char

  /** `upper` upper-cases ASCII letters and keeps every other ASCII
      character, as every case map of the runtime or of NTFS does. */
  predicate AgreesOnAscii(upper: CaseMap) {
    forall c: char :: IsAscii(c) ==> upper(c) == UpperAscii(c)
  }

  /** `s` with every character mapped through `m`. */
  function MapChars(m: CaseMap, s: string): (r: string)
    ensures |r| == |s|
  {
    seq(|s|, i requires 0 <= i < |s| => m(s[i]))
  }

  /** `String.ToLowerInvariant`, for the ASCII text it is applied to: no
      upper-case ASCII letter is left. */
  function ToLowerInvariant(s: string): (r: string)
    ensures |r| == |s|
    ensures forall k :: 0 <= k < |r| ==> !('A' <= r[k] <= 'Z')
  {
    MapChars(LowerAscii, s)
  }

  /** The key under which ordinal case-insensitive comparison sees an ASCII
      string: no lower-case ASCII letter is left. */
  function FoldCase(s: string): (r: string)
    ensures |r| == |s|
    ensures forall k :: 0 <= k < |r| ==> !('a' <= r[k] <= 'z')
  {
    MapChars(UpperAscii, s)
  }

  /** On ASCII text, every case map that agrees on ASCII folds as `FoldCase`
      does. */
  lemma AsciiFoldIsExact(upper: CaseMap, s: string)
    requires AgreesOnAscii(upper)
    requires forall k :: 0 <= k < |s| ==> IsAscii(s[k])
    ensures MapChars(upper, s) == FoldCase(s)
  {
    assert forall k :: 0 <= k < |s| ==> MapChars(upper, s)[k] == FoldCase(s)[k];
  }

  /** `String.Equals(a, b, StringComparison.OrdinalIgnoreCase)` with the
      runtime's case map `upper`. */
  predicate EqualsIgnoreCase(upper: CaseMap, a: string, b: string) {
    MapChars(upper, a) == MapChars(upper, b)
  }

  /** Ordinal case-insensitive equality relates equal lengths, character by
      character, and is implied by plain equality. */
  lemma EqualsIgnoreCaseMeaning(upper: CaseMap, a: string, b: string)
    ensures EqualsIgnoreCase(upper, a, b) <==>
              |a| == |b| && forall k :: 0 <= k < |a| ==> upper(a[k]) == upper(b[k])
    ensures a == b ==> EqualsIgnoreCase(upper, a, b)
  {
    if |a| == |b| && forall k :: 0 <= k < |a| ==> upper(a[k]) == upper(b[k]) {
      assert forall k :: 0 <= k < |a| ==> MapChars(upper, a)[k] == MapChars(upper, b)[k];
    }
    if EqualsIgnoreCase(upper, a, b) {
      forall k | 0 <= k < |a| ensures upper(a[k]) == upper(b[k]) {
        assert MapChars(upper, a)[k] == MapChars(upper, b)[k];
      }
    }
  }
}
