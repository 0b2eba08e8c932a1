/**
 * Byte strings as Go and C see them. A Go string is modelled as a
 * `seq<char>` holding one character per byte.
 */
module Strings {

  /** ASCII white space: the characters `strings.TrimSpace` strips in this model. */
  predicate IsAsciiSpace(c: char) {
    c == ' ' || c == '\t' || c == '\n' || c == '\U{B}' || c == '\U{C}' || c == '\r'
  }

  /**
   * `unicode.IsSpace(rune(b))` for a single byte `b`: the byte is widened to a
   * Latin-1 code point, so NEL (0x85) and NO-BREAK SPACE (0xA0) count as well.
   */
  predicate IsSpaceByte(c: char)
    ensures IsAsciiSpace(c) ==> IsSpaceByte(c)
    ensures IsSpaceByte(c) ==> c as int < 0x100
  {
    IsAsciiSpace(c) || c == '\U{85}' || c == '\U{A0}'
  }

  /**
   * `len(strings.TrimSpace(s)) == 0`: nothing but white space. The empty
   * string is blank, and a blank string that is not empty starts with a
   * space byte.
   */
  predicate IsBlank(s: string)
    ensures s == [] ==> IsBlank(s)
    ensures IsBlank(s) && |s| > 0 ==> IsSpaceByte(s[0])
  {
    forall i :: 0 <= i < |s| ==> IsAsciiSpace(s[i])
  }

  /** `strings.HasPrefix(s, prefix)`. */
  predicate HasPrefix(s: string, prefix: string) {
    |prefix| <= |s| && s[..|prefix|] == prefix
  }

  /** `C.CString(s)`: the bytes of `s` followed by a NUL terminator. */
  function CString(s: string): string {
    s + ['\0']
  }

  /**
   * `C.GoString(p)`: the bytes up to, not including, the first NUL.
   * The result is the longest NUL-free prefix of `cs`.
   */
  function GoString(cs: string): (r: string)
    ensures HasPrefix(cs, r)
    ensures '\0' !in r
    ensures |r| == |cs| || cs[|r|] == '\0'
  {
    if cs == [] || cs[0] == '\0' then [] else [cs[0]] + GoString(cs[1..])
  }

  /** Passing a NUL-free Go string through C and back gives it back unchanged. */
  lemma {:induction false} GoStringOfCString(s: string)
    requires '\0' !in s
    ensures GoString(CString(s)) == s
  {
    if s != [] {
      assert CString(s)[1..] == CString(s[1..]);
      GoStringOfCString(s[1..]);
    }
  }

  /**
   * The trip through C keeps a prefix of `s`: all of it, or the part before
   * a NUL.
   */
  lemma GoStringOfCStringIsPrefix(s: string)
    ensures HasPrefix(s, GoString(CString(s)))
    ensures |GoString(CString(s))| < |s| ==> s[|GoString(CString(s))|] == '\0'
  {
    var cs, r := CString(s), GoString(CString(s));
    assert cs[|s|] == '\0';
    assert |r| < |cs|;
    assert r == cs[..|r|] == s[..|r|];
  }

  /** A string with an embedded NUL comes back cut short at its first NUL. */
  lemma {:induction false} GoStringOfCStringTruncates(s: string, k: nat)
    requires k < |s| && s[k] == '\0' && '\0' !in s[..k]
    ensures GoString(CString(s)) == s[..k]
  {
    if k > 0 {
      assert CString(s)[1..] == CString(s[1..]);
      assert s[1..][..k - 1] == s[..k][1..];
      GoStringOfCStringTruncates(s[1..], k - 1);
    }
  }
}
