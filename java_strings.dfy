/**
 * The few java.lang.String operations the core relies on: trim(), isEmpty(),
 * startsWith(), substring() and toLowerCase(), restricted to ASCII case mapping.
 */
module JavaStrings {

  /** String.trim() removes every leading and trailing character at or below U+0020. */
  predicate IsTrimmable(c: char) {
    c <= ' '
  }

  /** String.startsWith. */
  predicate StartsWith(s: string, prefix: string) {
    prefix <= s
  }

  /** Where trim() starts: every character before this index is trimmable, the one at it is not. */
  function TrimFrom(s: string): (st: nat)
    ensures st <= |s|
    ensures forall i :: 0 <= i < st ==> IsTrimmable(s[i])
    ensures st < |s| ==> !IsTrimmable(s[st])
  {
    if s == [] || !IsTrimmable(s[0]) then 0 else 1 + TrimFrom(s[1..])
  }

  /**
   * Where trim() ends, searching back from the end but not past st: every
   * character from this index on is trimmable, the one before it is not.
   */
  function TrimTo(s: string, st: nat): (len: nat)
    requires st <= |s|
    ensures st <= len <= |s|
    ensures forall i :: len <= i < |s| ==> IsTrimmable(s[i])
    ensures st < len ==> !IsTrimmable(s[len - 1])
  {
    if st == |s| || !IsTrimmable(s[|s| - 1]) then |s| else TrimTo(s[..|s| - 1], st)
  }

  /**
   * String.trim(): the slice s[a..b] that is left once every trimmable
   * character before a and after b is removed, and that neither starts nor
   * ends with a trimmable character.
   */
  function Trim(s: string): (r: string)
    ensures |r| <= |s|
    ensures exists a, b :: 0 <= a <= b <= |s| && r == s[a..b]
                         && (forall i :: 0 <= i < a ==> IsTrimmable(s[i]))
                         && (forall i :: b <= i < |s| ==> IsTrimmable(s[i]))
    ensures r != [] ==> !IsTrimmable(r[0]) && !IsTrimmable(r[|r| - 1])
    ensures r == [] <==> forall i :: 0 <= i < |s| ==> IsTrimmable(s[i])
  {
    var st := TrimFrom(s);
    var len := TrimTo(s, st);
    s[st..len]
  }

  /** A string whose every character is trimmable. */
  predicate IsBlank(s: string) {
    forall i :: 0 <= i < |s| ==> IsTrimmable(s[i])
  }

  /** s.trim().isEmpty() holds exactly for the blank strings. */
  lemma TrimEmptyIffBlank(s: string)
    ensures Trim(s) == [] <==> IsBlank(s)
  {
  }

  /**
   * Character.isWhitespace: the Unicode space, line and paragraph separators
   * other than the no-break spaces U+00A0, U+2007 and U+202F, together with
   * U+0009 to U+000D and U+001C to U+001F.
   */
  predicate IsJavaWhitespace(c: char) {
    || '\U{0009}' <= c <= '\U{000D}'
    || '\U{001C}' <= c <= ' '
    || c == '\U{1680}'
    || '\U{2000}' <= c <= '\U{2006}'
    || '\U{2008}' <= c <= '\U{200A}'
    || c == '\U{2028}' || c == '\U{2029}'
    || c == '\U{205F}' || c == '\U{3000}'
  }

  /** The jjwt helper Strings.hasText: some character is not whitespace. */
  predicate HasText(s: string) {
    exists i :: 0 <= i < |s| && !IsJavaWhitespace(s[i])
  }

  /** Every Java whitespace character at or below U+0020 is trimmable, but trim() also removes control characters that are not whitespace. */
  lemma HasTextAndBlank()
    ensures !HasText("") && IsBlank("")
    ensures !HasText("\U{3000}") && !IsBlank("\U{3000}")
    ensures HasText("\U{0000}") && IsBlank("\U{0000}")
  {
    assert "\U{0000}"[0] == '\U{0000}';
    assert "\U{3000}"[0] == '\U{3000}';
  }

  /** Character.toLowerCase on the ASCII range. */
  function LowerChar(c: char): (d: char)
    ensures 'A' <= c <= 'Z' ==> d as int == c as int + 32
    ensures !('A' <= c <= 'Z') ==> d == c
  {
    if 'A' <= c <= 'Z' then (c as int - 'A' as int + 'a' as int) as char else c
  }

  /** String.toLowerCase(): same length, each upper-case letter moved 32 code points up to its lower-case form, every other character kept. */
  function ToLowerCase(s: string): (r: string)
    ensures |r| == |s|
    ensures forall i :: 0 <= i < |r| ==> !('A' <= r[i] <= 'Z')
    ensures forall i {:trigger r[i], s[i]} :: 0 <= i < |s| && 'A' <= s[i] <= 'Z' ==> r[i] as int == s[i] as int + 32
    ensures forall i {:trigger r[i], s[i]} :: 0 <= i < |s| && !('A' <= s[i] <= 'Z') ==> r[i] == s[i]
    ensures forall i {:trigger r[i], s[i]} :: 0 <= i < |s| ==> (IsTrimmable(r[i]) <==> IsTrimmable(s[i]))
  {
    seq(|s|, i requires 0 <= i < |s| => LowerChar(s[i]))
  }

  /** A string that starts and ends with a non-trimmable character is its own trim. */
  lemma TrimOfTrimmed(s: string)
    requires s != [] ==> !IsTrimmable(s[0]) && !IsTrimmable(s[|s| - 1])
    ensures Trim(s) == s
  {
  }

  /** Lower-casing twice is lower-casing once. */
  lemma ToLowerCaseIdempotent(s: string)
    ensures ToLowerCase(ToLowerCase(s)) == ToLowerCase(s)
  {
  }
}
