/** Character classes and casing. Casing is the ASCII mapping; white space is
    the exact set that .NET's `char.IsWhiteSpace` accepts. */
module Chars {

  import opened Wrappers

  /** `[A-Z]`, and `char.IsUpper` restricted to ASCII. */
  predicate IsUpper(c: char) { 'A' <= c <= 'Z' }

  /** `[a-z]`. */
  predicate IsLower(c: char) { 'a' <= c <= 'z' }

  /** `[0-9]`, which is also what .NET's integer parser calls a digit. */
  predicate IsDigit(c: char) { '0' <= c <= '9' }

  /** `\w` restricted to ASCII: letters, digits and the underscore. */
  predicate IsWordChar(c: char) { IsUpper(c) || IsLower(c) || IsDigit(c) || c == '_' }

  /** `char.IsWhiteSpace`: U+0009..U+000D, U+0020, U+0085, U+00A0 and the
      Unicode space, line and paragraph separators. */
  predicate IsWhiteSpace(c: char)
  {
    || '\t' <= c <= '\r'
    || c == ' ' || c == '\U{85}' || c == '\U{A0}' || c == '\U{1680}'
    || '\U{2000}' <= c <= '\U{200A}'
    || c == '\U{2028}' || c == '\U{2029}' || c == '\U{202F}' || c == '\U{205F}' || c == '\U{3000}'
  }

  /** `char.ToLower` on ASCII letters; every other character is kept. */
  function ToLower(c: char): (r: char)
    ensures IsUpper(c) ==> IsLower(r) && r as int == c as int + 32
    ensures !IsUpper(c) ==> r == c
  {
    if IsUpper(c) then (c as int + 32) as char else c
  }

  /** `char.ToUpper` on ASCII letters; every other character is kept. */
  function ToUpper(c: char): (r: char)
    ensures IsLower(c) ==> IsUpper(r) && r as int == c as int - 32
    ensures !IsLower(c) ==> r == c
  {
    if IsLower(c) then (c as int - 32) as char else c
  }

  /** `string.ToLower`: every character lowered, length kept. */
  function LowerString(s: string): (r: string)
    ensures |r| == |s|
    ensures forall i :: 0 <= i < |s| ==> r[i] == ToLower(s[i])
  {
    seq(|s|, i requires 0 <= i < |s| => ToLower(s[i]))
  }

  /** Every character of `s` is white space (true of the empty string). */
  predicate AllWhiteSpace(s: string) { forall i :: 0 <= i < |s| ==> IsWhiteSpace(s[i]) }

  /** `string.IsNullOrWhiteSpace`. */
  predicate IsNullOrWhiteSpace(str: Option<string>)
  {
    str.None? || AllWhiteSpace(str.value)
  }

  /** Lowering is the identity on white space, so it commutes with padding. */
  lemma {:induction false} LowerStringPadded(a: string, t: string, b: string)
    requires AllWhiteSpace(a) && AllWhiteSpace(b)
    ensures LowerString(a + t + b) == a + LowerString(t) + b
  {
    var x, y := LowerString(a + t + b), a + LowerString(t) + b;
    assert |x| == |y|;
    forall i | 0 <= i < |x| ensures x[i] == y[i] {
      if i < |a| {
        assert (a + t + b)[i] == a[i];
      } else if i < |a| + |t| {
        assert (a + t + b)[i] == t[i - |a|];
      } else {
        assert (a + t + b)[i] == b[i - |a| - |t|];
      }
    }
  }

}
