/** The "Convert Type" region of `StringExtensions`: strict string-to-value
    conversions that either produce the value or throw an
    `ArgumentException` with the message "{value} is not valid.". */
module ConvertType {

  import opened Wrappers
  import opened Chars

  // ---------------------------------------------------------------------
  // String.Trim
  // ---------------------------------------------------------------------

  /** The index of the first non-white character at or after `i`. */
  function SkipWhiteSpace(s: string, i: nat): (j: nat)
    requires i <= |s|
    ensures i <= j <= |s|
    ensures forall k :: i <= k < j ==> IsWhiteSpace(s[k])
    ensures j == |s| || !IsWhiteSpace(s[j])
    decreases |s| - i
  {
    if i == |s| || !IsWhiteSpace(s[i]) then i else SkipWhiteSpace(s, i + 1)
  }

  /** The index just past the last non-white character in `s[lo..j]`, or `lo`. */
  function SkipWhiteSpaceBack(s: string, lo: nat, j: nat): (k: nat)
    requires lo <= j <= |s|
    ensures lo <= k <= j
    ensures forall m :: k <= m < j ==> IsWhiteSpace(s[m])
    ensures k == lo || !IsWhiteSpace(s[k - 1])
    decreases j
  {
    if j == lo || !IsWhiteSpace(s[j - 1]) then j else SkipWhiteSpaceBack(s, lo, j - 1)
  }

  lemma SkipWhiteSpaceIs(s: string, i: nat, j: nat)
    requires i <= j <= |s|
    requires forall k :: i <= k < j ==> IsWhiteSpace(s[k])
    requires j == |s| || !IsWhiteSpace(s[j])
    ensures SkipWhiteSpace(s, i) == j
    decreases j - i
  {
    if i < j { SkipWhiteSpaceIs(s, i + 1, j); }
  }

  lemma SkipWhiteSpaceBackIs(s: string, lo: nat, j: nat, k: nat)
    requires lo <= k <= j <= |s|
    requires forall m :: k <= m < j ==> IsWhiteSpace(s[m])
    requires k == lo || !IsWhiteSpace(s[k - 1])
    ensures SkipWhiteSpaceBack(s, lo, j) == k
    decreases j - k
  {
    if k < j { SkipWhiteSpaceBackIs(s, lo, j - 1, k); }
  }

  /** Neither end of `t` is white space. */
  predicate Unpadded(t: string)
  {
    t == [] || (!IsWhiteSpace(t[0]) && !IsWhiteSpace(t[|t| - 1]))
  }

  /** `string.Trim()`: drop the white space at both ends. */
  function Trim(s: string): (r: string)
    ensures Unpadded(r)
    ensures |r| <= |s|
  {
    var i := SkipWhiteSpace(s, 0);
    s[i..SkipWhiteSpaceBack(s, i, |s|)]
  }

  /** Trimming removes exactly the white padding around an unpadded core. */
  lemma TrimPadded(a: string, t: string, b: string)
    requires AllWhiteSpace(a) && AllWhiteSpace(b) && Unpadded(t)
    ensures Trim(a + t + b) == t
  {
    var s := a + t + b;
    assert forall k :: 0 <= k < |a| ==> s[k] == a[k];
    assert forall k :: |a| <= k < |a| + |t| ==> s[k] == t[k - |a|];
    assert forall k :: |a| + |t| <= k < |s| ==> s[k] == b[k - |a| - |t|];
    if t == [] {
      SkipWhiteSpaceIs(s, 0, |s|);
    } else {
      SkipWhiteSpaceIs(s, 0, |a|);
      SkipWhiteSpaceBackIs(s, |a|, |s|, |a| + |t|);
      assert s[|a|..|a| + |t|] == t;
    }
  }

  // ---------------------------------------------------------------------
  // ToBoolean
  // ---------------------------------------------------------------------

  /** The tokens read as `true`. */
  const TrueTokens: set<string> := {"true", "t", "yes", "y"}

  /** The tokens read as `false`. */
  const FalseTokens: set<string> := {"false", "f", "no", "n"}

  /** `ToBoolean`: blank input fails; otherwise the lowered, trimmed text is
      looked up in the token table, and any other text fails. */
  function ToBoolean(value: string): (r: Result<bool, Error>)
    ensures r.Err? ==> r.error == NotValid(value)
  {
    if IsNullOrWhiteSpace(Some(value)) then Err(NotValid(value))
    else
      var val := Trim(LowerString(value));
      if val in FalseTokens then Ok(false)
      else if val in TrueTokens then Ok(true)
      else Err(NotValid(value))
  }

  /** A string of white space trims to nothing. */
  lemma TrimWhiteSpace(s: string)
    requires AllWhiteSpace(s)
    ensures Trim(s) == ""
  {
    TrimPadded(s, "", "");
    assert s + "" + "" == s;
  }

  /** Every token is non-empty, starts and ends with a letter, and is read
      as one truth value only. */
  lemma TokenShape(t: string)
    requires t in TrueTokens + FalseTokens
    ensures t != [] && Unpadded(t)
    ensures t in FalseTokens <==> t !in TrueTokens
  {
  }

  /** Non-blank input whose lowered, trimmed text is a token converts to it. */
  lemma ToBooleanOfToken(value: string, t: string)
    requires !AllWhiteSpace(value) && Trim(LowerString(value)) == t
    requires t in TrueTokens + FalseTokens
    ensures ToBoolean(value) == Ok(t in TrueTokens)
  {
    TokenShape(t);
  }

  /** `ToBoolean` answers `true` exactly on the true-tokens, `false` exactly on
      the false-tokens (after lowering and trimming), and otherwise fails with
      "{value} is not valid." for parameter `value`. */
  lemma ToBooleanTokens(value: string)
    ensures ToBoolean(value) == Ok(true) <==> Trim(LowerString(value)) in TrueTokens
    ensures ToBoolean(value) == Ok(false) <==> Trim(LowerString(value)) in FalseTokens
    ensures ToBoolean(value).Err? <==> Trim(LowerString(value)) !in TrueTokens + FalseTokens
    ensures ToBoolean(value).Err? ==> ToBoolean(value).error == ArgumentException(value + " is not valid.", "value")
  {
    var t := Trim(LowerString(value));
    if AllWhiteSpace(value) {
      assert AllWhiteSpace(LowerString(value));
      TrimWhiteSpace(LowerString(value));
      assert t !in TrueTokens + FalseTokens;
      assert ToBoolean(value) == Err(NotValid(value));
    } else if t in TrueTokens + FalseTokens {
      TokenShape(t);
      ToBooleanOfToken(value, t);
    } else {
      assert ToBoolean(value) == Err(NotValid(value));
    }
  }

  /** Padding around text whose lowered form starts with a non-white
      character is not blank. */
  lemma PaddedNotBlank(a: string, token: string, b: string)
    requires LowerString(token) != [] && !IsWhiteSpace(LowerString(token)[0])
    ensures !AllWhiteSpace(a + token + b)
  {
    assert (a + token + b)[|a|] == token[0];
    assert LowerString(token)[0] == ToLower(token[0]);
  }

  /** Any letter case of a token, with any white space around it, converts. */
  lemma ToBooleanPadded(a: string, token: string, b: string)
    requires AllWhiteSpace(a) && AllWhiteSpace(b)
    requires LowerString(token) in TrueTokens + FalseTokens
    ensures ToBoolean(a + token + b) == Ok(LowerString(token) in TrueTokens)
  {
    var t := LowerString(token);
    TokenShape(t);
    LowerStringPadded(a, token, b);
    TrimPadded(a, t, b);
    PaddedNotBlank(a, token, b);
    ToBooleanOfToken(a + token + b, t);
  }

  // ---------------------------------------------------------------------
  // ToShort / ToInt / ToLong: `TryParse` with NumberStyles.Integer
  // ---------------------------------------------------------------------

  /** White space accepted around a number: U+0009..U+000D and U+0020. */
  predicate IsNumberWhite(c: char) { c == ' ' || '\t' <= c <= '\r' }

  predicate AllDigits(s: string) { forall i :: 0 <= i < |s| ==> IsDigit(s[i]) }

  /** The index of the first character at or after `i` that is not number white space. */
  function SkipNumberWhite(s: string, i: nat): (j: nat)
    requires i <= |s|
    ensures i <= j <= |s|
    ensures forall k :: i <= k < j ==> IsNumberWhite(s[k])
    ensures j == |s| || !IsNumberWhite(s[j])
    decreases |s| - i
  {
    if i == |s| || !IsNumberWhite(s[i]) then i else SkipNumberWhite(s, i + 1)
  }

  /** The index of the first non-digit at or after `i`. */
  function SkipDigits(s: string, i: nat): (j: nat)
    requires i <= |s|
    ensures i <= j <= |s|
    ensures forall k :: i <= k < j ==> IsDigit(s[k])
    ensures j == |s| || !IsDigit(s[j])
    decreases |s| - i
  {
    if i == |s| || !IsDigit(s[i]) then i else SkipDigits(s, i + 1)
  }

  /** The index of the first character at or after `i` that is not '\0'. */
  function SkipNul(s: string, i: nat): (j: nat)
    requires i <= |s|
    ensures i <= j <= |s|
    ensures forall k :: i <= k < j ==> s[k] == '\0'
    ensures j == |s| || s[j] != '\0'
    decreases |s| - i
  {
    if i == |s| || s[i] != '\0' then i else SkipNul(s, i + 1)
  }

  lemma SkipNumberWhiteIs(s: string, i: nat, j: nat)
    requires i <= j <= |s|
    requires forall k :: i <= k < j ==> IsNumberWhite(s[k])
    requires j == |s| || !IsNumberWhite(s[j])
    ensures SkipNumberWhite(s, i) == j
    decreases j - i
  {
    if i < j { SkipNumberWhiteIs(s, i + 1, j); }
  }

  lemma SkipDigitsIs(s: string, i: nat, j: nat)
    requires i <= j <= |s|
    requires forall k :: i <= k < j ==> IsDigit(s[k])
    requires j == |s| || !IsDigit(s[j])
    ensures SkipDigits(s, i) == j
    decreases j - i
  {
    if i < j { SkipDigitsIs(s, i + 1, j); }
  }

  lemma SkipNulIs(s: string, i: nat, j: nat)
    requires i <= j <= |s|
    requires forall k :: i <= k < j ==> s[k] == '\0'
    requires j == |s| || s[j] != '\0'
    ensures SkipNul(s, i) == j
    decreases j - i
  {
    if i < j { SkipNulIs(s, i + 1, j); }
  }

  function DigitValue(c: char): (d: nat)
    requires IsDigit(c)
    ensures d < 10
  {
    c as int - '0' as int
  }

  /** The number a string of decimal digits denotes (leading zeros allowed). */
  function DecimalValue(ds: string): nat
    requires AllDigits(ds)
  {
    if ds == [] then 0 else DecimalValue(ds[..|ds| - 1]) * 10 + DigitValue(ds[|ds| - 1])
  }

  /** `TryParse(value, NumberStyles.Integer, invariant culture)` for the signed
      range [min, max]: optional white space, an optional '+' or '-', one or
      more digits, optional white space, then only '\0' characters.
      Out-of-range values (however many digits) fail. */
  function ParseInteger(s: string, min: int, max: int): (r: Option<int>)
    ensures r.Some? ==> min <= r.value <= max
  {
    var a := SkipNumberWhite(s, 0);
    var negative := a < |s| && s[a] == '-';
    var b := if a < |s| && (s[a] == '-' || s[a] == '+') then a + 1 else a;
    var d := SkipDigits(s, b);
    if d == b || SkipNul(s, SkipNumberWhite(s, d)) != |s| then None
    else
      var magnitude: int := DecimalValue(s[b..d]);
      var v := if negative then 0 - magnitude else magnitude;
      if min <= v <= max then Some(v) else None
  }

  /** The grammar of an integer text: `s[..a]` is white space, `s[a..b]` an
      optional sign, `s[b..d]` one or more digits, `s[d..t]` white space and
      `s[t..]` nothing but '\0' characters. */
  predicate IntegerText(s: string, a: nat, b: nat, d: nat, t: nat)
  {
    && a <= b < d <= t <= |s|
    && (forall k :: 0 <= k < a ==> IsNumberWhite(s[k]))
    && (b == a || (b == a + 1 && (s[a] == '+' || s[a] == '-')))
    && (forall k :: b <= k < d ==> IsDigit(s[k]))
    && (forall k :: d <= k < t ==> IsNumberWhite(s[k]))
    && (forall k :: t <= k < |s| ==> s[k] == '\0')
  }

  /** The value of the integer text with sign `s[a..b]` and digits `s[b..d]`. */
  function TextValue(s: string, a: nat, b: nat, d: nat): int
    requires a <= b <= d <= |s|
    requires forall k :: b <= k < d ==> IsDigit(s[k])
  {
    var magnitude: int := DecimalValue(s[b..d]);
    if b == a + 1 && s[a] == '-' then 0 - magnitude else magnitude
  }

  /** Every text of the grammar parses to its value when that is in range, and
      fails otherwise. */
  lemma ParseIntegerComplete(s: string, a: nat, b: nat, d: nat, t: nat, min: int, max: int)
    requires IntegerText(s, a, b, d, t)
    ensures var v := TextValue(s, a, b, d);
      ParseInteger(s, min, max) == if min <= v <= max then Some(v) else None
  {
    SkipNumberWhiteIs(s, 0, a);
    SkipDigitsIs(s, b, d);
    SkipNumberWhiteIs(s, d, t);
    SkipNulIs(s, t, |s|);
  }

  /** Whatever parses is a text of the grammar, and its value is the result. */
  lemma ParseIntegerSound(s: string, min: int, max: int)
    ensures ParseInteger(s, min, max).Some? ==>
      exists a, b, d, t :: IntegerText(s, a, b, d, t)
        && ParseInteger(s, min, max).value == TextValue(s, a, b, d)
  {
    if ParseInteger(s, min, max).Some? {
      var a := SkipNumberWhite(s, 0);
      var b := if a < |s| && (s[a] == '-' || s[a] == '+') then a + 1 else a;
      var d := SkipDigits(s, b);
      var t := SkipNumberWhite(s, d);
      assert IntegerText(s, a, b, d, t);
    }
  }

  /** The decimal text of a natural number, most significant digit first. */
  function NatToString(n: nat): (r: string)
    ensures |r| > 0 && AllDigits(r) && DecimalValue(r) == n
  {
    var last := ('0' as int + n % 10) as char;
    if n < 10 then [last]
    else
      var prefix := NatToString(n / 10);
      assert (prefix + [last])[..|prefix|] == prefix;
      prefix + [last]
  }

  /** `n.ToString()` in the invariant culture: a '-' before negative values. */
  function IntToString(n: int): string
  {
    if n < 0 then "-" + NatToString(-n) else NatToString(n)
  }

  /** The decimal text of every in-range integer parses back to it. */
  lemma ParseIntegerRoundTrip(n: int, min: int, max: int)
    requires min <= n <= max
    ensures ParseInteger(IntToString(n), min, max) == Some(n)
  {
    var s := IntToString(n);
    var digits := NatToString(if n < 0 then -n else n);
    var b := if n < 0 then 1 else 0;
    assert s[b..|s|] == digits;
    assert IntegerText(s, 0, b, |s|, |s|);
    ParseIntegerComplete(s, 0, b, |s|, |s|, min, max);
  }

  /** Whether `s` is an integer text of value `n`. */
  ghost predicate DenotesInteger(s: string, n: int)
  {
    exists a, b, d, t :: IntegerText(s, a, b, d, t) && TextValue(s, a, b, d) == n
  }

  /** `ParseInteger` succeeds with `n` exactly when `s` is an integer text of
      value `n` and `n` is in range. */
  lemma ParseIntegerIff(s: string, n: int, min: int, max: int)
    ensures ParseInteger(s, min, max) == Some(n) <==> DenotesInteger(s, n) && min <= n <= max
  {
    ParseIntegerSound(s, min, max);
    if DenotesInteger(s, n) {
      var a, b, d, t :| IntegerText(s, a, b, d, t) && TextValue(s, a, b, d) == n;
      ParseIntegerComplete(s, a, b, d, t, min, max);
    }
  }

  // The three widths and their converters.

  newtype int16 = x: int | -0x8000 <= x < 0x8000
  newtype int32 = x: int | -0x8000_0000 <= x < 0x8000_0000
  newtype int64 = x: int | -0x8000_0000_0000_0000 <= x < 0x8000_0000_0000_0000

  /** `ToShort`: parse a 16-bit signed integer or throw. */
  function ToShort(value: string): (r: Result<int16, Error>)
    ensures r.Err? ==> r.error == NotValid(value)
    ensures r.Ok? <==> ParseInteger(value, -0x8000, 0x7FFF).Some?
  {
    match ParseInteger(value, -0x8000, 0x7FFF)
    case Some(n) => Ok(n as int16)
    case None => Err(NotValid(value))
  }

  /** `ToInt16` delegates to `ToShort`. */
  function ToInt16(value: string): (r: Result<int16, Error>)
    ensures r == ToShort(value)
  {
    ToShort(value)
  }

  /** `ToInt`: parse a 32-bit signed integer or throw. */
  function ToInt(value: string): (r: Result<int32, Error>)
    ensures r.Err? ==> r.error == NotValid(value)
    ensures r.Ok? <==> ParseInteger(value, -0x8000_0000, 0x7FFF_FFFF).Some?
  {
    match ParseInteger(value, -0x8000_0000, 0x7FFF_FFFF)
    case Some(n) => Ok(n as int32)
    case None => Err(NotValid(value))
  }

  /** `ToInt32` delegates to `ToInt`. */
  function ToInt32(value: string): (r: Result<int32, Error>)
    ensures r == ToInt(value)
  {
    ToInt(value)
  }

  /** `ToLong`: parse a 64-bit signed integer or throw. */
  function ToLong(value: string): (r: Result<int64, Error>)
    ensures r.Err? ==> r.error == NotValid(value)
    ensures r.Ok? <==> ParseInteger(value, -0x8000_0000_0000_0000, 0x7FFF_FFFF_FFFF_FFFF).Some?
  {
    match ParseInteger(value, -0x8000_0000_0000_0000, 0x7FFF_FFFF_FFFF_FFFF)
    case Some(n) => Ok(n as int64)
    case None => Err(NotValid(value))
  }

  /** `ToInt64` delegates to `ToLong`. */
  function ToInt64(value: string): (r: Result<int64, Error>)
    ensures r == ToLong(value)
  {
    ToLong(value)
  }

  /** `ToShort` yields `n` exactly on the integer texts of value `n`. */
  lemma ToShortIff(value: string, n: int16)
    ensures ToShort(value) == Ok(n) <==> DenotesInteger(value, n as int)
  {
    ParseIntegerIff(value, n as int, -0x8000, 0x7FFF);
  }

  /** `ToInt` yields `n` exactly on the integer texts of value `n`. */
  lemma ToIntIff(value: string, n: int32)
    ensures ToInt(value) == Ok(n) <==> DenotesInteger(value, n as int)
  {
    ParseIntegerIff(value, n as int, -0x8000_0000, 0x7FFF_FFFF);
  }

  /** `ToLong` yields `n` exactly on the integer texts of value `n`. */
  lemma ToLongIff(value: string, n: int64)
    ensures ToLong(value) == Ok(n) <==> DenotesInteger(value, n as int)
  {
    ParseIntegerIff(value, n as int, -0x8000_0000_0000_0000, 0x7FFF_FFFF_FFFF_FFFF);
  }

  /** Formatting then converting gives back every 16-bit value. */
  lemma ToShortRoundTrip(n: int16)
    ensures ToShort(IntToString(n as int)) == Ok(n)
  {
    ParseIntegerRoundTrip(n as int, -0x8000, 0x7FFF);
  }

  /** Formatting then converting gives back every 32-bit value. */
  lemma ToIntRoundTrip(n: int32)
    ensures ToInt(IntToString(n as int)) == Ok(n)
  {
    ParseIntegerRoundTrip(n as int, -0x8000_0000, 0x7FFF_FFFF);
  }

  /** Formatting then converting gives back every 64-bit value. */
  lemma ToLongRoundTrip(n: int64)
    ensures ToLong(IntToString(n as int)) == Ok(n)
  {
    ParseIntegerRoundTrip(n as int, -0x8000_0000_0000_0000, 0x7FFF_FFFF_FFFF_FFFF);
  }
}
