# Butters.Extensions.String in Dafny

This project models the static class `StringExtensions` of the C# library
Butters.Extensions.String. It covers the string converters `ToBoolean`,
`ToShort`/`ToInt16`, `ToInt`/`ToInt32` and `ToLong`/`ToInt64`, and the case
transformations `ToSnakeCase`, `ToCamelCaseLower`/`ToCamelCase`,
`ToCamelCaseUpper` and `ToFirstCharLowerCase`. It then proves properties of
that model. The library is a set of pure extension methods, so every
operation is a Dafny `function` and every property a lemma or an `ensures`
clause.

Where a C# member throws, the model returns `Result<T, Error>`:

- `Err(ArgumentException(value + " is not valid.", "value"))` for the converters;
- `Err(IndexOutOfRangeException)` for `ToCamelCaseLower`, whose `words[0]`
  throws on input without words.

`Option<string>` stands for the nullable `string?` of `ToFirstCharLowerCase`.

Modules, one per file:

- `Wrappers` (`wrappers.dfy`): `Option`, `Result` and the library's exceptions, with the shared message format.
- `Chars` (`chars.dfy`): the character classes and the casing shared by everything else. These are `[A-Z]`, `[a-z]`, `[0-9]`, `\w` and the exact `char.IsWhiteSpace` set.
- `ConvertType` (`convert_type.dfy`): `ToBoolean`, and `TryParse` for the three signed widths. Each width is a `newtype` (`int16`, `int32`, `int64`).
- `Segmentation` (`words.dfy`): `Split` on `_`, space and `-`, and `StringSplitOptions.RemoveEmptyEntries`.
- `LeadWord` (`lead_word.dfy`): the lead-word regular expression `([A-Z])([A-Z]+|[a-z0-9]+)($|[A-Z]\w*)`. `MatchAt` is the match .NET's backtracking matcher finds at one position, `ReplaceFrom` is `Regex.Replace`'s leftmost scan, and `Candidate`/`Preferred` give a declarative reading of the pattern to check `MatchAt` against.
- `Format` (`format.dfy`): the four case transformations. `ToSnakeCase` and `ToCamelCaseUpper` are each paired with an independent reference, `SnakeTail` and the one-pass `PascalScan`. `ToCamelCaseLower` is tied to `ToCamelCaseUpper`'s output after the lead word, and `ToFirstCharLowerCase` is pinned by a shape lemma.
- `TestCases` (`test_cases.dfy`): the inputs and expected outputs of the library's unit tests, stated as lemmas.

Modelling decisions:

- Integer parsing follows .NET's `NumberStyles.Integer`. The accepted form is:
  - optional white space (U+0009..U+000D, U+0020);
  - an optional `+` or `-`;
  - one or more ASCII digits;
  - optional white space, then nothing but `'\0'` characters;
  - and the value must fall inside the width's range.

  Any other text fails, including an out-of-range value however many digits it has.
- The source parses in the current culture. The model uses the invariant culture.
- `$` in the pattern follows .NET without `RegexOptions.Multiline`: it matches at the end or just before a final `'\n'`.
- The converters throw `ArgumentException` with message `"{0} is not valid."` and parameter name `value`; the model returns it as `Err`.

## Model

| member | source | states |
|---|---|---|
| Wrappers.NotValid | Butters.Extensions.String/StringExtension.cs:10 | the converters' exception is an `ArgumentException` naming parameter `value`, with message `value + " is not valid."` |
| Wrappers.NotValidMessage | Butters.Extensions.String/StringExtension.cs:10 | the message is the input followed by exactly " is not valid." |
| ConvertType.Trim | Butters.Extensions.String/StringExtension.cs:24 | `Trim` returns a string with no leading or trailing `char.IsWhiteSpace` character, no longer than its input |
| ConvertType.TrimPadded | Butters.Extensions.String/StringExtension.cs:24 | trimming white space around an unpadded string gives that string back |
| ConvertType.ToBoolean | Butters.Extensions.String/StringExtension.cs:19-37 | every failure is the `ArgumentException` with message "{value} is not valid." |
| ConvertType.ToBooleanTokens | Butters.Extensions.String/StringExtension.cs:19-37 | true exactly when the lower-cased, trimmed input is in {"true","t","yes","y"}; false exactly when it is in {"false","f","no","n"}; `Err` exactly otherwise, with the message |
| ConvertType.TokenShape | Butters.Extensions.String/StringExtension.cs:25-36 | the eight tokens are non-empty and unpadded, and the true and false sets are disjoint |
| ConvertType.ToBooleanPadded | Butters.Extensions.String/StringExtension.cs:19-37 | any token in any letter case, with any surrounding white space, converts to its truth value |
| ConvertType.ParseInteger | Butters.Extensions.String/StringExtension.cs:39-42 | a successful parse lies in the requested range |
| ConvertType.ParseIntegerComplete | Butters.Extensions.String/StringExtension.cs:39-56 | every text of the integer grammar parses to its value when that value is in range, and fails otherwise |
| ConvertType.ParseIntegerSound | Butters.Extensions.String/StringExtension.cs:39-56 | whatever parses is a text of the grammar, and the result is that text's value |
| ConvertType.ParseIntegerIff | Butters.Extensions.String/StringExtension.cs:39-56 | `ParseInteger` yields `n` if and only if the input is an integer text of value `n` and `n` is in range |
| ConvertType.ParseIntegerRoundTrip | Butters.Extensions.String/StringExtension.cs:39-56 | the decimal text of every in-range integer parses back to it |
| ConvertType.NatToString | Butters.Extensions.String/StringExtension.cs:39-56 | a natural number's decimal text is a non-empty string of digits whose value is that number |
| ConvertType.ToShort | Butters.Extensions.String/StringExtension.cs:39-42 | succeeds exactly when the text parses into [-32768, 32767]; otherwise fails with the "is not valid." exception |
| ConvertType.ToInt16 | Butters.Extensions.String/StringExtension.cs:44 | identical to `ToShort` |
| ConvertType.ToInt | Butters.Extensions.String/StringExtension.cs:46-49 | succeeds exactly when the text parses into the 32-bit signed range; otherwise fails with the "is not valid." exception |
| ConvertType.ToInt32 | Butters.Extensions.String/StringExtension.cs:51 | identical to `ToInt` |
| ConvertType.ToLong | Butters.Extensions.String/StringExtension.cs:53-56 | succeeds exactly when the text parses into the 64-bit signed range; otherwise fails with the "is not valid." exception |
| ConvertType.ToInt64 | Butters.Extensions.String/StringExtension.cs:58 | identical to `ToLong` |
| ConvertType.ToShortIff | Butters.Extensions.String/StringExtension.cs:39-42 | `ToShort` yields `n` if and only if the input is an integer text of value `n` |
| ConvertType.ToIntIff | Butters.Extensions.String/StringExtension.cs:46-49 | `ToInt` yields `n` if and only if the input is an integer text of value `n` |
| ConvertType.ToLongIff | Butters.Extensions.String/StringExtension.cs:53-56 | `ToLong` yields `n` if and only if the input is an integer text of value `n` |
| ConvertType.ToShortRoundTrip | Butters.Extensions.String/StringExtension.cs:39-42 | the decimal text of every 16-bit value converts back to it |
| ConvertType.ToIntRoundTrip | Butters.Extensions.String/StringExtension.cs:46-49 | the decimal text of every 32-bit value converts back to it |
| ConvertType.ToLongRoundTrip | Butters.Extensions.String/StringExtension.cs:53-56 | the decimal text of every 64-bit value converts back to it |
| Segmentation.Split | Butters.Extensions.String/StringExtension.cs:103 | one more piece than there are separators, no piece contains a separator, and together the pieces are the input without its separators |
| Segmentation.RemoveEmpty | Butters.Extensions.String/StringExtension.cs:103 | `RemoveEmptyEntries` leaves only non-empty pieces, keeps their concatenation and order, and keeps them separator-free |
| Segmentation.Words | Butters.Extensions.String/StringExtension.cs:123 | the words are non-empty and separator-free, and together they are exactly the input's non-separator characters in order |
| Segmentation.Delimiters | Butters.Extensions.String/StringExtension.cs:103 | the separators of a string, one per separator character, in order |
| Segmentation.SplitJoinSeps | Butters.Extensions.String/StringExtension.cs:103 | splitting separator-free pieces, empty ones included, joined by any separators at the joints, gives the pieces back |
| Segmentation.JoinSplit | Butters.Extensions.String/StringExtension.cs:103 | joining the pieces of `Split(s)` with the separators of `s` gives `s` back; with `SplitJoinSeps` this fixes every piece of `Split` on every input |
| Segmentation.RemoveEmptyAppend | Butters.Extensions.String/StringExtension.cs:103 | `RemoveEmptyEntries` works piece by piece: on a concatenation it is the concatenation of the results |
| Segmentation.RemoveEmptySingleton | Butters.Extensions.String/StringExtension.cs:103 | a single piece is dropped exactly when it is empty, and kept otherwise |
| Segmentation.WordsJoinSeps | Butters.Extensions.String/StringExtension.cs:123 | the words of separator-free pieces joined by any separators at the joints are exactly the non-empty pieces, in order |
| Segmentation.NoWordsIff | Butters.Extensions.String/StringExtension.cs:103 | there are no words if and only if every character is `_`, space or `-` |
| Segmentation.SplitJoin | Butters.Extensions.String/StringExtension.cs:103 | splitting separator-free pieces joined by one separator gives the pieces back |
| Segmentation.WordsJoin | Butters.Extensions.String/StringExtension.cs:123 | the words of non-empty, separator-free pieces joined by one separator are those pieces |
| LeadWord.MatchAt | Butters.Extensions.String/StringExtension.cs:12 | a match at `p` has a one-letter group 1, a non-empty group 2 and ends inside the word |
| LeadWord.MatchAtIsPreferredCandidate | Butters.Extensions.String/StringExtension.cs:12 | there is no match at `p` exactly when no split of the text satisfies the pattern there; a match is such a split, and it beats every other one in backtracking order (the `[A-Z]+` alternative first, the longer group 2 first) |
| LeadWord.ReplaceFrom | Butters.Extensions.String/StringExtension.cs:105-108 | the leftmost scan keeps the length of the rest of the word |
| LeadWord.ReplaceFromLeftmost | Butters.Extensions.String/StringExtension.cs:105-108 | up to the first position `q` where the pattern matches, the text is copied; that match has groups 1 and 2 lowered and group 3 kept; the scan resumes after the match |
| LeadWord.ReplaceFromNone | Butters.Extensions.String/StringExtension.cs:105-108 | where the pattern matches at no position, the text is copied unchanged |
| LeadWord.ReplaceFromLowers | Butters.Extensions.String/StringExtension.cs:105-108 | the replacement only ever turns capitals into their lower case |
| LeadWord.ReplaceShape | Butters.Extensions.String/StringExtension.cs:105-108 | the rewritten lead word has the same length; each character is kept or is a capital lowered; a word without capitals is unchanged; a match at the start lowers groups 1 and 2 and keeps group 3 |
| LeadWord.ReplaceUnanchored | Butters.Extensions.String/StringExtension.cs:12 | the pattern is not anchored: "welcomeToThe" is rewritten to "welcometoThe" |
| LeadWord.ReplaceAnchored | Butters.Extensions.String/StringExtension.cs:12 | the rewrite anchored at index 0 keeps the length |
| LeadWord.ReplaceAnchoredShape | Butters.Extensions.String/StringExtension.cs:12 | the anchored rewrite leaves a word not starting with a capital alone, lowers the leading capital on a match, and is idempotent |
| LeadWord.ReplaceAnchoredAgrees | Butters.Extensions.String/StringExtension.cs:105-108 | when the word has no capital, or its match at the start spans the whole word, the anchored and the as-written rewrite agree |
| Format.ToSnakeCaseAt | Butters.Extensions.String/StringExtension.cs:96 | the length is the input's plus one per capital after index 0; each input character appears lower-cased at its shifted position, preceded by `_` when it is a capital after index 0 |
| Format.ToSnakeCaseIsTail | Butters.Extensions.String/StringExtension.cs:96 | `ToSnakeCase` equals the reference: the first character lowered, then `SnakeTail` of the rest |
| Format.SnakeTailWord | Butters.Extensions.String/StringExtension.cs:96 | a capital followed by non-capitals becomes `_`, its lower case, and the rest unchanged |
| Format.ToSnakeCaseNoUpper | Butters.Extensions.String/StringExtension.cs:96 | the output contains no capital letter |
| Format.Capitalize | Butters.Extensions.String/StringExtension.cs:126 | `char.ToUpper(word[0]) + word[1..]` keeps the length, upper-cases index 0 and keeps the rest |
| Format.ToCamelCaseUpperIsScan | Butters.Extensions.String/StringExtension.cs:121-130 | the split-capitalise-join pipeline equals the one-pass reference scan, which drops separators and upper-cases the first character after each run of them |
| Format.ToCamelCaseUpperShape | Butters.Extensions.String/StringExtension.cs:121-130 | the length is the input's minus its separators; no separator survives; the output is empty if and only if the input is empty or all separators |
| Format.ToCamelCaseUpperFixedPoint | Butters.Extensions.String/StringExtension.cs:121-130 | a string comes back unchanged if and only if it has no separator and does not start with a lower-case letter |
| Format.ToCamelCaseUpperIdempotent | Butters.Extensions.String/StringExtension.cs:121-130 | a second application changes nothing |
| Format.ToCamelCaseLower | Butters.Extensions.String/StringExtension.cs:101-115 | the only failure is the `IndexOutOfRangeException` of `words[0]` |
| Format.ToCamelCaseLowerFails | Butters.Extensions.String/StringExtension.cs:103-105 | fails if and only if every character is a separator, which is exactly when `ToCamelCaseUpper` returns "" |
| Format.ToCamelCaseLowerTail | Butters.Extensions.String/StringExtension.cs:101-115 | on success: the output starts with the rewritten first word, continues exactly as `ToCamelCaseUpper`'s output after that word, has that output's length and contains no separator |
| Format.ToCamelCase | Butters.Extensions.String/StringExtension.cs:117 | identical to `ToCamelCaseLower` |
| Format.ToCamelCaseLowerUnanchored | Butters.Extensions.String/StringExtension.cs:105-108 | as written, "welcomeToThe" becomes "welcometoThe" |
| Format.ToCamelCaseLowerAnchored | Butters.Extensions.String/StringExtension.cs:101-115 | with the start-anchored lead-word rewrite, the only failure is still the `IndexOutOfRangeException` |
| Format.ToCamelCaseLowerAnchoredShape | Butters.Extensions.String/StringExtension.cs:101-115 | the anchored version fails on the same inputs; it keeps a single word not starting with a capital; on a match it lowers the leading capital |
| Format.ToCamelCaseLowerAnchoredAgrees | Butters.Extensions.String/StringExtension.cs:105-108 | when the first word has no capital, or its start match spans it, the anchored and the as-written results agree |
| Format.ToFirstCharLowerCaseShape | Butters.Extensions.String/StringExtension.cs:133-139 | null stays null; the length is kept; only index 0 may change, and it ends up not a capital; the string is unchanged if and only if it is empty or does not start with a capital; blank input is unchanged |
| Format.ToFirstCharLowerCaseIdempotent | Butters.Extensions.String/StringExtension.cs:133-139 | a second application changes nothing |
| TestCases.BooleanCases | tests/Butters.Extensions.String.Tests/StringExtensionsTests.cs:22-33 | the ten test tokens give their expected truth values |
| TestCases.ShortCases | tests/Butters.Extensions.String.Tests/StringExtensionsTests.cs:35-45 | "1", "-32768" and "32767" convert by `ToShort` and `ToInt16` to 1, `short.MinValue` and `short.MaxValue` |
| TestCases.IntCases | tests/Butters.Extensions.String.Tests/StringExtensionsTests.cs:53-55 | "1" converts by `ToInt` and `ToInt32` to 1 |
| TestCases.IntMaxCase | tests/Butters.Extensions.String.Tests/StringExtensionsTests.cs:49 | "2147483647" converts to `int.MaxValue` |
| TestCases.LongCases | tests/Butters.Extensions.String.Tests/StringExtensionsTests.cs:64-66 | "1" converts by `ToLong` and `ToInt64` to 1 |
| TestCases.SnakeCaseJoined | tests/Butters.Extensions.String.Tests/StringExtensionsTests.cs:125 | "nameOfProperty" becomes "name_of_property" |
| TestCases.SnakeCaseSpaced | tests/Butters.Extensions.String.Tests/StringExtensionsTests.cs:126 | "name Of Property" becomes "name _of _property" |
| TestCases.CamelCaseLowerSeparated | tests/Butters.Extensions.String.Tests/StringExtensionsTests.cs:130-142 | "Welcome to the", "Welcome To The", "Welcome_To_The" and "Welcome-To-The" become "welcomeToThe" under `ToCamelCaseLower` and `ToCamelCase` |
| TestCases.CamelCaseLowerJoined | tests/Butters.Extensions.String.Tests/StringExtensionsTests.cs:132 | "WelcomeToThe" becomes "welcomeToThe", as written and anchored |
| TestCases.CamelCaseLowerAcronym | tests/Butters.Extensions.String.Tests/StringExtensionsTests.cs:135 | "ISODate" becomes "isoDate", as written and anchored |
| TestCases.CamelCaseLowerShortAcronym | tests/Butters.Extensions.String.Tests/StringExtensionsTests.cs:136 | "IOStream" becomes "ioStream", as written and anchored |
| TestCases.CamelCaseLowerLongAcronym | tests/Butters.Extensions.String.Tests/StringExtensionsTests.cs:137 | "IOAAAStream" becomes "ioaaaStream", as written and anchored |
| TestCases.CamelCaseLowerOneWord | tests/Butters.Extensions.String.Tests/StringExtensionsTests.cs:132-137 | a non-empty separator-free input is its own only word, and `ToCamelCaseLower` is the lead-word rewrite of it |
| TestCases.CamelCaseUpperSeparated | tests/Butters.Extensions.String.Tests/StringExtensionsTests.cs:145-148 | "Welcome to the", "Welcome To The" and "Welcome_To_The" become "WelcomeToThe" |
| TestCases.CamelCaseUpperUnchanged | tests/Butters.Extensions.String.Tests/StringExtensionsTests.cs:147-151 | "WelcomeToThe", "ISODate", "IOStream" and "IOAAAStream" come back unchanged |
| TestCases.FirstCharCases | tests/Butters.Extensions.String.Tests/StringExtensionsTests.cs:154-160 | "Abc" becomes "abc" and "A" becomes "a"; "aBc", "" and "abc" are unchanged |

## Left out

- `ToByte` is not modelled. It delegates to `Encoding.UTF8.GetBytes` over UTF-16 strings, a foreign library call.
- `ToFloat`/`ToSingle`, `ToDouble` and `ToDecimal` are not modelled: binary floating point, and `decimal` parsing delegated to .NET.
- `ToDateTime` is not modelled. It relies on `DateTime.TryParseExact` with arbitrary format patterns.
- `ToEnum` is not modelled. It relies on runtime enum reflection.
- `ToObjectFromJson` is not modelled. It is a wrapper over `System.Text.Json`.
- Casing is ASCII only. `char.IsUpper`, `char.ToUpper`, `char.ToLower`, `ToLower()` and the regex classes `[A-Z]`, `[a-z]` and `\w` leave every non-ASCII character alone. Culture-specific casing, such as the Turkish dotted I, is not modelled.
- Integer parsing uses the invariant culture. The current culture's sign symbols and native digits are not modelled.
- A null `string` passed to members whose parameter is not nullable is not modelled. Only `ToFirstCharLowerCase` takes `Option<string>`.
- General regular-expression semantics are not modelled. Only the one fixed pattern is, as the `MatchAt` scan. The regex engine's match timeout is not modelled.
- TestCases.IntCases: the `int.MinValue` literal of the `ToInt` test (`StringExtensionsTests.cs:50`) is not evaluated as a literal. Evaluating such a long constant string is beyond the prover's budget here. `ConvertType.ToIntRoundTrip` covers that value and every other 32-bit value. `TestCases.IntMaxCase` covers the `int.MaxValue` literal.
- TestCases.LongCases: the two 64-bit literals of the `ToLong` test (`StringExtensionsTests.cs:60-61`) are not evaluated as literals, for the same reason. `ConvertType.ToLongRoundTrip` covers them and every other 64-bit value.
- Strings are sequences of Unicode scalar values, not UTF-16 code units. Unpaired surrogates cannot be represented, and a character outside the Basic Multilingual Plane counts once, where C# counts two code units. With ASCII-only casing, no modelled output differs because of this.
- `ToCamelCaseUpper` and `ToCamelCaseLower` index `word[0]` for every word after `RemoveEmptyEntries`. That index never fails, because no word is empty, so the model has no error path for it.

## Findings

| source | as written | input that shows it | evidently intended | confidence | as-written member | corrected member |
|---|---|---|---|---|---|---|
| Butters.Extensions.String/StringExtension.cs:105-108 | the lead-word pattern at line 12 has no `^` anchor, so `Regex.Replace` also rewrites matches inside the first word after its start; group 2 of such a match is lower-cased | `"welcomeToThe".ToCamelCaseLower()` returns `"welcometoThe"`: the match `ToThe` has its `To` lower-cased | only the word's leading letters are lower-cased, which leaves `"welcomeToThe"` unchanged | not executed | Format.ToCamelCaseLowerUnanchored | Format.ToCamelCaseLowerAnchored |

The as-written function `Format.ToCamelCaseLower` keeps the library's
behaviour. `Format.ToCamelCase` delegates to it, as the source does. The
corrected `Format.ToCamelCaseLowerAnchored` applies the rewrite only at
index 0. On that version, `Format.ToCamelCaseLowerAnchoredShape` proves three
things:

- it fails on the same inputs as the as-written function;
- it keeps a lead word that does not start with a capital;
- it lowers the leading capital when the pattern matches there.

The anchored rewrite is idempotent (`LeadWord.ReplaceAnchoredShape`).
`Format.ToCamelCaseLowerAnchoredAgrees` proves that both versions agree
whenever the first word has no capital, or its start match spans it. Every
single-word test input falls under that lemma, and the `CamelCaseLower*`
test lemmas prove both versions give the expected output.
