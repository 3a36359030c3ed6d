/** The "format" region of `StringExtensions`: case conversions that map a
    string to a re-cased string. */
module Format {

  import opened Wrappers
  import opened Chars
  import opened Segmentation
  import LeadWord

  // ---------------------------------------------------------------------
  // ToSnakeCase
  // ---------------------------------------------------------------------

  /** What the `Select` callback yields for character `c` at index `i`. */
  function SnakePiece(c: char, i: nat): string
  {
    if i > 0 && IsUpper(c) then "_" + [c] else [c]
  }

  /** `str.Select((x, i) => …)`: one piece per character. */
  function SnakePieces(s: string): (ps: seq<string>)
    ensures |ps| == |s|
  {
    seq(|s|, i requires 0 <= i < |s| => SnakePiece(s[i], i))
  }

  /** `string.Concat(pieces).ToLower()`. */
  function ToSnakeCase(str: string): string
  {
    LowerString(Concat(SnakePieces(str)))
  }

  /** How many capitals stand at an index in `1..n-1`: the underscores
      inserted before position `n`. */
  function Inserted(s: string, n: nat): nat
    requires n <= |s|
  {
    if n <= 1 then 0 else Inserted(s, n - 1) + (if IsUpper(s[n - 1]) then 1 else 0)
  }

  lemma ConcatSingleton(x: string)
    ensures Concat([x]) == x
  {
    assert [x][1..] == [];
  }

  /** The pieces of the first `n` characters take `n + Inserted(s, n)` characters. */
  lemma {:induction false} SnakePrefixLength(s: string, n: nat)
    requires n <= |s|
    ensures |Concat(SnakePieces(s)[..n])| == n + Inserted(s, n)
  {
    var ps := SnakePieces(s);
    if n > 0 {
      SnakePrefixLength(s, n - 1);
      assert ps[..n] == ps[..n - 1] + [ps[n - 1]];
      ConcatAppend(ps[..n - 1], [ps[n - 1]]);
      ConcatSingleton(ps[n - 1]);
    }
  }

  /** The output is the input lowered with one underscore per capital at an
      index above 0: it is that much longer, holds no capitals, puts the
      lowered `s[i]` at `i + Inserted(s, i + 1)`, and an underscore just before
      it exactly when `s[i]` is such a capital. */
  lemma ToSnakeCaseAt(s: string, i: nat)
    requires i < |s|
    ensures |ToSnakeCase(s)| == |s| + Inserted(s, |s|)
    ensures i + Inserted(s, i + 1) < |ToSnakeCase(s)|
    ensures ToSnakeCase(s)[i + Inserted(s, i + 1)] == ToLower(s[i])
    ensures i > 0 && IsUpper(s[i]) ==> ToSnakeCase(s)[i + Inserted(s, i + 1) - 1] == '_'
  {
    var ps := SnakePieces(s);
    assert ps == ps[..i] + [ps[i]] + ps[i + 1..];
    ConcatAppend(ps[..i] + [ps[i]], ps[i + 1..]);
    ConcatAppend(ps[..i], [ps[i]]);
    ConcatSingleton(ps[i]);
    SnakePrefixLength(s, i);
    SnakePrefixLength(s, |s|);
    assert ps[..|s|] == ps;
    var c := Concat(ps);
    var at := |Concat(ps[..i])|;
    assert c == Concat(ps[..i]) + ps[i] + Concat(ps[i + 1..]);
    if i > 0 && IsUpper(s[i]) {
      assert c[at] == '_' && c[at + 1] == s[i];
    } else {
      assert c[at] == s[i];
    }
  }

  /** A character-level reference for the part after index 0: every
      character lowered, with an underscore before each capital. */
  function SnakeTail(s: string): string
  {
    if s == [] then []
    else (if IsUpper(s[0]) then "_" + [ToLower(s[0])] else [ToLower(s[0])]) + SnakeTail(s[1..])
  }

  lemma LowerStringAppend(a: string, b: string)
    ensures LowerString(a + b) == LowerString(a) + LowerString(b)
  {
  }

  lemma {:induction false} SnakePiecesFrom(s: string, k: nat)
    requires 1 <= k <= |s|
    ensures LowerString(Concat(SnakePieces(s)[k..])) == SnakeTail(s[k..])
    decreases |s| - k
  {
    var ps := SnakePieces(s);
    if k < |s| {
      SnakePiecesFrom(s, k + 1);
      assert ps[k..] == [ps[k]] + ps[k + 1..];
      assert Concat(ps[k..]) == ps[k] + Concat(ps[k + 1..]);
      LowerStringAppend(ps[k], Concat(ps[k + 1..]));
      assert s[k..][1..] == s[k + 1..];
      assert LowerString(ps[k]) == if IsUpper(s[k]) then "_" + [ToLower(s[k])] else [ToLower(s[k])];
    } else {
      assert ps[k..] == [];
    }
  }

  /** `ToSnakeCase` is the first character lowered followed by the
      character-level reference on the rest. */
  lemma ToSnakeCaseIsTail(s: string)
    ensures ToSnakeCase(s) == if s == [] then [] else [ToLower(s[0])] + SnakeTail(s[1..])
  {
    if s != [] {
      var ps := SnakePieces(s);
      assert ps == [ps[0]] + ps[1..];
      assert Concat(ps) == ps[0] + Concat(ps[1..]);
      LowerStringAppend(ps[0], Concat(ps[1..]));
      SnakePiecesFrom(s, 1);
    }
  }

  /** The reference distributes over concatenation. */
  lemma {:induction false} SnakeTailAppend(a: string, b: string)
    ensures SnakeTail(a + b) == SnakeTail(a) + SnakeTail(b)
  {
    if a == [] {
      assert a + b == b;
    } else {
      assert (a + b)[0] == a[0] && (a + b)[1..] == a[1..] + b;
      SnakeTailAppend(a[1..], b);
    }
  }

  /** Text without capitals passes through the reference unchanged. */
  lemma {:induction false} SnakeTailPlain(s: string)
    requires forall i :: 0 <= i < |s| ==> !IsUpper(s[i])
    ensures SnakeTail(s) == s
  {
    if s != [] {
      SnakeTailPlain(s[1..]);
      assert s == [s[0]] + s[1..];
    }
  }

  /** A capitalised word becomes an underscore and the word lowered. */
  lemma SnakeTailWord(c: char, rest: string)
    requires IsUpper(c)
    requires forall i :: 0 <= i < |rest| ==> !IsUpper(rest[i])
    ensures SnakeTail([c] + rest) == "_" + [ToLower(c)] + rest
  {
    assert ([c] + rest)[1..] == rest;
    SnakeTailPlain(rest);
  }

  /** The output holds no capital letter. */
  lemma ToSnakeCaseNoUpper(s: string)
    ensures forall k :: 0 <= k < |ToSnakeCase(s)| ==> !IsUpper(ToSnakeCase(s)[k])
  {
  }

  // ---------------------------------------------------------------------
  // ToCamelCaseUpper
  // ---------------------------------------------------------------------

  /** `char.ToUpper(word[0]) + word[1..]`. */
  function Capitalize(word: string): (r: string)
    requires word != []
    ensures |r| == |word| && r[0] == ToUpper(word[0]) && r[1..] == word[1..]
  {
    [ToUpper(word[0])] + word[1..]
  }

  /** `words.Select(word => Capitalize(word))`. */
  function CapitalizeAll(ws: seq<string>): (r: seq<string>)
    requires forall k :: 0 <= k < |ws| ==> ws[k] != []
    ensures |r| == |ws|
    ensures |Concat(r)| == |Concat(ws)|
  {
    if ws == [] then [] else [Capitalize(ws[0])] + CapitalizeAll(ws[1..])
  }

  /** `ToCamelCaseUpper`: every word capitalized, joined with nothing between. */
  function ToCamelCaseUpper(str: string): string
  {
    Concat(CapitalizeAll(Words(str)))
  }

  /** A character-by-character reference for PascalCase: separators vanish,
      and the first character after the start or after a separator is
      upper-cased. */
  function PascalScan(s: string, atStart: bool): string
  {
    if s == [] then []
    else if IsDelimiter(s[0]) then PascalScan(s[1..], true)
    else [if atStart then ToUpper(s[0]) else s[0]] + PascalScan(s[1..], false)
  }

  /** The capitalized, concatenated non-empty pieces of `ws`. */
  function JoinCapitalized(ws: seq<string>): string
  {
    Concat(CapitalizeAll(RemoveEmpty(ws)))
  }

  lemma JoinCapitalizedCons(x: string, ws: seq<string>)
    ensures JoinCapitalized([x] + ws) == (if x == [] then [] else Capitalize(x)) + JoinCapitalized(ws)
  {
    assert ([x] + ws)[0] == x && ([x] + ws)[1..] == ws;
    if x != [] {
      var r := RemoveEmpty(ws);
      assert RemoveEmpty([x] + ws) == [x] + r;
      assert ([x] + r)[0] == x && ([x] + r)[1..] == r;
      assert CapitalizeAll([x] + r) == [Capitalize(x)] + CapitalizeAll(r);
      var c := CapitalizeAll(r);
      assert ([Capitalize(x)] + c)[0] == Capitalize(x) && ([Capitalize(x)] + c)[1..] == c;
    }
  }

  /** What `ScanSplit` states for `s` and the word prefix `x`. */
  predicate ScanSplitHolds(s: string, x: string)
    requires NoDelimiter(x)
  {
    var p := Split(s);
    JoinCapitalized([x + p[0]] + p[1..])
      == if x == [] then PascalScan(s, true) else Capitalize(x) + PascalScan(s, false)
  }

  /** The inductive step behind `ToCamelCaseUpperIsScan`, with `x` the part of
      the current word already read. */
  lemma {:induction false} ScanSplit(s: string, x: string)
    requires NoDelimiter(x)
    ensures ScanSplitHolds(s, x)
    decreases |s|
  {
    if s == [] {
      var p := Split(s);
      assert p == [""] && x + "" == x;
      assert [x + p[0]] + p[1..] == [x] + [];
      JoinCapitalizedCons(x, []);
    } else if IsDelimiter(s[0]) {
      ScanSplit(s[1..], []);
      ScanSplitDelimiter(s, x);
    } else {
      assert NoDelimiter(x + [s[0]]);
      ScanSplit(s[1..], x + [s[0]]);
      ScanSplitLetter(s, x);
    }
  }

  lemma ScanSplitDelimiter(s: string, x: string)
    requires s != [] && IsDelimiter(s[0]) && NoDelimiter(x)
    requires ScanSplitHolds(s[1..], [])
    ensures ScanSplitHolds(s, x)
  {
    var p := Split(s);
    var q := Split(s[1..]);
    assert p == [""] + q;
    assert p[0] == "" && p[1..] == q && x + "" == x;
    assert [x + p[0]] + p[1..] == [x] + q;
    JoinCapitalizedCons(x, q);
    assert "" + q[0] == q[0];
    assert [q[0]] + q[1..] == q;
  }

  lemma SplitLetterPieces(s: string, x: string)
    requires s != [] && !IsDelimiter(s[0])
    ensures var p, q := Split(s), Split(s[1..]);
      [x + p[0]] + p[1..] == [(x + [s[0]]) + q[0]] + q[1..]
  {
    var p := Split(s);
    var q := Split(s[1..]);
    var c := s[0];
    assert p == [[c] + q[0]] + q[1..];
    assert p[0] == [c] + q[0] && p[1..] == q[1..];
    assert x + ([c] + q[0]) == (x + [c]) + q[0];
  }

  lemma CapitalizeSnoc(x: string, c: char)
    requires x != []
    ensures Capitalize(x + [c]) == Capitalize(x) + [c]
  {
    assert (x + [c])[0] == x[0];
    assert (x + [c])[1..] == x[1..] + [c];
  }

  lemma PascalScanLetterFirst(s: string)
    requires s != [] && !IsDelimiter(s[0])
    ensures Capitalize([s[0]]) + PascalScan(s[1..], false) == PascalScan(s, true)
  {
  }

  lemma PascalScanLetterInner(s: string, x: string)
    requires s != [] && !IsDelimiter(s[0]) && x != []
    ensures Capitalize(x + [s[0]]) + PascalScan(s[1..], false) == Capitalize(x) + PascalScan(s, false)
  {
    var c, rest := s[0], PascalScan(s[1..], false);
    CapitalizeSnoc(x, c);
    assert PascalScan(s, false) == [c] + rest;
    assert Capitalize(x) + [c] + rest == Capitalize(x) + ([c] + rest);
  }

  lemma PascalScanLetter(s: string, x: string)
    requires s != [] && !IsDelimiter(s[0])
    ensures Capitalize(x + [s[0]]) + PascalScan(s[1..], false)
      == if x == [] then PascalScan(s, true) else Capitalize(x) + PascalScan(s, false)
  {
    if x == [] {
      assert x + [s[0]] == [s[0]];
      PascalScanLetterFirst(s);
    } else {
      PascalScanLetterInner(s, x);
    }
  }

  lemma ScanSplitLetter(s: string, x: string)
    requires s != [] && !IsDelimiter(s[0]) && NoDelimiter(x) && NoDelimiter(x + [s[0]])
    requires ScanSplitHolds(s[1..], x + [s[0]])
    ensures ScanSplitHolds(s, x)
  {
    SplitLetterPieces(s, x);
    PascalScanLetter(s, x);
  }

  /** `ToCamelCaseUpper` agrees with the character-level reference. */
  lemma ToCamelCaseUpperIsScan(s: string)
    ensures ToCamelCaseUpper(s) == PascalScan(s, true)
  {
    var p := Split(s);
    ScanSplit(s, []);
    assert ScanSplitHolds(s, []);
    assert [] + p[0] == p[0];
    assert [p[0]] + p[1..] == p;
  }

  /** What the reference keeps: every non-separator character, no separator,
      and never a lower-case letter at the start of a word. */
  lemma {:induction false} PascalScanShape(s: string, atStart: bool)
    ensures var r := PascalScan(s, atStart);
      |r| == |s| - DelimiterCount(s) && NoDelimiter(r)
      && ((atStart || (s != [] && IsDelimiter(s[0]))) && r != [] ==> !IsLower(r[0]))
  {
    if s != [] {
      PascalScanShape(s[1..], true);
      PascalScanShape(s[1..], false);
    }
  }

  /** On separator-free text the reference changes at most the first character. */
  lemma {:induction false} PascalScanNoDelimiter(s: string)
    requires NoDelimiter(s)
    ensures PascalScan(s, false) == s
    ensures s != [] ==> PascalScan(s, true) == [ToUpper(s[0])] + s[1..]
  {
    if s != [] {
      assert NoDelimiter(s[1..]) by {
        forall i | 0 <= i < |s[1..]| ensures !IsDelimiter(s[1..][i]) { assert s[1..][i] == s[i + 1]; }
      }
      PascalScanNoDelimiter(s[1..]);
      assert [s[0]] + s[1..] == s;
    }
  }

  lemma {:induction false} DelimiterCountPositive(s: string, i: nat)
    requires i < |s| && IsDelimiter(s[i])
    ensures DelimiterCount(s) > 0
  {
    if i > 0 {
      assert s[1..][i - 1] == s[i];
      DelimiterCountPositive(s[1..], i - 1);
    }
  }

  /** The output drops exactly the separators, contains none, and is empty
      exactly when the input is empty or all separators. */
  lemma ToCamelCaseUpperShape(s: string)
    ensures |ToCamelCaseUpper(s)| == |s| - DelimiterCount(s)
    ensures NoDelimiter(ToCamelCaseUpper(s))
    ensures ToCamelCaseUpper(s) == [] <==> forall i :: 0 <= i < |s| ==> IsDelimiter(s[i])
  {
    ToCamelCaseUpperIsScan(s);
    PascalScanShape(s, true);
    NoWordsIff(s);
    AllDelimitersIff(s);
  }

  /** `ToCamelCaseUpper` leaves a string alone exactly when it is already
      PascalCase: no separator and no lower-case first letter. */
  lemma ToCamelCaseUpperFixedPoint(s: string)
    ensures ToCamelCaseUpper(s) == s <==> NoDelimiter(s) && (s == [] || !IsLower(s[0]))
  {
    ToCamelCaseUpperIsScan(s);
    PascalScanShape(s, true);
    if NoDelimiter(s) {
      PascalScanNoDelimiter(s);
      if s != [] {
        assert ([ToUpper(s[0])] + s[1..])[0] == ToUpper(s[0]);
        assert [s[0]] + s[1..] == s;
      }
    } else {
      var i :| 0 <= i < |s| && IsDelimiter(s[i]);
      DelimiterCountPositive(s, i);
    }
  }

  /** Applying `ToCamelCaseUpper` a second time changes nothing. */
  lemma ToCamelCaseUpperIdempotent(s: string)
    ensures ToCamelCaseUpper(ToCamelCaseUpper(s)) == ToCamelCaseUpper(s)
  {
    ToCamelCaseUpperIsScan(s);
    PascalScanShape(s, true);
    ToCamelCaseUpperFixedPoint(ToCamelCaseUpper(s));
  }

  // ---------------------------------------------------------------------
  // ToCamelCaseLower / ToCamelCase
  // ---------------------------------------------------------------------

  /** `ToCamelCaseLower`: the lead word through the regex rewrite, then the
      remaining words capitalized; `words[0]` throws when there is no word. */
  function ToCamelCaseLower(str: string): (r: Result<string, Error>)
    ensures r.Err? ==> r.error == IndexOutOfRangeException
  {
    var words := Words(str);
    if words == [] then Err(IndexOutOfRangeException)
    else Ok(LeadWord.Replace(words[0]) + Concat(CapitalizeAll(words[1..])))
  }

  /** As written, an input that is already camel case is not a fixed point:
      its second word is lowered. */
  lemma ToCamelCaseLowerUnanchored(s: string)
    requires s == "welcomeToThe"
    ensures ToCamelCaseLower(s) == Ok("welcometoThe")
  {
    WordsJoin([s], ' ');
    LeadWord.ReplaceUnanchored(s);
    assert Words(s) == [s];
    assert Concat(CapitalizeAll(Words(s)[1..])) == [];
    assert LeadWord.Replace(s) + [] == LeadWord.Replace(s);
  }

  /** `ToCamelCaseLower` with the lead-word pattern anchored at the start of
      the word. */
  function ToCamelCaseLowerAnchored(str: string): (r: Result<string, Error>)
    ensures r.Err? ==> r.error == IndexOutOfRangeException
  {
    var words := Words(str);
    if words == [] then Err(IndexOutOfRangeException)
    else Ok(LeadWord.ReplaceAnchored(words[0]) + Concat(CapitalizeAll(words[1..])))
  }

  /** The anchored conversion fails exactly where the original does, returns a
      camel-case word (no separator, not starting with a capital) unchanged,
      and lowers the first letter of a word the pattern matches. */
  lemma ToCamelCaseLowerAnchoredShape(s: string)
    ensures ToCamelCaseLowerAnchored(s).Err? <==> ToCamelCaseLower(s).Err?
    ensures s != [] && NoDelimiter(s) && !IsUpper(s[0]) ==> ToCamelCaseLowerAnchored(s) == Ok(s)
    ensures s != [] && NoDelimiter(s) && LeadWord.MatchAt(s, 0).Some? ==>
      ToCamelCaseLowerAnchored(s) == Ok([ToLower(s[0])] + ToCamelCaseLowerAnchored(s).value[1..])
  {
    if s != [] && NoDelimiter(s) {
      WordsJoin([s], ' ');
      LeadWord.ReplaceAnchoredShape(s);
      var r := LeadWord.ReplaceAnchored(s);
      assert Words(s) == [s];
      assert r + [] == r;
      assert Concat(CapitalizeAll(Words(s)[1..])) == [];
      assert ToCamelCaseLowerAnchored(s) == Ok(r);
      assert r == [r[0]] + r[1..];
    }
  }

  /** Where the lead word is one the anchor makes no difference to (every
      test input of the library is), the anchored conversion and the
      conversion as written give the same result. */
  lemma ToCamelCaseLowerAnchoredAgrees(s: string)
    requires Words(s) != [] ==> LeadWord.AnchorIrrelevant(Words(s)[0])
    ensures ToCamelCaseLowerAnchored(s) == ToCamelCaseLower(s)
  {
    if Words(s) != [] {
      LeadWord.ReplaceAnchoredAgrees(Words(s)[0]);
    }
  }

  /** `ToCamelCase` delegates to `ToCamelCaseLower`. */
  function ToCamelCase(str: string): (r: Result<string, Error>)
    ensures r == ToCamelCaseLower(str)
  {
    ToCamelCaseLower(str)
  }

  /** `ToCamelCaseLower` fails exactly on empty or all-separator input, which
      is exactly where `ToCamelCaseUpper` returns the empty string. */
  lemma ToCamelCaseLowerFails(s: string)
    ensures ToCamelCaseLower(s).Err? <==> forall i :: 0 <= i < |s| ==> IsDelimiter(s[i])
    ensures ToCamelCaseLower(s).Err? <==> ToCamelCaseUpper(s) == []
  {
    NoWordsIff(s);
    ToCamelCaseUpperShape(s);
  }

  /** `ToCamelCaseUpper` as the capitalized first word and the capitalized rest. */
  lemma ToCamelCaseUpperCons(s: string)
    requires Words(s) != []
    ensures ToCamelCaseUpper(s) == Capitalize(Words(s)[0]) + Concat(CapitalizeAll(Words(s)[1..]))
  {
    var ws := Words(s);
    var c := CapitalizeAll(ws);
    assert c[0] == Capitalize(ws[0]) && c[1..] == CapitalizeAll(ws[1..]);
  }

  /** On success the result is the rewritten first word followed by exactly
      the tail `ToCamelCaseUpper` builds; it has `ToCamelCaseUpper`'s length
      and, like it, no separator. */
  lemma ToCamelCaseLowerTail(s: string)
    requires ToCamelCaseLower(s).Ok?
    ensures var lead := Words(s)[0];
      var r, upper := ToCamelCaseLower(s).value, ToCamelCaseUpper(s);
      && |r| == |upper| == |s| - DelimiterCount(s)
      && r[..|lead|] == LeadWord.Replace(lead)
      && r[|lead|..] == upper[|lead|..]
      && NoDelimiter(r)
  {
    var ws := Words(s);
    var lead := ws[0];
    var tail := Concat(CapitalizeAll(ws[1..]));
    var rewritten := LeadWord.Replace(lead);
    ToCamelCaseUpperCons(s);
    ToCamelCaseUpperShape(s);
    var upper := ToCamelCaseUpper(s);
    assert upper == Capitalize(lead) + tail;
    RewrittenLeadNoDelimiter(lead);
    SuffixNoDelimiter(Capitalize(lead), tail);
    ConcatNoDelimiter(rewritten, tail);
  }

  lemma RewrittenLeadNoDelimiter(lead: string)
    requires NoDelimiter(lead)
    ensures |LeadWord.Replace(lead)| == |lead| && NoDelimiter(LeadWord.Replace(lead))
  {
    LeadWord.ReplaceShape(lead);
  }

  lemma SuffixNoDelimiter(a: string, b: string)
    requires NoDelimiter(a + b)
    ensures NoDelimiter(b)
  {
    forall i | 0 <= i < |b| ensures !IsDelimiter(b[i]) { assert b[i] == (a + b)[|a| + i]; }
  }

  lemma ConcatNoDelimiter(a: string, b: string)
    requires NoDelimiter(a) && NoDelimiter(b)
    ensures NoDelimiter(a + b)
  {
  }

  // ---------------------------------------------------------------------
  // ToFirstCharLowerCase
  // ---------------------------------------------------------------------

  /** `ToFirstCharLowerCase`: a non-blank string starting with a capital has
      that one character lowered; anything else, null included, is returned
      as it is. */
  function ToFirstCharLowerCase(str: Option<string>): (r: Option<string>)
  {
    if !IsNullOrWhiteSpace(str) && IsUpper(str.value[0]) then
      var s := str.value;
      Some(if |s| == 1 then [ToLower(s[0])] else [ToLower(s[0])] + s[1..])
    else str
  }

  /** Null stays null; otherwise the length is kept, only index 0 may change,
      it changes exactly when it is a capital, and the result never starts
      with a capital. Blank input comes back unchanged. */
  lemma ToFirstCharLowerCaseShape(str: Option<string>)
    ensures str.None? ==> ToFirstCharLowerCase(str).None?
    ensures str.Some? ==>
      var s, r := str.value, ToFirstCharLowerCase(str);
      && r.Some? && |r.value| == |s|
      && (s != [] ==> r.value[1..] == s[1..] && r.value[0] == ToLower(s[0]) && !IsUpper(r.value[0]))
      && (r.value == s <==> s == [] || !IsUpper(s[0]))
      && (AllWhiteSpace(s) ==> r.value == s)
  {
    if str.Some? && str.value != [] {
      var s := str.value;
      if IsUpper(s[0]) {
        assert !AllWhiteSpace(s) by { assert !IsWhiteSpace(s[0]); }
        assert ToFirstCharLowerCase(str).value[0] != s[0];
      }
    }
  }

  /** A second application changes nothing. */
  lemma ToFirstCharLowerCaseIdempotent(str: Option<string>)
    ensures ToFirstCharLowerCase(ToFirstCharLowerCase(str)) == ToFirstCharLowerCase(str)
  {
    ToFirstCharLowerCaseShape(str);
    ToFirstCharLowerCaseShape(ToFirstCharLowerCase(str));
  }
}
