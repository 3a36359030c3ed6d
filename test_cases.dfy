/** The library's own test inputs, stated as lemmas about the model. Inputs
    are parameters fixed by a precondition, so that each proof goes through
    the general lemmas of the other modules one step at a time. */
module TestCases {

  import opened Wrappers
  import opened Chars
  import opened ConvertType
  import opened Segmentation
  import opened Format
  import LeadWord

  // ---------------------------------------------------------------------
  // ToBoolean
  // ---------------------------------------------------------------------

  lemma LowerTokens(s: string)
    requires s in {"TRUE", "true", "t", "y", "yes", "False", "false", "f", "n", "no"}
    ensures LowerString(s) in TrueTokens <==> s in {"TRUE", "true", "t", "y", "yes"}
    ensures LowerString(s) in TrueTokens + FalseTokens
  {
    if s == "TRUE" {
      assert LowerString(s) == "true";
    } else if s == "False" {
      assert LowerString(s) == "false";
    } else {
      assert LowerString(s) == s;
    }
  }

  /** Each test token, padded with nothing, gives its truth value. */
  lemma BooleanCases(s: string)
    requires s in {"TRUE", "true", "t", "y", "yes", "False", "false", "f", "n", "no"}
    ensures ToBoolean(s) == Ok(s in {"TRUE", "true", "t", "y", "yes"})
  {
    assert "" + s + "" == s;
    LowerTokens(s);
    ToBooleanPadded("", s, "");
  }

  // ---------------------------------------------------------------------
  // ToShort / ToInt / ToLong
  // ---------------------------------------------------------------------

  lemma ShortCases()
    ensures ToShort("1") == Ok(1) && ToInt16("1") == Ok(1)
    ensures ToShort("-32768") == Ok(-32768) && ToInt16("-32768") == Ok(-32768)
    ensures ToShort("32767") == Ok(32767) && ToInt16("32767") == Ok(32767)
  {
    assert IntToString(1) == "1";
    assert IntToString(-32768) == "-32768";
    assert IntToString(32767) == "32767";
    ToShortRoundTrip(1);
    ToShortRoundTrip(-32768);
    ToShortRoundTrip(32767);
  }

  /** One more digit on the right of a decimal text. */
  lemma DigitsOf(n: nat, p: string, r: string)
    requires 10 <= n && NatToString(n / 10) == p && r == p + [('0' as int + n % 10) as char]
    ensures NatToString(n) == r
  {
  }

  // The decimal text of the 32-bit maximum, built one digit at a time.

  lemma IntMaxText()
    ensures NatToString(2147483647) == "2147483647"
  {
    DigitsOf(21, "2", "21");
    DigitsOf(214, "21", "214");
    DigitsOf(2147, "214", "2147");
    DigitsOf(21474, "2147", "21474");
    DigitsOf(214748, "21474", "214748");
    DigitsOf(2147483, "214748", "2147483");
    DigitsOf(21474836, "2147483", "21474836");
    DigitsOf(214748364, "21474836", "214748364");
    DigitsOf(2147483647, "214748364", "2147483647");
  }

  lemma IntCases()
    ensures ToInt("1") == Ok(1) && ToInt32("1") == Ok(1)
  {
    assert IntToString(1) == "1";
    ToIntRoundTrip(1);
  }

  lemma IntMaxCase(s: string)
    requires s == "2147483647"
    ensures ToInt(s) == Ok(0x7FFF_FFFF)
  {
    IntMaxText();
    ToIntRoundTrip(0x7FFF_FFFF);
  }

  lemma LongCases()
    ensures ToLong("1") == Ok(1) && ToInt64("1") == Ok(1)
  {
    assert IntToString(1) == "1";
    ToLongRoundTrip(1);
  }

  // ---------------------------------------------------------------------
  // ToSnakeCase
  // ---------------------------------------------------------------------

  /** The first character lowered, then the reference on the rest. */
  lemma SnakeCaseOf(s: string, h: char, u: string, t: string)
    requires s == [h] + u && SnakeTail(u) == t
    ensures ToSnakeCase(s) == [ToLower(h)] + t
  {
    ToSnakeCaseIsTail(s);
    assert s[0] == h && s[1..] == u;
  }

  lemma SnakeTailThree(a: string, b: string, c: string)
    ensures SnakeTail(a + b + c) == SnakeTail(a) + SnakeTail(b) + SnakeTail(c)
  {
    SnakeTailAppend(a + b, c);
    SnakeTailAppend(a, b);
  }

  /** One lower-case piece and two capitalised ones. */
  lemma SnakeCaseThree(h: char, a: string, B: char, b: string, C: char, c: string)
    requires IsUpper(B) && IsUpper(C)
    requires forall i :: 0 <= i < |a| ==> !IsUpper(a[i])
    requires forall i :: 0 <= i < |b| ==> !IsUpper(b[i])
    requires forall i :: 0 <= i < |c| ==> !IsUpper(c[i])
    ensures ToSnakeCase([h] + (a + ([B] + b) + ([C] + c))) == [ToLower(h)] + (a + ("_" + [ToLower(B)] + b) + ("_" + [ToLower(C)] + c))
  {
    SnakeTailThree(a, [B] + b, [C] + c);
    SnakeTailPlain(a);
    SnakeTailWord(B, b);
    SnakeTailWord(C, c);
    SnakeCaseOf([h] + (a + ([B] + b) + ([C] + c)), h, a + ([B] + b) + ([C] + c), a + ("_" + [ToLower(B)] + b) + ("_" + [ToLower(C)] + c));
  }

  lemma SnakeCaseJoined(s: string)
    requires s == "nameOfProperty"
    ensures ToSnakeCase(s) == "name_of_property"
  {
    SnakeCaseThree('n', "ame", 'O', "f", 'P', "roperty");
    assert s == ['n'] + ("ame" + (['O'] + "f") + (['P'] + "roperty"));
  }

  lemma SnakeCaseSpaced(s: string)
    requires s == "name Of Property"
    ensures ToSnakeCase(s) == "name _of _property"
  {
    SnakeCaseThree('n', "ame ", 'O', "f ", 'P', "roperty");
    assert s == ['n'] + ("ame " + (['O'] + "f ") + (['P'] + "roperty"));
  }

  // ---------------------------------------------------------------------
  // ToCamelCaseUpper / ToCamelCaseLower / ToCamelCase
  // ---------------------------------------------------------------------

  /** Three non-empty, separator-free words joined by one separator. */
  lemma WordsThree(w1: string, w2: string, w3: string, c: char)
    requires IsDelimiter(c)
    requires w1 != [] && w2 != [] && w3 != [] && NoDelimiter(w1) && NoDelimiter(w2) && NoDelimiter(w3)
    ensures Words(w1 + [c] + w2 + [c] + w3) == [w1, w2, w3]
  {
    var ws := [w1, w2, w3];
    assert ws[1..] == [w2, w3] && ws[1..][1..] == [w3];
    assert JoinWith([w3], c) == w3;
    assert JoinWith([w2, w3], c) == w2 + [c] + w3;
    assert JoinWith(ws, c) == w1 + [c] + (w2 + [c] + w3);
    assert w1 + [c] + (w2 + [c] + w3) == w1 + [c] + w2 + [c] + w3;
    assert forall k :: 0 <= k < |ws| ==> ws[k] != [] && NoDelimiter(ws[k]) by {
      forall k | 0 <= k < |ws| ensures ws[k] != [] && NoDelimiter(ws[k]) {
        assert k == 0 || k == 1 || k == 2;
      }
    }
    WordsJoin(ws, c);
  }

  lemma ConcatThree(a: string, b: string, c: string)
    ensures Concat([a, b, c]) == a + b + c
  {
    assert [a, b, c][1..] == [b, c] && [b, c][1..] == [c];
    assert Concat([c]) == c + Concat([]);
  }

  /** PascalCase of three joined words: each capitalized, concatenated. */
  lemma CamelCaseUpperThree(s: string, w1: string, w2: string, w3: string, c: char)
    requires IsDelimiter(c) && s == w1 + [c] + w2 + [c] + w3
    requires w1 != [] && w2 != [] && w3 != [] && NoDelimiter(w1) && NoDelimiter(w2) && NoDelimiter(w3)
    ensures ToCamelCaseUpper(s) == Capitalize(w1) + Capitalize(w2) + Capitalize(w3)
  {
    WordsThree(w1, w2, w3, c);
    var ws := [w1, w2, w3];
    assert ws[1..] == [w2, w3] && ws[1..][1..] == [w3] && [w3][1..] == [];
    assert CapitalizeAll([w3]) == [Capitalize(w3)];
    assert CapitalizeAll([w2, w3]) == [Capitalize(w2), Capitalize(w3)];
    assert CapitalizeAll(ws) == [Capitalize(w1), Capitalize(w2), Capitalize(w3)];
    ConcatThree(Capitalize(w1), Capitalize(w2), Capitalize(w3));
  }

  /** camelCase of three joined words: the lead word rewritten, the other two
      capitalized. */
  lemma CamelCaseLowerThree(s: string, w1: string, w2: string, w3: string, c: char)
    requires IsDelimiter(c) && s == w1 + [c] + w2 + [c] + w3
    requires w1 != [] && w2 != [] && w3 != [] && NoDelimiter(w1) && NoDelimiter(w2) && NoDelimiter(w3)
    ensures ToCamelCaseLower(s) == Ok(LeadWord.Replace(w1) + Capitalize(w2) + Capitalize(w3))
  {
    WordsThree(w1, w2, w3, c);
    var ws := [w1, w2, w3];
    assert ws[1..] == [w2, w3] && ws[1..][1..] == [w3] && [w3][1..] == [];
    assert CapitalizeAll([w3]) == [Capitalize(w3)];
    assert CapitalizeAll(ws[1..]) == [Capitalize(w2), Capitalize(w3)];
    assert Concat([Capitalize(w2), Capitalize(w3)]) == Capitalize(w2) + Capitalize(w3) by {
      assert [Capitalize(w2), Capitalize(w3)][1..] == [Capitalize(w3)] && [Capitalize(w3)][1..] == [];
      assert Concat([Capitalize(w3)]) == Capitalize(w3) + Concat([]);
    }
    assert LeadWord.Replace(w1) + (Capitalize(w2) + Capitalize(w3)) == LeadWord.Replace(w1) + Capitalize(w2) + Capitalize(w3);
  }

  lemma CamelCaseUpperThreeIs(s: string, w1: string, w2: string, w3: string, c: char, r: string)
    requires IsDelimiter(c) && s == w1 + [c] + w2 + [c] + w3
    requires w1 != [] && w2 != [] && w3 != [] && NoDelimiter(w1) && NoDelimiter(w2) && NoDelimiter(w3)
    requires Capitalize(w1) + (Capitalize(w2) + Capitalize(w3)) == r
    ensures ToCamelCaseUpper(s) == r
  {
    CamelCaseUpperThree(s, w1, w2, w3, c);
    assert Capitalize(w1) + (Capitalize(w2) + Capitalize(w3)) == Capitalize(w1) + Capitalize(w2) + Capitalize(w3);
  }

  lemma CamelCaseLowerThreeIs(s: string, w1: string, w2: string, w3: string, c: char, r: string)
    requires IsDelimiter(c) && s == w1 + [c] + w2 + [c] + w3
    requires w1 != [] && w2 != [] && w3 != [] && NoDelimiter(w1) && NoDelimiter(w2) && NoDelimiter(w3)
    requires LeadWord.Replace(w1) + (Capitalize(w2) + Capitalize(w3)) == r
    ensures ToCamelCaseLower(s) == Ok(r)
  {
    CamelCaseLowerThree(s, w1, w2, w3, c);
    assert LeadWord.Replace(w1) + (Capitalize(w2) + Capitalize(w3)) == LeadWord.Replace(w1) + Capitalize(w2) + Capitalize(w3);
  }

  /** The test words: "Welcome", then "to the" or "To The". */
  predicate WelcomeWords(w1: string, w2: string, w3: string)
  {
    w1 == "Welcome" && ((w2 == "to" && w3 == "the") || (w2 == "To" && w3 == "The"))
  }

  /** The lead test word is lowered as a whole: the pattern matches all of
      "Welcome" with an empty group 3. */
  lemma WelcomeLead(w: string)
    requires w == "Welcome"
    ensures LeadWord.Replace(w) == "welcome"
  {
    LeadWord.LowerOrDigitRunUnique(w, 1, 7);
    assert LeadWord.MatchAt(w, 0) == Some((7, |w|));
    ReplaceWhole(w, 7, "welcome");
  }

  /** The test words capitalized: "Welcome", then "ToThe". */
  lemma WelcomeWordsCapitalized(w1: string, w2: string, w3: string)
    requires WelcomeWords(w1, w2, w3)
    ensures w1 != [] && w2 != [] && w3 != [] && NoDelimiter(w1) && NoDelimiter(w2) && NoDelimiter(w3)
    ensures Capitalize(w1) == "Welcome" && Capitalize(w2) + Capitalize(w3) == "ToThe"
  {
    assert Capitalize(w2) == "To" && Capitalize(w3) == "The";
  }

  /** "Welcome", then "to the" or "To The", joined by any one separator. */
  lemma CamelCaseUpperWelcome(s: string, w1: string, w2: string, w3: string, c: char)
    requires WelcomeWords(w1, w2, w3) && IsDelimiter(c) && s == w1 + [c] + w2 + [c] + w3
    ensures ToCamelCaseUpper(s) == "WelcomeToThe"
  {
    WelcomeWordsCapitalized(w1, w2, w3);
    assert "Welcome" + "ToThe" == "WelcomeToThe";
    CamelCaseUpperThreeIs(s, w1, w2, w3, c, "WelcomeToThe");
  }

  lemma CamelCaseLowerWelcome(s: string, w1: string, w2: string, w3: string, c: char)
    requires WelcomeWords(w1, w2, w3) && IsDelimiter(c) && s == w1 + [c] + w2 + [c] + w3
    ensures ToCamelCaseLower(s) == Ok("welcomeToThe")
  {
    WelcomeWordsCapitalized(w1, w2, w3);
    WelcomeLead(w1);
    assert "welcome" + "ToThe" == "welcomeToThe";
    CamelCaseLowerThreeIs(s, w1, w2, w3, c, "welcomeToThe");
  }

  /** The test inputs "Welcome to the", "Welcome To The" and "Welcome_To_The". */
  lemma CamelCaseUpperSeparated(s: string)
    requires s == "Welcome to the" || s == "Welcome To The" || s == "Welcome_To_The"
    ensures ToCamelCaseUpper(s) == "WelcomeToThe"
  {
    if s == "Welcome to the" {
      CamelCaseUpperWelcome(s, "Welcome", "to", "the", ' ');
    } else if s == "Welcome To The" {
      CamelCaseUpperWelcome(s, "Welcome", "To", "The", ' ');
    } else {
      CamelCaseUpperWelcome(s, "Welcome", "To", "The", '_');
    }
  }

  /** The test inputs "Welcome to the", "Welcome To The", "Welcome_To_The" and
      "Welcome-To-The", through both names of the conversion. */
  lemma CamelCaseLowerSeparated(s: string)
    requires s == "Welcome to the" || s == "Welcome To The" || s == "Welcome_To_The" || s == "Welcome-To-The"
    ensures ToCamelCaseLower(s) == Ok("welcomeToThe")
    ensures ToCamelCase(s) == Ok("welcomeToThe")
  {
    if s == "Welcome to the" {
      CamelCaseLowerWelcome(s, "Welcome", "to", "the", ' ');
    } else if s == "Welcome To The" {
      CamelCaseLowerWelcome(s, "Welcome", "To", "The", ' ');
    } else if s == "Welcome_To_The" {
      CamelCaseLowerWelcome(s, "Welcome", "To", "The", '_');
    } else {
      CamelCaseLowerWelcome(s, "Welcome", "To", "The", '-');
    }
  }

  /** Inputs already in PascalCase come back unchanged. */
  lemma CamelCaseUpperUnchanged(s: string)
    requires s == "WelcomeToThe" || s == "ISODate" || s == "IOStream" || s == "IOAAAStream"
    ensures ToCamelCaseUpper(s) == s
  {
    assert NoDelimiter(s) && !IsLower(s[0]);
    ToCamelCaseUpperFixedPoint(s);
  }

  /** A single word goes through the lead-word rewrite alone. */
  lemma CamelCaseLowerOneWord(s: string)
    requires s != [] && NoDelimiter(s)
    ensures Words(s) == [s]
    ensures ToCamelCaseLower(s) == Ok(LeadWord.Replace(s))
  {
    WordsJoin([s], ' ');
    assert Words(s) == [s];
    assert Concat(CapitalizeAll(Words(s)[1..])) == [];
    assert LeadWord.Replace(s) + [] == LeadWord.Replace(s);
  }

  /** A lead word the pattern matches as a whole: groups 1 and 2 lowered,
      group 3 kept. */
  lemma ReplaceWhole(w: string, m: nat, r: string)
    requires LeadWord.MatchAt(w, 0) == Some((m, |w|))
    requires LowerString(w[..m]) + w[m..] == r
    ensures LeadWord.Replace(w) == r
  {
    LeadWord.ReplaceFromMatch(w, 0, m, |w|);
    assert w[0..m] == w[..m] && w[m..|w|] == w[m..];
  }

  /** A single word the pattern matches as a whole, through both the
      conversion as written and the anchored one. */
  lemma CamelCaseLowerWhole(s: string, m: nat, r: string)
    requires s != [] && NoDelimiter(s)
    requires LeadWord.MatchAt(s, 0) == Some((m, |s|))
    requires LowerString(s[..m]) + s[m..] == r
    ensures ToCamelCaseLower(s) == Ok(r)
    ensures ToCamelCaseLowerAnchored(s) == Ok(r)
  {
    ReplaceWhole(s, m, r);
    CamelCaseLowerOneWord(s);
    ToCamelCaseLowerAnchoredAgrees(s);
  }

  lemma CamelCaseLowerJoinedMatch(w: string)
    requires w == "WelcomeToThe"
    ensures LeadWord.MatchAt(w, 0) == Some((7, |w|))
    ensures LowerString(w[..7]) + w[7..] == "welcomeToThe"
  {
    LeadWord.LowerOrDigitRunUnique(w, 1, 7);
    LeadWord.WordRunUnique(w, 8, 12);
    assert w[..7] == "Welcome" && w[7..] == "ToThe";
  }

  lemma CamelCaseLowerJoined(s: string)
    requires s == "WelcomeToThe"
    ensures ToCamelCaseLower(s) == Ok("welcomeToThe")
    ensures ToCamelCaseLowerAnchored(s) == Ok("welcomeToThe")
  {
    CamelCaseLowerJoinedMatch(s);
    CamelCaseLowerWhole(s, 7, "welcomeToThe");
  }

  lemma CamelCaseLowerAcronymMatch(w: string)
    requires w == "ISODate"
    ensures LeadWord.MatchAt(w, 0) == Some((3, |w|))
    ensures LowerString(w[..3]) + w[3..] == "isoDate"
  {
    LeadWord.UpperRunUnique(w, 1, 4);
    LeadWord.WordRunUnique(w, 4, 7);
    assert w[..3] == "ISO" && w[3..] == "Date";
  }

  lemma CamelCaseLowerAcronym(s: string)
    requires s == "ISODate"
    ensures ToCamelCaseLower(s) == Ok("isoDate")
    ensures ToCamelCaseLowerAnchored(s) == Ok("isoDate")
  {
    CamelCaseLowerAcronymMatch(s);
    CamelCaseLowerWhole(s, 3, "isoDate");
  }

  lemma CamelCaseLowerShortAcronymMatch(w: string)
    requires w == "IOStream"
    ensures LeadWord.MatchAt(w, 0) == Some((2, |w|))
    ensures LowerString(w[..2]) + w[2..] == "ioStream"
  {
    LeadWord.UpperRunUnique(w, 1, 3);
    LeadWord.WordRunUnique(w, 3, 8);
    assert w[..2] == "IO" && w[2..] == "Stream";
  }

  lemma CamelCaseLowerShortAcronym(s: string)
    requires s == "IOStream"
    ensures ToCamelCaseLower(s) == Ok("ioStream")
    ensures ToCamelCaseLowerAnchored(s) == Ok("ioStream")
  {
    CamelCaseLowerShortAcronymMatch(s);
    CamelCaseLowerWhole(s, 2, "ioStream");
  }

  lemma CamelCaseLowerLongAcronymMatch(w: string)
    requires w == "IOAAAStream"
    ensures LeadWord.MatchAt(w, 0) == Some((5, |w|))
    ensures LowerString(w[..5]) + w[5..] == "ioaaaStream"
  {
    LeadWord.UpperRunUnique(w, 1, 6);
    LeadWord.WordRunUnique(w, 6, 11);
    assert w[..5] == "IOAAA" && w[5..] == "Stream";
  }

  lemma CamelCaseLowerLongAcronym(s: string)
    requires s == "IOAAAStream"
    ensures ToCamelCaseLower(s) == Ok("ioaaaStream")
    ensures ToCamelCaseLowerAnchored(s) == Ok("ioaaaStream")
  {
    CamelCaseLowerLongAcronymMatch(s);
    CamelCaseLowerWhole(s, 5, "ioaaaStream");
  }

  // ---------------------------------------------------------------------
  // ToFirstCharLowerCase
  // ---------------------------------------------------------------------

  lemma FirstCharCases()
    ensures ToFirstCharLowerCase(Some("Abc")) == Some("abc")
    ensures ToFirstCharLowerCase(Some("aBc")) == Some("aBc")
    ensures ToFirstCharLowerCase(Some("")) == Some("")
    ensures ToFirstCharLowerCase(Some("A")) == Some("a")
    ensures ToFirstCharLowerCase(Some("abc")) == Some("abc")
  {
    assert !IsNullOrWhiteSpace(Some("Abc")) by { assert !IsWhiteSpace("Abc"[0]); }
    assert !IsNullOrWhiteSpace(Some("A")) by { assert !IsWhiteSpace("A"[0]); }
    assert [ToLower('A')] + "bc" == "abc";
  }
}
