/** The lead-word step of `ToCamelCaseLower`:
    `Regex.Replace(word, "([A-Z])([A-Z]+|[a-z0-9]+)($|[A-Z]\w*)", m =>
       lower(group 1) + lower(group 2) + group 3)`,
    written as a deterministic scan. `MatchAt` is what .NET's backtracking
    matcher finds at one position; `ReplaceFrom` is `Regex.Replace`'s
    leftmost, non-overlapping scan. */
module LeadWord {

  import opened Wrappers
  import opened Chars

  predicate IsLowerOrDigit(c: char) { IsLower(c) || IsDigit(c) }

  /** The end of the run of `[A-Z]` starting at `i`. */
  function UpperRun(s: string, i: nat): (j: nat)
    requires i <= |s|
    ensures i <= j <= |s|
    ensures forall k :: i <= k < j ==> IsUpper(s[k])
    ensures j == |s| || !IsUpper(s[j])
    decreases |s| - i
  {
    if i == |s| || !IsUpper(s[i]) then i else UpperRun(s, i + 1)
  }

  /** The end of the run of `[a-z0-9]` starting at `i`. */
  function LowerOrDigitRun(s: string, i: nat): (j: nat)
    requires i <= |s|
    ensures i <= j <= |s|
    ensures forall k :: i <= k < j ==> IsLowerOrDigit(s[k])
    ensures j == |s| || !IsLowerOrDigit(s[j])
    decreases |s| - i
  {
    if i == |s| || !IsLowerOrDigit(s[i]) then i else LowerOrDigitRun(s, i + 1)
  }

  /** The end of the run of `\w` starting at `i`: greedy `\w*`. */
  function WordRun(s: string, i: nat): (j: nat)
    requires i <= |s|
    ensures i <= j <= |s|
    ensures forall k :: i <= k < j ==> IsWordChar(s[k])
    ensures j == |s| || !IsWordChar(s[j])
    decreases |s| - i
  {
    if i == |s| || !IsWordChar(s[i]) then i else WordRun(s, i + 1)
  }

  /** `$` without RegexOptions.Multiline: the end, or just before a final '\n'. */
  predicate AtEnd(s: string, q: nat)
  {
    q == |s| || (q == |s| - 1 && s[q] == '\n')
  }

  /** The match at position `p`, as the end `m` of group 2 and the end `e` of
      group 3 (group 1 is `s[p]`, group 2 `s[p+1..m]`, group 3 `s[m..e]`).
      Group 2 tries `[A-Z]+` first, longest first, so that group 3 may start
      at the run's last capital; only when that fails does it try `[a-z0-9]+`. */
  function MatchAt(s: string, p: nat): (r: Option<(nat, nat)>)
    requires p <= |s|
    ensures r.Some? ==> p + 1 < r.value.0 <= r.value.1 <= |s|
  {
    if p + 1 >= |s| || !IsUpper(s[p]) then None
    else if IsUpper(s[p + 1]) then
      var q := UpperRun(s, p + 1);
      if AtEnd(s, q) then Some((q, q))
      else if q - (p + 1) >= 2 then Some((q - 1, WordRun(s, q)))
      else None
    else if IsLowerOrDigit(s[p + 1]) then
      var q := LowerOrDigitRun(s, p + 1);
      if AtEnd(s, q) then Some((q, q))
      else if IsUpper(s[q]) then Some((q, WordRun(s, q + 1)))
      else None
    else None
  }

  // A declarative reading of the pattern, to check MatchAt against.

  predicate AllUpper(s: string, i: nat, j: nat)
    requires i <= j <= |s|
  {
    forall k :: i <= k < j ==> IsUpper(s[k])
  }

  predicate AllLowerOrDigit(s: string, i: nat, j: nat)
    requires i <= j <= |s|
  {
    forall k :: i <= k < j ==> IsLowerOrDigit(s[k])
  }

  /** `s[p..e]` matches the pattern with group 2 ending at `m`, group 3's
      `\w*` taken as far as it goes. */
  predicate Candidate(s: string, p: nat, m: nat, e: nat)
  {
    && p + 1 < m <= e <= |s|
    && IsUpper(s[p])
    && (AllUpper(s, p + 1, m) || AllLowerOrDigit(s, p + 1, m))
    && ((e == m && AtEnd(s, m))
        || (m < e && IsUpper(s[m])
            && (forall k :: m < k < e ==> IsWordChar(s[k]))
            && (e == |s| || !IsWordChar(s[e]))))
  }

  /** The backtracking order: the `[A-Z]+` alternative before `[a-z0-9]+`,
      and within one alternative the longer group 2 first. */
  predicate Preferred(s: string, p: nat, m: nat, m': nat)
    requires p + 1 < m <= |s| && p + 1 < m' <= |s|
  {
    var upper, upper' := AllUpper(s, p + 1, m), AllUpper(s, p + 1, m');
    (upper && !upper') || (upper == upper' && m > m')
  }

  /** A `\w*` taken as far as it goes has one end. */
  lemma WordRunUnique(s: string, i: nat, e: nat)
    requires i <= e <= |s|
    requires forall k :: i <= k < e ==> IsWordChar(s[k])
    requires e == |s| || !IsWordChar(s[e])
    ensures e == WordRun(s, i)
    decreases e - i
  {
    if i < e { WordRunUnique(s, i + 1, e); }
  }

  /** A run of `[A-Z]` that stops at a non-capital has one end. */
  lemma UpperRunUnique(s: string, i: nat, e: nat)
    requires i <= e <= |s|
    requires forall k :: i <= k < e ==> IsUpper(s[k])
    requires e == |s| || !IsUpper(s[e])
    ensures e == UpperRun(s, i)
    decreases e - i
  {
    if i < e { UpperRunUnique(s, i + 1, e); }
  }

  /** A run of `[a-z0-9]` that stops at another character has one end. */
  lemma LowerOrDigitRunUnique(s: string, i: nat, e: nat)
    requires i <= e <= |s|
    requires forall k :: i <= k < e ==> IsLowerOrDigit(s[k])
    requires e == |s| || !IsLowerOrDigit(s[e])
    ensures e == LowerOrDigitRun(s, i)
    decreases e - i
  {
    if i < e { LowerOrDigitRunUnique(s, i + 1, e); }
  }

  /** What `MatchAtIsPreferredCandidate` states at `p`. */
  ghost predicate MatchesPreferred(s: string, p: nat)
    requires p <= |s|
  {
    && (MatchAt(s, p).None? <==> forall m, e :: !Candidate(s, p, m, e))
    && (MatchAt(s, p).Some? ==>
      var (m, e) := MatchAt(s, p).value;
      && Candidate(s, p, m, e)
      && forall m', e' :: Candidate(s, p, m', e') ==> (m' == m && e' == e) || Preferred(s, p, m, m'))
  }

  /** The `[A-Z]+` alternative: group 2 is the capital run, or all of it but
      the last capital when group 3 has to start there. */
  lemma MatchAtUpper(s: string, p: nat)
    requires p + 1 < |s| && IsUpper(s[p]) && IsUpper(s[p + 1])
    ensures MatchesPreferred(s, p)
  {
    var q := UpperRun(s, p + 1);
    forall m': nat, e': nat | Candidate(s, p, m', e')
      ensures AllUpper(s, p + 1, m') && m' <= q
      ensures m' == q ==> e' == q && AtEnd(s, q)
      ensures m' == q - 1 ==> e' == WordRun(s, q)
    {
      assert !IsLowerOrDigit(s[p + 1]);
      if m' == q - 1 {
        assert IsUpper(s[q - 1]);
        WordRunUnique(s, q, e');
      }
    }
    if AtEnd(s, q) {
      assert Candidate(s, p, q, q);
    } else if q - (p + 1) >= 2 {
      assert Candidate(s, p, q - 1, WordRun(s, q));
    }
  }

  /** The `[a-z0-9]+` alternative: group 2 is the whole run, and group 3 is
      the end or a capital and the `\w` run after it. */
  lemma MatchAtLowerOrDigit(s: string, p: nat)
    requires p + 1 < |s| && IsUpper(s[p]) && IsLowerOrDigit(s[p + 1])
    ensures MatchesPreferred(s, p)
  {
    var q := LowerOrDigitRun(s, p + 1);
    forall m': nat, e': nat | Candidate(s, p, m', e')
      ensures m' == q && AllLowerOrDigit(s, p + 1, m')
      ensures AtEnd(s, q) ==> e' == q
      ensures !AtEnd(s, q) ==> e' == WordRun(s, q + 1)
    {
      assert !IsUpper(s[p + 1]);
      assert e' != m' ==> IsUpper(s[m']);
      if !AtEnd(s, q) && m' == q {
        WordRunUnique(s, q + 1, e');
      }
    }
    if AtEnd(s, q) {
      assert Candidate(s, p, q, q);
    } else if IsUpper(s[q]) {
      assert Candidate(s, p, q, WordRun(s, q + 1));
    }
  }

  /** `MatchAt` finds a match exactly when the pattern matches at `p`, and
      then the one the backtracking order prefers to every other. */
  lemma MatchAtIsPreferredCandidate(s: string, p: nat)
    requires p <= |s|
    ensures MatchAt(s, p).None? <==> forall m, e :: !Candidate(s, p, m, e)
    ensures MatchAt(s, p).Some? ==>
      var (m, e) := MatchAt(s, p).value;
      && Candidate(s, p, m, e)
      && forall m', e' :: Candidate(s, p, m', e') ==> (m' == m && e' == e) || Preferred(s, p, m, m')
  {
    forall m': nat, e': nat | Candidate(s, p, m', e')
      ensures IsUpper(s[p + 1]) || IsLowerOrDigit(s[p + 1])
    {
      assert AllUpper(s, p + 1, m') ==> IsUpper(s[p + 1]);
      assert AllLowerOrDigit(s, p + 1, m') ==> IsLowerOrDigit(s[p + 1]);
    }
    if p + 1 >= |s| || !IsUpper(s[p]) {
    } else if IsUpper(s[p + 1]) {
      MatchAtUpper(s, p);
    } else if IsLowerOrDigit(s[p + 1]) {
      MatchAtLowerOrDigit(s, p);
    }
  }

  /** `Regex.Replace` from position `p`: at each position either the match
      there is rewritten (groups 1 and 2 lowered, group 3 kept) and the scan
      resumes after it, or the character is copied and the scan moves on.
      The result keeps the length and changes only capitals into their
      lower-case letters. */
  function ReplaceFrom(s: string, p: nat): (r: string)
    requires p <= |s|
    ensures |r| == |s| - p
    decreases |s| - p
  {
    if p == |s| then []
    else match MatchAt(s, p)
      case Some((m, e)) => LowerString(s[p..m]) + s[m..e] + ReplaceFrom(s, e)
      case None => [s[p]] + ReplaceFrom(s, p + 1)
  }

  /** One step of the scan, when there is no match at `p`. */
  lemma ReplaceFromCopy(s: string, p: nat)
    requires p < |s| && MatchAt(s, p).None?
    ensures ReplaceFrom(s, p) == [s[p]] + ReplaceFrom(s, p + 1)
  {
  }

  /** One step of the scan, when the match at `p` ends before `e`. */
  lemma ReplaceFromMatch(s: string, p: nat, m: nat, e: nat)
    requires p < |s| && MatchAt(s, p) == Some((m, e))
    ensures p < m <= e <= |s|
    ensures ReplaceFrom(s, p) == LowerString(s[p..m]) + s[m..e] + ReplaceFrom(s, e)
  {
  }

  /** `y` is `x` with some of its capitals lowered and nothing else changed. */
  predicate LowersCapitals(x: string, y: string)
  {
    |x| == |y| && forall k :: 0 <= k < |x| ==> y[k] == x[k] || (IsUpper(x[k]) && y[k] == ToLower(x[k]))
  }

  lemma LowersCapitalsAppend(x1: string, y1: string, x2: string, y2: string)
    requires LowersCapitals(x1, y1) && LowersCapitals(x2, y2)
    ensures LowersCapitals(x1 + x2, y1 + y2)
  {
    forall k | 0 <= k < |x1 + x2|
      ensures (y1 + y2)[k] == (x1 + x2)[k] || (IsUpper((x1 + x2)[k]) && (y1 + y2)[k] == ToLower((x1 + x2)[k]))
    {
      if k < |x1| {
        assert (x1 + x2)[k] == x1[k] && (y1 + y2)[k] == y1[k];
      } else {
        assert (x1 + x2)[k] == x2[k - |x1|] && (y1 + y2)[k] == y2[k - |x1|];
      }
    }
  }

  /** Lowering a prefix and keeping a middle only lowers capitals. */
  lemma LowersCapitalsMatch(x: string, mid: string, rest: string, rest': string)
    requires LowersCapitals(rest, rest')
    ensures LowersCapitals(x + mid + rest, LowerString(x) + mid + rest')
  {
    LowersCapitalsAppend(x, LowerString(x), mid, mid);
    LowersCapitalsAppend(x + mid, LowerString(x) + mid, rest, rest');
  }

  lemma LowersCapitalsParts(x: string, a: string, b: string, c: string, y: string, c': string)
    requires x == a + b + c && y == LowerString(a) + b + c' && LowersCapitals(c, c')
    ensures LowersCapitals(x, y)
  {
    LowersCapitalsMatch(a, b, c, c');
  }

  lemma ReplaceFromLowersMatch(s: string, p: nat, m: nat, e: nat)
    requires p < m <= e <= |s|
    requires ReplaceFrom(s, p) == LowerString(s[p..m]) + s[m..e] + ReplaceFrom(s, e)
    requires LowersCapitals(s[e..], ReplaceFrom(s, e))
    ensures LowersCapitals(s[p..], ReplaceFrom(s, p))
  {
    assert s[p..] == s[p..m] + s[m..e] + s[e..];
    LowersCapitalsParts(s[p..], s[p..m], s[m..e], s[e..], ReplaceFrom(s, p), ReplaceFrom(s, e));
  }

  lemma ReplaceFromLowersCopy(s: string, p: nat)
    requires p < |s| && MatchAt(s, p).None?
    requires LowersCapitals(s[p + 1..], ReplaceFrom(s, p + 1))
    ensures LowersCapitals(s[p..], ReplaceFrom(s, p))
  {
    ReplaceFromCopy(s, p);
    LowersCapitalsAppend([s[p]], [s[p]], s[p + 1..], ReplaceFrom(s, p + 1));
    assert s[p..] == [s[p]] + s[p + 1..];
  }

  /** The rewrite from `p` only lowers capitals of `s[p..]`. */
  lemma {:induction false} ReplaceFromLowers(s: string, p: nat)
    requires p <= |s|
    ensures LowersCapitals(s[p..], ReplaceFrom(s, p))
    decreases |s| - p
  {
    if p < |s| {
      match MatchAt(s, p)
      case Some((m, e)) =>
        ReplaceFromLowers(s, e);
        ReplaceFromMatch(s, p, m, e);
        ReplaceFromLowersMatch(s, p, m, e);
      case None =>
        ReplaceFromLowers(s, p + 1);
        ReplaceFromLowersCopy(s, p);
    }
  }

  /** The rewritten lead word. */
  function Replace(word: string): string
  {
    ReplaceFrom(word, 0)
  }

  /** The rewrite keeps the length, changes only capitals (into lower case),
      leaves a word without `[A-Z]` alone, and when the pattern matches at the
      very start it lowers groups 1 and 2 there and keeps group 3. */
  lemma ReplaceShape(word: string)
    ensures |Replace(word)| == |word|
    ensures forall i :: 0 <= i < |word| ==>
      Replace(word)[i] == word[i] || (IsUpper(word[i]) && Replace(word)[i] == ToLower(word[i]))
    ensures (forall i :: 0 <= i < |word| ==> !IsUpper(word[i])) ==> Replace(word) == word
    ensures MatchAt(word, 0).Some? ==>
      var (m, e) := MatchAt(word, 0).value;
      Replace(word)[..m] == LowerString(word[..m]) && Replace(word)[m..e] == word[m..e]
  {
    var r := Replace(word);
    ReplaceFromLowers(word, 0);
    assert word[0..] == word;
    if (forall i :: 0 <= i < |word| ==> !IsUpper(word[i])) {
      assert r == word;
    }
    if MatchAt(word, 0).Some? {
      var (m, e) := MatchAt(word, 0).value;
      assert r == LowerString(word[0..m]) + word[m..e] + ReplaceFrom(word, e);
      assert word[0..m] == word[..m];
    }
  }

  lemma CopyPrefix(s: string, p: nat, q: nat, r: string, r': string, rest: string)
    requires p < q <= |s| && r == [s[p]] + r' && r' == s[p + 1..q] + rest
    ensures r == s[p..q] + rest
  {
    assert s[p..q] == [s[p]] + s[p + 1..q];
  }

  /** Positions where the pattern does not match are copied. */
  lemma {:induction false} ReplaceFromCopies(s: string, p: nat, q: nat)
    requires p <= q <= |s|
    requires forall k :: p <= k < q ==> MatchAt(s, k).None?
    ensures ReplaceFrom(s, p) == s[p..q] + ReplaceFrom(s, q)
    decreases q - p
  {
    if p < q {
      ReplaceFromCopies(s, p + 1, q);
      ReplaceFromCopy(s, p);
      CopyPrefix(s, p, q, ReplaceFrom(s, p), ReplaceFrom(s, p + 1), ReplaceFrom(s, q));
    } else {
      assert s[p..q] == [];
    }
  }

  /** The scan is leftmost: up to the first position `q` where the pattern
      matches, the text is copied; that match has groups 1 and 2 lowered and
      group 3 kept; the scan then resumes after it. */
  lemma ReplaceFromLeftmost(s: string, p: nat, q: nat, m: nat, e: nat)
    requires p <= q < |s|
    requires forall k :: p <= k < q ==> MatchAt(s, k).None?
    requires MatchAt(s, q) == Some((m, e))
    ensures q < m <= e <= |s|
    ensures ReplaceFrom(s, p) == s[p..q] + LowerString(s[q..m]) + s[m..e] + ReplaceFrom(s, e)
  {
    ReplaceFromCopies(s, p, q);
    ReplaceFromMatch(s, q, m, e);
  }

  /** Where the pattern matches nowhere from `p` on, the rest is copied. */
  lemma ReplaceFromNone(s: string, p: nat)
    requires p <= |s|
    requires forall k :: p <= k < |s| ==> MatchAt(s, k).None?
    ensures ReplaceFrom(s, p) == s[p..]
  {
    ReplaceFromCopies(s, p, |s|);
  }

  /** The rewrite as written scans past the start of the word: a lead word
      that is already camel case has its second word lowered. */
  lemma {:induction false} ReplaceUnanchored(word: string)
    requires word == "welcomeToThe"
    ensures Replace(word) == "welcometoThe" != word
  {
    assert forall p :: 0 <= p < 7 ==> !IsUpper(word[p]);
    assert forall p :: 0 <= p < 7 ==> MatchAt(word, p).None?;
    LowerOrDigitRunUnique(word, 8, 9);
    WordRunUnique(word, 10, 12);
    assert MatchAt(word, 7) == Some((9, 12));
    ReplaceFromMatch(word, 7, 9, 12);
    ReplaceFromCopies(word, 0, 7);
    assert word[0..7] == "welcome" && word[7..9] == "To" && word[9..12] == "The";
    assert LowerString("To") == "to";
    assert ReplaceFrom(word, 12) == [];
  }

  /** The rewrite anchored at the start of the word: only a match beginning at
      index 0 is replaced, as if the pattern began with `^`. */
  function ReplaceAnchored(word: string): (r: string)
    ensures |r| == |word|
  {
    match MatchAt(word, 0)
    case Some((m, e)) => LowerString(word[..m]) + word[m..]
    case None => word
  }

  /** The anchored rewrite leaves a word that does not start with a capital
      alone, lowers the leading capital otherwise when the pattern matches,
      and applying it twice is applying it once. */
  lemma ReplaceAnchoredShape(word: string)
    ensures word == [] || !IsUpper(word[0]) ==> ReplaceAnchored(word) == word
    ensures MatchAt(word, 0).Some? ==> ReplaceAnchored(word)[0] == ToLower(word[0])
    ensures ReplaceAnchored(ReplaceAnchored(word)) == ReplaceAnchored(word)
  {
    var r := ReplaceAnchored(word);
    if MatchAt(word, 0).Some? {
      var (m, e) := MatchAt(word, 0).value;
      assert r[0] == LowerString(word[..m])[0];
      assert !IsUpper(r[0]);
    }
  }

  /** The word is one the start anchor makes no difference to: it has no
      capital, or the match at its start runs to its end. */
  predicate AnchorIrrelevant(word: string)
  {
    (forall i :: 0 <= i < |word| ==> !IsUpper(word[i]))
    || (MatchAt(word, 0).Some? && MatchAt(word, 0).value.1 == |word|)
  }

  /** On such words the anchored and the as-written rewrite agree. */
  lemma ReplaceAnchoredAgrees(word: string)
    requires AnchorIrrelevant(word)
    ensures ReplaceAnchored(word) == Replace(word)
  {
    ReplaceShape(word);
    if MatchAt(word, 0).Some? {
      var (m, e) := MatchAt(word, 0).value;
      if e == |word| {
        ReplaceFromMatch(word, 0, m, e);
        assert word[0..m] == word[..m] && word[m..e] == word[m..];
        assert ReplaceFrom(word, e) == [];
      }
    }
  }
}
