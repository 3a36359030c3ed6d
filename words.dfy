/** Word segmentation shared by the camel-case members:
    `str.Split(new[] { "_", " ", "-" }, StringSplitOptions.RemoveEmptyEntries)`. */
module Segmentation {

  /** The three separators. */
  predicate IsDelimiter(c: char) { c == '_' || c == ' ' || c == '-' }

  predicate NoDelimiter(s: string) { forall i :: 0 <= i < |s| ==> !IsDelimiter(s[i]) }

  /** How many separators `s` holds. */
  function DelimiterCount(s: string): nat
  {
    if s == [] then 0 else (if IsDelimiter(s[0]) then 1 else 0) + DelimiterCount(s[1..])
  }

  /** `s` with every separator removed. */
  function RemoveDelimiters(s: string): (r: string)
    ensures |r| == |s| - DelimiterCount(s)
    ensures NoDelimiter(r)
  {
    if s == [] then []
    else if IsDelimiter(s[0]) then RemoveDelimiters(s[1..])
    else [s[0]] + RemoveDelimiters(s[1..])
  }

  /** `string.Concat` / `string.Join(string.Empty, …)`. */
  function Concat(ws: seq<string>): string
  {
    if ws == [] then [] else ws[0] + Concat(ws[1..])
  }

  lemma {:induction false} ConcatAppend(a: seq<string>, b: seq<string>)
    ensures Concat(a + b) == Concat(a) + Concat(b)
  {
    if a == [] {
      assert a + b == b;
    } else {
      assert (a + b)[1..] == a[1..] + b;
      ConcatAppend(a[1..], b);
      assert a[0] + (Concat(a[1..]) + Concat(b)) == (a[0] + Concat(a[1..])) + Concat(b);
    }
  }

  /** `Split` without options: the pieces between separators, one more than
      there are separators, empty pieces included. */
  function Split(s: string): (r: seq<string>)
    ensures |r| == DelimiterCount(s) + 1
    ensures forall k :: 0 <= k < |r| ==> NoDelimiter(r[k])
    ensures Concat(r) == RemoveDelimiters(s)
  {
    if s == [] then [""]
    else
      var rest := Split(s[1..]);
      if IsDelimiter(s[0]) then
        assert Concat([""] + rest) == Concat(rest) by { assert ([""] + rest)[1..] == rest; }
        [""] + rest
      else
        var first := [s[0]] + rest[0];
        assert NoDelimiter(first) by {
          forall i | 0 <= i < |first| ensures !IsDelimiter(first[i]) {
            if i > 0 { assert first[i] == rest[0][i - 1]; }
          }
        }
        assert Concat([first] + rest[1..]) == [s[0]] + Concat(rest) by {
          assert ([first] + rest[1..])[1..] == rest[1..];
          assert Concat(rest) == rest[0] + Concat(rest[1..]);
        }
        [first] + rest[1..]
  }

  /** `StringSplitOptions.RemoveEmptyEntries`: drop the empty pieces, keep the order. */
  function RemoveEmpty(ws: seq<string>): (r: seq<string>)
    ensures |r| <= |ws|
    ensures forall k :: 0 <= k < |r| ==> r[k] != []
    ensures Concat(r) == Concat(ws)
    ensures (forall k :: 0 <= k < |ws| ==> NoDelimiter(ws[k])) ==> forall k :: 0 <= k < |r| ==> NoDelimiter(r[k])
  {
    if ws == [] then []
    else if ws[0] == [] then RemoveEmpty(ws[1..])
    else [ws[0]] + RemoveEmpty(ws[1..])
  }

  /** The words of `s`: non-empty, separator-free, and together exactly the
      non-separator characters of `s` in order. */
  function Words(s: string): (ws: seq<string>)
    ensures forall k :: 0 <= k < |ws| ==> ws[k] != [] && NoDelimiter(ws[k])
    ensures Concat(ws) == RemoveDelimiters(s)
  {
    RemoveEmpty(Split(s))
  }

  /** There are no words exactly when every character is a separator. */
  lemma NoWordsIff(s: string)
    ensures Words(s) == [] <==> forall i :: 0 <= i < |s| ==> IsDelimiter(s[i])
  {
    var ws := Words(s);
    if ws != [] {
      assert |Concat(ws)| >= |ws[0]| > 0;
    } else {
      AllDelimitersIff(s);
    }
    AllDelimitersIff(s);
  }

  lemma {:induction false} AllDelimitersIff(s: string)
    ensures RemoveDelimiters(s) == [] <==> forall i :: 0 <= i < |s| ==> IsDelimiter(s[i])
  {
    if s != [] {
      AllDelimitersIff(s[1..]);
      if forall i :: 0 <= i < |s| ==> IsDelimiter(s[i]) {
        assert forall i :: 0 <= i < |s[1..]| ==> IsDelimiter(s[1..][i]) by {
          forall i | 0 <= i < |s[1..]| ensures IsDelimiter(s[1..][i]) { assert s[1..][i] == s[i + 1]; }
        }
      } else if IsDelimiter(s[0]) {
        var i :| 0 <= i < |s| && !IsDelimiter(s[i]);
        assert s[1..][i - 1] == s[i];
      }
    }
  }

  /** A separator-free string is one piece. */
  lemma {:induction false} SplitNoDelimiter(w: string)
    requires NoDelimiter(w)
    ensures Split(w) == [w]
  {
    if w != [] {
      assert NoDelimiter(w[1..]) by {
        forall i | 0 <= i < |w[1..]| ensures !IsDelimiter(w[1..][i]) { assert w[1..][i] == w[i + 1]; }
      }
      SplitNoDelimiter(w[1..]);
      assert [w[0]] + w[1..] == w;
    }
  }

  /** Splitting after a separator-free prefix and one separator. */
  lemma {:induction false} SplitAfter(w: string, c: char, rest: string)
    requires NoDelimiter(w) && IsDelimiter(c)
    ensures Split(w + [c] + rest) == [w] + Split(rest)
  {
    if w == [] {
      assert w + [c] + rest == [c] + rest;
      assert ([c] + rest)[1..] == rest;
    } else {
      var s := w + [c] + rest;
      assert s[1..] == w[1..] + [c] + rest;
      assert NoDelimiter(w[1..]) by {
        forall i | 0 <= i < |w[1..]| ensures !IsDelimiter(w[1..][i]) { assert w[1..][i] == w[i + 1]; }
      }
      SplitAfter(w[1..], c, rest);
      assert [w[0]] + w[1..] == w;
    }
  }

  /** Joining separator-free pieces with one separator. */
  function JoinWith(ws: seq<string>, c: char): string
    requires ws != []
  {
    if |ws| == 1 then ws[0] else ws[0] + [c] + JoinWith(ws[1..], c)
  }

  /** `Split` undoes joining separator-free pieces with any one separator. */
  lemma {:induction false} SplitJoin(ws: seq<string>, c: char)
    requires ws != [] && IsDelimiter(c)
    requires forall k :: 0 <= k < |ws| ==> NoDelimiter(ws[k])
    ensures Split(JoinWith(ws, c)) == ws
  {
    if |ws| == 1 {
      SplitNoDelimiter(ws[0]);
    } else {
      SplitJoin(ws[1..], c);
      SplitAfter(ws[0], c, JoinWith(ws[1..], c));
      assert [ws[0]] + ws[1..] == ws;
    }
  }

  /** Removing empty pieces keeps a list that has none. */
  lemma {:induction false} RemoveEmptyNone(ws: seq<string>)
    requires forall k :: 0 <= k < |ws| ==> ws[k] != []
    ensures RemoveEmpty(ws) == ws
  {
    if ws != [] {
      RemoveEmptyNone(ws[1..]);
      assert [ws[0]] + ws[1..] == ws;
    }
  }

  /** The words of non-empty, separator-free pieces joined by one separator
      are those pieces; a single such piece is its own only word. */
  lemma WordsJoin(ws: seq<string>, c: char)
    requires ws != [] && IsDelimiter(c)
    requires forall k :: 0 <= k < |ws| ==> ws[k] != [] && NoDelimiter(ws[k])
    ensures Words(JoinWith(ws, c)) == ws
    ensures Words(ws[0]) == [ws[0]]
  {
    SplitJoin(ws, c);
    RemoveEmptyNone(ws);
    SplitNoDelimiter(ws[0]);
    RemoveEmptyNone([ws[0]]);
  }

  /** The separators of `s`, in order. */
  function Delimiters(s: string): (ds: seq<char>)
    ensures |ds| == DelimiterCount(s)
    ensures forall k :: 0 <= k < |ds| ==> IsDelimiter(ds[k])
  {
    if s == [] then [] else (if IsDelimiter(s[0]) then [s[0]] else []) + Delimiters(s[1..])
  }

  /** Pieces joined with one given separator at each joint. */
  function JoinWithSeps(ws: seq<string>, cs: seq<char>): string
    requires |ws| == |cs| + 1
  {
    if cs == [] then ws[0] else ws[0] + [cs[0]] + JoinWithSeps(ws[1..], cs[1..])
  }

  lemma JoinWithSepsPrepend(x: string, ws: seq<string>, cs: seq<char>)
    requires |ws| == |cs| + 1
    ensures JoinWithSeps([x + ws[0]] + ws[1..], cs) == x + JoinWithSeps(ws, cs)
  {
    var ws' := [x + ws[0]] + ws[1..];
    assert ws'[0] == x + ws[0] && ws'[1..] == ws[1..];
  }

  /** `Split` undoes joining separator-free pieces, empty ones included, with
      any separators at the joints. */
  lemma {:induction false} SplitJoinSeps(ws: seq<string>, cs: seq<char>)
    requires |ws| == |cs| + 1
    requires forall k :: 0 <= k < |cs| ==> IsDelimiter(cs[k])
    requires forall k :: 0 <= k < |ws| ==> NoDelimiter(ws[k])
    ensures Split(JoinWithSeps(ws, cs)) == ws
  {
    if cs == [] {
      SplitNoDelimiter(ws[0]);
      assert ws == [ws[0]];
    } else {
      SplitJoinSeps(ws[1..], cs[1..]);
      SplitAfter(ws[0], cs[0], JoinWithSeps(ws[1..], cs[1..]));
      assert [ws[0]] + ws[1..] == ws;
    }
  }

  /** Every string is its split pieces joined again by its own separators, so
      together with `SplitJoinSeps` this fixes `Split` on every input. */
  lemma {:induction false} JoinSplit(s: string)
    ensures JoinWithSeps(Split(s), Delimiters(s)) == s
  {
    if s != [] {
      var rest, ds := Split(s[1..]), Delimiters(s[1..]);
      JoinSplit(s[1..]);
      if IsDelimiter(s[0]) {
        var ws, cs := Split(s), Delimiters(s);
        assert ws == [""] + rest && cs == [s[0]] + ds;
        assert ws[0] == "" && ws[1..] == rest && cs[0] == s[0] && cs[1..] == ds;
        assert [s[0]] + s[1..] == s;
      } else {
        assert Split(s) == [[s[0]] + rest[0]] + rest[1..];
        assert Delimiters(s) == ds;
        JoinWithSepsPrepend([s[0]], rest, ds);
        assert [s[0]] + s[1..] == s;
      }
    }
  }

  /** `RemoveEmptyEntries` works piece by piece. */
  lemma {:induction false} RemoveEmptyAppend(a: seq<string>, b: seq<string>)
    ensures RemoveEmpty(a + b) == RemoveEmpty(a) + RemoveEmpty(b)
  {
    if a == [] {
      assert a + b == b;
    } else {
      assert (a + b)[0] == a[0] && (a + b)[1..] == a[1..] + b;
      RemoveEmptyAppend(a[1..], b);
    }
  }

  /** One piece is dropped exactly when it is empty. */
  lemma RemoveEmptySingleton(w: string)
    ensures RemoveEmpty([w]) == if w == [] then [] else [w]
  {
    assert [w][1..] == [];
  }

  /** The words of any join of separator-free pieces are its non-empty pieces. */
  lemma WordsJoinSeps(ws: seq<string>, cs: seq<char>)
    requires |ws| == |cs| + 1
    requires forall k :: 0 <= k < |cs| ==> IsDelimiter(cs[k])
    requires forall k :: 0 <= k < |ws| ==> NoDelimiter(ws[k])
    ensures Words(JoinWithSeps(ws, cs)) == RemoveEmpty(ws)
  {
    SplitJoinSeps(ws, cs);
  }
}
