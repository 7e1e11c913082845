/**
 * Text normalisation shared by every similarity strategy: `preprocess_text`
 * (lower-case, split on whitespace, re-join with single spaces), plus the
 * string operations the evaluation harness uses (substring test, replace,
 * strip).
 */
module Text {
  import opened Records

  /** The characters Python's `str.isspace()` accepts, which `split()` and
    * `strip()` treat as whitespace. */
  predicate IsSpace(c: char)
  {
    var n := c as int;
    (9 <= n <= 13) || (28 <= n <= 32) || n == 0x85 || n == 0xA0 || n == 0x1680
    || (0x2000 <= n <= 0x200A) || n == 0x2028 || n == 0x2029 || n == 0x202F
    || n == 0x205F || n == 0x3000
  }

  predicate IsUpper(c: char)
  {
    'A' <= c <= 'Z'
  }

  function LowerChar(c: char): char
  {
    if IsUpper(c) then (c as int + 32) as char else c
  }

  /** `s.lower()` on ASCII letters. */
  function Lower(s: string): string
  {
    seq(|s|, i requires 0 <= i < |s| => LowerChar(s[i]))
  }

  predicate IsLower(s: string)
  {
    forall i :: 0 <= i < |s| ==> !IsUpper(s[i])
  }

  predicate IsBlank(s: string)
  {
    forall i :: 0 <= i < |s| ==> IsSpace(s[i])
  }

  /** A non-empty run of non-whitespace characters, as `split()` produces. */
  predicate IsWord(w: string)
  {
    w != [] && forall i :: 0 <= i < |w| ==> !IsSpace(w[i])
  }

  predicate AllWords(ws: seq<string>)
  {
    forall k :: 0 <= k < |ws| ==> IsWord(ws[k])
  }

  /** Whitespace only as single ' ' characters strictly between two
    * non-whitespace characters: no leading, trailing or doubled separators. */
  predicate Canonical(r: string)
  {
    forall i :: 0 <= i < |r| && IsSpace(r[i]) ==>
      r[i] == ' ' && 0 < i < |r| - 1 && !IsSpace(r[i - 1]) && !IsSpace(r[i + 1])
  }

  /** The longest whitespace-free prefix of `s`. */
  function Token(s: string): (w: string)
    ensures |w| <= |s| && w == s[..|w|]
    ensures forall i :: 0 <= i < |w| ==> !IsSpace(w[i])
    ensures |w| == |s| || IsSpace(s[|w|])
    ensures s != [] && !IsSpace(s[0]) ==> |w| > 0
  {
    if s == [] || IsSpace(s[0]) then [] else [s[0]] + Token(s[1..])
  }

  /** `s.split()`: the maximal whitespace-free runs of `s`, in order. */
  function Words(s: string): seq<string>
    decreases |s|
  {
    if s == [] then []
    else if IsSpace(s[0]) then Words(s[1..])
    else var w := Token(s); [w] + Words(s[|w|..])
  }

  /** `" ".join(ws)`. */
  function JoinWords(ws: seq<string>): string
  {
    if ws == [] then ""
    else if |ws| == 1 then ws[0]
    else ws[0] + " " + JoinWords(ws[1..])
  }

  /** `preprocess_text` on a string: `" ".join(s.lower().split())`. */
  function Normalize(s: string): string
  {
    JoinWords(Words(Lower(s)))
  }

  /** `preprocess_text` on any JSON value: non-strings become "". */
  function Preprocess(v: Value): string
  {
    if v.Str? then Normalize(v.s) else ""
  }

  /** Python's `a in f` on strings. */
  predicate IsSubstring(a: string, f: string)
    decreases |f|
  {
    |a| <= |f| && (f[..|a|] == a || (f != [] && IsSubstring(a, f[1..])))
  }

  /** `s.replace(pat, rep)`: left-to-right, non-overlapping. */
  function ReplaceAll(s: string, pat: string, rep: string): string
    requires pat != []
    decreases |s|
  {
    if |s| < |pat| then s
    else if s[..|pat|] == pat then rep + ReplaceAll(s[|pat|..], pat, rep)
    else [s[0]] + ReplaceAll(s[1..], pat, rep)
  }

  function TrimStart(s: string): string
  {
    if s != [] && IsSpace(s[0]) then TrimStart(s[1..]) else s
  }

  function TrimEnd(s: string): string
  {
    if s != [] && IsSpace(s[|s| - 1]) then TrimEnd(s[..|s| - 1]) else s
  }

  /** `s.strip()`. */
  function Strip(s: string): string
  {
    TrimEnd(TrimStart(s))
  }

  // ---------------------------------------------------------------------------
  // split() and join()

  lemma {:induction false} WordsAreWords(s: string)
    ensures AllWords(Words(s))
    ensures IsLower(s) ==> forall k :: 0 <= k < |Words(s)| ==> IsLower(Words(s)[k])
    decreases |s|
  {
    if s == [] {
    } else if IsSpace(s[0]) {
      WordsAreWords(s[1..]);
    } else {
      var w := Token(s);
      WordsAreWords(s[|w|..]);
    }
  }

  /** `split()` yields nothing exactly on blank strings. */
  lemma {:induction false} WordsEmptyIffBlank(s: string)
    ensures Words(s) == [] <==> IsBlank(s)
    decreases |s|
  {
    if s != [] {
      WordsEmptyIffBlank(s[1..]);
      if IsSpace(s[0]) {
        assert IsBlank(s) <==> IsBlank(s[1..]) by {
          if IsBlank(s[1..]) {
            forall i | 0 <= i < |s| ensures IsSpace(s[i]) {
              if i > 0 { assert s[i] == s[1..][i - 1]; }
            }
          }
        }
      }
    }
  }

  lemma {:induction false} TokenOfWord(w: string, rest: string)
    requires forall i :: 0 <= i < |w| ==> !IsSpace(w[i])
    requires rest == [] || IsSpace(rest[0])
    ensures Token(w + rest) == w
    decreases |w|
  {
    if w == [] {
      assert w + rest == rest;
    } else {
      var s := w + rest;
      assert s[0] == w[0];
      assert s[1..] == w[1..] + rest;
      TokenOfWord(w[1..], rest);
      assert Token(s) == [w[0]] + w[1..];
      assert [w[0]] + w[1..] == w;
    }
  }

  /** Joining with single spaces gives a canonical string: lower case when the
    * words are, empty only when there are no words. */
  lemma {:induction false} JoinCanonical(ws: seq<string>)
    requires AllWords(ws)
    ensures Canonical(JoinWords(ws))
    ensures JoinWords(ws) == "" <==> ws == []
    ensures (forall k :: 0 <= k < |ws| ==> IsLower(ws[k])) ==> IsLower(JoinWords(ws))
  {
    if |ws| > 1 {
      var w, j := ws[0], JoinWords(ws[1..]);
      JoinCanonical(ws[1..]);
      var r := w + " " + j;
      assert r == JoinWords(ws);
      assert j != [];
      assert !IsSpace(j[0]);
      assert forall i :: 0 <= i < |w| ==> r[i] == w[i];
      forall i | 0 <= i < |r| && IsSpace(r[i])
        ensures r[i] == ' ' && 0 < i < |r| - 1 && !IsSpace(r[i - 1]) && !IsSpace(r[i + 1])
      {
        if i > |w| {
          assert r[i] == j[i - |w| - 1];
          if i - |w| - 1 > 0 { assert r[i - 1] == j[i - |w| - 2]; }
          assert r[i + 1] == j[i - |w|];
        }
      }
      if forall k :: 0 <= k < |ws| ==> IsLower(ws[k]) {
        assert IsLower(ws[0]);
        forall i | 0 <= i < |r| ensures !IsUpper(r[i]) {
          if i > |w| { assert r[i] == j[i - |w| - 1]; }
        }
      }
    }
  }

  /** `split()` undoes `" ".join(...)` on a list of words. */
  lemma {:induction false} WordsOfJoin(ws: seq<string>)
    requires AllWords(ws)
    ensures Words(JoinWords(ws)) == ws
  {
    if |ws| == 1 {
      var w := ws[0];
      TokenOfWord(w, []);
      assert w + [] == w;
      assert w[|w|..] == [];
    } else if |ws| > 1 {
      var w, j := ws[0], JoinWords(ws[1..]);
      JoinCanonical(ws[1..]);
      WordsOfJoin(ws[1..]);
      var r := w + " " + j;
      assert r == w + (" " + j);
      TokenOfWord(w, " " + j);
      assert r[|w|..] == " " + j;
      assert (" " + j)[1..] == j;
    }
  }

  // ---------------------------------------------------------------------------
  // preprocess_text

  lemma LowerIsLower(s: string)
    ensures IsLower(Lower(s))
    ensures IsBlank(Lower(s)) <==> IsBlank(s)
  {
    forall i | 0 <= i < |s| ensures IsSpace(Lower(s)[i]) <==> IsSpace(s[i]) {
      var c := s[i];
      if IsUpper(c) {
        assert 97 <= LowerChar(c) as int <= 122;
      }
    }
  }

  lemma LowerOfLower(s: string)
    requires IsLower(s)
    ensures Lower(s) == s
  {
  }

  /** `preprocess_text` returns a lower-case string whose only whitespace is
    * single spaces between words, with the same words as the lower-cased
    * input, and it is empty exactly when the input is blank. */
  lemma NormalizeCanonical(s: string)
    ensures IsLower(Normalize(s))
    ensures Canonical(Normalize(s))
    ensures Words(Normalize(s)) == Words(Lower(s))
    ensures Normalize(s) == "" <==> IsBlank(s)
  {
    var ws := Words(Lower(s));
    WordsAreWords(Lower(s));
    LowerIsLower(s);
    JoinCanonical(ws);
    WordsOfJoin(ws);
    WordsEmptyIffBlank(Lower(s));
  }

  /** Normalising twice is normalising once. */
  lemma NormalizeIdempotent(s: string)
    ensures Normalize(Normalize(s)) == Normalize(s)
  {
    var n := Normalize(s);
    NormalizeCanonical(s);
    LowerOfLower(n);
    assert Words(Lower(n)) == Words(Lower(s));
  }

  // ---------------------------------------------------------------------------
  // substring, replace, strip

  predicate OccursAt(a: string, f: string, i: int)
  {
    0 <= i <= |f| - |a| && f[i..i + |a|] == a
  }

  /** `a in f` holds exactly when `a` occurs at some offset of `f`. */
  lemma {:induction false} IsSubstringAt(a: string, f: string)
    ensures IsSubstring(a, f) <==> exists i :: OccursAt(a, f, i)
    decreases |f|
  {
    if |a| <= |f| && f[..|a|] == a {
      assert OccursAt(a, f, 0);
    } else if |a| <= |f| && f != [] {
      IsSubstringAt(a, f[1..]);
      if exists i :: OccursAt(a, f, i) {
        var i :| OccursAt(a, f, i);
        assert i > 0;
        assert OccursAt(a, f[1..], i - 1);
      }
      if IsSubstring(a, f[1..]) {
        var i :| OccursAt(a, f[1..], i);
        assert OccursAt(a, f, i + 1);
      }
    }
  }

  /** Every character `replace` outputs comes from the input or the replacement;
    * a one-character pattern absent from the replacement is gone afterwards;
    * a text in which the pattern never occurs is returned unchanged. */
  lemma {:induction false} ReplaceAllChars(s: string, pat: string, rep: string)
    requires pat != []
    ensures forall c :: c in ReplaceAll(s, pat, rep) ==> c in s || c in rep
    ensures |pat| == 1 && pat[0] !in rep ==> pat[0] !in ReplaceAll(s, pat, rep)
    ensures (forall i :: !OccursAt(pat, s, i)) ==> ReplaceAll(s, pat, rep) == s
    decreases |s|
  {
    if |s| < |pat| {
    } else if s[..|pat|] == pat {
      ReplaceAllChars(s[|pat|..], pat, rep);
      assert OccursAt(pat, s, 0);
      forall c | c in s[|pat|..] ensures c in s {
        var i :| 0 <= i < |s[|pat|..]| && s[|pat|..][i] == c;
        assert s[i + |pat|] == c;
      }
      if |pat| == 1 && pat[0] !in rep {
        assert s[0] == pat[0];
      }
    } else {
      ReplaceAllChars(s[1..], pat, rep);
      forall c | c in s[1..] ensures c in s {
        var i :| 0 <= i < |s[1..]| && s[1..][i] == c;
        assert s[i + 1] == c;
      }
      if |pat| == 1 {
        assert s[..1] == [s[0]];
      }
      forall i | OccursAt(pat, s[1..], i) ensures OccursAt(pat, s, i + 1) {
        assert s[1..][i..i + |pat|] == s[i + 1..i + 1 + |pat|];
      }
      assert s == [s[0]] + s[1..];
    }
  }

  /** An occurrence of the pattern at the front is replaced, and the scan
    * resumes after it. */
  lemma ReplaceAllPrefix(t: string, pat: string, rep: string)
    requires pat != []
    ensures ReplaceAll(pat + t, pat, rep) == rep + ReplaceAll(t, pat, rep)
  {
    assert (pat + t)[..|pat|] == pat;
    assert (pat + t)[|pat|..] == t;
  }

  /** A one-character pattern occurs exactly where that character does. */
  lemma OccursAtChar(c: char, s: string)
    ensures forall i :: OccursAt([c], s, i) <==> 0 <= i < |s| && s[i] == c
  {
    forall i | 0 <= i < |s| ensures OccursAt([c], s, i) <==> s[i] == c {
      assert s[i..i + 1] == [s[i]];
    }
  }

  /** `lstrip()` drops a prefix made only of whitespace and keeps the rest,
    * which does not start with whitespace. */
  lemma {:induction false} TrimStartSlice(s: string)
    ensures |TrimStart(s)| <= |s| && TrimStart(s) == s[|s| - |TrimStart(s)|..]
    ensures TrimStart(s) == [] || !IsSpace(TrimStart(s)[0])
    ensures forall i :: 0 <= i < |s| - |TrimStart(s)| ==> IsSpace(s[i])
    decreases |s|
  {
    if s != [] && IsSpace(s[0]) {
      TrimStartSlice(s[1..]);
      assert forall i :: 1 <= i < |s| ==> s[i] == s[1..][i - 1];
    }
  }

  /** `rstrip()` drops a suffix made only of whitespace and keeps the rest,
    * which does not end with whitespace. */
  lemma {:induction false} TrimEndSlice(s: string)
    ensures |TrimEnd(s)| <= |s| && TrimEnd(s) == s[..|TrimEnd(s)|]
    ensures TrimEnd(s) == [] || !IsSpace(TrimEnd(s)[|TrimEnd(s)| - 1])
    ensures forall i :: |TrimEnd(s)| <= i < |s| ==> IsSpace(s[i])
    decreases |s|
  {
    if s != [] && IsSpace(s[|s| - 1]) {
      TrimEndSlice(s[..|s| - 1]);
    }
  }

  /** `strip()` returns the slice `s[a..b]` of its input with only whitespace
    * outside it and none at its ends; a text without surrounding whitespace
    * is returned unchanged. */
  lemma StripTrims(s: string)
    ensures var a := |s| - |TrimStart(s)|;
            && |TrimStart(s)| <= |s| && a + |Strip(s)| <= |s| && Strip(s) == s[a..a + |Strip(s)|]
            && (forall i :: 0 <= i < a ==> IsSpace(s[i]))
            && (forall i :: a + |Strip(s)| <= i < |s| ==> IsSpace(s[i]))
    ensures Strip(s) == [] || (!IsSpace(Strip(s)[0]) && !IsSpace(Strip(s)[|Strip(s)| - 1]))
    ensures forall c :: c in Strip(s) ==> c in s
    ensures s == [] || (!IsSpace(s[0]) && !IsSpace(s[|s| - 1])) ==> Strip(s) == s
  {
    var t := TrimStart(s);
    TrimStartSlice(s);
    TrimEndSlice(t);
    var a := |s| - |t|;
    var r := Strip(s);
    assert r == t[..|r|];
    assert r == s[a..a + |r|];
    forall i | a + |r| <= i < |s| ensures IsSpace(s[i]) {
      assert s[i] == t[i - a];
    }
    if r != [] {
      assert r[0] == t[0];
    }
    forall c | c in r ensures c in s {
      var i :| 0 <= i < |r| && r[i] == c;
      assert t[i] == c;
      assert s[|s| - |t| + i] == c;
    }
  }
}
