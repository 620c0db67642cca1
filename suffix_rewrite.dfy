/** The rewrite that the any_executor printer applies to a captured template-argument
    type name before looking it up: every integer literal that starts a word and
    carries a `u` suffix, optionally followed by `l`s, and ends the word, loses the
    suffix, so that `16ul` becomes `16`.

    `Sub` models the left-to-right scan of Python's `re.sub` position by position;
    `ByWords` is an independent description that splits the name into maximal words
    and rewrites each word read from its end (a word of digits, a `u` and `l`s becomes
    its digits). `SubIsByWords` proves them equal, and idempotence is proved on the
    word description.

    Word characters are ASCII letters, digits and `_`; Python's Unicode word
    characters beyond ASCII are not modelled. */
module SuffixRewrite {
  import opened Host
  import opened Format

  predicate IsWordChar(c: char) {
    IsDigit(c) || 'a' <= c <= 'z' || 'A' <= c <= 'Z' || c == '_'
  }

  /** Length of the maximal run of word characters at the start of `s`. */
  function WordRun(s: string): (n: nat)
    ensures n <= |s| && forall i :: 0 <= i < n ==> IsWordChar(s[i])
    ensures n < |s| ==> !IsWordChar(s[n])
  {
    if |s| > 0 && IsWordChar(s[0]) then 1 + WordRun(s[1..]) else 0
  }

  /** A match of `[0-9]+ul*\b` at the start of the text: the number of digits it
      keeps and the number of characters it covers. */
  datatype LiteralMatch = LiteralMatch(digits: nat, end: nat)

  /** Where `[0-9]+ul*\b` matches at the start of `s`. Backtracking cannot help:
      the digits must be the whole digit run (a `u` must follow), and the `l`s the
      whole `l` run (there is no word boundary between two word characters). The
      leading `\b` is the caller's business: it holds when no word character
      precedes. */
  function MatchLiteral(s: string): (r: Option<LiteralMatch>)
    ensures r.Some? ==> 0 < r.value.digits < r.value.end <= |s|
    ensures r.Some? ==> r.value.end == |s| || !IsWordChar(s[r.value.end])
  {
    var k := DigitSpan(s);
    if 0 < k < |s| && s[k] == 'u' then
      var m := k + 1 + CharSpan(s[k + 1..], 'l');
      if m == |s| || !IsWordChar(s[m]) then Some(LiteralMatch(k, m)) else None
    else None
  }

  /** What a match covers: digits, then a `u`, then only `l`s. */
  lemma MatchLiteralShape(s: string)
    ensures var r := MatchLiteral(s);
            r.Some? ==> (forall i :: 0 <= i < r.value.digits ==> IsDigit(s[i]))
                        && s[r.value.digits] == 'u'
                        && forall i :: r.value.digits < i < r.value.end ==> s[i] == 'l'
  {
    var k := DigitSpan(s);
    if 0 < k < |s| && s[k] == 'u' {
      var l := CharSpan(s[k + 1..], 'l');
      forall i | k < i < k + 1 + l ensures s[i] == 'l' {
        assert s[i] == s[k + 1..][i - k - 1];
      }
    }
  }

  /** Every suffixed literal that ends a word is matched, whole. */
  lemma MatchLiteralComplete(d: string, k: nat, t: string)
    requires |d| > 0 && AllDigits(d) && StartsOutsideWord(t)
    ensures MatchLiteral(Suffixed(d, k) + t) == Some(LiteralMatch(|d|, |d| + 1 + k))
  {
    var r := Repeat('l', k) + t;
    var s := d + (['u'] + r);
    assert Suffixed(d, k) + t == s;
    DigitsThenU(d, r);
    LsThenBoundary(k, t);
    var m := |d| + 1 + k;
    assert m < |s| ==> s[m] == r[k];
    MatchLiteralAfterSuffix(s, |d|, m);
  }

  lemma DigitsThenU(d: string, r: string)
    requires |d| > 0 && AllDigits(d)
    ensures var s := d + (['u'] + r);
            DigitSpan(s) == |d| && s[|d|] == 'u' && s[|d| + 1..] == r
  {
    DigitSpanOf(d, ['u'] + r);
    assert (d + (['u'] + r))[|d| + 1..] == r;
  }

  lemma LsThenBoundary(k: nat, t: string)
    requires StartsOutsideWord(t)
    ensures var r := Repeat('l', k) + t;
            CharSpan(r, 'l') == k && (k == |r| || !IsWordChar(r[k]))
  {
    CharSpanOf('l', Repeat('l', k), t);
    assert k < |Repeat('l', k) + t| ==> (Repeat('l', k) + t)[k] == t[0];
  }

  /** The scan of `re.sub`: `afterWord` tells whether the previous character of the
      original string is a word character (then `\b` cannot hold before a digit).
      After a match the scan resumes where the match ended. */
  function Sub(s: string, afterWord: bool): string
    decreases |s|
  {
    if |s| == 0 then ""
    else if !afterWord && MatchLiteral(s).Some? then
      var m := MatchLiteral(s).value;
      s[..m.digits] + Sub(s[m.end..], true)
    else [s[0]] + Sub(s[1..], IsWordChar(s[0]))
  }

  /** The rewrite applied to a whole type name. */
  function StripLiteralSuffixes(name: string): string {
    Sub(name, false)
  }

  predicate AllDigits(d: string) { forall i :: 0 <= i < |d| ==> IsDigit(d[i]) }

  /** The digits `d`, a `u`, then `k` letters `l`: a literal with an unsigned suffix. */
  function Suffixed(d: string, k: nat): string {
    d + (['u'] + Repeat('l', k))
  }

  /** How many `l`s end `w`. */
  function TrailingLs(w: string): (n: nat)
    ensures n <= |w| && forall i :: |w| - n <= i < |w| ==> w[i] == 'l'
    ensures n < |w| ==> w[|w| - n - 1] != 'l'
  {
    if |w| > 0 && w[|w| - 1] == 'l' then 1 + TrailingLs(w[..|w| - 1]) else 0
  }

  /** One whole word, rewritten, read from its end: without its trailing `l`s, a word
      that ends in `u` preceded only by digits (at least one) becomes those digits;
      any other word is kept. */
  function NormalizeWord(w: string): string {
    var v := w[..|w| - TrailingLs(w)];
    if |v| >= 2 && v[|v| - 1] == 'u' && AllDigits(v[..|v| - 1]) then v[..|v| - 1] else w
  }

  /** The reference description: split into maximal words and single other
      characters, rewrite the words. */
  function ByWords(s: string): string
    decreases |s|
  {
    if |s| == 0 then ""
    else if !IsWordChar(s[0]) then [s[0]] + ByWords(s[1..])
    else
      var n := WordRun(s);
      NormalizeWord(s[..n]) + ByWords(s[n..])
  }

  predicate AllWord(w: string) { forall i :: 0 <= i < |w| ==> IsWordChar(w[i]) }

  /** `t` starts a new word only after a non-word character. */
  predicate StartsOutsideWord(t: string) { t == [] || !IsWordChar(t[0]) }

  // ---------------------------------------------------------------------------
  // Maximal runs do not look past the end of a word.

  lemma {:induction false} DigitSpanInWord(w: string, t: string)
    requires StartsOutsideWord(t)
    ensures DigitSpan(w + t) == DigitSpan(w)
  {
    if |w| > 0 {
      assert (w + t)[0] == w[0];
      assert (w + t)[1..] == w[1..] + t;
      DigitSpanInWord(w[1..], t);
    } else {
      assert w + t == t;
    }
  }

  lemma {:induction false} LSpanInWord(w: string, t: string)
    requires StartsOutsideWord(t)
    ensures CharSpan(w + t, 'l') == CharSpan(w, 'l')
  {
    if |w| > 0 {
      assert (w + t)[0] == w[0];
      assert (w + t)[1..] == w[1..] + t;
      LSpanInWord(w[1..], t);
    } else {
      assert w + t == t;
    }
  }

  lemma {:induction false} WordRunOfWord(w: string, t: string)
    requires AllWord(w) && StartsOutsideWord(t)
    ensures WordRun(w + t) == |w|
  {
    if |w| > 0 {
      assert (w + t)[0] == w[0];
      assert (w + t)[1..] == w[1..] + t;
      WordRunOfWord(w[1..], t);
    } else {
      assert w + t == t;
    }
  }

  /** Matching at the start of a word sees only that word. */
  lemma MatchLiteralInWord(w: string, t: string)
    requires StartsOutsideWord(t)
    ensures MatchLiteral(w + t) == MatchLiteral(w)
  {
    var s := w + t;
    DigitSpanInWord(w, t);
    var k := DigitSpan(w);
    if 0 < k < |w| && w[k] == 'u' {
      LiteralTailInWord(w, t, k);
    } else if k == |w| {
      assert k < |s| ==> s[k] == t[0];
    } else {
      assert s[k] == w[k];
    }
  }

  /** After the digits and the `u`, the run of `l`s and the boundary test see only
      the word. */
  lemma LiteralTailInWord(w: string, t: string, k: nat)
    requires StartsOutsideWord(t)
    requires 0 < k < |w| && w[k] == 'u' && DigitSpan(w + t) == k == DigitSpan(w)
    ensures MatchLiteral(w + t) == MatchLiteral(w)
  {
    var s := w + t;
    LSpanAfterSuffix(w, t, k);
    var m := k + 1 + CharSpan(w[k + 1..], 'l');
    BoundaryInWord(w, t, m);
    assert s[k] == 'u';
    MatchLiteralAfterSuffix(s, k, m);
    MatchLiteralAfterSuffix(w, k, m);
  }

  /** `MatchLiteral` once the digit run, the `u` and the run of `l`s are known. */
  lemma MatchLiteralAfterSuffix(s: string, k: nat, m: nat)
    requires 0 < k < |s| && DigitSpan(s) == k && s[k] == 'u' && m == k + 1 + CharSpan(s[k + 1..], 'l')
    ensures MatchLiteral(s) == if m == |s| || !IsWordChar(s[m]) then Some(LiteralMatch(k, m)) else None
  {
  }

  lemma LSpanAfterSuffix(w: string, t: string, k: nat)
    requires StartsOutsideWord(t) && k < |w|
    ensures CharSpan((w + t)[k + 1..], 'l') == CharSpan(w[k + 1..], 'l')
  {
    assert (w + t)[k + 1..] == w[k + 1..] + t;
    LSpanInWord(w[k + 1..], t);
  }

  /** The test for the end of a word at `m` inside `w` does not look into `t`. */
  lemma BoundaryInWord(w: string, t: string, m: nat)
    requires StartsOutsideWord(t) && m <= |w|
    ensures (m == |w + t| || !IsWordChar((w + t)[m])) == (m == |w| || !IsWordChar(w[m]))
  {
    if m < |w| {
      assert (w + t)[m] == w[m];
    } else if m < |w + t| {
      assert (w + t)[m] == t[0];
    }
  }

  // ---------------------------------------------------------------------------
  // The scan agrees with the word description.

  /** Inside a word the scan copies characters: no boundary precedes a digit once a
      word character has been seen, and none at the word's start if no literal
      matches there. */
  lemma {:induction false} SubCopiesWord(w: string, t: string, afterWord: bool)
    requires AllWord(w) && (afterWord || (|w| > 0 && MatchLiteral(w + t).None?))
    ensures Sub(w + t, afterWord) == w + Sub(t, true)
  {
    if |w| > 0 {
      assert (w + t)[0] == w[0];
      assert (w + t)[1..] == w[1..] + t;
      SubCopiesWord(w[1..], t, true);
      assert [w[0]] + w[1..] == w;
    } else {
      assert w + t == t;
    }
  }

  /** Before a non-word character the previous character does not matter. */
  lemma SubOutsideWord(t: string)
    requires StartsOutsideWord(t)
    ensures Sub(t, true) == Sub(t, false)
  {
  }

  /** At the start of a word the scan rewrites that word and resumes after it. */
  lemma SubOfWord(w: string, t: string)
    requires AllWord(w) && |w| > 0 && StartsOutsideWord(t)
    ensures Sub(w + t, false) == NormalizeWord(w) + Sub(t, true)
  {
    MatchLiteralInWord(w, t);
    MatchLiteralIsNormalize(w);
    match MatchLiteral(w)
    case Some(m) =>
      SubOfLiteralWord(w, t, m);
    case None =>
      SubCopiesWord(w, t, false);
  }

  lemma SubOfLiteralWord(w: string, t: string, m: LiteralMatch)
    requires MatchLiteral(w + t) == Some(m) && m.end == |w|
    ensures Sub(w + t, false) == w[..m.digits] + Sub(t, true)
  {
    var s := w + t;
    assert s[m.end..] == t;
    assert s[..m.digits] == w[..m.digits];
  }

  lemma {:induction false} SubIsByWords(s: string)
    ensures Sub(s, false) == ByWords(s)
    decreases |s|
  {
    if |s| == 0 {
    } else if !IsWordChar(s[0]) {
      SubIsByWords(s[1..]);
    } else {
      var n := WordRun(s);
      var w, t := s[..n], s[n..];
      assert s == w + t;
      SubOfWord(w, t);
      SubOutsideWord(t);
      SubIsByWords(t);
    }
  }

  lemma StripIsByWords(name: string)
    ensures StripLiteralSuffixes(name) == ByWords(name)
  {
    SubIsByWords(name);
  }

  // ---------------------------------------------------------------------------
  // Idempotence.

  /** A word that is a suffixed literal, read from its `u`. */
  lemma IsSuffixed(w: string, j: nat)
    requires j < |w| && w[j] == 'u' && forall i :: j < i < |w| ==> w[i] == 'l'
    ensures w == Suffixed(w[..j], |w| - j - 1)
  {
    var r := Suffixed(w[..j], |w| - j - 1);
    forall i | 0 <= i < |w| ensures r[i] == w[i] {
      if i < j {
        assert r[i] == w[..j][i];
      } else if i > j {
        assert r[i] == Repeat('l', |w| - j - 1)[i - j - 1];
      }
    }
  }

  lemma {:induction false} TrailingLsOf(p: string, k: nat)
    requires |p| == 0 || p[|p| - 1] != 'l'
    ensures TrailingLs(p + Repeat('l', k)) == k
  {
    var s := p + Repeat('l', k);
    if k > 0 {
      assert s[|s| - 1] == 'l';
      assert s[..|s| - 1] == p + Repeat('l', k - 1);
      TrailingLsOf(p, k - 1);
    } else {
      assert s == p;
    }
  }

  /** A suffixed literal loses its suffix. */
  lemma NormalizeSuffixed(d: string, k: nat)
    requires |d| > 0 && AllDigits(d)
    ensures NormalizeWord(Suffixed(d, k)) == d
  {
    var w := Suffixed(d, k);
    assert w == (d + ['u']) + Repeat('l', k);
    TrailingLsOf(d + ['u'], k);
    assert w[..|w| - k] == d + ['u'];
    assert (d + ['u'])[..|d|] == d;
  }

  /** Only a suffixed literal changes, and it becomes its digits. */
  lemma NormalizeShape(w: string)
    ensures NormalizeWord(w) == w
            || (|NormalizeWord(w)| > 0 && AllDigits(NormalizeWord(w))
                && w == Suffixed(NormalizeWord(w), |w| - |NormalizeWord(w)| - 1))
  {
    var v := w[..|w| - TrailingLs(w)];
    if |v| >= 2 && v[|v| - 1] == 'u' && AllDigits(v[..|v| - 1]) {
      var j := |v| - 1;
      assert w[j] == 'u';
      IsSuffixed(w, j);
      assert v[..j] == w[..j];
    }
  }

  /** The scan's match at the start of a word decides the word's rewrite. */
  lemma MatchLiteralIsNormalize(w: string)
    requires AllWord(w) && |w| > 0
    ensures MatchLiteral(w).Some? ==> MatchLiteral(w).value.end == |w|
                                      && NormalizeWord(w) == w[..MatchLiteral(w).value.digits]
    ensures MatchLiteral(w).None? ==> NormalizeWord(w) == w
  {
    match MatchLiteral(w)
    case Some(m) =>
      MatchLiteralShape(w);
      assert m.end == |w|;
      var d := w[..m.digits];
      assert AllDigits(d);
      IsSuffixed(w, m.digits);
      NormalizeSuffixed(d, m.end - m.digits - 1);
    case None =>
      ChangedWordMatches(w);
  }

  /** A word the rewrite changes is one the scan matches. */
  lemma ChangedWordMatches(w: string)
    ensures NormalizeWord(w) != w ==> MatchLiteral(w).Some?
  {
    NormalizeShape(w);
    if NormalizeWord(w) != w {
      var d := NormalizeWord(w);
      assert Suffixed(d, |w| - |d| - 1) + [] == w;
      MatchLiteralComplete(d, |w| - |d| - 1, []);
    }
  }

  lemma NormalizeWordIsWord(w: string)
    requires AllWord(w) && |w| > 0
    ensures AllWord(NormalizeWord(w)) && |NormalizeWord(w)| > 0
  {
    NormalizeShape(w);
  }

  lemma NormalizeWordIdempotent(w: string)
    ensures NormalizeWord(NormalizeWord(w)) == NormalizeWord(w)
  {
    NormalizeShape(w);
    var d := NormalizeWord(w);
    if d != w {
      assert TrailingLs(d) == 0 by {
        assert d[|d| - 1] != 'l';
      }
      assert d[..|d|] == d;
    }
  }

  /** The word description splits at the end of a word. */
  lemma ByWordsAfterWord(w: string, t: string)
    requires AllWord(w) && |w| > 0 && StartsOutsideWord(t)
    ensures ByWords(w + t) == NormalizeWord(w) + ByWords(t)
  {
    var s := w + t;
    assert s[0] == w[0];
    WordRunOfWord(w, t);
    assert s[..|w|] == w && s[|w|..] == t;
  }

  lemma ByWordsStartsOutsideWord(t: string)
    requires StartsOutsideWord(t)
    ensures StartsOutsideWord(ByWords(t))
  {
  }

  lemma {:induction false} ByWordsIdempotent(s: string)
    ensures ByWords(ByWords(s)) == ByWords(s)
    decreases |s|
  {
    if |s| == 0 {
    } else if !IsWordChar(s[0]) {
      var rest := ByWords(s[1..]);
      ByWordsIdempotent(s[1..]);
      assert ([s[0]] + rest)[1..] == rest;
    } else {
      var n := WordRun(s);
      var w, t := s[..n], s[n..];
      ByWordsIdempotent(t);
      ByWordsStartsOutsideWord(t);
      NormalizeWordIsWord(w);
      ByWordsAfterWord(NormalizeWord(w), ByWords(t));
      NormalizeWordIdempotent(w);
    }
  }

  /** Rewriting a rewritten name changes nothing. */
  lemma StripIdempotent(name: string)
    ensures StripLiteralSuffixes(StripLiteralSuffixes(name)) == StripLiteralSuffixes(name)
  {
    StripIsByWords(name);
    StripIsByWords(ByWords(name));
    ByWordsIdempotent(name);
  }

  lemma WordWithoutUKept(w: string)
    requires forall i :: 0 <= i < |w| ==> w[i] != 'u'
    ensures NormalizeWord(w) == w
  {
    var v := w[..|w| - TrailingLs(w)];
    if |v| >= 2 { assert v[|v| - 1] == w[|v| - 1]; }
  }

  /** A name without any `u` is left as it is. */
  lemma {:induction false} WithoutSuffixUnchanged(s: string)
    requires forall i :: 0 <= i < |s| ==> s[i] != 'u'
    ensures ByWords(s) == s
    decreases |s|
  {
    if |s| > 0 {
      if !IsWordChar(s[0]) {
        WithoutSuffixUnchanged(s[1..]);
      } else {
        var n := WordRun(s);
        var w, t := s[..n], s[n..];
        assert s == w + t;
        ByWordsAfterWord(w, t);
        WordWithoutUKept(w);
        WithoutSuffixUnchanged(t);
      }
    }
  }

  /** The rewrite only ever deletes characters. */
  lemma {:induction false} ByWordsShortens(s: string)
    ensures |ByWords(s)| <= |s|
    decreases |s|
  {
    if |s| > 0 {
      if !IsWordChar(s[0]) {
        ByWordsShortens(s[1..]);
      } else {
        ByWordsShortens(s[WordRun(s)..]);
      }
    }
  }

  /** Examples: suffixed literals at a word start lose the
      suffix; a plain `l` suffix, a literal inside a word and a bare number stay. */
  lemma ExampleUl()
    ensures StripLiteralSuffixes("16ul") == "16"
  {
  }

  lemma ExampleU()
    ensures StripLiteralSuffixes("3u") == "3"
  {
  }

  lemma ExampleUll()
    ensures StripLiteralSuffixes("8ull") == "8"
  {
  }

  lemma ExampleL()
    ensures StripLiteralSuffixes("16l") == "16l"
  {
  }

  lemma ExampleInsideWord()
    ensures StripLiteralSuffixes("x16ul") == "x16ul"
  {
  }

  lemma ExamplePlain()
    ensures StripLiteralSuffixes("16") == "16"
  {
  }

  lemma ExampleTemplateArgument()
    ensures StripLiteralSuffixes("a<4ul>") == "a<4>"
  {
    assert DigitSpan("4ul>") == 1 && "4ul>"[2..] == "l>" && CharSpan("l>", 'l') == 1;
    assert MatchLiteral("4ul>") == Some(LiteralMatch(1, 3));
    assert Sub("4ul>", false) == "4" + Sub(">", true);
    assert Sub("<4ul>", true) == "<" + Sub("4ul>", false);
    assert Sub("a<4ul>", false) == "a" + Sub("<4ul>", true);
  }
}
