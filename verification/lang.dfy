/** How the requested language shapes the tag pattern (`normalize_lang`, the pattern
    text) and how a tag's declared language is judged (`is_correct_lang`). */
module Lang {
  import opened CString

  /** Size of the pattern buffer and of `match_lang`. */
  const PATSIZ: nat := 256
  /** Size of the `norm_lang` buffer, which `normalize_lang` is told is PATSIZ long. */
  const NORM_BUF_SIZE: nat := PATSIZ / 2

  /** The regex fragment that accepts both C and C++ declarations. */
  const C_FAMILY_FRAGMENT := "(?:C|C\\+\\+)"
  /** C++ as it would be written inside a regex. */
  const ESCAPED_CPP := "C\\+\\+"

  /** Text before the language fragment: captures name, kind and declared language. */
  const PATTERN_HEAD := "^([^\\t]+)\\t(?:[^\\t]+)\\t\\/(?:.+)\\/;\"\\t(\\w)\\tlanguage:("
  /** Text after the language fragment. */
  const PATTERN_TAIL := "(?:\\[a-zA-Z]+)?)"

  /** A requested language that stands for the C family. */
  predicate IsCFamily(lang: string) {
    CaselessEq(lang, "C") || CaselessEq(lang, "C++") || CaselessEq(lang, ESCAPED_CPP)
  }

  /** `normalize_lang(buf, lang, max)`: the C family becomes one fragment matching C
      and C++; any other language is copied as it is. Either copy is cut to fit `max`
      bytes with its terminator. */
  function NormalizeLang(lang: string, max: nat): (r: string)
    requires 0 < max
    ensures |r| < max
    ensures IsCFamily(lang) ==> r <= C_FAMILY_FRAGMENT
    ensures IsCFamily(lang) && |C_FAMILY_FRAGMENT| < max ==> r == C_FAMILY_FRAGMENT
    ensures !IsCFamily(lang) ==> r <= lang
    ensures !IsCFamily(lang) && |lang| < max ==> r == lang
  {
    if IsCFamily(lang) then Strlcpy(C_FAMILY_FRAGMENT, max) else Strlcpy(lang, max)
  }

  /** Whether a language is treated as C is independent of letter case. */
  lemma CFamilyCaseless(a: string, b: string)
    requires CaselessEq(a, b)
    ensures IsCFamily(a) <==> IsCFamily(b)
  {}

  /** The normalised language, as `search` produces it, fits the `norm_lang` buffer. */
  predicate NormFits(lang: string) {
    |NormalizeLang(lang, PATSIZ)| < NORM_BUF_SIZE
  }

  /** The pattern text `search` compiles: the `snprintf` into the PATSIZ buffer. When
      the normalised language fits its buffer, nothing is cut off. */
  function BuildPattern(lang: string): (pat: string)
    requires NormFits(lang)
    ensures |pat| < PATSIZ
    ensures pat == PATTERN_HEAD + NormalizeLang(lang, PATSIZ) + PATTERN_TAIL
  {
    Strlcpy(PATTERN_HEAD + NormalizeLang(lang, PATSIZ) + PATTERN_TAIL, PATSIZ)
  }

  /** The scan of the flattened equivalence list from cursor `i`. The "from" entry is
      compared with the declared language; when that fails the cursor moves on by one,
      when it succeeds the next entry is compared with the requested language, and if
      that fails the cursor has moved on by two. Comparing the requested language with
      the terminating NULL (a "from" match on the last entry) is undefined. */
  function Scan(ctov: seq<string>, i: nat, lang: string, matchLang: string): Result<bool>
    requires i <= |ctov|
    decreases |ctov| - i
  {
    if i == |ctov| then Ok(false)
    else if !CaselessEq(matchLang, ctov[i]) then Scan(ctov, i + 1, lang, matchLang)
    else if i + 1 == |ctov| then Undefined
    else if CaselessEq(lang, ctov[i + 1]) then Ok(true)
    else Scan(ctov, i + 2, lang, matchLang)
  }

  /** `is_correct_lang(ctov, lang, match_lang)`. */
  function IsCorrectLang(ctov: seq<string>, lang: string, matchLang: string): (r: Result<bool>)
    ensures CaselessEq(matchLang, lang) ==> r == Ok(true)
    ensures |ctov| == 0 ==> r == Ok(CaselessEq(matchLang, lang))
    ensures |ctov| >= 2 && CaselessEq(matchLang, ctov[0]) && CaselessEq(lang, ctov[1]) ==> r == Ok(true)
    ensures !CaselessEq(matchLang, lang) ==> r == Scan(ctov, 0, lang, matchLang)
  {
    if CaselessEq(matchLang, lang) then Ok(true)
    else if CaselessEq(lang, "C") && lang == ESCAPED_CPP && (matchLang == "C++" || matchLang == "C") then Ok(true)
    else Scan(ctov, 0, lang, matchLang)
  }

  /** The C/C++ branch of `is_correct_lang` can never be taken: no string is both
      caselessly `C` and exactly `C\+\+`. */
  lemma CppBranchUnreachable(lang: string)
    ensures !(CaselessEq(lang, "C") && lang == ESCAPED_CPP)
  {}

  /** Entries `j` and `j + 1` relate the declared language to the requested one. */
  predicate RelatesAt(ctov: seq<string>, j: int, lang: string, matchLang: string) {
    0 <= j && j + 1 < |ctov| && CaselessEq(matchLang, ctov[j]) && CaselessEq(lang, ctov[j + 1])
  }

  /** Soundness: an accepting scan found two adjacent entries, the first caselessly the
      declared language and the second caselessly the requested one. */
  lemma {:induction false} ScanSound(ctov: seq<string>, i: nat, lang: string, matchLang: string)
    requires i <= |ctov|
    requires Scan(ctov, i, lang, matchLang) == Ok(true)
    ensures exists j :: i <= j && RelatesAt(ctov, j, lang, matchLang)
    decreases |ctov| - i
  {
    if !CaselessEq(matchLang, ctov[i]) {
      ScanSound(ctov, i + 1, lang, matchLang);
    } else if CaselessEq(lang, ctov[i + 1]) {
      assert RelatesAt(ctov, i, lang, matchLang);
    } else {
      ScanSound(ctov, i + 2, lang, matchLang);
    }
  }

  /** The scan reads the terminating NULL only when the last entry caselessly equals
      the declared language. */
  lemma {:induction false} ScanUndefined(ctov: seq<string>, i: nat, lang: string, matchLang: string)
    requires i <= |ctov|
    requires Scan(ctov, i, lang, matchLang).Undefined?
    ensures 0 < |ctov| && CaselessEq(matchLang, ctov[|ctov| - 1])
    decreases |ctov| - i
  {
    if !CaselessEq(matchLang, ctov[i]) {
      ScanUndefined(ctov, i + 1, lang, matchLang);
    } else if i + 1 < |ctov| {
      ScanUndefined(ctov, i + 2, lang, matchLang);
    }
  }

  /** The equivalence list read as a table of (from, to) pairs. */
  predicate PairAt(ctov: seq<string>, k: int, lang: string, matchLang: string) {
    0 <= k && 2 * k + 1 < |ctov| && CaselessEq(matchLang, ctov[2 * k]) && CaselessEq(lang, ctov[2 * k + 1])
  }

  /** No "to" entry (odd index) caselessly equals the declared language. */
  predicate NoStrayFrom(ctov: seq<string>, matchLang: string) {
    forall j :: 0 <= j < |ctov| && j % 2 == 1 ==> !CaselessEq(matchLang, ctov[j])
  }

  lemma {:induction false} ScanPairTableFrom(ctov: seq<string>, k: nat, lang: string, matchLang: string)
    requires |ctov| % 2 == 0 && 2 * k <= |ctov|
    requires NoStrayFrom(ctov, matchLang)
    ensures Scan(ctov, 2 * k, lang, matchLang) == Ok(exists t :: k <= t && PairAt(ctov, t, lang, matchLang))
    decreases |ctov| - 2 * k
  {
    if 2 * k < |ctov| {
      assert (2 * k + 1) % 2 == 1;
      assert !CaselessEq(matchLang, ctov[2 * k + 1]);
      ScanPairTableFrom(ctov, k + 1, lang, matchLang);
      if PairAt(ctov, k, lang, matchLang) {
        assert Scan(ctov, 2 * k, lang, matchLang) == Ok(true);
      } else {
        assert Scan(ctov, 2 * k, lang, matchLang) == Scan(ctov, 2 * k + 2, lang, matchLang) by {
          if CaselessEq(matchLang, ctov[2 * k]) {
            assert !CaselessEq(lang, ctov[2 * k + 1]);
          } else {
            assert Scan(ctov, 2 * k + 1, lang, matchLang) == Scan(ctov, 2 * k + 2, lang, matchLang);
          }
        }
        assert (exists t :: k <= t && PairAt(ctov, t, lang, matchLang))
           <==> (exists t :: k + 1 <= t && PairAt(ctov, t, lang, matchLang));
      }
    }
  }

  /** When the list has even length and no "to" entry caselessly equals the declared
      language, the scan is exactly a lookup in the table of (from, to) pairs. */
  lemma ScanIsPairTable(ctov: seq<string>, lang: string, matchLang: string)
    requires |ctov| % 2 == 0
    requires NoStrayFrom(ctov, matchLang)
    ensures Scan(ctov, 0, lang, matchLang) == Ok(exists k :: PairAt(ctov, k, lang, matchLang))
  {
    ScanPairTableFrom(ctov, 0, lang, matchLang);
  }

  /** Without that condition the two readings part: a pair the table holds is missed
      because the cursor has slipped onto odd positions ... */
  lemma ScanMissesPair()
    ensures PairAt(["Python", "C", "C", "C++"], 1, "C++", "C")
    ensures Scan(["Python", "C", "C", "C++"], 0, "C++", "C") == Ok(false)
  {}

  /** ... a "to" entry followed by the next pair's "from" entry is accepted as a pair ... */
  lemma ScanAcceptsAcrossPairs()
    ensures !PairAt(["x", "C", "C++", "y"], 0, "C++", "C") && !PairAt(["x", "C", "C++", "y"], 1, "C++", "C")
    ensures Scan(["x", "C", "C++", "y"], 0, "C++", "C") == Ok(true)
  {
    var ctov := ["x", "C", "C++", "y"];
    assert Lower('C') == 'c' && Lower('x') == 'x';
    assert Lower("C"[0]) != Lower(ctov[0][0]);
    assert CaselessEq("C", ctov[1]);
    assert CaselessEq("C++", ctov[2]);
    assert Scan(ctov, 1, "C++", "C") == Ok(true);
  }

  /** ... and an even-length list still reaches the terminating NULL. */
  lemma ScanEvenLengthUndefined()
    ensures Scan(["Python", "C"], 0, "C++", "C") == Undefined
  {}
}
