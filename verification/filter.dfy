/** `search`: the tag lines are matched one by one against the tag pattern and each
    accepted (kind, name) is appended to an insertion-ordered, duplicate-free list. */
module Filter {
  import opened CString
  import opened Seqs
  import opened Lang

  /** What one pattern match captures from a tag line. */
  datatype Candidate = Candidate(name: string, kind: char, lang: string)

  /** An accepted tag. Its list element in the C program is the string `Data()`, the
      kind character followed by the name. */
  datatype Entry = Entry(kind: char, name: string) {
    function Data(): string {
      [kind] + name
    }
  }

  /** What the tag pattern guarantees of a match: a non-empty name without tabs, a
      kind that is one word character, and captures with no NUL byte in them. */
  predicate MatchShape(r: Option<Candidate>) {
    r.Some? ==>
      && |r.value.name| > 0
      && '\t' !in r.value.name
      && '\0' !in r.value.name
      && '\0' !in r.value.lang
      && IsWordChar(r.value.kind)
  }

  function NoMatch(pat: string, line: string): Option<Candidate> {
    None
  }

  /** PCRE2 matching of a tag line against the compiled pattern text, which is not
      modelled beyond the shape of its result. */
  type Matcher = m: (string, string) -> Option<Candidate> | forall pat, line :: MatchShape(m(pat, line))
    witness NoMatch

  /** The inputs of `search` other than the tag lines. */
  datatype Params = Params(lang: string, order: string, ctov: seq<string>, skip: seq<string>, matcher: Matcher)

  /** `skip_tag`: the name is on the skip list, compared exactly. */
  function SkipTag(skip: seq<string>, find: string): (r: bool)
    ensures r <==> find in skip
  {
    if |skip| == 0 then false else skip[0] == find || SkipTag(skip[1..], find)
  }

  /** `ll_find_str`: some list element has exactly this data string. */
  function FindStr(ll: seq<Entry>, data: string): (found: bool)
    ensures found <==> exists e :: e in ll && e.Data() == data
  {
    if |ll| == 0 then false else ll[0].Data() == data || FindStr(ll[1..], data)
  }

  /** Equal data strings mean equal entries, so duplicate detection on the strings is
      duplicate detection on (kind, name). */
  lemma DataInjective(a: Entry, b: Entry)
    requires a.Data() == b.Data()
    ensures a == b
  {
    assert a.kind == a.Data()[0] && b.kind == b.Data()[0];
    assert a.name == a.Data()[1..] && b.name == b.Data()[1..];
  }

  lemma FindStrIsMembership(ll: seq<Entry>, e: Entry)
    ensures FindStr(ll, e.Data()) <==> e in ll
  {
    if FindStr(ll, e.Data()) {
      var d :| d in ll && d.Data() == e.Data();
      DataInjective(d, e);
    }
  }

  /** An index comment (leading `!`) or an empty line, skipped before matching. */
  predicate IsSkippedLine(line: string) {
    |line| == 0 || line[0] == '!' || line[0] == '\0'
  }

  /** The checks one line goes through before the duplicate test: `Ok(Some(e))` when
      the line yields an entry, `Ok(None)` when it is passed over, `Undefined` when the
      C code overruns `match_lang` or reads the equivalence list's terminator. */
  function Judge(line: string, pat: string, p: Params): Result<Option<Entry>> {
    if IsSkippedLine(line) then Ok(None)
    else match p.matcher(pat, line)
      case None => Ok(None)
      case Some(c) =>
        if |c.lang| >= PATSIZ then Undefined
        else if !StrChr(p.order, c.kind) then Ok(None)
        else match IsCorrectLang(p.ctov, p.lang, c.lang)
          case Undefined => Undefined
          case Ok(sameLang) =>
            if !sameLang || SkipTag(p.skip, c.name) then Ok(None)
            else Ok(Some(Entry(c.kind, c.name)))
  }

  /** A line that yields `e`: not a comment or empty, matched, its kind in the order
      list, its language accepted, its name not on the skip list. */
  predicate Yields(line: string, pat: string, p: Params, e: Entry) {
    && !IsSkippedLine(line)
    && p.matcher(pat, line).Some?
    && var c := p.matcher(pat, line).value;
    && e == Entry(c.kind, c.name)
    && |c.lang| < PATSIZ
    && c.kind in p.order
    && IsCorrectLang(p.ctov, p.lang, c.lang) == Ok(true)
    && c.name !in p.skip
  }

  /** The checks of one line say exactly what `Yields` says. */
  lemma JudgeYields(line: string, pat: string, p: Params, e: Entry)
    ensures Judge(line, pat, p) == Ok(Some(e)) <==> Yields(line, pat, p, e)
  {}

  /** One iteration of the loop over the tag lines. */
  function Step(acc: seq<Entry>, line: string, pat: string, p: Params): (r: Result<seq<Entry>>)
    ensures r.Ok? ==> r.value == acc || (|r.value| == |acc| + 1 && r.value[..|acc|] == acc && r.value[|acc|] !in acc)
    ensures r.Ok? && NoDup(acc) ==> NoDup(r.value)
  {
    match Judge(line, pat, p)
    case Undefined => Undefined
    case Ok(None) => Ok(acc)
    case Ok(Some(e)) =>
      FindStrIsMembership(acc, e);
      if FindStr(acc, e.Data()) then Ok(acc)
      else
        assert (acc + [e])[..|acc|] == acc;
        Ok(acc + [e])
  }

  /** The loop over the tag lines from list `acc` on. The list only ever grows at its
      end and stays free of duplicates. */
  function Fold(acc: seq<Entry>, lines: seq<string>, pat: string, p: Params): (r: Result<seq<Entry>>)
    ensures r.Ok? ==> acc <= r.value
    ensures r.Ok? && NoDup(acc) ==> NoDup(r.value)
    decreases |lines|
  {
    if |lines| == 0 then Ok(acc)
    else match Step(acc, lines[0], pat, p)
      case Undefined => Undefined
      case Ok(next) => Fold(next, lines[1..], pat, p)
  }

  /** `search`, with pattern compilation and matching abstracted into `p.matcher`. */
  function Search(lines: seq<string>, p: Params): Result<seq<Entry>>
    requires NormFits(p.lang)
  {
    Fold([], lines, BuildPattern(p.lang), p)
  }

  /** Reference: every entry the lines yield, in line order, duplicates included. */
  function Accepted(lines: seq<string>, pat: string, p: Params): Result<seq<Entry>>
    decreases |lines|
  {
    if |lines| == 0 then Ok([])
    else match Judge(lines[0], pat, p)
      case Undefined => Undefined
      case Ok(o) =>
        match Accepted(lines[1..], pat, p)
        case Undefined => Undefined
        case Ok(rest) => Ok((if o.Some? then [o.value] else []) + rest)
  }

  function FirstsAfter(u: seq<Entry>, a: Result<seq<Entry>>): Result<seq<Entry>> {
    match a
    case Undefined => Undefined
    case Ok(v) => Ok(Firsts(u + v))
  }

  /** A line yielding `e` moves the fold from the deduplication of `u` to that of
      `u + [e]`. */
  lemma FoldYieldStep(u: seq<Entry>, lines: seq<string>, pat: string, p: Params, e: Entry)
    requires |lines| > 0 && Judge(lines[0], pat, p) == Ok(Some(e))
    ensures Fold(Firsts(u), lines, pat, p) == Fold(Firsts(u + [e]), lines[1..], pat, p)
  {
    FindStrIsMembership(Firsts(u), e);
    FirstsMembership(u, e);
    FirstsSnoc(u, e);
    if e in u {
      assert FindStr(Firsts(u), e.Data());
      assert Firsts(u + [e]) == Firsts(u) + [] == Firsts(u);
      assert Step(Firsts(u), lines[0], pat, p) == Ok(Firsts(u));
    } else {
      assert !FindStr(Firsts(u), e.Data());
      assert Step(Firsts(u), lines[0], pat, p) == Ok(Firsts(u) + [e]);
    }
  }

  /** `FirstsAfter` absorbs an entry moved from the collected part into the prefix. */
  lemma FirstsAfterCons(u: seq<Entry>, o: Option<Entry>, a: Result<seq<Entry>>)
    ensures FirstsAfter(u + (if o.Some? then [o.value] else []), a)
         == FirstsAfter(u, match a case Undefined => Undefined case Ok(v) => Ok((if o.Some? then [o.value] else []) + v))
  {
    match a
    case Undefined =>
    case Ok(v) =>
      var h: seq<Entry> := if o.Some? then [o.value] else [];
      assert (u + h) + v == u + (h + v);
  }

  lemma {:induction false} FoldIsFirsts(u: seq<Entry>, lines: seq<string>, pat: string, p: Params)
    ensures Fold(Firsts(u), lines, pat, p) == FirstsAfter(u, Accepted(lines, pat, p))
    decreases |lines|
  {
    if |lines| == 0 {
      assert u + [] == u;
    } else {
      var rest := lines[1..];
      match Judge(lines[0], pat, p)
      case Undefined =>
      case Ok(None) =>
        FoldIsFirsts(u, rest, pat, p);
        FirstsAfterCons(u, None, Accepted(rest, pat, p));
        assert u + [] == u;
      case Ok(Some(e)) =>
        FoldYieldStep(u, lines, pat, p, e);
        FoldIsFirsts(u + [e], rest, pat, p);
        FirstsAfterCons(u, Some(e), Accepted(rest, pat, p));
    }
  }

  /** The list `search` builds is the deduplication, first occurrence kept, of every
      entry the lines yield; and it is undefined exactly when collecting them is. */
  lemma SearchIsFirstOccurrences(lines: seq<string>, p: Params)
    requires NormFits(p.lang)
    ensures Search(lines, p).Ok? <==> Accepted(lines, BuildPattern(p.lang), p).Ok?
    ensures Search(lines, p).Ok? ==>
      Search(lines, p).value == Firsts(Accepted(lines, BuildPattern(p.lang), p).value)
  {
    assert Firsts<Entry>([]) == [];
    FoldIsFirsts([], lines, BuildPattern(p.lang), p);
    match Accepted(lines, BuildPattern(p.lang), p)
    case Undefined =>
    case Ok(v) => assert [] + v == v;
  }

  /** The result lists no (kind, name) twice. */
  lemma SearchNoDuplicates(lines: seq<string>, p: Params)
    requires NormFits(p.lang)
    ensures Search(lines, p).Ok? ==> NoDup(Search(lines, p).value)
  {}

  /** Deduplicating the result again changes nothing: each entry already stands at its
      first occurrence. */
  lemma SearchIsOwnFirsts(lines: seq<string>, p: Params)
    requires NormFits(p.lang)
    requires Search(lines, p).Ok?
    ensures Firsts(Search(lines, p).value) == Search(lines, p).value
  {
    FirstsOfNoDup(Search(lines, p).value);
  }

  lemma {:induction false} AcceptedSound(lines: seq<string>, pat: string, p: Params, e: Entry)
    requires Accepted(lines, pat, p).Ok? && e in Accepted(lines, pat, p).value
    ensures exists i :: 0 <= i < |lines| && Yields(lines[i], pat, p, e)
    decreases |lines|
  {
    var o := Judge(lines[0], pat, p).value;
    if o == Some(e) {
      JudgeYields(lines[0], pat, p, e);
      assert Yields(lines[0], pat, p, e);
    } else {
      AcceptedSound(lines[1..], pat, p, e);
      var i :| 0 <= i < |lines[1..]| && Yields(lines[1..][i], pat, p, e);
      assert lines[1..][i] == lines[i + 1];
    }
  }

  /** Every listed entry comes from a tag line that passed every check: not a comment
      or empty line, matched, kind in the order list, language accepted, name not on
      the skip list. */
  lemma SearchSound(lines: seq<string>, p: Params, e: Entry)
    requires NormFits(p.lang)
    requires Search(lines, p).Ok? && e in Search(lines, p).value
    ensures e.kind in p.order && e.name !in p.skip
    ensures exists i :: 0 <= i < |lines| && Yields(lines[i], BuildPattern(p.lang), p, e)
  {
    var pat := BuildPattern(p.lang);
    SearchIsFirstOccurrences(lines, p);
    FirstsMembership(Accepted(lines, pat, p).value, e);
    AcceptedSound(lines, pat, p, e);
  }

  lemma {:induction false} AcceptedComplete(lines: seq<string>, pat: string, p: Params, i: nat, e: Entry)
    requires Accepted(lines, pat, p).Ok?
    requires i < |lines| && Yields(lines[i], pat, p, e)
    ensures e in Accepted(lines, pat, p).value
    decreases |lines|
  {
    if i == 0 {
      JudgeYields(lines[0], pat, p, e);
    } else {
      assert lines[1..][i - 1] == lines[i];
      AcceptedComplete(lines[1..], pat, p, i - 1, e);
    }
  }

  /** Every entry some tag line yields is in the list. */
  lemma SearchComplete(lines: seq<string>, p: Params, i: nat, e: Entry)
    requires NormFits(p.lang)
    requires Search(lines, p).Ok?
    requires i < |lines| && Yields(lines[i], BuildPattern(p.lang), p, e)
    ensures e in Search(lines, p).value
  {
    var pat := BuildPattern(p.lang);
    SearchIsFirstOccurrences(lines, p);
    AcceptedComplete(lines, pat, p, i, e);
    FirstsMembership(Accepted(lines, pat, p).value, e);
  }

  lemma {:induction false} AcceptedUndefined(lines: seq<string>, pat: string, p: Params)
    ensures Accepted(lines, pat, p).Undefined? <==>
      exists i :: 0 <= i < |lines| && Judge(lines[i], pat, p).Undefined?
    decreases |lines|
  {
    if |lines| > 0 {
      AcceptedUndefined(lines[1..], pat, p);
      if exists i :: 0 <= i < |lines[1..]| && Judge(lines[1..][i], pat, p).Undefined? {
        var i :| 0 <= i < |lines[1..]| && Judge(lines[1..][i], pat, p).Undefined?;
        assert lines[1..][i] == lines[i + 1];
      }
      if i :| 0 <= i < |lines| && Judge(lines[i], pat, p).Undefined? {
        if i > 0 {
          assert lines[1..][i - 1] == lines[i];
        }
      }
    }
  }

  /** The C program runs into undefined behaviour exactly when some tag line, passed
      to the checks, overruns `match_lang` or makes the scan read past the list. */
  lemma SearchUndefined(lines: seq<string>, p: Params)
    requires NormFits(p.lang)
    ensures Search(lines, p).Undefined? <==>
      exists i :: 0 <= i < |lines| && Judge(lines[i], BuildPattern(p.lang), p).Undefined?
  {
    SearchIsFirstOccurrences(lines, p);
    AcceptedUndefined(lines, BuildPattern(p.lang), p);
  }

  lemma {:induction false} AcceptedSkipsLine(pre: seq<string>, line: string, post: seq<string>, pat: string, p: Params)
    requires IsSkippedLine(line)
    ensures Accepted(pre + [line] + post, pat, p) == Accepted(pre + post, pat, p)
    decreases |pre|
  {
    if |pre| == 0 {
      assert pre + [line] + post == [line] + post;
      assert ([line] + post)[1..] == post;
      assert pre + post == post;
      match Accepted(post, pat, p)
      case Undefined =>
      case Ok(v) => assert [] + v == v;
    } else {
      AcceptedSkipsLine(pre[1..], line, post, pat, p);
      assert (pre + [line] + post)[1..] == pre[1..] + [line] + post;
      assert (pre + post)[1..] == pre[1..] + post;
    }
  }

  /** A comment line or an empty line, wherever it stands, changes nothing. */
  lemma SearchSkipsLine(pre: seq<string>, line: string, post: seq<string>, p: Params)
    requires NormFits(p.lang)
    requires IsSkippedLine(line)
    ensures Search(pre + [line] + post, p) == Search(pre + post, p)
  {
    var pat := BuildPattern(p.lang);
    assert Firsts<Entry>([]) == [];
    FoldIsFirsts([], pre + [line] + post, pat, p);
    FoldIsFirsts([], pre + post, pat, p);
    AcceptedSkipsLine(pre, line, post, pat, p);
  }
}
