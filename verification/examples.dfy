/** Concrete runs of the filter. */
module Examples {
  import opened CString
  import opened Lang
  import opened Filter
  import opened Output

  const FOO_LINE := "foo\tf.c\t/^int foo/;\"\tf\tlanguage:C"
  const BAR_LINE := "bar\tf.c\t/^int bar/;\"\tf\tlanguage:C"

  /** What the tag pattern captures from the two lines below. */
  function TwoTagMatcher(pat: string, line: string): Option<Candidate> {
    if line == FOO_LINE then Some(Candidate("foo", 'f', "C"))
    else if line == BAR_LINE then Some(Candidate("bar", 'f', "C"))
    else None
  }

  /** Kinds `fc`, `bar` skipped, language C, no equivalences: of the two lines only
      `foo` is listed. */
  lemma SkipListExample()
    ensures Search([FOO_LINE, BAR_LINE], Params("C", "fc", [], ["bar"], TwoTagMatcher))
         == Ok([Entry('f', "foo")])
  {
    var p := Params("C", "fc", [], ["bar"], TwoTagMatcher);
    var pat := BuildPattern(p.lang);
    assert CaselessEq("C", "C");
    assert Judge(FOO_LINE, pat, p) == Ok(Some(Entry('f', "foo")));
    assert Judge(BAR_LINE, pat, p) == Ok(None);
    var lines := [FOO_LINE, BAR_LINE];
    assert lines[1..] == [BAR_LINE];
    assert Step([], FOO_LINE, pat, p) == Ok([Entry('f', "foo")]);
    assert Step([Entry('f', "foo")], BAR_LINE, pat, p) == Ok([Entry('f', "foo")]);
    assert Fold([Entry('f', "foo")], lines[1..], pat, p) == Ok([Entry('f', "foo")]);
  }

  const SOURCE_TEXT := "int foo(void) { return 0; }"

  /** `foo` occurs in the source text. */
  lemma FooInSource()
    ensures InBuffer("foo", SOURCE_TEXT)
  {
    var pre, post := "int ", "(void) { return 0; }";
    assert SOURCE_TEXT == pre + "foo" + post;
    assert '\0' !in pre && '\0' !in "foo" && '\0' !in post;
    CPrefixNulFree(SOURCE_TEXT);
    assert SOURCE_TEXT[|pre|..|pre| + 3] == "foo";
    assert OccursAt(SOURCE_TEXT, "foo", |pre|);
  }

  /** A one-tag list whose name occurs in the buffer prints as that tag's record. */
  lemma PrintSingle(e: Entry, buffer: string)
    requires InBuffer(e.name, buffer)
    ensures PrintData([e], buffer) == Record(e)
  {
    assert [e][1..] == [];
  }

  /** With source text that mentions `foo`, the output is the kind `f` and the name
      `foo`, each on its own line. */
  lemma PrintExample()
    ensures PrintData([Entry('f', "foo")], SOURCE_TEXT) == "f\nfoo\n"
  {
    var e := Entry('f', "foo");
    assert Record(e) == [e.kind, '\n'] + e.name + ['\n'] == "f\nfoo\n";
    FooInSource();
    PrintSingle(e, SOURCE_TEXT);
  }

  /** A C tag is accepted for a C++ request through the equivalence list. */
  lemma EquivalenceExample()
    ensures IsCorrectLang(["C", "C++"], "C++", "C") == Ok(true)
  {}

  /** Presence is substring containment, not a match on whole words. */
  lemma SubstringExample()
    ensures InBuffer("cat", "category")
  {
    assert OccursAt(CPrefix("category"), "cat", 0);
  }
}
