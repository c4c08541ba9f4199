/** Duplicate-freedom and first-occurrence deduplication of sequences. */
module Seqs {

  predicate NoDup<T(==)>(s: seq<T>) {
    forall i, j :: 0 <= i < j < |s| ==> s[i] != s[j]
  }

  /** Each element of `s` at the position of its first occurrence, in order: the
      reference for an insertion-ordered set built by appending unseen values. */
  function Firsts<T(==)>(s: seq<T>): seq<T>
    decreases |s|
  {
    if |s| == 0 then []
    else
      var init := s[..|s| - 1];
      Firsts(init) + (if s[|s| - 1] in init then [] else [s[|s| - 1]])
  }

  /** Deduplication keeps exactly the values of its input. */
  lemma {:induction false} FirstsMembership<T>(s: seq<T>, x: T)
    ensures x in Firsts(s) <==> x in s
    decreases |s|
  {
    if |s| > 0 {
      var init := s[..|s| - 1];
      FirstsMembership(init, x);
      assert s == init + [s[|s| - 1]];
    }
  }

  /** Deduplication leaves no value twice. */
  lemma {:induction false} FirstsNoDup<T>(s: seq<T>)
    ensures NoDup(Firsts(s))
    decreases |s|
  {
    if |s| > 0 {
      var init := s[..|s| - 1];
      FirstsNoDup(init);
      FirstsMembership(init, s[|s| - 1]);
    }
  }

  /** Appending one value: it is added at the end exactly when it is new. */
  lemma FirstsSnoc<T>(u: seq<T>, x: T)
    ensures Firsts(u + [x]) == Firsts(u) + (if x in u then [] else [x])
  {
    assert (u + [x])[..|u|] == u;
  }

  /** A duplicate-free sequence is its own deduplication. */
  lemma {:induction false} FirstsOfNoDup<T>(s: seq<T>)
    requires NoDup(s)
    ensures Firsts(s) == s
    decreases |s|
  {
    if |s| > 0 {
      var init := s[..|s| - 1];
      assert NoDup(init);
      FirstsOfNoDup(init);
      assert s == init + [s[|s| - 1]];
    }
  }
}
