/** Strings made of separator-terminated fields: `"a:b:"` holds the fields `a` and `b`.
    Text after the last separator belongs to no field. */
module Delimited {

  /** The fields of `s` when `cur` has already been collected into the open field:
      each separator closes the open field, every other character extends it, and an
      open field that no separator closes is dropped. */
  function SplitFrom(s: string, cur: string, sep: char): seq<string>
    decreases |s|
  {
    if |s| == 0 then []
    else if s[0] == sep then [cur] + SplitFrom(s[1..], [], sep)
    else SplitFrom(s[1..], cur + [s[0]], sep)
  }

  /** The fields of `s`. */
  function Split(s: string, sep: char): seq<string> {
    SplitFrom(s, [], sep)
  }

  /** Each field followed by the separator. */
  function Join(xs: seq<string>, sep: char): string {
    if |xs| == 0 then [] else xs[0] + [sep] + Join(xs[1..], sep)
  }

  predicate SepFree(xs: seq<string>, sep: char) {
    forall k :: 0 <= k < |xs| ==> sep !in xs[k]
  }

  lemma {:induction false} SplitFromCount(s: string, cur: string, sep: char)
    ensures |SplitFrom(s, cur, sep)| == multiset(s)[sep]
    decreases |s|
  {
    if |s| > 0 {
      SplitFromCount(s[1..], [], sep);
      SplitFromCount(s[1..], cur + [s[0]], sep);
      assert s == [s[0]] + s[1..];
      assert multiset(s) == multiset([s[0]]) + multiset(s[1..]);
    }
  }

  /** Splitting yields one field per separator in `s`. */
  lemma SplitCount(s: string, sep: char)
    ensures |Split(s, sep)| == multiset(s)[sep]
  {
    SplitFromCount(s, [], sep);
  }

  lemma {:induction false} SplitFromSepFree(s: string, cur: string, sep: char)
    requires sep !in cur
    ensures SepFree(SplitFrom(s, cur, sep), sep)
    decreases |s|
  {
    if |s| > 0 {
      if s[0] == sep {
        SplitFromSepFree(s[1..], [], sep);
      } else {
        SplitFromSepFree(s[1..], cur + [s[0]], sep);
      }
    }
  }

  /** No field contains the separator. */
  lemma SplitSepFree(s: string, sep: char)
    ensures SepFree(Split(s, sep), sep)
  {
    SplitFromSepFree(s, [], sep);
  }

  lemma {:induction false} SplitFromJoinPrefix(s: string, cur: string, sep: char)
    requires sep !in cur
    ensures Join(SplitFrom(s, cur, sep), sep) <= cur + s
    ensures sep !in (cur + s)[|Join(SplitFrom(s, cur, sep), sep)|..]
    decreases |s|
  {
    if |s| > 0 {
      assert cur + s == (cur + [s[0]]) + s[1..];
      if s[0] == sep {
        var r := SplitFrom(s[1..], [], sep);
        SplitFromJoinPrefix(s[1..], [], sep);
        assert ([cur] + r)[1..] == r;
        assert Join([cur] + r, sep) == (cur + [sep]) + Join(r, sep);
        assert [] + s[1..] == s[1..];
        assert (cur + s)[|Join([cur] + r, sep)|..] == s[1..][|Join(r, sep)|..];
      } else {
        SplitFromJoinPrefix(s[1..], cur + [s[0]], sep);
      }
    }
  }

  /** The fields rejoined give `s` up to and including its last separator; the text
      after that separator, which no field holds, contains no separator. */
  lemma SplitJoinPrefix(s: string, sep: char)
    ensures Join(Split(s, sep), sep) <= s
    ensures sep !in s[|Join(Split(s, sep), sep)|..]
  {
    SplitFromJoinPrefix(s, [], sep);
    assert [] + s == s;
  }

  lemma {:induction false} SplitFromSegment(seg: string, cur: string, rest: string, sep: char)
    requires sep !in seg
    ensures SplitFrom(seg + [sep] + rest, cur, sep) == [cur + seg] + Split(rest, sep)
    decreases |seg|
  {
    var s := seg + [sep] + rest;
    if |seg| == 0 {
      assert s[1..] == rest;
      assert cur + seg == cur;
    } else {
      assert s[1..] == seg[1..] + [sep] + rest;
      SplitFromSegment(seg[1..], cur + [seg[0]], rest, sep);
      assert (cur + [seg[0]]) + seg[1..] == cur + seg;
    }
  }

  /** A separator-free field and its separator split off as one field. */
  lemma SplitSegment(seg: string, rest: string, sep: char)
    requires sep !in seg
    ensures Split(seg + [sep] + rest, sep) == [seg] + Split(rest, sep)
  {
    SplitFromSegment(seg, [], rest, sep);
    assert [] + seg == seg;
  }

  lemma {:induction false} SplitFromNoSep(t: string, cur: string, sep: char)
    requires sep !in t
    ensures SplitFrom(t, cur, sep) == []
    decreases |t|
  {
    if |t| > 0 {
      SplitFromNoSep(t[1..], cur + [t[0]], sep);
    }
  }

  /** Round trip: splitting the joined fields, followed by separator-free trailing
      text, gives back the fields. */
  lemma {:induction false} SplitJoin(xs: seq<string>, t: string, sep: char)
    requires SepFree(xs, sep)
    requires sep !in t
    ensures Split(Join(xs, sep) + t, sep) == xs
    decreases |xs|
  {
    if |xs| == 0 {
      assert Join(xs, sep) + t == t;
      SplitFromNoSep(t, [], sep);
    } else {
      SplitJoin(xs[1..], t, sep);
      assert Join(xs, sep) + t == xs[0] + [sep] + (Join(xs[1..], sep) + t);
      SplitSegment(xs[0], Join(xs[1..], sep) + t, sep);
    }
  }
}
