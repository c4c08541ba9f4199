/** The C library string primitives the filter relies on, over `string` values that
    stand for the bytes of a C string before its terminating NUL. */
module CString {

  datatype Option<+T> = None | Some(value: T)

  /** Outcome of a step that, in the C program, may touch memory outside an object:
      `Undefined` marks the paths where the program has undefined behaviour. */
  datatype Result<+T> = Ok(value: T) | Undefined

  /** ASCII lower-casing, as `tolower` does in the C locale. */
  function Lower(c: char): char {
    if 'A' <= c <= 'Z' then (c as int + 32) as char else c
  }

  /** `strCeq`: caseless equality (`strcasecmp(a, b) == 0`). */
  predicate CaselessEq(a: string, b: string) {
    |a| == |b| && forall i :: 0 <= i < |a| ==> Lower(a[i]) == Lower(b[i])
  }

  /** `strchr(s, c) != NULL`: the terminating NUL counts as part of the string. */
  predicate StrChr(s: string, c: char) {
    c == '\0' || c in s
  }

  /** `n` occurs in `h` starting at index `i`. */
  predicate OccursAt(h: string, n: string, i: int) {
    0 <= i <= |h| - |n| && h[i..i + |n|] == n
  }

  /** `strstr(h, n) != NULL`: `n` occurs in `h` as a contiguous run. */
  function StrStr(h: string, n: string): (found: bool)
    ensures found <==> exists i :: OccursAt(h, n, i)
    decreases |h|
  {
    if n <= h then
      assert OccursAt(h, n, 0);
      true
    else if |h| == 0 then
      false
    else
      var found := StrStr(h[1..], n);
      assert found ==> exists i :: OccursAt(h, n, i) by {
        if found {
          var j :| OccursAt(h[1..], n, j);
          assert h[j + 1..j + 1 + |n|] == h[1..][j..j + |n|];
          assert OccursAt(h, n, j + 1);
        }
      }
      assert (exists i :: OccursAt(h, n, i)) ==> found by {
        if i :| OccursAt(h, n, i) {
          assert i != 0;
          assert h[1..][i - 1..i - 1 + |n|] == h[i..i + |n|];
          assert OccursAt(h[1..], n, i - 1);
        }
      }
      found
  }

  /** The part of `s` a C function sees: everything before the first NUL. */
  function CPrefix(s: string): (r: string)
    ensures r <= s
    ensures '\0' !in r
    ensures |r| < |s| ==> s[|r|] == '\0'
  {
    if |s| == 0 || s[0] == '\0' then [] else [s[0]] + CPrefix(s[1..])
  }

  /** `strlcpy(dst, src, size)` with `size > 0`: what lands in `dst`. */
  function Strlcpy(src: string, size: nat): string
    requires 0 < size
  {
    if |src| < size then src else src[..size - 1]
  }

  /** A character matched by PCRE's `\w` with the default character tables. */
  predicate IsWordChar(c: char) {
    'a' <= c <= 'z' || 'A' <= c <= 'Z' || '0' <= c <= '9' || c == '_'
  }

  lemma StrChrWordChar(s: string, c: char)
    requires IsWordChar(c)
    ensures StrChr(s, c) <==> c in s
  {}

  /** On a NUL-free buffer `strstr` is plain substring containment. */
  lemma CPrefixNulFree(s: string)
    requires '\0' !in s
    ensures CPrefix(s) == s
  {}
}
