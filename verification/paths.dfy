/** `basename` of the Windows build: the last component of a path, with `/` and `\`
    both taken as separators. */
module Paths {

  predicate IsSep(c: char) {
    c == '/' || c == '\\'
  }

  /** Character `p` of `path` as a C string: index `|path|` is the terminating NUL. */
  function CharAt(path: string, p: nat): char
    requires p <= |path|
  {
    if p == |path| then '\0' else path[p]
  }

  /** Walks back from the terminator to the last separator, or to the first character. */
  method Basename(path: string) returns (base: string)
    requires |path| > 0
    ensures |base| <= |path| && base == path[|path| - |base|..]
    ensures forall i :: 0 <= i < |base| ==> !IsSep(base[i])
    ensures base == path || IsSep(path[|path| - |base| - 1])
    ensures IsSep(path[|path| - 1]) ==> base == []
  {
    var p: nat := |path|;
    while !IsSep(CharAt(path, p)) && p != 0
      invariant p <= |path|
      invariant forall i :: p < i < |path| ==> !IsSep(path[i])
      decreases p
    {
      p := p - 1;
    }
    if IsSep(CharAt(path, p)) {
      base := path[p + 1..];
    } else {
      base := path[p..];
    }
    assert forall i :: 0 <= i < |base| ==> base[i] == path[|path| - |base| + i];
  }
}
