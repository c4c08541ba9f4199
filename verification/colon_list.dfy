/** `get_colon_delim_data`: the skip list and the language-equivalence list arrive as
    one colon-terminated argument each and are split into a NULL-terminated array. */
module ColonList {
  import opened Delimited

  /** Size of the stack buffer a field is collected in (BUFSIZ, raised to 8192). */
  const BUFSIZ: nat := 8192

  /** Every store into the field buffer stays inside it: from buffer index `it` on,
      each character of `s` is stored at the current index, a character other than `:`
      moving the index on and `:` (stored as the terminator) resetting it. */
  predicate FieldsFit(s: string, it: nat)
    decreases |s|
  {
    |s| == 0 || (it < BUFSIZ && FieldsFit(s[1..], if s[0] == ':' then 0 else it + 1))
  }

  /** The loop of `get_colon_delim_data`. `slots` is the number of slots of the array
      `data`, which also receives the terminating NULL. */
  method GetColonDelimData(arg: string, slots: nat) returns (data: seq<string>)
    requires multiset(arg)[':'] < slots
    requires FieldsFit(arg, 0)
    ensures data == Split(arg, ':')
    ensures |data| < slots
  {
    var buf: string := [];
    var pos := 0;
    data := [];
    while pos < |arg|
      invariant pos <= |arg|
      invariant ':' !in buf
      invariant FieldsFit(arg[pos..], |buf|)
      invariant data + SplitFrom(arg[pos..], buf, ':') == Split(arg, ':')
    {
      var ch := arg[pos];
      assert arg[pos..][1..] == arg[pos + 1..];
      assert |buf| < BUFSIZ;
      if ch == ':' {
        assert data + SplitFrom(arg[pos..], buf, ':')
            == (data + [buf]) + SplitFrom(arg[pos + 1..], [], ':');
        data := data + [buf];
        buf := [];
      } else {
        buf := buf + [ch];
      }
      pos := pos + 1;
    }
    SplitCount(arg, ':');
  }
}
