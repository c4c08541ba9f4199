/** `my_fgetline`: reads one line from a stream into a growing heap buffer. The stream
    is the sequence of characters still to be read; its end is end of input. */
module LineReader {
  import opened CString

  const STARTSIZE: nat := 2048
  const INCSIZE: nat := 256

  /** What one call returns: the count (0 at end of input), the line (`*ptr`, absent
      at end of input) and what is left of the stream. */
  datatype LineRead = LineRead(count: nat, line: Option<string>, rest: seq<char>)

  /** `s` with every carriage return removed. */
  function DropCR(s: seq<char>): (r: string)
    ensures '\r' !in r
  {
    if |s| == 0 then [] else (if s[0] == '\r' then [] else [s[0]]) + DropCR(s[1..])
  }

  lemma {:induction false} DropCRConcat(a: seq<char>, b: seq<char>)
    ensures DropCR(a + b) == DropCR(a) + DropCR(b)
    decreases |a|
  {
    if |a| > 0 {
      DropCRConcat(a[1..], b);
      assert (a + b)[0] == a[0];
      assert (a + b)[1..] == a[1..] + b;
      var h: string := if a[0] == '\r' then [] else [a[0]];
      assert DropCR(a + b) == h + (DropCR(a[1..]) + DropCR(b));
      assert h + (DropCR(a[1..]) + DropCR(b)) == (h + DropCR(a[1..])) + DropCR(b);
    } else {
      assert a + b == b;
    }
  }

  /** Index of the first newline, or the length when there is none. */
  function NewlineIndex(s: seq<char>): (k: nat)
    ensures k <= |s| && '\n' !in s[..k]
    ensures k < |s| ==> s[k] == '\n'
  {
    if |s| == 0 || s[0] == '\n' then 0
    else
      var k := NewlineIndex(s[1..]) + 1;
      assert s[..k] == [s[0]] + s[1..][..k - 1];
      k
  }

  /** One call of `my_fgetline`: the characters before the first newline, carriage
      returns dropped; the newline is consumed and not kept. */
  function FGetLine(input: seq<char>): (r: LineRead)
    ensures r.line.None? <==> r.count == 0
    ensures r.line.None? <==> ('\n' !in input && DropCR(input) == [])
    ensures r.line.Some? ==> r.count == |r.line.value| + 1
    ensures r.line.Some? ==> '\r' !in r.line.value && '\n' !in r.line.value
    ensures '\n' !in input ==> r.rest == [] && (r.line.Some? ==> r.line.value == DropCR(input))
    ensures '\n' in input ==>
      (r.line.Some? && |r.rest| < |input| &&
       var k := |input| - |r.rest| - 1;
       input[k] == '\n' && '\n' !in input[..k] && input[k + 1..] == r.rest &&
       r.line.value == DropCR(input[..k]))
  {
    var k := NewlineIndex(input);
    var kept := DropCR(input[..k]);
    assert '\n' !in kept by { DropCRNoNewline(input[..k]); }
    if k == |input| then
      assert input[..k] == input;
      if |kept| == 0 then LineRead(0, None, []) else LineRead(|kept| + 1, Some(kept), [])
    else
      assert '\n' in input;
      LineRead(|kept| + 1, Some(kept), input[k + 1..])
  }

  lemma {:induction false} DropCRNoNewline(s: seq<char>)
    requires '\n' !in s
    ensures '\n' !in DropCR(s)
    decreases |s|
  {
    if |s| > 0 {
      DropCRNoNewline(s[1..]);
    }
  }

  /** Carriage-return removal splits around a newline. */
  lemma DropCRAround(s: seq<char>, k: nat)
    requires k < |s| && s[k] == '\n'
    ensures DropCR(s) == DropCR(s[..k]) + ['\n'] + DropCR(s[k + 1..])
  {
    assert s == s[..k] + ['\n'] + s[k + 1..];
    DropCRConcat(s[..k] + ['\n'], s[k + 1..]);
    DropCRConcat(s[..k], ['\n']);
    assert DropCR(['\n']) == ['\n'];
  }

  /** The whole stream, carriage returns dropped, is the line, its newline, and what
      is left. */
  lemma FGetLineReassembles(input: seq<char>)
    ensures var r := FGetLine(input);
      r.line.Some? && '\n' in input ==> DropCR(input) == r.line.value + ['\n'] + DropCR(r.rest)
  {
    var k := NewlineIndex(input);
    if k < |input| {
      DropCRAround(input, k);
    }
  }

  /** The C loop: characters are stored one by one into a buffer of `size` bytes that
      grows by INCSIZE whenever only the byte for the terminator is left. `size` is
      the capacity reached, and the stored characters plus the terminator fit. */
  method ReadLine(input: seq<char>) returns (count: nat, line: Option<string>, rest: seq<char>, size: nat)
    ensures LineRead(count, line, rest) == FGetLine(input)
    ensures size >= STARTSIZE && (size - STARTSIZE) % INCSIZE == 0
    ensures var kept := if line.Some? then |line.value| else 0;
      kept < size && (size == STARTSIZE || size - INCSIZE <= kept)
  {
    var buf: string := [];
    size := STARTSIZE;
    var pos := 0;
    while pos < |input| && input[pos] != '\n'
      invariant pos <= |input|
      invariant '\n' !in input[..pos]
      invariant buf == DropCR(input[..pos])
      invariant |buf| < size
      invariant size >= STARTSIZE && (size - STARTSIZE) % INCSIZE == 0
      invariant size == STARTSIZE || size - INCSIZE <= |buf|
    {
      var ch := input[pos];
      assert input[..pos + 1] == input[..pos] + [ch];
      DropCRConcat(input[..pos], [ch]);
      pos := pos + 1;
      if ch != '\r' {
        if |buf| >= size - 1 {
          size := size + INCSIZE;
        }
        assert |buf| < size - 1;
        buf := buf + [ch];
      }
    }
    assert NewlineIndex(input) == pos;
    if pos == |input| && |buf| == 0 {
      count, line, rest := 0, None, [];
    } else {
      count, line := |buf| + 1, Some(buf);
      rest := if pos < |input| then input[pos + 1..] else [];
    }
  }

  /** A blank line is not end of input: it reads as an empty line with count 1. */
  lemma BlankLine(rest: seq<char>)
    ensures FGetLine(['\n'] + rest) == LineRead(1, Some([]), rest)
  {
    assert (['\n'] + rest)[1..] == rest;
  }

  /** Input holding only carriage returns reads as end of input. */
  lemma OnlyCarriageReturns()
    ensures FGetLine("\r\r") == LineRead(0, None, [])
  {}
}
