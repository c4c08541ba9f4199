/** `print_data`: the accepted tags whose name occurs in the editor buffer are written
    as two lines each, the kind character and then the name. */
module Output {
  import opened CString
  import opened Delimited
  import opened Filter

  /** `strstr(buffer, name) != NULL`: the search stops at the buffer's first NUL. */
  predicate InBuffer(name: string, buffer: string) {
    StrStr(CPrefix(buffer), name)
  }

  /** On a NUL-free buffer, presence is plain substring containment. */
  lemma InBufferNulFree(name: string, buffer: string)
    requires '\0' !in buffer
    ensures InBuffer(name, buffer) <==> exists i :: OccursAt(buffer, name, i)
  {
    CPrefixNulFree(buffer);
  }

  /** Reference: the entries whose name occurs in the buffer, in list order. */
  function Present(ll: seq<Entry>, buffer: string): seq<Entry> {
    if |ll| == 0 then []
    else (if InBuffer(ll[0].name, buffer) then [ll[0]] else []) + Present(ll[1..], buffer)
  }

  /** A tag is printed exactly when it is listed and its name occurs in the buffer. */
  lemma {:induction false} PresentMembership(ll: seq<Entry>, buffer: string, e: Entry)
    ensures e in Present(ll, buffer) <==> e in ll && InBuffer(e.name, buffer)
    decreases |ll|
  {
    if |ll| > 0 {
      PresentMembership(ll[1..], buffer, e);
      assert ll == [ll[0]] + ll[1..];
    }
  }

  /** Selection keeps list order: it distributes over concatenation. */
  lemma {:induction false} PresentConcat(a: seq<Entry>, b: seq<Entry>, buffer: string)
    ensures Present(a + b, buffer) == Present(a, buffer) + Present(b, buffer)
    decreases |a|
  {
    if |a| == 0 {
      assert a + b == b;
    } else {
      PresentConcat(a[1..], b, buffer);
      assert (a + b)[1..] == a[1..] + b;
    }
  }

  /** The two output lines of one tag. */
  function Record(e: Entry): string {
    [e.kind, '\n'] + e.name + ['\n']
  }

  /** The output lines of a list of tags. */
  function Render(es: seq<Entry>): string {
    if |es| == 0 then [] else Record(es[0]) + Render(es[1..])
  }

  /** The standard output of `print_data(ll, buffer)`. */
  function PrintData(ll: seq<Entry>, buffer: string): (out: string)
    ensures out == Render(Present(ll, buffer))
  {
    if |ll| == 0 then []
    else
      var rest := PrintData(ll[1..], buffer);
      if InBuffer(ll[0].name, buffer) then
        assert ([ll[0]] + Present(ll[1..], buffer))[1..] == Present(ll[1..], buffer);
        Record(ll[0]) + rest
      else
        assert [] + Present(ll[1..], buffer) == Present(ll[1..], buffer);
        rest
  }

  /** The output read back as lines, one tag per pair of lines. */
  function ParseOutput(out: string): seq<Entry> {
    Pairs(Split(out, '\n'))
  }

  function Pairs(ls: seq<string>): seq<Entry>
    decreases |ls|
  {
    if |ls| < 2 then []
    else (if |ls[0]| == 1 then [Entry(ls[0][0], ls[1])] else []) + Pairs(ls[2..])
  }

  /** The lines each tag occupies: its kind, then its name. */
  function Fields(es: seq<Entry>): seq<string> {
    if |es| == 0 then [] else [[es[0].kind], es[0].name] + Fields(es[1..])
  }

  predicate LineSafe(es: seq<Entry>) {
    forall e :: e in es ==> e.kind != '\n' && '\n' !in e.name
  }

  lemma {:induction false} RenderIsJoin(es: seq<Entry>)
    ensures Render(es) == Join(Fields(es), '\n')
    decreases |es|
  {
    if |es| > 0 {
      RenderIsJoin(es[1..]);
      var f := Fields(es);
      assert f[1..] == [es[0].name] + Fields(es[1..]);
      assert f[1..][1..] == Fields(es[1..]);
    }
  }

  lemma {:induction false} FieldsLineFree(es: seq<Entry>)
    requires LineSafe(es)
    ensures SepFree(Fields(es), '\n')
    decreases |es|
  {
    if |es| > 0 {
      assert es[0] in es;
      assert LineSafe(es[1..]) by {
        forall e | e in es[1..] ensures e in es { }
      }
      FieldsLineFree(es[1..]);
    }
  }

  lemma {:induction false} PairsFields(es: seq<Entry>)
    ensures Pairs(Fields(es)) == es
    decreases |es|
  {
    if |es| > 0 {
      PairsFields(es[1..]);
      assert Fields(es)[2..] == Fields(es[1..]);
    }
  }

  /** Round trip: reading the output back as pairs of lines gives exactly the listed
      tags whose name occurs in the buffer, in list order, provided no kind or name
      holds a newline. */
  lemma ParsePrintData(ll: seq<Entry>, buffer: string)
    requires LineSafe(ll)
    ensures ParseOutput(PrintData(ll, buffer)) == Present(ll, buffer)
  {
    var es := Present(ll, buffer);
    RenderIsJoin(es);
    assert LineSafe(es) by {
      forall e | e in es ensures e in ll {
        PresentMembership(ll, buffer, e);
      }
    }
    FieldsLineFree(es);
    SplitJoin(Fields(es), [], '\n');
    assert Join(Fields(es), '\n') + [] == Join(Fields(es), '\n');
    PairsFields(es);
  }
}
