# neotags filter engine in Dafny

This project models the tag filter of neotags (`neotags_bin/src/neotags.c`). It also models two helpers from `neotags_bin/src/util.c`.

The filter takes four inputs: the lines of a ctags index, a requested language, a string of acceptable kind characters, and colon-separated skip and language-equivalence lists. It keeps each tag once, in the order the tags are first accepted. It then prints kind and name for every kept tag whose name occurs in the editor buffer.

Modules, one per component of the C program:

- `CString`: what the program uses of C strings.
  - `strcasecmp`-style caseless equality (`strCeq`).
  - `strchr`, which also finds the NUL terminator.
  - `strstr`, which stops at the first NUL of the buffer.
  - `strlcpy` truncation.
  - The `Option` and `Result` wrappers. `Result.Undefined` marks the paths on which the C program has undefined behaviour.
- `Delimited`: fields that each end with a separator. The text after the last separator belongs to no field.
- `ColonList`: the loop of `get_colon_delim_data`.
- `Lang`: `normalize_lang`, the pattern text `search` compiles, and `is_correct_lang` with its scan of the flattened equivalence list.
- `Seqs`: keeping the first occurrence of each value in a sequence. This is the reference for the insertion-ordered list without duplicates.
- `Filter`: `skip_tag`, `ll_find_str`, the per-line checks of `search`, and the loop over the lines as a fold.
- `Output`: `print_data` and reading its output back.
- `LineReader`: `my_fgetline` as a pure splitter over the characters still to be read. It also has the buffer-growing loop as a method.
- `Paths`: `basename` of the Windows build.
- `Examples`: concrete runs.

Regex matching is a parameter of `search`: a `Filter.Matcher`. It maps the pattern text and a line to the captured name, kind and declared language, or to no match. The subset type states what the pattern at neotags.c:25 guarantees of a match:
- the name is non-empty and has no tab;
- the kind is a single word character;
- the captures have no NUL bytes, because C strings cannot hold one.

The flattened equivalence list reads naturally as (from, to) pairs, but `is_correct_lang` does not scan it as a pair table: `*ctov++` sits inside a short-circuit `&&` (neotags.c:252), so the cursor moves on by one entry when the "from" test fails, and by two when only the "to" test fails. The model scans the list the same way.
- `Lang.ScanIsPairTable` proves when the scan and the pair table agree: the list has even length and no odd entry equals the declared language.
- `Lang.ScanMissesPair` and `Lang.ScanAcceptsAcrossPairs` exhibit inputs on which they differ.
- `Lang.ScanEvenLengthUndefined` shows that even length alone does not prevent the read of the terminating NULL. That read is therefore modelled as `Undefined`, not excluded by a precondition.

## Model

| member | source | states |
|---|---|---|
| CString.StrStr | neotags_bin/src/neotags.c:220 | `strstr` finds the name exactly when it occurs at some index of the searched text |
| CString.CPrefix | neotags_bin/src/neotags.c:220 | the text `strstr` searches is a NUL-free prefix of the buffer that ends at its first NUL |
| CString.CPrefixNulFree | neotags_bin/src/neotags.c:220 | on a NUL-free buffer the whole buffer is searched |
| CString.StrChrWordChar | neotags_bin/src/neotags.c:194 | for a word-character kind, `strchr(order, kind)` is plain membership in the order string |
| Delimited.SplitCount | neotags_bin/src/neotags.c:107-118 | the splitter produces one entry per `:` in the argument |
| Delimited.SplitSepFree | neotags_bin/src/neotags.c:107-116 | no entry contains `:` |
| Delimited.SplitJoinPrefix | neotags_bin/src/neotags.c:107-118 | the entries, each followed by `:`, rebuild the argument up to its last `:`; what follows holds no `:` and is dropped |
| Delimited.SplitSegment | neotags_bin/src/neotags.c:108-115 | a `:`-free run and its `:` become exactly one entry, ahead of the entries of the rest |
| Delimited.SplitJoin | neotags_bin/src/neotags.c:107-118 | round trip: colon-free entries joined with `:` and followed by colon-free text split back into the same entries |
| ColonList.GetColonDelimData | neotags_bin/src/neotags.c:101-119 | the loop stores the split of the argument, and its entries plus the NULL terminator fit the array, given that every field fits the BUFSIZ buffer and the array has more slots than the argument has colons |
| Lang.NormalizeLang | neotags_bin/src/neotags.c:262-271 | the C family (`C`, `C++`, `C\+\+`, any case) maps to the one fragment that matches both C and C++, any other language is copied; each is cut to fit `max` with its terminator, and is unchanged when it fits |
| Lang.CFamilyCaseless | neotags_bin/src/neotags.c:267 | whether a language counts as C does not depend on letter case |
| Lang.BuildPattern | neotags_bin/src/neotags.c:135-138 | when the normalised language fits `norm_lang`, the pattern is head, language fragment and tail with nothing cut off, and it is shorter than PATSIZ |
| Lang.IsCorrectLang | neotags_bin/src/neotags.c:241-256 | caseless equality of the two languages accepts whatever the list holds; an empty list gives exactly that equality; a leading (from, to) pair that relates them accepts; otherwise the answer is the scan's |
| Lang.CppBranchUnreachable | neotags_bin/src/neotags.c:247-249 | no language is both caselessly `C` and exactly `C\+\+`, so the special C/C++ branch never fires |
| Lang.ScanSound | neotags_bin/src/neotags.c:251-253 | an accepting scan found adjacent entries i, i+1 with the declared language caselessly equal to entry i and the requested one to entry i+1 |
| Lang.ScanUndefined | neotags_bin/src/neotags.c:251-253 | the scan reads the terminating NULL only when the last entry caselessly equals the declared language |
| Lang.ScanPairTableFrom | neotags_bin/src/neotags.c:251-255 | from any even cursor, under the conditions of ScanIsPairTable, the scan answers whether some later pair relates the languages |
| Lang.ScanIsPairTable | neotags_bin/src/neotags.c:251-255 | for an even-length list whose odd entries never equal the declared language, the scan is exactly a lookup in the (from, to) pair table |
| Lang.ScanMissesPair | neotags_bin/src/neotags.c:251-253 | a pair that the table holds is missed once the cursor has slipped onto odd positions |
| Lang.ScanAcceptsAcrossPairs | neotags_bin/src/neotags.c:251-253 | a "to" entry and the next pair's "from" entry are taken as a pair |
| Lang.ScanEvenLengthUndefined | neotags_bin/src/neotags.c:251-253 | an even-length list can still make the scan read the terminating NULL |
| Filter.SkipTag | neotags_bin/src/neotags.c:228-238 | true exactly when the name equals some skip entry, case-sensitively; an empty list skips nothing |
| Filter.FindStr | neotags_bin/src/neotags.c:197 | true exactly when some list element has this kind-plus-name string |
| Filter.DataInjective | neotags_bin/src/neotags.c:169-174 | the kind-plus-name string determines kind and name |
| Filter.FindStrIsMembership | neotags_bin/src/neotags.c:197 | the duplicate test on strings is membership of the (kind, name) entry |
| Filter.JudgeYields | neotags_bin/src/neotags.c:154-199 | the per-line checks accept an entry exactly when the line is not a comment or empty, matches, has its kind in the order string and an accepted language, and has a name not on the skip list |
| Filter.Step | neotags_bin/src/neotags.c:194-201 | one line leaves the list unchanged or appends one entry not yet in it at the end, so the list stays free of duplicates |
| Filter.Fold | neotags_bin/src/neotags.c:152-206 | the loop only extends the list at its end and keeps it free of duplicates |
| Filter.FoldYieldStep | neotags_bin/src/neotags.c:194-201 | a line that yields an entry moves the loop from the first occurrences of the entries so far to those with the new entry added |
| Filter.FoldIsFirsts | neotags_bin/src/neotags.c:152-206 | the loop from any reached list equals the first occurrences of that list followed by every entry the remaining lines yield |
| Filter.SearchIsFirstOccurrences | neotags_bin/src/neotags.c:122-210 | the list `search` builds is every accepted entry in line order, each kept at its first occurrence; it is undefined exactly when collecting them is |
| Filter.SearchIsOwnFirsts | neotags_bin/src/neotags.c:194-201 | the result is its own first-occurrence list: deduplicating it again changes nothing |
| Filter.SearchNoDuplicates | neotags_bin/src/neotags.c:194-201 | no (kind, name) appears twice in the result |
| Filter.AcceptedSound | neotags_bin/src/neotags.c:152-201 | every collected entry comes from a line that passed every check |
| Filter.SearchSound | neotags_bin/src/neotags.c:194-199 | every result entry has its kind in the order string and a name not on the skip list, and comes from a line that passed all checks |
| Filter.AcceptedComplete | neotags_bin/src/neotags.c:152-201 | every entry a line yields is collected |
| Filter.SearchComplete | neotags_bin/src/neotags.c:194-199 | every entry some line yields is in the result |
| Filter.AcceptedUndefined | neotags_bin/src/neotags.c:152-201 | collecting is undefined exactly when some line's checks are |
| Filter.SearchUndefined | neotags_bin/src/neotags.c:169-199 | `search` has undefined behaviour exactly when some line's capture overruns `match_lang` or its language check reads past the equivalence list |
| Filter.AcceptedSkipsLine | neotags_bin/src/neotags.c:154-155 | a comment or empty line contributes nothing to the collected entries |
| Filter.SearchSkipsLine | neotags_bin/src/neotags.c:154-155 | inserting a comment or empty line anywhere leaves the result unchanged |
| Output.InBufferNulFree | neotags_bin/src/neotags.c:220 | on a NUL-free buffer a name is present exactly when it occurs in the buffer as a literal substring |
| Output.PresentMembership | neotags_bin/src/neotags.c:219-224 | a tag is printed exactly when it is listed and its name is in the buffer |
| Output.PresentConcat | neotags_bin/src/neotags.c:219-224 | printing keeps list order: the selection of a concatenation is the concatenation of the selections |
| Output.PrintData | neotags_bin/src/neotags.c:213-225 | the output is the records, kind line then name line, of exactly the present tags in list order |
| Output.RenderIsJoin | neotags_bin/src/neotags.c:221 | the output is the lines kind, name, kind, name, … each ended by a newline |
| Output.FieldsLineFree | neotags_bin/src/neotags.c:221 | with no newline in any kind or name, no output line holds a newline |
| Output.PairsFields | neotags_bin/src/neotags.c:221 | reading the lines back in pairs gives back the tags |
| Output.ParsePrintData | neotags_bin/src/neotags.c:216-224 | round trip: the output read back as pairs of lines is exactly the listed tags whose name is in the buffer, in list order |
| LineReader.DropCR | neotags_bin/src/util.c:32-33 | the kept characters contain no carriage return |
| LineReader.DropCRConcat | neotags_bin/src/util.c:31-33 | dropping carriage returns distributes over concatenation |
| LineReader.DropCRNoNewline | neotags_bin/src/util.c:31-33 | the kept characters before the first newline contain no newline |
| LineReader.DropCRAround | neotags_bin/src/util.c:31-33 | dropping carriage returns splits around a newline |
| LineReader.NewlineIndex | neotags_bin/src/util.c:31 | the read stops at the first newline or at end of input |
| LineReader.FGetLine | neotags_bin/src/util.c:23-52 | 0 and no line exactly when input ends with nothing kept, including input of only carriage returns; otherwise the count is the kept length plus one; the line is what precedes the first newline, without carriage returns; the newline is consumed and not stored |
| LineReader.FGetLineReassembles | neotags_bin/src/util.c:31-51 | line, newline and the rest of the stream give back the stream with carriage returns dropped |
| LineReader.ReadLine | neotags_bin/src/util.c:26-51 | the buffer loop computes what FGetLine describes; the capacity starts at STARTSIZE, grows only in steps of INCSIZE, always exceeds the kept characters, and grows only when needed |
| LineReader.BlankLine | neotags_bin/src/util.c:42-51 | a blank line reads as an empty line with count 1, distinct from end of input |
| LineReader.OnlyCarriageReturns | neotags_bin/src/util.c:31-46 | input of only carriage returns reads as end of input |
| Paths.Basename | neotags_bin/src/util.c:216-226 | the result is a suffix of the path with no `/` or `\`; it is the whole path or follows a separator; a trailing separator gives the empty string |
| Examples.SkipListExample | neotags_bin/src/neotags.c:194-201 | kinds `fc`, `bar` skipped, language C: of a `foo` and a `bar` line only `foo` is listed |
| Examples.FooInSource | neotags_bin/src/neotags.c:220 | `foo` occurs in `int foo(void) { return 0; }` |
| Examples.PrintSingle | neotags_bin/src/neotags.c:219-224 | a one-tag list whose name is in the buffer prints as that tag's two lines |
| Examples.PrintExample | neotags_bin/src/neotags.c:219-224 | `foo` of kind `f` with that buffer prints `f` and `foo` |
| Examples.EquivalenceExample | neotags_bin/src/neotags.c:251-253 | a C tag is accepted for a C++ request through the list `C:C++:` |
| Examples.SubstringExample | neotags_bin/src/neotags.c:220 | presence is substring containment: `cat` is present in `category` |

## Left out

- PCRE2 compilation and matching (neotags.c:139-167): regex semantics are not modelled. The matcher is a parameter, constrained only by what the pattern guarantees. A failed compilation ends the process and is not modelled.
- `main` and `sanity_check` (neotags.c:45-98): argument handling, reading the buffer from standard input, the `isatty` and argument-count exits, and freeing memory.
- The `DEBUG` branch of `search` (neotags.c:176-192): it makes the same decisions and adds logging.
- The linked list, `streq` and `strCeq` come from `neotags.h`, which is not part of this model. The list is a `seq<Entry>` with append at the end and membership. `streq` is string equality. `strCeq` is ASCII caseless equality.
- `get_all_lines` (the tag file reader) is not part of this model. The tag lines are a `seq<string>`, and a line with an embedded NUL is not distinguished from its text.
- Allocation and file wrappers, `__xatoi`, the diagnostics and the `#if 0` block of util.c are out of scope: they are I/O, allocation, or dead code. The `xerr` exits on a failed `strdup` or allocation are not modelled.
- Filter.Search: requires that the normalised language fits `norm_lang`, which has PATSIZ/2 bytes but is filled with a bound of PATSIZ (neotags.c:135-136). Longer languages overflow that buffer in C.
- ColonList.GetColonDelimData: requires that every field fits the BUFSIZ buffer and that the `data` array has room for all entries and the NULL. The C code overflows otherwise.
- Paths.Basename: requires a non-empty path, as the source's `assert` does. It returns the suffix as a new string rather than an address inside the path.
- LineReader.ReadLine: the stream is the sequence of characters left to read; read errors and `EOF` bytes inside the stream are not modelled. The final shrinking `xrealloc` does not change the contents and is not modelled.
- The `match_lang` overflow, when a captured language has PATSIZ or more characters, and the NULL read at the end of the equivalence list are modelled as `Undefined` results, not as preconditions.
