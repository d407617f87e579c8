# builder preprocessor core, modelled in Dafny

builder turns R source files that carry `#`-directives into plain R. Each line
goes through a chain of rewrites:

- `#define NAME VALUE` and `#unique NAME` fill a definition table.
- `#import pkg::path` pulls every `#define` of a header file into that table.
- `#include: func path obj` is parsed into three fields.
- `f'..{x}..'` and `..FMT("..{x}..")` become `sprintf(..)` calls.
- `.[a, b] <- rhs` is destructured into one assignment per name.
- `x -< v` becomes a locked binding.
- `#for i in a:b ... #endfor` unrolls its body once per value of `i`.
- `#error`, `#test`, `#> preflight` and `#> endpreflight` lines are recognised.
- A line can be annotated with a `# line: N` source-map comment.

Around these sit the command-line parser, the `builder.ini` configuration
reader, the trailing-slash path helpers, the plugin list and its failure
flag, and a two-pass dead-code analysis. The analysis defines assignment
targets in scoped environments, marks uses, and counts the global bindings
never used.

The model has one Dafny module per C file. Where the C code updates state in
place, the model does so as well:

- the definition table is a class over parallel arrays, grown by 8;
- the configuration is a `BuildContext` class filled line by line;
- dead-code environments are a class with a `parent` link;
- the test list is a class;
- `replace_const`, `replace_for` and `deconstruct_replace` write into the
  caller's `array<char>`.

Each such method is proved equal to a pure specification function, and the
lemmas state what the source promises about that function. Strings are
`seq<char>`, and NULL is `None`. `strstr`, `strtok`, `sscanf` and the
NUL-terminated buffer view live in the helper modules `Strings`, `Scanf` and
`CStr`. The rescan that both `fstring_replace` dialects perform on their own
output is stated once, over the single rewrite, in the module `Rescan`.

## Model

| member | source | states |
|---|---|---|
| Define.DefineTable.constructor | src/define.c:6-30 | a new table is empty, with size 0 and capacity 8 |
| Define.DefineTable.Push | src/define.c:32-55 | below capacity the capacity is kept; on a full table it grows by exactly 8 when both reallocations succeed and is restored otherwise; when there is room the entry is appended at index `size` and earlier entries are unchanged; duplicates are not checked |
| Define.DefineTable.Grow | src/define.c:34-50 | growth adds exactly 8 when both `realloc`s succeed, restores the capacity when either fails, and keeps every entry |
| Define.DefineTable.Append | src/define.c:52-54 | the entry goes to index old `size`, `size` grows by one, capacity and earlier entries are unchanged |
| Define.DefineTable.Lookup | include/define.h:26 | `get_define_value`: the value of the first entry with that name, `None` when no entry has it |
| Define.DefineTable.LookupFrom | include/define.h:26 | the same search started at index `i` |
| Define.DefineTable.DefineLine | src/define.c:76-116 | a line `ParseDefine` rejects leaves the table unchanged; otherwise the parsed entry is pushed: appended when there is room or growth succeeds, with the capacity grown by 8 exactly when the table was full, and the table left as it was (size, capacity, entries) when a `realloc` fails |
| Define.ParseDefine | src/define.c:76-116 | no entry unless the line starts with `#define`; the name and value are non-empty tokens without spaces, and the kind is that of the 3-argument push |
| Define.DefineRoundTrip | src/define.c:89-112 | `#define N V` parses to name N and value V |
| Define.DefineDropsExtraTokens | src/define.c:103-114 | tokens after the value are dropped |
| Define.DefineWithoutValue | src/define.c:103-112 | `#define N` gives a NULL value |
| Define.DefineWithoutName | src/define.c:89-94 | `#define` followed only by spaces pushes nothing |
| Define.DefineFromTokens | src/define.c:89-112 | the name is the 2nd and the value the 3rd space-separated token |
| Unique.UniqueCounter.constructor | src/unique.c:7 | the global `UNIQUE` counter starts at 0 |
| Unique.UniqueValue | src/unique.c:15-20 | the value is `._unq.` followed by the counter |
| Unique.UniqueValuesDistinct | src/unique.c:15-24 | different counter values give different identifiers |
| Unique.UniqueName | src/unique.c:11-13 | the name is the text after the first `#unique ` |
| Unique.CaptureUniqueDefine | src/unique.c:9-25 | without `#unique `, neither the table nor the counter changes; otherwise the counter goes up by one whatever happens to the push, and `(name, ._unq.N)` is appended as a variable when there is room or growth succeeds, the table being left as it was when a `realloc` fails |
| Import.SplitPackage | src/import.c:13-21 | `pkg::path` splits at the first `::`; the package holds no `::` and the parts rejoin to the input |
| Import.SplitPackageRoundTrip | src/import.c:13-21 | splitting `pkg + "::" + path` gives back `(pkg, path)` when the package has no `:` |
| Import.GetPath | src/import.c:43-50 | a spec without `::` is returned as is; otherwise it is resolved by the `system.file` oracle on the split parts |
| Import.DefinitionsOf | src/import.c:60-70 | the entries `define` pushes for a sequence of lines: at most one per line, all of the 3-argument kind |
| Import.DefinitionsOfAppend | src/import.c:60-70 | the definitions of concatenated line sequences are the concatenated definitions, in order |
| Import.DefinitionsOfPlainLines | src/define.c:78-80 | lines without `#define` contribute nothing |
| Import.DefineLines | src/import.c:64-68 | every line of one file is fed to `define` in order; the table gains exactly `DefinitionsOf(lines)` |
| Import.DefineOne | src/import.c:64-68 | one `define` call appends exactly the definitions of that one line |
| Import.ImportFile | src/import.c:60-70 | one file's lines, read from its resolved path, append exactly their definitions |
| Import.ImportedDefinitionsOfLines | src/import.c:52-71 | the file-by-file definitions equal the definitions of all lines of all files, in order |
| Import.ImportDefines | src/import.c:52-71 | an empty list does nothing; the table gains the definitions of every line of every file, with files in list order and lines in file order |
| FstringScan.ClosingQuote | src/fstring.c:52-78 | the first quote not escaped by an odd run of backslashes; every earlier quote is escaped |
| FstringScan.FindClosingQuote | src/fstring.c:52-78 | the `escaped`-flag loop returns exactly `ClosingQuote` |
| FstringScan.ClosingQuotePlain | src/fstring.c:52-78 | without backslashes the closing quote is the first quote |
| FstringScan.EscapedQuoteSkipped | src/fstring.c:62-70 | a `\'` in front of the text is skipped |
| FstringScan.ClosingQuoteKept | src/fstring.c:112-124 | cutting the text after the closing quote keeps that quote as the closing one |
| FstringScan.BraceStep | src/fstring.c:132-153 | one step of the brace scan: `{` deepens, the `}` of depth 1 closes a name, other characters are buffered inside braces and ignored outside |
| FstringScan.CollectBraceNames | src/fstring.c:132-153 | the depth-counter loop yields exactly `BraceNames` |
| FstringScan.BraceScanAppend | src/fstring.c:132-153 | the scan of a concatenation is the scan of the second part from the state after the first |
| FstringScan.NoBraceNoNames | src/fstring.c:228-248 | content without `{` has no names |
| FstringScan.BraceNamesSpan | src/fstring.c:132-153 | `a{n}b` yields `n` and then the names of `b`, left to right |
| FstringScan.StrayCloseBraceHidesNext | src/fstring.c:132-152 | a stray `}` drives the depth negative, so the next `{n}` is not collected |
| FstringScan.BraceNamesBraceFree | src/fstring.c:132-153 | collected names contain no braces |
| FstringScan.BuildTemplate | src/fstring.c:155-170 | the loop yields `Template`, each `{name}` replaced by `%s` in turn |
| FstringScan.BuildArgList | src/fstring.c:172-179 | the `strcat` loop yields `ArgList`, one `, name` per name |
| FstringScan.ArgListAppend | src/fstring.c:172-179 | arguments keep the order of the names |
| FstringScan.TemplateSpan | src/fstring.c:155-170 | `a{n}b` becomes `a%sb` |
| FstringScan.SprintfCallPlain | src/fstring.c:242-261 | content without braces becomes `sprintf('content')` with no arguments |
| FstringScan.SprintfCallSpan | src/fstring.c:155-200 | `a{n}b` becomes `sprintf('a%sb', n)` |
| Fstring.SplitFString | src/fstring.c:87-124 | `s = pre + "f'" + content + "'" + post` with the first `f'` and the first unescaped quote after it; `None` exactly when there is no `f'` or no closing quote |
| Fstring.Rewrite | src/fstring.c:80-273 | the line is returned unchanged beyond depth 16 and when no `f'` with a closing quote is present |
| Fstring.RewriteIterates | src/fstring.c:222-226 | a call at depth `n` is exactly `MaxDepth + 1 - n` single rewrites, each applied to the output of the one before |
| Fstring.RewriteFixpointOrBound | src/fstring.c:83-226 | the output holds no `f'…'` left to rewrite, or the depth bound stopped the recursion with every line along the way, the output included, still holding one |
| Rescan.TimesOfFixed | src/fstring.c:222-226 | a line the single rewrite leaves alone is left alone by any number of rescans |
| Rescan.FixpointOrBound | src/fstring.c:222-226 | when the single rewrite changes only lines with something to rewrite, a run of rescans ends on a line with nothing left, or every line of the run, the last included, still had something |
| Fstring.FindContentStart | src/fstring.c:91-109 | the `was_f` loop finds the index just after the first `f'`, and nothing when there is none |
| Fstring.LocateFString | src/fstring.c:87-124 | the pointer walk yields `SplitFString` |
| Fstring.BuildCall | src/fstring.c:126-261 | the call built from the content is `SprintfCall` |
| Fstring.FstringReplace | src/fstring.c:80-273 | the recursive replacement yields `Rewrite` |
| Fstring.SplitPlain | src/fstring.c:87-124 | a line `pre f'c' post` splits into those three parts |
| Fstring.RewriteStep | src/fstring.c:200-226 | one step replaces `f'c'` by `sprintf(..)` between the prefix and the rest, and recurses on the whole new line one level deeper |
| Fstring.RewriteStepTo | src/fstring.c:200-226 | a content without braces becomes `sprintf('c')` in place and the whole new line is scanned again |
| Fstring.RescanCounterexample | src/fstring.c:222-226 | as written: `f'of' 'a'` becomes `sprintf('osprintf(') ')a'` |
| Fstring.RewriteResuming | src/fstring.c:80-273 | the intended rewrite resumes after the inserted call; unchanged inputs as for `Rewrite` |
| Fstring.ResumingStep | src/fstring.c:200-226 | the prefix and the inserted call are never scanned again |
| Fstring.ResumingStepTo | src/fstring.c:200-226 | with the intended rewrite, a content without braces becomes `sprintf('c')` and only the rest is scanned again |
| Fstring.ResumingOnCounterexample | src/fstring.c:222-226 | the intended rewrite of `f'of' 'a'` is `sprintf('of') 'a'` |
| FmtMacro.SkipOne | Rpkg/inst/builder_src/fstring.c:196-209 | resuming after the closing quote skips one more character (the `)`), or nothing when none is left |
| FmtMacro.SplitFmt | Rpkg/inst/builder_src/fstring.c:87-117 | a split exists only with `..FMT(` followed by `"` or `'`, and records that quote |
| FmtMacro.SplitFmtShape | Rpkg/inst/builder_src/fstring.c:87-209 | the line is `pre ..FMT( q content q` then one skipped character and the rest; the closing quote is the same character as the opening one, found by `ClosingQuote` |
| FmtMacro.FmtRewrite | Rpkg/inst/builder_src/fstring.c:80-222 | unchanged beyond depth 32 and when no marker with a quote and a closing quote is present |
| FmtMacro.FmtRewriteIterates | Rpkg/inst/builder_src/fstring.c:217-221 | a call at depth `n` is exactly `MaxDepth + 1 - n` single rewrites, each applied to the output of the one before |
| FmtMacro.FmtFixpointOrBound | Rpkg/inst/builder_src/fstring.c:83-221 | the output holds no complete `..FMT(` call left to rewrite, or the depth bound stopped the recursion with every line along the way, the output included, still holding one |
| FmtMacro.LocateFmt | Rpkg/inst/builder_src/fstring.c:87-117 | the pointer walk yields `SplitFmt` |
| FmtMacro.BuildFmtCall | Rpkg/inst/builder_src/fstring.c:119-193 | the emitted call is `SprintfCall`, always in single quotes |
| FmtMacro.FmtReplace | Rpkg/inst/builder_src/fstring.c:80-222 | the recursive replacement yields `FmtRewrite` |
| FmtMacro.SplitFmtPlain | Rpkg/inst/builder_src/fstring.c:87-117 | `pre..FMT(qcq rest` splits at that quote, with one character of `rest` skipped |
| FmtMacro.SplitFmtOfPieces | Rpkg/inst/builder_src/fstring.c:87-117 | with the marker after `pre` and the closing quote after `c`, the split is `(pre, q, c, rest less one character)` |
| FmtMacro.FmtStep | Rpkg/inst/builder_src/fstring.c:196-217 | one step keeps the prefix, inserts the call, drops the character after the closing quote and recurses one level deeper |
| FmtMacro.FmtQuoteLast | Rpkg/inst/builder_src/fstring.c:196-217 | a closing quote at the end of the line leaves nothing to skip |
| FmtMacro.FmtNeedsQuote | Rpkg/inst/builder_src/fstring.c:96-99 | a marker not followed by a quote leaves the line unchanged |
| FmtMacro.HelloExample | Rpkg/inst/builder_src/fstring.c:80-222 | `x <- ..FMT("Hello {name}, you are {age}")` becomes `x <- sprintf('Hello %s, you are %s', name, age)` |
| Deconstruct.Scan | src/deconstruct.c:68-96 | the character loop only adds names, in order |
| Deconstruct.CollectNames | src/deconstruct.c:68-96 | the loop with `push_var` as an append yields `Names` |
| Deconstruct.Rhs | src/deconstruct.c:102-105 | the text from the first ` <-`, less one trailing newline |
| Deconstruct.Deconstructed | src/deconstruct.c:52-130 | a line that does not start with `.` after its spaces, or yields no names, is unchanged; otherwise the output starts with `.destructure_tmp_ <-` |
| Deconstruct.BuildOutput | src/deconstruct.c:110-125 | the output is the temporary assignment, then one extraction per name |
| Deconstruct.DeconstructReplace | src/deconstruct.c:52-130 | NULL gives NULL; otherwise the result is `Deconstructed` of the line, and the caller's buffer loses its trailing newline exactly when the rewrite applies |
| Deconstruct.ReplaceLine | src/deconstruct.c:58-125 | a line that does not apply is returned as it is; one that applies gives `Deconstructed` and loses its trailing newline in the buffer |
| Deconstruct.Recognize | src/deconstruct.c:58-100 | the line is rewritten exactly when `Applies` holds, and then the names are `Names` of the line |
| Deconstruct.Rewrite | src/deconstruct.c:102-125 | a line that applies yields `Deconstructed`, and its buffer loses only a trailing newline |
| Deconstruct.CutNewline | src/deconstruct.c:103-105 | a trailing newline of the caller's buffer becomes NUL; the buffer's string is the line less that newline |
| Deconstruct.RhsAfter | src/deconstruct.c:102-105 | when the first ` <-` follows `pre`, the right-hand side is ` <- v` less its trailing newline |
| Deconstruct.ExtractionsSnoc | src/deconstruct.c:114-125 | the i-th name (1-based) gives `\nNAME <- .destructure_tmp_[[i]]`, in list order |
| Deconstruct.NamesOfList | src/deconstruct.c:68-96 | `.[n1, .., nk]` followed by text without `,` or `]` yields exactly `n1..nk`, in order |
| Deconstruct.DestructureList | src/deconstruct.c:52-130 | `.[n1, .., nk] <- v` becomes the temporary assignment of `v` (newline dropped), then the extractions in order; the right-hand side appears once |
| Deconstruct.PairExample | src/deconstruct.c:52-130 | `.[a, b] <- f()\n` gives the names a and b and the expected output |
| Deconstruct.NamesClean | src/deconstruct.c:78-90 | collected names contain no space, comma or bracket |
| Deconstruct.CloseCounterexample | src/deconstruct.c:85-95 | as written: `.[a] <- f(x, y)` yields the spurious second name `<-f(x` |
| Deconstruct.NamesStoppingOfList | src/deconstruct.c:85-95 | with the intended stop at `]`, `.[n1, .., nk]` followed by anything yields exactly `n1..nk` |
| Const.TrimEnd | Rpkg/inst/builder_src/const.c:17-20 | the longest prefix whose last character is not white space; everything cut was white space |
| Const.TrimLhs | Rpkg/inst/builder_src/const.c:12-20 | the decrementing loop yields `TrimEnd` of the text before `-<` |
| Const.Swapped | Rpkg/inst/builder_src/const.c:27-37 | the swap keeps the length |
| Const.SwapArrow | Rpkg/inst/builder_src/const.c:27-37 | the in-place loop over the first `strlen` characters writes `Swapped` there and leaves the rest of the buffer alone |
| Const.SwappedIndex | Rpkg/inst/builder_src/const.c:27-37 | character by character: before the first `<` every `-` reads `<`, that `<` reads `-`, and every later character is kept |
| Const.SwapLine | Rpkg/inst/builder_src/const.c:27-39 | after the swap the buffer's string is `Swapped` of the line, which is what is read back, and the bytes after it are untouched |
| Const.SwappedArrow | Rpkg/inst/builder_src/const.c:27-37 | with no `-` or `<` before the arrow, `a-<b` becomes `a<-b` |
| Const.CutNewline | Rpkg/inst/builder_src/const.c:25 | one trailing newline of the caller's line is overwritten with NUL |
| Const.ConstRewrite | Rpkg/inst/builder_src/const.c:6-47 | a line without `-<` is returned unchanged |
| Const.ReplaceConst | Rpkg/inst/builder_src/const.c:6-47 | the result is `ConstRewrite` of the line, and the caller's buffer ends up as `ConstBuffer` (newline cut, arrow swapped) |
| Const.TrimEndPad | Rpkg/inst/builder_src/const.c:17-20 | trailing white space after a name is trimmed away |
| Const.ConstLine | Rpkg/inst/builder_src/const.c:6-47 | `lhs pad -< v` becomes `lhs pad <- v` (newline dropped) plus `;lockBinding("lhs", environment());` |
| Const.ConstBufferText | Rpkg/inst/builder_src/const.c:25-37 | the caller's line afterwards reads as the swapped line without its newline |
| Const.ConstExample | Rpkg/inst/builder_src/const.c:6-47 | `x -< 5\n` becomes `x <- 5;lockBinding("x", environment());` |
| Sourcemap.LineComment | src/sourcemap.c:19 | the comment starts with `# line: ` |
| Sourcemap.Annotate | src/sourcemap.c:5-31 | a line containing `#`, or made only of spaces, tabs, CR and LF, is unchanged |
| Sourcemap.AddSourcemap | src/sourcemap.c:5-31 | the skip loop and newline cut yield `Annotate` |
| Sourcemap.AnnotatedHasHash | src/sourcemap.c:8-10 | an annotated line contains `#` |
| Sourcemap.AnnotateIdempotent | src/sourcemap.c:8-27 | annotating twice is annotating once |
| Sourcemap.AnnotateCode | src/sourcemap.c:19-27 | a code line `c\n` becomes `c # line: N\n` |
| Scanf.SkipSpace | src/for.c:39 | `sscanf` white-space skipping: a suffix whose first character is not white space |
| Scanf.WordLength | src/for.c:39 | `%s` reads up to the first white-space character |
| Scanf.DigitRun | src/for.c:39 | `%d` reads the longest run of digits |
| Scanf.ScanWord | src/for.c:39 | `%63s` reads a non-empty word of at most 63 characters after white space, or fails |
| Scanf.ScanInt | src/for.c:39 | `%d` consumes at least one character when it succeeds |
| Scanf.ScanIntToString | src/for.c:39 | `%d` reads back any decimal rendering of an integer |
| Scanf.ScanNegative | src/for.c:39 | `-N` reads as the negative number |
| Scanf.ScanMinusRun | src/for.c:39 | a minus followed by a maximal digit run reads as the negated value and leaves the rest |
| Scanf.ScanPlainRun | src/for.c:39 | a maximal digit run reads as its value and leaves the rest |
| For.ParseHeader | src/for.c:39-42 | a parsed header starts with `#for` and has a token of 1 to 63 characters |
| For.ParseRange | src/for.c:39 | the range follows `in` after white space |
| For.ParseBounds | src/for.c:39 | `START:END` needs a leading integer |
| For.Placeholder | src/for.c:44-46 | the pattern is `..TOKEN..` |
| For.Unrolled | src/for.c:18-79 | a buffer without a newline gives `""` |
| For.UnrolledBlock | src/for.c:31-79 | a header that does not parse gives `""` |
| For.Unroll | src/for.c:49-78 | START > END gives NULL; otherwise the iterations START..END in ascending order, each the body with the pattern replaced by the decimal counter |
| For.SplitAtNewline | src/for.c:20-29 | the first newline becomes NUL; the statement is the text before it and the body the text after it |
| For.UnrollBlock | src/for.c:31-79 | the parsed block yields `UnrolledBlock` |
| For.ReplaceFor | src/for.c:18-79 | the result is `Unrolled` of the buffer, and the buffer's first newline is overwritten |
| For.BoundsRoundTrip | src/for.c:39 | `A:B` parses to `(A, B)` |
| For.RangeRoundTrip | src/for.c:39 | ` in A:B` parses to `(A, B)` |
| For.HeaderRoundTrip | src/for.c:39-42 | `#for tok in A:B` parses to `(tok, A, B)` |
| For.HeaderParses | src/for.c:39-42 | the header written from `(tok, A, B)` is read back as `(tok, A, B)` |
| For.HeaderBlock | src/for.c:18-79 | a header line followed by a body unrolls as that header and body |
| For.ForBlock | src/for.c:20-29 | the statement ends at the first newline and the body is the rest |
| For.IterationsSplit | src/for.c:51-76 | the iterations of `m + n` values are those of the first `m` followed by the next `n` |
| For.IterationsStep | src/for.c:51-76 | one more iteration appends the body with the pattern replaced by the next value |
| For.IterationsPlain | src/for.c:51-76 | a body without the pattern is repeated once per value |
| For.ForLoop | src/for.c:18-79 | `#for tok in A:B\nbody` is NULL when A > B and the iterations otherwise |
| For.TwoIterations | src/for.c:18-79 | `#for i in 1:2\ny <- ..i..\n` unrolls to `y <- 1\ny <- 2\n` |
| For.EndforIsNotFor | src/for.c:8-16 | `#endfor` is an `exit_for` line and not an `enter_for` line |
| For.EnterFor | src/for.c:8-11 | a line starting with `#for` enters a loop; an entering line has at least 4 characters |
| For.ExitFor | src/for.c:13-16 | a line starting with `#endfor` leaves a loop; a leaving line has at least 7 characters |
| Include.Nth | src/include.c:30-43 | the i-th token, or NULL when there are fewer |
| Include.ParseInclude | src/include.c:14-46 | without `#include:`, every field is NULL; a field is set only after the one before it, and a set function field is a non-empty token |
| Include.ParseIncludeLine | src/include.c:14-46 | the `part`-counter loop yields `ParseInclude` |
| Include.IncludeReplace | src/include.c:48-69 | the same line when there is no function field or no definition of it; NULL exactly when a definition exists |
| Include.IncludeOf | src/include.c:16-30 | the fields come from the tokens after the first marker |
| Include.IncludeFields | src/include.c:30-43 | three tokens fill function, path and object in order; later tokens are ignored |
| Include.FunctionOnly | src/include.c:31-43 | a single token leaves path and object NULL |
| Error.SkipIndent | src/error.c:11 | leading spaces and tabs are skipped |
| Error.MessageOf | src/error.c:13-15 | the message is a suffix of the line |
| Error.CatchError | src/error.c:7-20 | the status is 1 iff `#error` occurs, and a message is reported exactly then |
| Error.MessageIgnoresIndent | src/error.c:11-15 | indentation does not change the message |
| Error.ErrorMessage | src/error.c:13-19 | `pre#error msg` reports `msg` with status 1 |
| Error.IndentFree | src/error.c:11 | skipping the indentation keeps the directive and shifts its position |
| Preflight.PreflightExclusive | src/preflight.c:6-15 | no line both starts and ends a preflight block |
| Preflight.MarkersAnyTail | src/preflight.c:6-15 | any text may follow the markers, including `#> endflight` |
| Preflight.IndentedMarkers | src/preflight.c:6-15 | a line not starting with `#` matches neither marker |
| Preflight.StartsPreflight | src/preflight.c:6-9 | true iff the first 12 characters are `#> preflight`, compared one by one as `strncmp` does |
| Preflight.EndsPreflight | src/preflight.c:11-15 | true iff the line starts with the 15 characters of `#> endpreflight` or the 12 of `#> endflight`, compared one by one |
| Test.TestList.constructor | src/test.c:28-33 | the list starts empty (NULL head) |
| Test.TestList.Push | src/test.c:28-40 | the test is appended at the tail; earlier tests keep their order |
| Test.PushAll | src/test.c:9-40 | each description and expression pair becomes one test, appended in order after the existing ones |
| Test.SpacesDropped | include/file.h:15 | leading spaces are removed up to the first other character |
| Test.IndentedTest | src/test.c:49-53 | `#test ` after any number of spaces opens a test |
| Test.MarkerNeedsSpace | src/test.c:51-52 | `#test` without its space, or `#testing`, opens none |
| Test.EnterTest | src/test.c:49-53 | an entering line contains `#test `, and a line starting with `#test ` enters |
| Parser.IncludesChar | src/parser.c:6-18 | 1 iff the character occurs in the argument |
| Parser.IsDirective | src/parser.c:20-29 | `is_directive` holds iff the argument starts with `-D` |
| Parser.FirstMatch | src/parser.c:34-36 | the first index from `i` whose element equals the argument |
| Parser.HasArg | src/parser.c:48-58 | 1 iff some `argv[i]` with `i >= 1` equals the argument; `argv[0]` is ignored |
| Parser.GetArgValue | src/parser.c:31-46 | the element after the first match from index 1, or NULL without a match |
| Parser.ArgValueExample | src/parser.c:31-46 | with two `-input`s, the value after the first is taken |
| Parser.ExtraArgs | src/parser.c:60-90 | only `-D` arguments of `argv` are kept |
| Parser.GetExtraArgs | src/parser.c:60-90 | the buffer receives exactly `ExtraArgs`, in order, and the count is returned; the rest of the buffer is untouched |
| Parser.OptionValueSkipped | src/parser.c:65-80 | the value after `-input` is skipped even when it looks like a directive |
| Parser.DirectivesKept | src/parser.c:82-89 | without option words, the result is every `-D` argument in order |
| Config.GetValue | src/config.c:19-33 | NULL iff there is no `:`; the value does not start with a space |
| Config.ValueOf | src/config.c:19-33 | `key: v\n` has value `v`: the text after the colon, its leading spaces and one trailing newline removed |
| Config.GetBool | src/config.c:35-43 | 1 iff the value is exactly `true`, 0 otherwise (including no colon) |
| Config.CleanFlag | src/config.c:35-43 | `clean: true` gives 1 and `clean: false` gives 0 |
| Config.ParseValues | src/config.c:45-60 | no values without a colon; the values are non-empty and space-free |
| Config.KeyOf | src/config.c:89-155 | comment and empty lines have no key; a line containing `input:` is an input line whatever else it contains |
| Config.KeyAnywhere | src/config.c:93-101 | keys match anywhere, and `input:` is tested before `prepend:` |
| Config.Step | src/config.c:89-155 | a skipped line changes nothing; only `plugin:` lines change the plugin list and only `import:` lines the import list |
| Config.ConfigOf | src/config.c:74-156 | lines that set no key leave the defaults as they are |
| Config.NoKeysEvery | src/config.c:89-91 | a run of lines sets no key exactly when each of its lines, taken alone, has none (a comment, an empty line or no known key) |
| Config.BuildContext.constructor | src/config.c:68-86 | every string NULL, every flag 0 except `must_clean`, which is 1 |
| Config.BuildContext.ApplyLine | src/config.c:89-156 | one line updates the context as `Step` says |
| Config.BuildContext.SetKey | src/config.c:93-155 | the field of the key found in the line is set from the line and every other field is kept |
| Config.BuildContext.SetString | src/config.c:93-111 | `input:`, `output:`, `prepend:` and `append:` store `get_value` of the line in their own field only |
| Config.BuildContext.SetFlag | src/config.c:113-131 | `deadcode:`, `sourcemap:`, `clean:` and `watch:` store `get_bool` of the line in their own flag only |
| Config.BuildContext.AppendValues | src/config.c:133-155 | `plugin:` and `import:` append the parsed values to the end of their own list only |
| Config.GetConfig | src/config.c:62-160 | the context after all lines is `ConfigOf(lines)` |
| Config.ListsAccumulate | src/config.c:133-155 | `plugin:` and `import:` values accumulate in file order |
| Config.LastInputWins | src/config.c:93-96 | the last input line wins |
| Config.LastCleanWins | src/config.c:123-126 | the last clean line wins, and the default 1 stands without one |
| File.EnsureDir | src/file.c:19-28 | appends `/` iff the path does not end in `/`; the result always does |
| File.StripLastSlash | src/file.c:9-17 | drops exactly one trailing `/`; other paths are unchanged |
| File.EnsureDirIdempotent | src/file.c:22-27 | `ensure_dir` is idempotent |
| File.StripEnsured | src/file.c:9-28 | stripping an ensured path gives the original path back |
| File.EnsureStripped | src/file.c:9-28 | ensuring a stripped path gives the original path back |
| Plugins.PushPlugins | src/plugins.c:9-42 | a new node goes at the tail, and the earlier nodes are the same |
| Plugins.SetupFlag | src/plugins.c:59-85 | `setup` is 1 iff both the instantiation and the `$setup()` call succeed, else 0 |
| Plugins.PluginsInit | src/plugins.c:44-93 | the loop yields `Initialized` |
| Plugins.InitializedEntries | src/plugins.c:48-90 | one entry per name, in input order, each flag 1 iff both calls succeeded |
| Plugins.PluginsFailed | src/plugins.c:95-105 | 1 iff some entry has `setup == 0` |
| Plugins.InitFailed | src/plugins.c:44-105 | after init, failure means some plugin's instantiation or setup failed |
| Plugins.FailedWhere | src/plugins.c:95-105 | for flags set by init, failure holds iff some plugin failed a call |
| DeadcodeSpec.IsExcludedName | src/deadcode.c:103-112 | excluded iff NULL or starting with `.`; every listed hook starts with `.` |
| DeadcodeSpec.FindLocal | src/deadcode.c:61-70 | the first (newest) binding of the name in one environment, and none when absent |
| DeadcodeSpec.FindBinding | src/deadcode.c:48-59 | the innermost environment holding the name and its binding there; no inner environment holds it |
| DeadcodeSpec.InnermostAt | src/deadcode.c:48-59 | the innermost environment with the name is the one found |
| DeadcodeSpec.Visible | src/deadcode.c:48-59 | a found binding has the name searched for |
| DeadcodeSpec.Define | src/deadcode.c:72-93 | only the innermost environment changes |
| DeadcodeSpec.DefineFinds | src/deadcode.c:76-92 | after a define, the name is bound locally with the new kind and line; `is_used` is kept on redefinition and 0 on a fresh binding |
| DeadcodeSpec.DefineKeepsOthers | src/deadcode.c:72-93 | a define leaves the bindings of every other name alone |
| DeadcodeSpec.DefineNoDuplicate | src/deadcode.c:76-92 | no duplicates are created; a fresh name adds exactly one binding and a known one none |
| DeadcodeSpec.MarkUsed | src/deadcode.c:95-101 | only the environment of the innermost binding changes, and flags only go from unused to used |
| DeadcodeSpec.MarkUsedVisible | src/deadcode.c:95-101 | the innermost visible binding becomes used; an unbound name changes nothing |
| DeadcodeSpec.Walk | src/deadcode.c:171-258 | the walk keeps one frame per environment |
| DeadcodeSpec.WalkFunctionDef | src/deadcode.c:133-169 | a function's local environment is dropped on return |
| DeadcodeSpec.WalkMarks | src/deadcode.c:171-258 | the walk changes outer environments only by marking uses, and in pass 2 it changes nothing but `is_used` flags |
| DeadcodeSpec.WalkFunctionDefMarks | src/deadcode.c:133-169 | walking a function definition only marks uses outside it |
| DeadcodeSpec.UnusedCount | src/deadcode.c:369-380 | the count is at most the number of global bindings |
| DeadcodeSpec.PassFilesMarks | src/deadcode.c:338-367 | pass 2 over the files only marks uses |
| DeadcodeSpec.Analysed | src/deadcode.c:298-367 | the global bindings after both passes are those of pass 1, one for one, each kept or marked used |
| DeadcodeSpec.MarkedCount | src/deadcode.c:369-380 | marking uses never raises the unused count |
| DeadcodeSpec.PassTwoOnlyMarks | src/deadcode.c:298-380 | the reported count is at most the number of unused, non-excluded globals after pass 1 |
| DeadcodeSpec.FunctionAssignDefines | src/deadcode.c:189-218 | in pass 1, `name <- function(..)` defines `name` as a function in the current environment |
| DeadcodeSpec.UseMarks | src/deadcode.c:178-184 | in pass 2, a symbol marks its innermost binding used |
| DeadcodeSpec.OneUnused | src/deadcode.c:298-390 | `x <- 1; y <- x` reports exactly one unused binding (`y`) |
| DeadcodeSpec.OneUnusedDefines | src/deadcode.c:305-336 | the first pass of `x <- 1; y <- x` defines `x` and `y`, both unused |
| DeadcodeSpec.OneUnusedMarks | src/deadcode.c:338-367 | the second pass marks `x` used and leaves `y` unused |
| Deadcode.Environment.constructor | src/deadcode.c:16-25 | a new environment has no bindings, its parent, and `is_global` iff it has no parent |
| Deadcode.FindBindingLocal | src/deadcode.c:61-70 | NULL env gives nothing; otherwise the list walk yields `FindLocal` |
| Deadcode.FindBinding | src/deadcode.c:48-59 | the parent-chain walk returns the environment and binding `DeadcodeSpec.FindBinding` names, or NULL |
| Deadcode.SearchChain | src/deadcode.c:48-59 | the walk from the innermost environment stops at the first frame binding the name and returns that environment and index, or NULL when no frame binds it |
| Deadcode.EnvDefine | src/deadcode.c:72-93 | a NULL name changes nothing; otherwise the bindings become `DefineIn` of the old ones |
| Deadcode.EnvMarkUsed | src/deadcode.c:95-101 | the environment chain becomes `MarkUsed` of the old one |
| Deadcode.MarkBinding | src/deadcode.c:95-101 | setting `is_used` on the found binding changes that one frame of the chain and nothing else |
| Deadcode.WalkExpr | src/deadcode.c:171-258 | the recursive walk over the environment objects yields `Walk` |
| Deadcode.WalkAssignment | src/deadcode.c:189-216 | the assignment branch yields `Walk` |
| Deadcode.WalkArgs | src/deadcode.c:219-244 | walking call arguments or vector elements in order yields `WalkAll` |
| Deadcode.WalkItems | src/deadcode.c:246-253 | walking pairlist cells in order yields `WalkPairs` |
| Deadcode.WalkFunctionDef | src/deadcode.c:133-169 | the function walk with a fresh child environment yields `DeadcodeSpec.WalkFunctionDef` |
| Deadcode.DefineFormalsIn | src/deadcode.c:138-146 | each tagged formal is defined in the new environment, in order, and untagged ones are skipped |
| Deadcode.WalkFiles | src/deadcode.c:305-367 | one pass over the files yields `PassFiles` |
| Deadcode.AnalyseDeadcode | src/deadcode.c:298-390 | the status is 0, and the count is that of the unused, non-excluded global bindings after pass 1 and pass 2 |
| Strings.RemoveLeadingSpaces | include/file.h:15 | `remove_leading_spaces` drops exactly the leading spaces |
| Strings.StrReplace | include/define.h:29 | `str_replace` leaves a text without the pattern unchanged |
| Strings.StrReplaceOnce | include/define.h:29 | a single occurrence is replaced in place |
| Strings.StrReplaceChars | include/define.h:29 | the result holds only characters of the input or of the replacement |
| Strings.Tokens | src/config.c:51-56 | the tokens `strtok` yields for one delimiter are non-empty and free of that delimiter |
| Strings.TokensAppend | src/define.c:89-103 | the tokens of `a`, the delimiter, `b` are the tokens of `a` followed by those of `b` |

## Left out

- Memory management is not modelled: `free_array`, `free_test`, `free_include`, `free_var`, `free_fstring`, `free_config`, `env_free` and `env_free_recursive`. The free-if-distinct ownership in src/fstring.c and the release of the input in src/sourcemap.c:28 are also out. Values are immutable and storage is unbounded.
- Allocation failure is modelled only for the two `realloc`s of `push` (parameters `nameRealloc`/`valueRealloc`) on the `define` and `#unique` paths. Every other `malloc`, `strdup` and `env_create` is taken to succeed.
- Import.DefineOne / Import.DefineLines / Import.ImportFile / Import.ImportDefines: both reallocations of `push` are taken to succeed on the import path, so these contracts do not cover a failed growth of the table while importing.
- Fixed-size C buffers are not modelled, and neither are their overflows or the under-sized `malloc` in `replace_const`. These are the 256/1024-byte buffers in src/fstring.c, src/deconstruct.c and src/config.c and `istr[2]` in src/unique.c.
- Unique.CaptureUniqueDefine: requires the counter to be a single digit when a capture happens. The two-byte `istr` buffer cannot hold more.
- Files are sequences of lines: `fopen`, `fgets` and `fclose` in src/config.c, src/import.c and src/deadcode.c are not modelled. get_config's NULL result when `builder.ini` is missing is left to the caller.
- Embedded R is an oracle. In src/import.c, `system.file` is the function parameter `systemFile`. In src/plugins.c, the instantiation and `$setup()` outcomes are boolean inputs. In src/deadcode.c, `parse_code`/`read_file` are the `Source` datatype, whose parsed expressions may be missing.
- The CLI, watching, scaffolding, logging, R glue and directory walking are not modelled: main.c, watch.c, create.c, log.c, r.c, depends.c and the `copy`/`transfer` functions of src/file.c.
- `clean` (src/file.c:30-33) always returns 0 and has no other effect. It is not given a member.
- printf output is not modelled. This covers the `FOR:`/`BODY:` lines of `replace_for`, error messages, and the warnings `walk_function_def` and `analyse_deadcode` print. Only the count of unused globals is modelled.
- Header-only functions get abstract contracts:
  - `get_define_value` is the first entry with that name;
  - `str_replace` replaces every non-overlapping occurrence, left to right;
  - `remove_leading_spaces` drops leading spaces.
- Strings.StrReplace: its `ensures` states only the no-match case. The full behaviour is its body plus `StrReplaceOnce` and `StrReplaceChars`, because the source of `str_replace` is not shown.
- Linked lists are sequences, with `push` as an append at the tail: `Tests`, `Plugins`, `Value`, `Var`, `Fstring` and the `Binding` lists. Only the order of nodes is modelled, not `next` pointers or aliasing.
- The two header generations of `push` are one table. Its `kind` array is `None` for the three-argument push of src/define.c and `Some(DefVariable)` for the four-argument push src/unique.c calls.
- The `%d` conversions of `sscanf` in src/for.c read unbounded integers; `int` overflow is not modelled.
- `replace_for`'s unused `line` parameter is left out.
- `add_sourcemap` takes the line number as a value. Line numbers in the dead-code analysis are the 1-based index of the top-level expression within its file.
- Error.CatchError: requires `#error ` (with its space) wherever `#error` occurs, because the source reads through a NULL pointer otherwise.
- Parser.GetArgValue: requires an element after the first match, because the source copies it before checking the bound.
- Parser.GetExtraArgs: requires the caller's buffer to have room for every argument.
- Deconstruct.Deconstructed: requires ` <-` in any line the rewrite applies to, because src/deconstruct.c:102 dereferences a NULL `strstr` result otherwise.
- `strtok` leaves a trailing newline on the last `#include:` token, and on the last `#define` token, as the source does. The model keeps it as part of the token.
- `get_value` writes a NUL into the caller's line; the model returns the value without that write.
- BuildContext's `argc`, `argv` and `plugins` fields are set by main.c and are not part of the model.
- File.StripLastSlash: gives the evidently intended result. As written, `realloc` drops the terminating NUL, so the C result is not a valid string.
- DeadcodeSpec.IsExcludedName: returns a `bool` where the source returns 0 or 1.
- The `+2` resume of the `..FMT(` dialect can step past the end of the line when the closing quote is the last character. The model stops at the end (`SkipOne`).

## Findings

| source | as written | input that shows it | evidently intended | confidence | as-written member | corrected member |
|---|---|---|---|---|---|---|
| src/fstring.c:222-226 | after one replacement, the whole new line is scanned again for `f'`, including the inserted `sprintf('...')`, so a content ending in `f` creates a new match | `f'of' 'a'` becomes `sprintf('osprintf(') ')a'` | the rest after the inserted call is rewritten and the call itself is kept: `sprintf('of') 'a'` | not executed | Fstring.RescanCounterexample | Fstring.ResumingOnCounterexample |
| src/deconstruct.c:85-95 | `]` is handled by the `,`/`]` branch before the `break` at 92-95, so the scan continues after the list and a later comma pushes another name | `.[a] <- f(x, y)` yields the names `a` and `<-f(x` | the scan stops at `]`, giving just `a` | not executed | Deconstruct.CloseCounterexample | Deconstruct.NamesStoppingOfList |
