# envfile: a verified model

The repository implements one command, `envfile`, many times over: it turns a byte stream
into numbered logical lines, classifies each line as a `KEY=VALUE` record, substitutes
`$NAME` and `${NAME}` and folds the results into an environment. This project models that
engine and proves that its differently written implementations compute the same thing, where
they do not and why, and which laws the stages obey.

| file | what it holds |
|---|---|
| `Bytes.dfy`, `Lines.dfy` | byte strings, splitting into lines, the whole-file CRLF decision |
| `Continuation.dfy` | the three backslash-continuation joiners (Go/awk, Zig, C) |
| `Records.dfy` | what each classifier decides about a line, the printer, and where classifiers agree |
| `Grammar.dfy` | a reference verdict in byte numbers, and every parser's decision on every line through it |
| `Backends.dfy` | the C and assembly classifiers as loops over one line |
| `Substitution.dfy` | the tokeniser, its meaning, the invariant of the walks, `StrBuf` |
| `Environment.dfy` | environments as maps, the C `EnvTable` with the strings it owns, the Zig `EnvStore` |
| `Engine.dfy` | the record step and its fold over a run: overlay, live-in names, counting, growth |
| `Pipeline.dfy` | whole files: pre-passes, stage contract, idempotence, round trips |
| `GoParser.dfy`, `ZigFront.dfy` | the Go parser object; the Zig substitution walk |
| `Scanning.dfy` | the chunked scanner as a function of the read schedule |
| `CFrontEnd.dfy` | the C front end: table, walk, record step, work and join buffers, read loop |
| `Refinement.dfy` | the C front end ends alike the Go one, for every read schedule |
| `Sorting.dfy` | awk's exchange sort, canonical emission, reading the emission back |
| `Rules.dfy` | substitution, record step, files, joining, seed and emission as rules in byte numbers |
| `Mains.dfy` | the C and the Go program compared from process entries and files to output |

A file is a byte sequence; the reads of the C scanner are an arbitrary list of chunks (every
read schedule), and standard output is a byte sequence. Diagnostics are a list of code and
line number, and the error counter of the source is the length of that list. File-level
diagnostics carry line 0.

Where the documentation and the code disagree the model follows the code: native values are
substituted (src/c/envfile.c:605, against docs/PIPELINE.md), unquoted shell values may contain
`$` (src/c/backend.c:90-94, against docs/APPLY.md), dump processes no escapes, and the C
normalize prints raw lines (src/c/envfile.c:371-485, against the limitation listed in
docs/PIPELINE.md).

Places where implementations differ, each with its exact condition:

* a continuation left open at end of file: Go keeps the backslash, Zig drops it, C drops the
  whole logical line if the file ends in a newline (`Continuation.JoinersAgree`); over the file
  C and Go then end alike iff Go skips the open line (`Refinement.OpenGroupIff`);
* a shell line ending in CR: C and awk keep the CR in the value, Go drops it, so C and Go part
  exactly on lines that are accepted without the CR (`Records.CAndGoShell`, `Records.CrLineParted`);
* the assembly backend tests blankness before it drops the CR (`Records.CAndAsmShellCr`,
  `Records.CAndAsmNative`), so on a line of one CR it scans on into the memory behind the line
  (`Backends.AsmScanPast`), and it tests the value before the key (`Records.CAndAsmShell`);
* awk drops a record, shell or native, whose value is the single byte 1
  (`Records.AwkLosesSentinel`);
* Go seeds the empty name, C does not, and of entries with one name Go sees the first (the Go
  runtime clears the others) while C keeps the last. A name is steady when both are the same
  value. A delta or apply run over agreeable files that reads the empty name (as `${}` does)
  while the process binds it writes different streams; one that otherwise reads steady names
  only writes the same streams, where two rejections of one line may carry different codes
  (`Mains.ProgramsAgreeIff`). Apply prints different bytes if the process binds the empty name;
  if not, and if all its names are steady, the same bytes (`Mains.ApplyPrintsSameIff`, which
  also says when names the files set may be unsteady). `Mains.DuplicateTellsApart` is a process
  and a file on which the duplicate shows;
* Go joins native lines when continuations are accepted, C never does: joining changes a file
  iff a line other than the last ends in an odd run (`Pipeline.JoinIsNumberIff`);
* C may report LINE_TOO_LONG and Go does not. The source scans a file in memory, so all its
  reads but the last are of 4096 bytes: it reports a file iff a line has 65536 bytes, or if at
  a multiple of 4096 the bytes of the unfinished line and of the next read exceed 65536
  together (`Scanning.FullReadsIff`). For any other way of reading the condition is the same at
  the offsets of the reads (`Scanning.TooLongIff`); over all ways of reading see
  `Scanning.ReportedIff`, `Scanning.AlwaysReportedIff` and `Scanning.ScheduleDecides`.

## Model

| member | source | states |
|---|---|---|
| Lines.GoSplitLines | src/go/main.go:42-48 | cutting at every LF and dropping one final empty piece is the line split |
| Lines.ZigSplitLines | src/zig/main.zig:205-217 | the one-pass splitter computes the same lines |
| Lines.SplitUnlines | src/go/main.go:42-48 | splitting inverts writing LF-free lines with terminators |
| Lines.UnlinesSplit | src/go/main.go:42-48 | the lines determine the file up to its final terminator |
| Lines.SplitAppend | src/c/envfile.c:536-551 | cutting a file after a newline cuts its list of lines: what lets the scanner work in pieces |
| Lines.AllRecordsHaveTrailingCr | src/c/envfile.c:92-103 | the byte-offset scan says yes iff the file is non-empty and every line ends in CR |
| Lines.StripCrs | src/go/main.go:232-245 | one CR leaves every line when all have one, otherwise no line changes |
| Lines.CrRestoresFile | src/c/envfile.c:721-723 | re-adding the CRs restores the file |
| Continuation.TrailingBackslashes | src/c/envfile.c:365-369 | counts the whole backslash run at the end |
| Continuation.IsContinuation | src/go/main.go:50-56 | true iff that run is odd |
| Continuation.NewestSegmentDecides | src/zig/main.zig:390-402 | parity lemma: after an even held run the newest segment alone decides |
| Continuation.GoJoinLines | src/go/main.go:247-264 | the rebuild-and-recount loop computes GoJoin |
| Continuation.ZigJoinLines | src/zig/main.zig:382-408 | the per-segment loop computes ZigJoin |
| Continuation.JoinersAgree | src/c/envfile.c:566-585 | the three joiners give the same lines and numbers up to a group open at end of file, and then differ exactly as said |
| Continuation.CAgreesWithGoIff | src/c/envfile.c:577-581 | C and Go agree on the whole list iff the last line is not odd or the file is unterminated |
| Continuation.ZigAgreesWithGoIff | src/zig/main.zig:388-405 | Zig and Go agree iff the last line is not odd |
| Continuation.LogicalLinesFit | src/c/envfile.c:567-573 | a join buffer longer than every logical line never overflows |
| Records.AcceptedPrintsBack | src/c/backend.c:48-99 | an accepted line is the printed form of its record, which is legal |
| Records.LegalParsesBack | src/c/backend.c:48-99 | every legal record parses back from its printed form |
| Records.AcceptedIffPrinted | src/c/backend.c:48-99 | the accepted lines are exactly the printed legal records |
| Records.SingleIffRawQuote | src/go/main.go:190 | the single-quoted kind is Go's test on the raw value |
| Records.PairNotBlank | src/c/backend.c:21-28 | a line with '=' is skipped iff it is a comment |
| Records.CAndGoShell | src/go/main.go:272-347 | C and Go shell outcomes agree on a NUL-free line iff it does not end in CR after an acceptable line |
| Records.CAndGoNative | src/go/main.go:312-319 | C and Go agree, code included, on every NUL-free native line |
| Records.CAndAsmShell | src/c/backend.asm:117-328 | the two backends agree on outcome without a trailing CR; codes differ exactly on one order of tests |
| Records.CAndAsmShellCr | src/c/backend.asm:126-150 | with a trailing CR they part exactly on blank and on otherwise acceptable lines, the line of one CR included, whatever stands behind it in memory |
| Records.CAndAsmNative | src/c/backend.asm:335-419 | native backends agree except on blanks followed by CR |
| Records.CAndAwkShell | bin/envfile.awk:107-136 | the reference implementation decides as C on every NUL-free line |
| Records.AwkLosesSentinel | bin/envfile.awk:107-161 | shell or native, awk hands on what C accepts except the value that is its error sentinel |
| Records.CrLineParted | src/go/main.go:300-310 | every unquoted legal record followed by CR is accepted by all three, with the CR in the value in C alone |
| Records.CodesParted | src/c/backend.asm:191-224 | a line on which the two backends give different codes |
| Records.BlankCrParted | src/c/backend.asm:126-161 | a line C skips and the assembly rejects |
| Grammar.IdentifierIff | src/c/backend.c:14-31 | a name is letters, digits and '_' by their byte ranges, not a digit first |
| Grammar.ValueVerdict | src/c/backend.c:67-98 | unquoting a shell value is the reference verdict, fault by fault in byte numbers |
| Grammar.PairVerdicts | src/c/backend.asm:166-224 | C, Go, assembly and awk on a key and a value: the first fault in their own order, or the record |
| Grammar.JudgeAccepts | src/c/backend.c:59-98 | a pair is accepted iff it has none of the faults tested for, in whatever order |
| Grammar.SkippedIff | src/c/backend.c:21-28 | every parser skips exactly lines of blanks (9, 32) or with 35 in front, after one final 13 (the assembly before it) |
| Grammar.NoEqualsVerdicts | src/c/backend.c:56-57 | a line without 61 that is not skipped is NO_EQUALS everywhere |
| Grammar.NulVerdicts | src/c/backend.c:54 | a NUL in a line that is not skipped is VALUE_INVALID_CHAR in C |
| Grammar.LineVerdicts | src/go/main.go:272-347 | every parser's verdict on every line key, 61, value, with the CR where it is dropped |
| Grammar.AsmNulVerdicts | src/c/backend.asm:234-263 | the assembly searches a native value and a bare shell value for NUL, a quoted one not |
| Grammar.LoneCrVerdict | src/c/backend.asm:142-224 | the line of one CR is judged as the record that starts with it in memory |
| Grammar.PlainAcceptedIff | src/c/backend.c:89-95 | an unquoted value is accepted iff it holds none of 9, 32, 34, 39 and 92 |
| Rules.TextRule | src/c/envfile.c:279-285 | text without 36 stays |
| Rules.BracedRule | src/c/envfile.c:288-313 | 36, 123, a name, 125: the value of the name or one report |
| Rules.NamedRule | src/c/envfile.c:321-339 | 36 and the longest name behind it: the value of the name or one report |
| Rules.LoneRule | src/c/envfile.c:315-319 | a 36 that neither 123 nor a name follows stays |
| Rules.UnclosedRule | src/c/envfile.c:289-294 | 36, 123 without a 125 behind stays with all that follows |
| Rules.RulesCover | src/go/main.go:128-178 | every text starts with what one of the five rules says, so they determine substitution |
| Rules.DiagsAt | src/go/main.go:163-175 | each unbound name is reported once, in order, under the number of the line |
| Rules.AcceptRule | src/c/envfile.c:596-631 | the whole new state after an accepted record, for each action; only single-quoted shell values are literal |
| Rules.StepRule | src/c/envfile.c:587-635 | skipped: nothing; rejected: counted and reported once under the line's own number; fault: reported under 0 |
| Rules.NormalizeRule | docs/PIPELINE.md:26-35 | normalize prints every line that is not skipped and holds 61 as it stands, and checks nothing else |
| Rules.KeptRule | src/c/envfile.c:454-482 | the lines normalize keeps, in byte numbers |
| Rules.QuotingRule | src/c/envfile.c:605-610 | on lines in every front end: bare and double-quoted values are substituted, single-quoted ones are not |
| Rules.NativeRule | src/c/backend.c:101-119 | a native line in every front end: an empty key is reported, nothing else tested |
| Rules.NativeNulRule | src/c/backend.c:107 | with NUL ignored C refuses a native line that holds one |
| Rules.SplitRule | src/go/main.go:42-48 | lines end at 10, a last line needs none |
| Rules.UnlinesRule | src/go/main.go:296 | a printed line ends in 10, which every law about normalized text builds on |
| Rules.CrRule | src/go/main.go:232-245 | all lines lose one final 13 if all have one, otherwise none does |
| Rules.PrePassRule | src/go/main.go:214-270 | the events of a file: NUL refusal, mark 239 187 191 refused or dropped, CRs, then joined or numbered from 1 |
| Rules.FilesRule | src/go/main.go:415-422 | files are processed in their order, each by the run over its events |
| Rules.OddRule | src/c/envfile.c:365-369 | a line goes on iff it ends in an odd number of 92 |
| Rules.JoinRule | src/go/main.go:247-264 | the first logical line is the first group, each line that goes on without its backslash, under the last line's number; the rest is joined by itself |
| Rules.CJoinRule | src/c/envfile.c:566-585 | the same in C for every list of lines, with the overflow of the join buffer and the group open at the end |
| Rules.CScanRule | src/c/envfile.c:553-638 | the C scan joins shell lines only, when continuations are accepted, after dropping CRs when told to |
| Rules.SeedRule | src/c/envfile.c:256-262 | one more process entry: cut at the first 61, the eight control bytes and the empty name left out |
| Rules.LessIff | src/c/envfile.c:228-232 | the order: proper prefix, or smaller at the first byte that differs |
| Rules.EmissionRule | bin/envfile.awk:173-187 | the emission lists the bound non-control names, strictly ascending in that order |
| Rules.PrintedRule | src/go/main.go:424-436 | each printed as name, 61, value, 10 |
| Rules.SourceReads | src/c/envfile.c:22 | LINE_TOO_LONG at 4096 and 65536 |
| Backends.EnvfileRecord.Fill | src/c/backend.c:33-46 | writes the out record and nothing else |
| Backends.BlankOrComment | src/c/backend.c:21-28 | the loop decides blank-or-comment after one CR |
| Backends.CParseShell | src/c/backend.c:48-99 | status and out record report the shell decision |
| Backends.CParseNative | src/c/backend.c:101-119 | status and out record report the native decision |
| Backends.AsmBlankLoop | src/c/backend.asm:126-136 | the register loop decides all-blank |
| Backends.AsmScan | src/c/backend.asm:147-157 | the scan stops at the first occurrence with the count of bytes left |
| Backends.AsmValidateKey | src/c/backend.asm:202-224 | accepts exactly the identifiers |
| Backends.AsmQuoted | src/c/backend.asm:271-309 | the closing quote must be the last byte; payload and kind are as decided |
| Backends.AsmParseShell | src/c/backend.asm:117-328 | rax and the out record report the assembly shell decision on every line |
| Backends.AsmScanPast | src/c/backend.asm:142-200 | on a line of one CR the 64-bit counter wraps and the scan rejects at the next '=' in memory, with the code said |
| Backends.AsmParseNative | src/c/backend.asm:335-419 | rax and the out record report the assembly native decision |
| Substitution.Lossless | src/c/envfile.c:275-347 | the tokens' source texts concatenate back to the value |
| Substitution.TokensUnique | src/c/envfile.c:275-347 | the tokens are the one canonical reading of the value, with lone `$`, unclosed `${` and `${}` placed |
| Substitution.TokenAt | src/c/envfile.c:279-340 | every token consumes at least one byte and stays within the value |
| Substitution.WalkUnclosed | src/c/envfile.c:289-294 | an unclosed `${` ends the walk and copies the rest |
| Substitution.BracedStep | src/c/envfile.c:295-313 | a closed `${name}` is resolved once and the walk goes on behind it |
| Substitution.NamedStep | src/c/envfile.c:321-339 | the longest name after `$` is resolved once |
| Substitution.LoneStep | src/c/envfile.c:315-319 | a `$` that starts no reference stays |
| Substitution.SubstBound | src/c/envfile.c:275-347 | one substitution grows a value at most by the longest environment value |
| Substitution.StrBuf.Reserve | src/c/envfile.c:134-144 | doubling keeps the contents and reaches the needed room within twice of it |
| Substitution.StrBuf.AppendN | src/c/envfile.c:146-152 | contents are the exact concatenation, capacity is 0, 64 or below twice the need |
| Environment.OverlayLookup | docs/APPLY.md:48-53 | a key set by a list of bindings holds its last value, other keys keep theirs |
| Environment.OverwriteIsUpdate | src/c/envfile.c:202-207 | overwriting in place is a map update and keeps keys distinct |
| Environment.SeedKeys | src/c/envfile.c:256-262 | seeded names hold no '=' and no control name |
| Environment.SeedsDifferInEmptyName | src/go/main.go:105-118 | over one list of entries the C and Go seeds differ only in the empty name |
| Environment.SeedIsLast | src/c/envfile.c:252-265 | the seed binds every name to its last value |
| Environment.FirstOnlyIsFirst | src/go/main.go:105-118 | over the list os.Environ returns, that is the first value of the process |
| Environment.FirstOnlyIff | src/go/main.go:105-118 | dropping later duplicates leaves the seed alone iff every bound name has equal first and last values |
| Environment.SeedLookups | src/go/main.go:105-118 | what the Go and the C start bind a name to |
| Environment.EnvTable.ReserveOne | src/c/envfile.c:170-180 | growth keeps all bindings; capacity is 0, 32 or 32*2^k below 2*len |
| Environment.EnvTable.FindN | src/c/envfile.c:182-189 | last-to-first search is map lookup |
| Environment.EnvTable.Get | src/c/envfile.c:195-198 | map lookup, returning the stored string itself |
| Environment.EnvTable.SetN | src/c/envfile.c:200-222 | map update from slices of two buffers; what is stored are new arrays the table owns, and it grows by one exactly for a new key |
| Environment.EnvTable.InitFromProcess | src/c/envfile.c:252-265 | the table is the seeded environment |
| Environment.EnvStore.Get | src/zig/main.zig:41-46 | first-to-last search is the same map lookup |
| Environment.EnvStore.Set | src/zig/main.zig:48-59 | map update |
| Engine.RunPrints | src/c/envfile.c:596-626 | a run prints one record per accepted line, in order |
| Engine.RunIsOverlay | docs/APPLY.md:48-53 | the final environment is the initial one overlaid by the bindings delta emits |
| Engine.ResolvedAgainstEarlier | docs/APPLY.md:27-36 | each value is resolved against exactly the state the earlier records left |
| Engine.UnsetKeysUnchanged | docs/APPLY.md:53 | keys never set are untouched, set keys hold their last value |
| Engine.LiveInDecides | docs/APPLY.md:27-36 | environments that agree on names read before written give the same output, diagnostics and set values |
| Engine.LiveInNeeded | docs/APPLY.md:71-84 | unbinding a live-in name strictly raises the error count |
| Engine.Conservation | src/c/envfile.c:587-648 | every event is skipped, accepted, rejected or a fault, and the counters add up |
| Engine.GrowthBound | src/c/envfile.c:596-631 | after n records values stay within max(1,M)*L^n |
| Engine.Doubling | src/c/envfile.c:605-615 | n records A=$A$A multiply the length of A by exactly 2^n |
| Pipeline.FilesAreOneRun | src/go/main.go:415-422 | a run over files is one run over all their events |
| Pipeline.FilesAreOverlay | src/go/main.go:180-198 | apply over any list of files is overlay |
| Pipeline.FilesLiveIn | src/go/main.go:180-198 | the live-in theorem over any list of files |
| Pipeline.FilesConservation | src/go/main.go:272-348 | checked, output and errors add up over any list of files |
| Pipeline.FilesGrowthBound | src/go/main.go:128-198 | the growth bound over any list of files |
| Pipeline.DoublingFile | src/go/main.go:128-198 | a native file of n lines A=$A$A is genuinely exponential |
| Pipeline.EventsFree | src/go/main.go:214-270 | pre-passes and joining bring no byte into a logical line that the file's lines did not have |
| Pipeline.JoinIsNumberIff | src/go/main.go:247-270 | accepting continuations changes the numbered lines iff a line other than the last is odd |
| Pipeline.NormalizePrints | src/go/main.go:286-298 | normalize prints, verbatim and in order, the logical lines that hold '=' and are neither blank nor comment |
| Pipeline.RawComesFirst | src/go/main.go:286-310 | later stages repeat normalize's first-'=' decision, in Go always and in C on NUL-free lines |
| Pipeline.NormalizeFactors | docs/PIPELINE.md:98-102 | any stage equals normalize followed by the stage verbatim: output, environment, error and checked counts |
| Pipeline.NormalizeFactorsFiles | docs/PIPELINE.md:98-102 | the same over any list of files, with the error and checked counts summed |
| Pipeline.NormalizedIsFixed | src/go/main.go:247-298 | normalized text is a fixed point of verbatim normalizing |
| Pipeline.NormalizeIdempotent | src/go/main.go:247-298 | normalize with CRLF=ignore and BOM=literal is idempotent |
| Pipeline.RenderParses | src/go/main.go:312-319 | clean bindings written as lines are read back exactly, with no diagnostic |
| Pipeline.ParsedIsClean | src/go/main.go:312-319 | whatever a native dump reads is clean |
| Pipeline.NativeDumpIdempotent | src/go/main.go:180-184 | native dump is idempotent and its second run reports nothing |
| Pipeline.FilesKeepClean | src/go/main.go:180-198 | runs keep a clean environment clean |
| GoParser.Parser.SeedEnv | src/go/main.go:105-118 | over the list it is given the map is the seeded environment, empty name kept |
| GoParser.Parser.ValidShellKey | src/go/main.go:58-72 | accepts exactly the identifiers |
| GoParser.Parser.UnquoteShellValue | src/go/main.go:74-103 | returns the payload or reports the right code |
| GoParser.Parser.SubstValue | src/go/main.go:128-178 | the index walk is the meaning of the tokens, with one diagnostic per unbound reference |
| GoParser.Parser.HandleRecord | src/go/main.go:180-198 | performs the action on one record |
| GoParser.Parser.ProcessLine | src/go/main.go:272-347 | is the record step |
| GoParser.Parser.StripCrLines | src/go/main.go:232-245 | the two loops compute the whole-file CRLF pass |
| GoParser.Parser.ProcessFile | src/go/main.go:214-348 | the object's state after a file is the fold over its events |
| ZigFront.SubstValue | src/zig/main.zig:219-289 | the Zig walk over its store computes the same value and unbound names |
| Scanning.EveryScheduleIsChop | src/c/envfile.c:518 | schedules cover every way of cutting a file into reads |
| Scanning.DeliverIsPrefix | src/c/envfile.c:517-551 | delivered lines are a prefix of the whole-file lines, and all of them without LINE_TOO_LONG |
| Scanning.ShortLinesDelivered | src/c/envfile.c:517-551 | lines within work size minus read size are all delivered under every schedule |
| Scanning.StopPoint | src/c/envfile.c:517-551 | when a file is reported, exactly the complete lines read before the first refused chunk have been delivered |
| Scanning.LongLineStops | src/c/envfile.c:525-547 | a line of work size or more is reported, and neither it nor a later one is delivered |
| Scanning.BytewiseExact | src/c/envfile.c:525-547 | read byte by byte, LINE_TOO_LONG means exactly that some line has work size or more |
| Scanning.FullReadsIff | src/c/envfile.c:517-551 | full reads, as from memory, report LINE_TOO_LONG iff a line has work size, or the unfinished line at a multiple of the read size and the next read exceed it |
| Scanning.TooLongIff | src/c/envfile.c:517-551 | the exact condition for any list of reads |
| Scanning.FullReadsDeliverMore | src/c/envfile.c:726 | a file that short reads may report and the full reads of the source never do |
| Scanning.ReportedIff | src/c/envfile.c:517-551 | generalised to short reads: some schedule reports LINE_TOO_LONG iff a line has work size, or the unfinished line at some offset and a full read exceed it |
| Scanning.AlwaysReportedIff | src/c/envfile.c:517-551 | every schedule reports it iff some line has work size or more |
| Scanning.ScheduleDecides | src/c/envfile.c:525-547 | over short reads, some schedule reports and some delivers exactly on the files between the two conditions |
| Scanning.DeliveredUnlessMayReport | src/c/envfile.c:517-551 | outside the first condition every schedule delivers the whole file |
| Scanning.ShortLinesNeverReported | src/c/envfile.c:517-551 | lines within work size minus read size are outside it |
| Scanning.ScanTextAppend | src/c/envfile.c:553-642 | the line automaton can be run piece by piece at newlines |
| Scanning.ScanTextIsRun | src/c/envfile.c:553-638 | the line automaton is the joiner followed by the record step |
| CFrontEnd.Processor.SubstValue | src/c/envfile.c:275-347 | the pointer walk is the meaning of the tokens, with one diagnostic per unbound reference |
| CFrontEnd.Processor.NormalizeRecord | src/c/envfile.c:461-482 | is the record step of normalize |
| CFrontEnd.Processor.Resolved | src/c/envfile.c:600-610 | copies the value out of the line and substitutes it unless single-quoted |
| CFrontEnd.Processor.Bind | src/c/envfile.c:615-627 | binds the key bytes of the line to the resolved value, and prints the binding for delta |
| CFrontEnd.Processor.PerformRecord | src/c/envfile.c:596-631 | performs the action on the record that points into a buffer |
| CFrontEnd.Processor.ProcessLine | src/c/envfile.c:587-635 | is the record step on a slice of the work or join buffer |
| CFrontEnd.Scanner.JoinLine | src/c/envfile.c:574-584 | the join buffer holds the exact joined text, less one backslash when it goes on |
| CFrontEnd.Scanner.AppendSegment | src/c/envfile.c:574-575 | the join buffer gains the segment and no binding changes |
| CFrontEnd.Scanner.PhysicalLine | src/c/envfile.c:560-637 | one physical line is one step of the automaton |
| CFrontEnd.Scanner.ScanLines | src/c/envfile.c:553-638 | the line loop runs the automaton over the complete lines |
| CFrontEnd.Scanner.FindLastNewline | src/c/envfile.c:356-362 | finds the end of the complete lines |
| CFrontEnd.Scanner.Append | src/c/envfile.c:531-532 | the bytes read stand behind the partial line and no binding changes |
| CFrontEnd.Scanner.KeepTail | src/c/envfile.c:642-643 | the partial line moves to the front unchanged; the bytes of bound keys and values are overwritten and no binding changes |
| CFrontEnd.Scanner.Chunk | src/c/envfile.c:525-551 | one read keeps the invariant: consumed bytes are delivered lines plus a newline-free tail |
| CFrontEnd.Scanner.ScanStream | src/c/envfile.c:497-648 | the read loop ends in the state of the delivered text, for every read schedule |
| CFrontEnd.ProcessFile | src/c/envfile.c:656-741 | pre-passes and scan of one file |
| CFrontEnd.ProcessFiles | src/c/envfile.c:773-806 | for every action: seeding for delta and apply, and all files in order, at the sizes of the source |
| Refinement.BackendsInterchangeable | src/c/envfile_backend.h:6-10 | swapping the C backend for the assembly one ends alike over every run without NUL or trailing CR |
| Refinement.DecisionsIff | src/c/backend.c:48-119 | the classifiers take the same decision on a NUL-free line iff it is not one of the CR lines |
| Refinement.BomOnLines | src/c/envfile.c:708-719 | dropping the BOM before or after splitting gives the same lines, except for a file of only a BOM |
| Refinement.CFileIsRun | src/c/envfile.c:656-741 | the C file run is the fold over the whole-file events, for refused files and for all files the schedule does not report |
| Refinement.COpenGroup | src/c/envfile.c:577-581 | a file ending in a newline inside a continuation: C processes all but the open logical line |
| Refinement.OpenGroupIff | src/c/envfile.c:577-581 | from alike states C and Go end alike on such a file iff Go skips the open logical line |
| Refinement.CRefinesGo | src/c/envfile.c:497-648 | from alike states the C front end ends alike the Go one, for every read schedule that does not report the file |
| Refinement.CFilesRefineGo | src/c/envfile.c:784-806 | the same over any list of files, with 4096 and 65536 |
| Refinement.CNormalizeFactors | docs/PIPELINE.md:98-102 | the stage contract in C: output, environment and counts, each of the three scans under its own schedule |
| Refinement.TooLongReports | src/c/envfile.c:525-573 | which files the read loop reports, the number of LINE_TOO_LONG reports (its one or none, plus one per join overflow), and that only earlier lines are processed |
| Mains.CStartRule | src/c/envfile.c:773-779 | the C program starts from its seed for delta and apply, from nothing otherwise, with all counters at zero |
| Mains.StartsDecideIff | src/go/main.go:105-118 | from the two starts, a run that reads steady names only has the same output and diagnostics iff it does not read a bound empty name, and a name ends equal iff it is written or steady |
| Mains.ProgramsAgreeIff | src/c/envfile.c:773-806 | the C and Go programs on the same process entries and files: reading a bound empty name tells them apart, and with steady names read nothing else does |
| Mains.FullReadsRefineGo | src/c/envfile.c:726-740 | the refinement over a list of files with the full reads of the source and their exact condition |
| Mains.FullReadsAgreeIff | src/c/envfile.c:726-806 | the two programs with the full reads of the source |
| Mains.DuplicateTellsApart | src/c/envfile.c:252-265 | with A=1 and A=2 in the process, B=$A is 1 in Go and 2 in C |
| Mains.EmissionsSameIff | src/go/main.go:424-436 | from the two starts, with steady names read and no empty name bound, the text is the same if the names the run does not write are steady, and only if when no process entry holds a newline |
| Mains.ApplyPrintsSameIff | src/c/envfile.c:234-250 | what apply prints in C and Go, for every library sort: a bound empty name changes it, else the condition of EmissionsSameIff; with all names steady the same bytes iff no empty name is bound |
| Sorting.ExchangeSort | bin/envfile.awk:178-186 | ends in a strictly ascending permutation |
| Sorting.EmitEnvSorted | bin/envfile.awk:173-189 | prints every non-control binding once, in byte order, whatever order the table is walked in |
| Sorting.CollectPairs | src/c/envfile.c:238-241 | collects exactly the non-control pairs |
| Sorting.AnySortIsCanonical | src/c/envfile.c:234-250 | any sort by key of the collected pairs prints the canonical list of the table's map |
| Sorting.EmissionIsCanonical | src/go/main.go:424-436 | the emission depends only on the map |
| Sorting.RoundTripIff | src/go/main.go:424-436 | the emission reads back as the printed bindings iff they are all clean, and then without errors |
| Sorting.ApplyRoundTrips | src/go/main.go:424-436 | from a clean environment the output of apply always reads back exactly |

## Left out

- Mains.EmissionsSameIff: the half from same text to steady names asks that no process entry holds a newline; with newlines in values two different environments can print one text.
- Mains.ProgramsAgreeIff: when a name that is read is not steady, whether the different values happen to give the same output is not decided.
- File opening, standard input, `fmemopen`, allocation failure, message texts and process exit: input is a byte sequence, output a byte sequence and a list of diagnostics.
- `os.Environ`: the Go runtime is not part of this model; `Environment.FirstOnly` states what it returns (every entry whose name no earlier one has).
- NUL=ignore in C: C strings stop at NUL there, so the refinement theorems ask for NUL=reject or NUL-free data. C strings, process entries and the parameters of the C walk are NUL-free byte strings.
- Terminating NULs and `free` of C strings. The table owns arrays and the buffers are arrays; the loops inside one line (classifiers, substitution walk, `sb_append_n`) see the slice as a value, since they do not write to it.
- `normalize_stream` and `scan_stream` are the same loop with different record steps; one loop models both, and the step branches on the action.
- `qsort`, `sort.Strings` and the Zig heap sort: library code. `Sorting.AnySortIsCanonical` covers any of them; awk's own sort is modelled in full.
- Records.AsmShell: not defined on the line that is a single CR; `Records.AsmShellIn` is, given the memory behind the line.
- Backends.AsmParseShell: on the line that is a single CR it asks for a '=' with a byte after it in the memory behind the line; without one the assembly reads on past all mapped memory.
- Records.CAndAsmShellCr: the same condition on the memory behind a line of one CR.
- The Zig whole-file driver and its wider whitespace class; its splitter, joiner, walk and store are modelled.
- The awk `subst` loop (the same walk by consuming its argument) and awk's own file loop, which joins as Go does.
- Refinement.Alike: two rejections of the same line may carry different codes, because the orders of tests differ between classifiers; every other diagnostic is compared in full.
- `counts` are added to `total` after each file in C; the model keeps one running counter.
- Rust, JavaScript, Python, Ruby, shell, Perl and Nushell versions: they repeat the Go algorithm or depend on host strings.
- The dispatcher, build recipes, benchmarks, `nullscan` and the unimplemented compat format.
