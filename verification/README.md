# icmg verification model

A Dafny model of the self-contained algorithms of icmg, with proofs of what they promise. Verify it
with `dafny verify dfyconfig.toml`.

| modules | what they model |
|---|---|
| `Compressor`, `DedupProofs`, `CompressorRoundTrip`, `CompressorLossless`, `CompressorExact`, `CompressorSimple`, `CompressorEffect`, `CompressorLimits` | the glossary compressor in lossless mode, its expander and its preface parser |
| `UnifiedDiff`, `DiffProofs`, `DiffTexts` | the unified-diff applier, on lists of lines and on texts |
| `ArgQuote`, `ArgSplit` | joining an argument vector for a child, and the child's splitting rules |
| `CalcEval`, `CalcGrammar`, `CalcComplete`, `CalcMeaning`, `CalcReader` | the `icmg calc` evaluator, its grammar and its functions |
| `Parallel`, `ParallelProofs`, `ParallelPool` | tasks on worker threads behind a semaphore, with fail-fast |
| `Migrator`, `MigratorProofs` | schema migrations by any number of processes on one database |
| `AgentLease`, `LeaseLog` | work leases over an append-only log, and the `lock` command |
| `Recency`, `StmtCache` | the cache of prepared statements |
| `BpeTokenizer`, `PreTokenizer`, `PreTokenPattern` | byte-pair merging, the pre-tokenizer, and the regular expression it stands for |
| `Fnv`, `AuditLog`, `AuditProofs`, `AuditContents` | the FNV-1a hash and the chained audit log |
| `IntentSlice`, `IntentProofs`, `CompressSelect`, `DanglingGuard` | line windows, span selection and dangling-reference repair, each under a budget |
| `AsOf` | civil-date arithmetic and `--as-of` times |
| `Text`, `Wrappers` | substring search, decimal numerals, `Option` and `Result` |

Code that changes state step by step is modelled by methods and classes with the same loops and
fields, each proved against a specification function or stated property. The concurrent protocols
are step systems: a run is a list of atomic actions, and a property of every list is a property of
every interleaving. Their classes tie the code to the steps: `ParallelPool.Pool.Work` and `RunAll`
are the worker's body and the joining thread, with other threads' steps in between, and
`Migrator.Connection.RunAll` is the migration loop; each records its steps and proves them possible.

Where the code does less than its documentation or a natural reading says, the model follows the
code, gives an input that shows it, and states exactly when the promise holds; for the compressor
the condition is exact for reading aliases as they were written, and enough for the text:

* A pure insertion hunk (`-N,0`) goes before line `N`, not after it. Diffs apply as meant if and only
  if every such insertion adds only copies of line `N`, or comes when the cursor is already past that
  line (`DiffProofs.AppliesAsMeant`).
* The pre-tokenizer's comment gives the pattern `\s*[\r\n]`, which runs to the last newline of white
  space; the code stops at the first (`PreTokenPattern.SplitsLikePattern`).
* A program name with quotes in it can swallow the arguments after it (`ArgSplit.AlwaysReturnsIff`).
* `lock release` does not look at who holds the scope, so a release by another session breaks
  exclusion (`LeaseLog.RunExclusive`).
* An empty span after a non-empty one can push a selection over its budget (`CompressSelect.BudgetIff`).
* A phrase replaced inside an earlier alias, or an alias that is misread as a longer one at the longer
  one's turn, may keep the expander from recovering the text (`CompressorLimits` has an input for
  each). If a run has neither, every text is recovered (`CompressorLossless.Lossless`). Having neither
  is exactly what it takes for every replacement to replace whole plain text and for every undoing, in
  every order the sort may leave, to undo only aliases that were written
  (`CompressorExact.SafeExactly`). It is not necessary for the text: a cut is undone when the cutting
  alias is undone first (`CompressorLimits.CutAliasUndone`), and a misread alias can stand for the very
  text it hides (`CompressorLimits.MisreadHarmless`). Whether that happens is decided by nothing less
  than comparing the texts, so the recovery itself has a condition that is enough and no exact one
  short of the property itself. A condition on the phrases and the text alone that makes a run safe is
  that no phrase starts with `S`, `P`, `I` or a digit and none occurs directly before a digit
  (`CompressorSimple.PlainlySafe`).
* The intent slicer's comment says distinct terms are counted; the code counts a repeated term again.
  The score is the number of distinct terms in the line if and only if no term in the line is
  repeated in the intent (`IntentProofs.ScoreIsDistinct`).
* `verify` cannot see rows removed from the end of the audit log; rows removed elsewhere are reported
  at the row after the gap unless the codes before both ends of the gap agree
  (`AuditProofs.RowsRemoved`).
* `daysFromCivil` works in unsigned numbers: a day count far enough below 1 to leave the era of 400
  years gives a day number that is 2^32 too great (`AsOf.DaysAreDayNumber`). Its caller passes no
  day below 1.

## Model

| member | source | states |
|---|---|---|
| `Compressor.SplitLines` | src/compress/compressor.cpp:43-52 | the lines with their newlines; `DedupProofs.SplitIsLines` says they concatenate back to the text |
| `Compressor.DedupLines` | src/compress/compressor.cpp:55-75 | the cursor loop writes `Dedup`, whose lines `DedupProofs.DedupReversible` reads back |
| `DedupProofs.SplitIsLines` | src/compress/compressor.cpp:43-52 | for every text the split lines concatenate to it, and each but the last ends in a newline |
| `DedupProofs.NewlineEndsLine` | src/compress/compressor.cpp:43-52 | no split line is empty, and none goes on after a newline |
| `DedupProofs.MarkerInjective` | src/compress/compressor.cpp:65-68 | a repeat marker determines its count |
| `DedupProofs.DedupReversible` | src/compress/compressor.cpp:55-75 | for every list of lines none of which looks like a marker, reading the deduplicated lines back (a marker repeats the line before it) gives the list |
| `CompressorEffect.RunCollapses` | src/compress/compressor.cpp:58-73 | a run of equal lines, as long as it goes, becomes the line; the line twice, for two; the line and a marker that counts the others, for more |
| `DedupProofs.DedupClean` | src/compress/compressor.cpp:55-75 | dedup brings in no alias sigil and no icmg tag that the text did not have |
| `Compressor.ReplaceAllLoop` | src/compress/compressor.cpp:89-102 | the cursor loop is leftmost non-overlapping replacement; an empty needle changes nothing |
| `Compressor.Seed` | src/compress/compressor.cpp:190-199 | the seed loop: absent and empty phrases mint nothing, each other phrase gets the next `@S` alias |
| `Compressor.Rank` | src/compress/compressor.cpp:216-221 | the ranked loop: every candidate gets the next `@P` or `$I` alias and is replaced |
| `Compressor.EmitGlossary` | src/compress/compressor.cpp:257-259 | every entry of the glossary is written, once, in some order |
| `Compressor.Compress` | src/compress/compressor.cpp:160-270 | a skipped input is passed through; otherwise the text wraps the glossary and the aliased, deduplicated body; `CompressorEffect.ThereAndBack` says which inputs are skipped and what comes back |
| `Compressor.Expand` | src/compress/compressor.cpp:272-294 | aliases are undone longest first, in some order of equal lengths; the strict check reports the first alias-shaped piece left |
| `Compressor.Leftover` | src/compress/compressor.cpp:284-291 | nothing is reported exactly when no place of the text has the shape of an alias |
| `Compressor.ParseGlossary` | src/compress/compressor.cpp:311-323 | the line loop of the preface parser |
| `Compressor.ParsePrefaceLoop` | src/compress/compressor.cpp:296-328 | the preface parser, with all its failures |
| `CompressorEffect.LeftoverFirst` | src/compress/compressor.cpp:284-291 | what the strict check reports is the first `@S`, `@P` or `$I` that a digit follows, with all its digits |
| `CompressorEffect.PrefaceMeaning` | src/compress/compressor.cpp:296-328 | of any text with the opening glossary tag, the closing one and the body tag, in this order, the glossary is read from the lines between and the body goes from behind its tag and one newline to the closing tag, or to the end; there is no preface when the first newline is behind the closing tag |
| `CompressorEffect.NoPreface` | src/compress/compressor.cpp:296-310 | nor when one of the three tags is missing |
| `CompressorEffect.LineMeaning` | src/compress/compressor.cpp:311-323 | a glossary line is split at its first equals sign; a line without one changes nothing |
| `CompressorEffect.DecidesSo` | src/compress/compressor.cpp:138-158 | an input is compressed unless it has at most four times one less than the threshold characters, its kind is `code`, `source` or ends in one of sixteen extensions, or a cache mark in it is to be respected |
| `CompressorEffect.GlossaryMeaning` | src/compress/compressor.cpp:187-248 | the seeds found at their turn are in the glossary as `@S1`, `@S2`, ... in their order, all path candidates as `@P1`, ..., all identifier candidates as `$I1`, ..., and nothing else is |
| `CompressorEffect.AllReplaced` | src/compress/compressor.cpp:187-248 | when nothing is cut, every seed and candidate is gone from the finished body but for what starts inside an alias |
| `CompressorRoundTrip.Locate` | src/compress/compressor.cpp:303-308 | an occurrence of a text without sigils that does not start inside an alias covers whole plain characters of the body |
| `CompressorRoundTrip.AliasInjective` | src/compress/compressor.cpp:191-246 | an alias determines its family and number, so no two stages mint the same one |
| `CompressorRoundTrip.RetokenExact` | src/compress/compressor.cpp:89-102 | replacing a phrase in the text is replacing the plain characters that spell it if and only if no occurrence that is replaced starts inside an alias |
| `CompressorRoundTrip.RetokenMeaning` | src/compress/compressor.cpp:195-197 | putting a fresh alias for a phrase keeps the meaning of the body |
| `CompressorRoundTrip.SubstRender` | src/compress/compressor.cpp:281-283 | when no alias is misread, undoing the longest alias left replaces exactly its own occurrences |
| `CompressorRoundTrip.DelimitedFaithful` | src/compress/compressor.cpp:276-283 | when no alias is misread, undoing all aliases longest first replaces exactly their own occurrences at every step, in any order of equal lengths |
| `CompressorRoundTrip.FaithfulExpands` | src/compress/compressor.cpp:276-283 | and that gives the meaning of the body |
| `CompressorRoundTrip.SeedsKeepText` | src/compress/compressor.cpp:187-199 | the whole seed stage keeps the meaning of the body, when nothing is cut |
| `CompressorRoundTrip.RankedKeepText` | src/compress/compressor.cpp:201-248 | so does each ranked stage |
| `CompressorRoundTrip.AliasedTokens` | src/compress/compressor.cpp:182-248 | after all stages the body means the deduplicated input, when nothing is cut |
| `CompressorLossless.ParseWrapped` | src/compress/compressor.cpp:256-328 | parsing what was wrapped finds the glossary, whatever order its lines are in, and the body with its newline |
| `CompressorLossless.TagExpands` | src/compress/compressor.cpp:303-308 | a closing tag in the body would be in the input already, so the body is cut where it ends |
| `CompressorLossless.SameEnd` | src/compress/compressor.cpp:260 | the body ends a line exactly when the text it stands for does |
| `CompressorLossless.Lossless` | src/compress/compressor.cpp:160-328 | for every input, seed list and candidate lists free of sigils, newlines in phrases and closing tags, when no replaced occurrence starts inside an earlier alias and no alias of the finished body is misread (with the aliases that may be undone earlier written out, it and the text after it start with a longer alias of the glossary): parsing the preface and expanding the body gives the deduplicated input, with a final newline if it had none, and the strict check is silent |
| `CompressorEffect.ThereAndBack` | src/compress/compressor.cpp:160-328 | compressing and then parsing and expanding: exactly the inputs of `DecidesSo` are passed through unchanged; every other gives the tagged text with one line for each glossary entry, and comes back deduplicated, with the strict check silent, when the conditions of `Lossless` hold |
| `CompressorExact.FaithfulExactly` | src/compress/compressor.cpp:276-283 | the expander undoes only aliases that were written, in every order the sort of lengths may leave, if and only if no alias of the body is misread |
| `CompressorExact.SafeExactly` | src/compress/compressor.cpp:182-283 | for every input and candidate lists, the condition of `Lossless` holds if and only if every stage replaces whole plain text and every undoing, in every such order, undoes only written aliases |
| `CompressorSimple.OutsideIsUncut` | src/compress/compressor.cpp:190-248 | if no phrase starts with a character that aliases have behind their sigil, no replaced occurrence starts inside an alias |
| `CompressorSimple.NoDigitIsSafe` | src/compress/compressor.cpp:190-248 | if nothing is cut and in the deduplicated input no digit directly follows what an alias stands for, the condition of `Lossless` holds |
| `CompressorSimple.PlainlySafe` | src/compress/compressor.cpp:190-248 | it holds if no phrase starts with `S`, `P`, `I` or a digit and none occurs in the deduplicated input directly before a digit |
| `CompressorLimits.CutAliasLost` | src/compress/compressor.cpp:187-199 | a seed that cuts an earlier alias: the text does not come back in an order the sort allows |
| `CompressorLimits.CutAliasUndone` | src/compress/compressor.cpp:276-283 | in the other order, which the sort allows as well, the same text comes back |
| `CompressorLimits.MisreadHarmless` | src/compress/compressor.cpp:276-283 | a body with a misread alias that every order still expands to its meaning |
| `CompressorLimits.DigitAfterPhraseLost` | src/compress/compressor.cpp:187-199 | with the seeds `a` to `j`, in `aa0bcdefghij` a phrase is directly followed by a digit; this text and `ajbcdefghij` have the same body and the same glossary |
| `CalcEval.Parser.SkipWs` | src/cli/calc_eval.hpp:51-53 | the cursor ends at the next character that is not white space |
| `CalcEval.Parser.PeekChar` | src/cli/calc_eval.hpp:55 | skips white space and gives the character there, or NUL at the end |
| `CalcEval.Parser.SetError` | src/cli/calc_eval.hpp:57-59 | the first error sticks |
| `CalcEval.Parser.ParseExpr` | src/cli/calc_eval.hpp:61-72 | cursor, sticky error and value after a left-associative sum |
| `CalcEval.Parser.ParseTerm` | src/cli/calc_eval.hpp:74-93 | the same for products, quotients and remainders, leaving `**` to the power |
| `CalcEval.Parser.Combine` | src/cli/calc_eval.hpp:82-89 | one product step; a zero divisor is an error |
| `CalcEval.Parser.ParseFactor` | src/cli/calc_eval.hpp:96-101 | signs bind looser than `**` |
| `CalcEval.Parser.ParsePower` | src/cli/calc_eval.hpp:103-112 | a right-associative power with a signed exponent |
| `CalcEval.Parser.ParsePrimary` | src/cli/calc_eval.hpp:114-132 | brackets, names, numbers, or an error |
| `CalcEval.Parser.ParseNumber` | src/cli/calc_eval.hpp:134-156 | the longest number-like run, rejected unless `stod` uses all of it |
| `CalcEval.Parser.ParseArgs` | src/cli/calc_eval.hpp:158-167 | the comma-separated arguments |
| `CalcEval.Parser.ScanIdent` | src/cli/calc_eval.hpp:170-176 | the longest run of identifier characters |
| `CalcEval.Parser.NameValue` | src/cli/calc_eval.hpp:179-184 | the two constants, or an unknown name |
| `CalcEval.Parser.CallValue` | src/cli/calc_eval.hpp:192-218 | the value of a call, or its error unless one was already reported |
| `CalcEval.Parser.ParseIdent` | src/cli/calc_eval.hpp:169-219 | a constant or a call |
| `CalcEval.Call` | src/cli/calc_eval.hpp:192-218 | the function table, with the loops of the variadic functions, does what `Apply` says |
| `CalcEval.Minimum` | src/cli/calc_eval.hpp:211 | an argument no greater than any other |
| `CalcEval.Maximum` | src/cli/calc_eval.hpp:212 | an argument no less than any other |
| `CalcEval.Apply` | src/cli/calc_eval.hpp:192-218 | unknown functions and wrong argument counts fail; a variadic call fails exactly when it has no argument; the values are those of the next five rows |
| `CalcMeaning.LeastAndGreatest` | src/cli/calc_eval.hpp:211-212 | `min` is an argument no greater than any other, `max` one no less |
| `CalcMeaning.SumAndAverage` | src/cli/calc_eval.hpp:213-214 | `sum` of one argument is it, one more argument is added, and `avg` times the count is the sum |
| `CalcMeaning.Rounding` | src/cli/calc_eval.hpp:195-197 | `floor`, `ceil` and `round` are whole numbers, less than one below, less than one above and at most a half away, a half going away from zero |
| `CalcMeaning.Magnitude` | src/cli/calc_eval.hpp:194 | `abs` is the larger of the argument and its negation |
| `CalcMeaning.LibraryFunctions` | src/cli/calc_eval.hpp:193-203 | each other function is the library function of its name, `log` that of base ten, and refuses exactly the arguments the code refuses |
| `CalcMeaning.NamesAndCounts` | src/cli/calc_eval.hpp:179-218 | eleven functions of one argument, four of one or more and two constants with their values; every other name and count is the stated error |
| `CalcMeaning.CallMeaning` | src/cli/calc_eval.hpp:186-218 | a call in an expression has the function's value at the values of its arguments, or the first error of one |
| `CalcEval.EvalExprRun` | src/cli/calc_eval.hpp:225-240 | blank input, errors and trailing input are rejected; otherwise the value |
| `CalcGrammar.SoundExpr` | src/cli/calc_eval.hpp:61-72 | whatever `parseExpr` accepts is the text of a derivation tree with the value it returns, for every `stod` that uses up no run of number characters ending in an exponent mark |
| `CalcGrammar.SoundFactor` | src/cli/calc_eval.hpp:96-101 | the same for `parseFactor` |
| `CalcGrammar.SoundPower` | src/cli/calc_eval.hpp:103-112 | the same for `parsePower` |
| `CalcComplete.ReadExpr` | src/cli/calc_eval.hpp:61-72 | where the text of a derivation tree stands, `parseExpr` returns the tree's value or first error and stops at its end |
| `CalcComplete.ReadFactor` | src/cli/calc_eval.hpp:96-101 | the same for `parseFactor` |
| `CalcComplete.DerivableEvaluates` | src/cli/calc_eval.hpp:11-17 | every text the stated grammar derives evaluates to its tree's value, or to the tree's first error |
| `CalcComplete.AcceptsExactlyTheGrammar` | src/cli/calc_eval.hpp:11-240 | for every such `stod`, `evalExpr` returns a value exactly when some derivation of the whole text has that value |
| `CalcComplete.AcceptedIsDerivable` | src/cli/calc_eval.hpp:225-240 | every accepted text has a derivation with the value returned |
| `CalcReader.GrammarNeedsStod` | src/cli/calc_eval.hpp:134-156 | that is exactly what it takes: evaluator and grammar agree on all texts and values if and only if `stod` is such |
| `CalcReader.RunEvaluates` | src/cli/calc_eval.hpp:134-156 | a text that is one run of number characters evaluates to what `stod` makes of the whole of it |
| `CalcComplete.OneMeaning` | src/cli/calc_eval.hpp:11-20 | all derivations of one text have one outcome |
| `CalcComplete.PrintedEvaluates` | src/cli/calc_eval.hpp:11-240 | every expression tree, printed with the brackets it needs and evaluated, gives the tree's value or first error |
| `CalcMeaning.TextEvaluates` | src/cli/calc_eval.hpp:11-240 | the usual text of every expression, with brackets round what binds looser than its place, evaluates to the expression's value or first error |
| `CalcMeaning.NamesByCode` | src/cli/calc_eval.hpp:170-177 | which characters names are made of |
| `CalcMeaning.NoExpression` | src/cli/calc_eval.hpp:225-240 | white space alone is an error of its own, and so is a bracket after an expression that has a value |
| `UnifiedDiff.SplitLines` | src/compress/write_expander.cpp:52-69 | lines without their newline and one carriage return before it |
| `UnifiedDiff.JoinLines` | src/compress/write_expander.cpp:71-78 | newlines between the lines and none at the end, as `DiffTexts.JoinIsEnded` says |
| `DiffTexts.SplitWhole` | src/compress/write_expander.cpp:52-69 | for all lines without newlines that do not end in a carriage return, each ended by a newline or by both, in any mixture, splitting gives the lines back |
| `DiffTexts.SplitOpen` | src/compress/write_expander.cpp:52-69 | so it does when a last line that is not empty has no end |
| `DiffTexts.SplitText` | src/compress/write_expander.cpp:52-69 | every text is its split lines with their ends |
| `DiffTexts.SplitClean` | src/compress/write_expander.cpp:52-69 | no split line holds a newline |
| `DiffTexts.JoinIsEnded` | src/compress/write_expander.cpp:71-78 | joined lines are all but the last, each followed by a newline, and the last |
| `DiffTexts.JoinSplits` | src/compress/write_expander.cpp:52-78 | joined lines split into the same lines if and only if there are none, or none holds a newline or ends in a carriage return and the last is not empty |
| `UnifiedDiff.CopyTo` | src/compress/write_expander.cpp:124-128 | base lines are copied up to the target or the end, never backwards |
| `UnifiedDiff.ApplyHunk` | src/compress/write_expander.cpp:132-165 | the inner loop: context and removals must match, the first mismatch is the error |
| `UnifiedDiff.ApplyUnifiedDiff` | src/compress/write_expander.cpp:89-170 | the output is the new side of an edit script, or the first error |
| `DiffProofs.Conservation` | src/compress/write_expander.cpp:95-169 | when a diff applies, one edit script has the whole base as its old side and the output as its new side, removes exactly the `-` lines and adds exactly the `+` lines; so every base line is used once, in order, and the output has \|base\| less the removals plus the additions |
| `DiffProofs.HeaderStart` | src/compress/write_expander.cpp:102-123 | the old start of a printed header is read back |
| `DiffTexts.OldStartMeaning` | src/compress/write_expander.cpp:102-123 | of any line, the number after its first dash is where the hunk goes, 0 if there is no dash |
| `DiffTexts.MismatchReported` | src/compress/write_expander.cpp:132-165 | a hunk line that does not match the base ends the work with the kind of mismatch and the base line; an unknown tag is an error, and a backslash line is passed over |
| `DiffProofs.AppliesPlaced` | src/compress/write_expander.cpp:95-169 | an ordered, non-overlapping hunk list that names what is there never fails to apply, and lands where the cursor rule puts it |
| `DiffProofs.PlacedIsPatched` | src/compress/write_expander.cpp:125 | the cursor rule puts every hunk where it belongs exactly when each misplaced pure insertion adds only copies of the line it was to follow |
| `DiffProofs.AppliesAsMeant` | src/compress/write_expander.cpp:89-170 | for every base and every such hunk list, applying the rendered diff gives the base with each old side replaced by its new side if and only if the misplaced insertions are harmless |
| `DiffTexts.ApplyToText` | src/compress/write_expander.cpp:89-170 | the same on texts: the result is the patched lines with a newline between any two if and only if the hunk list is harmless, and splits into them when a text can hold them |
| `DiffProofs.TouchingIsHarmless` | src/compress/write_expander.cpp:124-169 | hunks with a context or removal line are always applied as meant |
| `DiffProofs.InsertionMisplaced` | src/compress/write_expander.cpp:125 | a pure insertion after line 1 lands before it |
| `Fnv.HashLoop` | src/core/audit_log.cpp:80-84 | the loop computes the FNV-1a fold modulo 2^64 |
| `Fnv.StepInjective` | src/core/audit_log.cpp:82 | one step is injective in the word and in the byte |
| `Fnv.HashInjective` | src/core/audit_log.cpp:80-84 | over a fixed text the hash is injective in its starting word |
| `Fnv.OneByteChanges` | src/core/audit_log.cpp:80-84 | texts that differ in exactly one byte have different hashes |
| `Fnv.XorBit` | src/core/audit_log.cpp:82 | each bit of the exclusive-or is set exactly when one of the two is |
| `Fnv.KnownValues` | src/core/audit_log.cpp:80-88 | the published FNV-1a values of the empty text and of `a` |
| `AuditLog.HexEncode` | src/core/audit_log.cpp:65-74 | two lower-case hexadecimal digits a byte |
| `AuditLog.Sanitize` | src/core/audit_log.cpp:109-117 | newline, carriage return, tab and bar become spaces |
| `AuditLog.Log.FindPrev` | src/core/audit_log.cpp:122-137 | what follows the last bar of the last non-empty line, without leading blanks, or the starting code |
| `AuditLog.Log.Append` | src/core/audit_log.cpp:119-148 | one row is added, chained to the last code; its time is the event's, and its actor, event and payload are the event's with a space for each newline, carriage return, tab and bar |
| `AuditLog.Log.Read` | src/core/audit_log.cpp:150-185 | the non-empty lines split into six fields, with their line numbers, and the last ones under a limit |
| `AuditLog.Log.Verify` | src/core/audit_log.cpp:191-206 | the rows whose code or chaining is wrong, and how many |
| `AuditContents.AppendThenRead` | src/core/audit_log.cpp:119-185 | whatever the log holds, the last entry read after an append is the event appended, with the code returned |
| `AuditContents.EntriesMeaning` | src/core/audit_log.cpp:150-185 | the entries are the non-empty lines, each once, in order, with its number |
| `AuditContents.PrevMeaning` | src/core/audit_log.cpp:122-137 | over any log: the code carried over is sixteen zeros when no line has text or the last that has holds no bar, else what follows its last bar without blanks in front, unless there is nothing else |
| `AuditContents.VerifyMeaning` | src/core/audit_log.cpp:191-206 | over any file: a line is reported exactly when its code is not that of its text or it does not carry the code of the line before |
| `AuditContents.MacMeaning` | src/core/audit_log.cpp:78-94 | the code is the hexadecimal text of two FNV-1a words, of the key and the message and of these and the key backwards, from the two starting words |
| `AuditProofs.HexInjective` | src/core/audit_log.cpp:65-74 | equal hexadecimal texts come from equal bytes |
| `AuditProofs.OneByteMac` | src/core/audit_log.cpp:78-94 | messages that differ in exactly one byte have different codes under every key |
| `AuditProofs.RowReadsBack` | src/core/audit_log.cpp:142-179 | a written row reads back as its six fields |
| `AuditProofs.BuiltRows` | src/core/audit_log.cpp:119-148 | every log built by appending is a clean chain of rows whose fields hold no bar and no newline |
| `AuditContents.BuiltHolds` | src/core/audit_log.cpp:119-148 | every line of a log built by appending is its event's time, actor, event and payload, the code of the line before and the code of all this, with bars between, and reads back as these |
| `AuditProofs.BuiltVerifies` | src/core/audit_log.cpp:119-206 | every log built by any sequence of appends verifies with no bad row |
| `AuditProofs.TamperedIsBad` | src/core/audit_log.cpp:195-199 | a row changed in one byte no longer fits where it stands |
| `AuditProofs.NextNotices` | src/core/audit_log.cpp:199-203 | when a row's code has changed, of the rows after it only the next one is reported |
| `AuditProofs.TamperLocated` | src/core/audit_log.cpp:191-206 | in a clean chain, one changed byte of a row's time, actor, event, payload or previous code is reported at exactly that row; of its own code, there and at the next row |
| `AuditProofs.TamperReported` | src/core/audit_log.cpp:119-206 | the same for every row of every log built by appending, for every other byte that is not a bar or newline, with no assumption on the hash |
| `AuditProofs.RowsRemoved` | src/core/audit_log.cpp:191-206 | when rows are removed from a clean chain nothing is reported if and only if they were the last rows or the code before the gap is also the last one removed; otherwise exactly the row after the gap is reported |
| `AuditProofs.RemovalReported` | src/core/audit_log.cpp:119-206 | the same for the lines of every log built by appending |
| `BpeTokenizer.ScanPairs` | src/core/bpe_tokenizer.cpp:23-32 | the scan finds the leftmost of the lowest-ranked adjacent pairs, or none |
| `BpeTokenizer.EraseMerges` | src/core/bpe_tokenizer.cpp:34 | erasing the boundary between two parts fuses exactly those two |
| `BpeTokenizer.MergeCount` | src/core/bpe_tokenizer.cpp:11-37 | the number of parts the greedy merge leaves |
| `BpeTokenizer.GreedyStep` | src/core/bpe_tokenizer.cpp:20-35 | the greedy merge is determined by fusing the pair that has the lowest rank and is leftmost among those |
| `BpeTokenizer.MergesBest` | src/core/bpe_tokenizer.cpp:20-35 | by the table's ranks: the pair with the lowest rank, the leftmost of several, merges next; with no pair in the table the parts stay |
| `BpeTokenizer.GreedyResult` | src/core/bpe_tokenizer.cpp:20-35 | merging keeps the text; every part was there or is a rank-table key; at the end no adjacent pair can be merged |
| `BpeTokenizer.MergeOfPiece` | src/core/bpe_tokenizer.cpp:11-37 | for one piece: the parts concatenate to it, each longer than one byte is a key, none can be merged, and there are 1 to its length of them |
| `PreTokenizer.SkipRun` | src/core/bpe_tokenizer.cpp:89-111 | a scanning loop ends where the run of its character class ends |
| `PreTokenizer.SkipDigits` | src/core/bpe_tokenizer.cpp:95 | at most three digits |
| `PreTokenizer.ScanChunk` | src/core/bpe_tokenizer.cpp:78-116 | the first rule that applies decides where a chunk ends |
| `PreTokenizer.PreTokenize` | src/core/bpe_tokenizer.cpp:65-119 | the chunks, one after the other |
| `PreTokenizer.CountTokens` | src/core/bpe_tokenizer.cpp:121-126 | the parts of all chunks; nothing without a rank table |
| `PreTokenizer.ChunksPartition` | src/core/bpe_tokenizer.cpp:65-119 | chunks are not empty and concatenate to the text, for every byte string; a chunk that starts with a digit is one to three digits |
| `PreTokenizer.CountBounds` | src/core/bpe_tokenizer.cpp:121-126 | the token count lies between the number of chunks and the length in bytes |
| `PreTokenizer.CountMeaning` | src/core/bpe_tokenizer.cpp:121-126 | the count is the number of tokens, and the tokens concatenate to the text |
| `PreTokenizer.CountIsTokens` | src/core/bpe_tokenizer.cpp:121-126 | each token is a single byte or in the rank table |
| `PreTokenPattern.FoundContracted` | src/core/bpe_tokenizer.cpp:78-83 | the contraction rule is the first alternative of the pattern |
| `PreTokenPattern.FoundWord` | src/core/bpe_tokenizer.cpp:84-92 | the word rule is the second |
| `PreTokenPattern.FoundNumber` | src/core/bpe_tokenizer.cpp:93-97 | the number rule is the third |
| `PreTokenPattern.FoundMarks` | src/core/bpe_tokenizer.cpp:98-106 | the punctuation rule is the fourth |
| `PreTokenPattern.FoundLineEnd` | src/core/bpe_tokenizer.cpp:107-110 | the fifth alternative, `\s*[\r\n]` read with backtracking, ends after the last newline of the white space |
| `PreTokenPattern.FoundInnerSpace` | src/core/bpe_tokenizer.cpp:111-115 | the sixth, `\s+(?!\S)`, leaves the last space for the next word |
| `PreTokenPattern.ChunkIsMatch` | src/core/bpe_tokenizer.cpp:59-119 | the scanner ends a chunk where a backtracking matcher of the documented pattern ends its match if and only if the white space there holds at most one newline; otherwise earlier |
| `PreTokenPattern.SplitsLikePattern` | src/core/bpe_tokenizer.cpp:59-119 | a whole text is cut as the pattern cuts it if and only if every white-space run, less the newlines right after a punctuation mark, holds at most one newline |
| `PreTokenPattern.TwoNewlines` | src/core/bpe_tokenizer.cpp:107-110 | two newlines are two chunks to the scanner and one match of the pattern |
| `ArgQuote.QuoteRun` | src/core/msys_quote.hpp:29-41 | one turn of the native quoter: a run of backslashes and the character after it |
| `ArgQuote.QuoteArgMsvcrt` | src/core/msys_quote.hpp:23-44 | the native quoting, whose reading back is `ArgSplit.ReadNative` |
| `ArgQuote.QuoteArgMsys` | src/core/msys_quote.hpp:48-58 | the MSYS quoting, whose reading back is `ArgSplit.ReadMsys` |
| `ArgQuote.IsMsysProgram` | src/core/msys_quote.hpp:64-81 | the MSYS rule is chosen exactly when the path, up to case and the direction of slashes, does not mention the system directory and mentions an MSYS, Cygwin or Git directory or has a shell, with or without `.exe`, as its file name |
| `ArgQuote.RuleMeaning` | src/core/msys_quote.hpp:64-81 | the searches on the lower-case path and its base name decide exactly that, for every path |
| `ArgQuote.SameRule` | src/core/msys_quote.hpp:67 | paths alike but for case and slashes get the same rule |
| `ArgQuote.BuildChildCmdline` | src/core/msys_quote.hpp:85-94 | the program name quoted natively, then every argument by the child's rule |
| `ArgSplit.ReadEscaped` | src/core/msys_quote.hpp:26-43 | Microsoft's rule reads what stands between the quotes back as the argument, for any runs of backslashes and quotes |
| `ArgSplit.ReadNative` | src/core/msys_quote.hpp:23-44 | a native child reads a quoted argument back, up to the space or the end after it |
| `ArgSplit.ReadMsys` | src/core/msys_quote.hpp:46-58 | an MSYS child reads a quoted argument back |
| `ArgSplit.ReadTail` | src/core/msys_quote.hpp:88-92 | all quoted arguments, split by the child's rule, come back |
| `ArgSplit.ArgumentsReturn` | src/core/msys_quote.hpp:85-94 | splitting the command line by the child's rule gives back every argument after a program name that is safe to quote |
| `ArgSplit.NoQuoteSafe` | src/core/msys_quote.hpp:90 | every program name without a quote is safe to quote |
| `ArgSplit.QuotedOnlyIfNeeded` | src/core/msys_quote.hpp:23-58 | an argument is put in quotes exactly when it is empty or holds white space or a character its rule treats in a special way; otherwise it stays as it is |
| `ArgSplit.UnsafeLoses` | src/core/msys_quote.hpp:90 | after a name that is not, the one argument `x` does not come back |
| `ArgSplit.QuoteInName` | src/core/msys_quote.hpp:90 | the program name `a"b` is such a name |
| `ArgSplit.AlwaysReturnsIff` | src/core/msys_quote.hpp:85-94 | all arguments always come back if and only if the quotes in the program name leave neither its white space nor its end outside quotes |
| `ParallelPool.EffectiveConcurrency` | src/core/parallel.cpp:44-49 | between 1 and 32 and no more than the tasks; the request itself when it is in that range |
| `ParallelProofs.StepInv` | src/core/parallel.cpp:61-85 | every step of every worker keeps slot conservation, what each worker has written, and the failure bound |
| `ParallelProofs.SlotsConserved` | src/core/parallel.cpp:15-32 | in every interleaving free slots and slot holders add up to the slots there are |
| `ParallelProofs.FailFastBound` | src/core/parallel.cpp:61-85 | with fail-fast, in every interleaving at most as many tasks execute and finish non-zero as there are slots |
| `ParallelProofs.BoundReached` | src/core/parallel.cpp:61-85 | that many can, so the bound cannot be lowered |
| `ParallelProofs.ResultsComplete` | src/core/parallel.cpp:61-89 | at the end every task has a result; one is skipped only under fail-fast and after a failure |
| `ParallelProofs.RunsStop` | src/core/parallel.cpp:57-90 | no interleaving has more than six steps a task |
| `ParallelProofs.NeverStuck` | src/core/parallel.cpp:57-90 | until all workers are done, one of them can take a step |
| `ParallelPool.Pool.Wait` | src/core/parallel.cpp:18-22 | whatever other threads do meanwhile, the wait ends with a slot taken, while one was free |
| `ParallelPool.Pool.Work` | src/core/parallel.cpp:61-85 | the worker in program order, with any steps of other threads in between: all steps form a possible run, and the worker ends with its slot given back and its task skipped or run, with its command's exit code as its result |
| `ParallelPool.Pool.RunAll` | src/core/parallel.cpp:57-90 | workers are started in order and joined: every step is possible, all are done at the end with all slots free, every task has its command's exit code or was skipped under fail-fast, which takes a task that failed, and with fail-fast no more tasks fail than there are slots |
| `Migrator.Connection.BeginImmediate` | src/core/migrator.cpp:87 | the write lock is taken with the committed content |
| `Migrator.Connection.AlreadyApplied` | src/core/migrator.cpp:89-92 | the version is read again under the lock; nothing is done when it is not below the migration |
| `Migrator.Connection.RunStatements` | src/core/migrator.cpp:93 | the migration's statements run in the transaction |
| `Migrator.Connection.SetUserVersion` | src/core/migrator.cpp:94 | the version is written in the transaction |
| `Migrator.Connection.CommitWork` | src/core/migrator.cpp:95 | the transaction's content becomes the store |
| `Migrator.Connection.Throw` | src/core/migrator.cpp:98-101 | a failed statement rolls back and stops the process |
| `Migrator.Connection.Apply` | src/core/migrator.cpp:71-102 | lock, recheck, run, stamp, commit: each a step the step system allows, ending past the migration, or stopped if and only if a statement failed |
| `Migrator.Connection.RunAll` | src/core/migrator.cpp:104-131 | the loop over the migrations takes only steps the step system allows, and ends returned, or stopped if and only if a statement failed |
| `MigratorProofs.DueMeaning` | src/core/migrator.hpp:13-16 | the due migrations ascend strictly in version, lie in the range, and have every version of it, so each exactly once |
| `MigratorProofs.DueNext` | src/core/migrator.cpp:89-95 | applying the next migration makes the due list one longer |
| `MigratorProofs.StepInv` | src/core/migrator.cpp:71-131 | every step of every process keeps the invariant, and the store only moves forward |
| `MigratorProofs.AppliedIsDue` | src/core/migrator.cpp:71-131 | in every interleaving, with failures anywhere, the migrations that have taken effect are in order the due ones above the starting version up to the user version |
| `MigratorProofs.NeverBack` | src/core/migrator.cpp:71-131 | the user version never goes down and no migration is undone |
| `MigratorProofs.OneWriter` | src/core/migrator.cpp:81-87 | no two processes are in a write transaction at once |
| `MigratorProofs.ReturnedIsCurrent` | src/core/migrator.cpp:104-131 | a process that returns normally leaves the user version at or above every migration |
| `MigratorProofs.SameResult` | src/core/migrator.cpp:104-131 | once one process has returned, the database is the one a single process would have left, however they interleaved and whichever failed |
| `MigratorProofs.NeverStuck` | src/core/migrator.cpp:81-87 | until every process has ended, one can go on without failing |
| `MigratorProofs.AllReturn` | src/core/migrator.cpp:104-131 | when nothing fails and no process can go on, every process has returned |
| `MigratorProofs.RunsStop` | src/core/migrator.cpp:104-131 | every interleaving stops |
| `Recency.TakeStep` | src/core/db.cpp:148-176 | a lookup changes the most recent texts as a move to the front or a push and a cut does; nothing beyond the cap is needed |
| `Recency.RecentOrder` | src/core/db.cpp:150-167 | recency order is the order of last use |
| `Recency.StaysRecent` | src/core/db.cpp:148-176 | a text stays among the most recent exactly as long as fewer other texts than the cap have been looked up since |
| `StmtCache.Sqlite.Finalize` | src/core/db.cpp:172 | a handle is given back at most once: it must be one that was made and not given back |
| `StmtCache.Cache.Lookup` | src/core/db.cpp:149-157 | a hit moves the node to the front and gives its handle |
| `StmtCache.Cache.Insert` | src/core/db.cpp:166-175 | a miss is cached in front, and the map and the handles stay in step with the list |
| `StmtCache.Cache.Evict` | src/core/db.cpp:169-175 | entries go from the back down to the cap, each handle finalized and its map entry erased |
| `StmtCache.Cache.GetCachedStmt` | src/core/db.cpp:148-176 | a lookup succeeds exactly when the text is cached or its one prepare succeeds; it gives the cached handle, or the one the prepare made, which is live; a failed prepare's handle is given back and the cache stays as it was; after a success the cached texts are the 50 most recent of the lookups that succeeded |
| `StmtCache.LookUpAll` | src/core/db.cpp:148-176 | after any list of lookups the cache holds the 50 texts most recently looked up with success, and each lookup tells what came of preparing its text |
| `StmtCache.Cache.ClearStmtCache` | src/core/db.cpp:140-146 | every handle ever made has been finalized, and list and map are empty |
| `AgentLease.ResolveClaim` | src/core/agent_lease.hpp:27-44 | granted exactly when no lease of another owner on the scope is live; otherwise denied by the first such owner |
| `AgentLease.LastPerScope` | src/core/agent_lease.hpp:66-76 | one entry per scope, in the order the scopes first occur, each the last on its scope |
| `AgentLease.ClaimAgainstLog` | src/cli/commands/lock_cmd.cpp:74-79 | against the whole log a claim is granted exactly when the last entry on the scope is the claimer's, stale, or missing |
| `AgentLease.LineRoundTrip` | src/core/agent_lease.hpp:49-65 | a printed lease reads back if and only if its host has no tab, its scope is not empty and its numbers fit 64 bits |
| `AgentLease.LineFields` | src/core/agent_lease.hpp:53-65 | any line of three fields without tabs and a rest is the lease these say when the first and third are numbers and the rest is not empty; a line with fewer tabs is none |
| `LeaseLog.LockFile.ReadAll` | src/cli/commands/lock_cmd.cpp:39-45 | the leases of the lines that parse, in order |
| `LeaseLog.LockFile.Claim` | src/cli/commands/lock_cmd.cpp:74-82 | a granted claim is appended, a denied one names its holder and leaves the log alone |
| `LeaseLog.LockFile.Release` | src/cli/commands/lock_cmd.cpp:69-73 | a tombstone is appended whoever holds the scope |
| `LeaseLog.ClaimMeaning` | src/cli/commands/lock_cmd.cpp:74-79 | the last lease on a scope decides claims on it: granted to its owner, and to others once it is stale; an empty log grants all |
| `LeaseLog.SingleIsExclusive` | src/core/agent_lease.hpp:27-44 | no claim is ever granted while another owner is live exactly when whoever is live wrote the scope's last entry |
| `LeaseLog.StepExclusive` | src/cli/commands/lock_cmd.cpp:67-82 | a claim, refresh or release keeps every scope to one owner if and only if, when it is a release, no other owner is live on the scope |
| `LeaseLog.RunExclusive` | src/cli/commands/lock_cmd.cpp:67-82 | over every run with time not going back, scopes stay with one owner after every step if and only if every release is of that kind |
| `LeaseLog.GrantExcludes` | src/core/agent_lease.hpp:27-44 | after such a run two owners are granted one scope only if the earlier one's last entry is stale |
| `LeaseLog.ReleaseFrees` | src/cli/commands/lock_cmd.cpp:69-73 | after a release any other owner is granted the scope exactly when the present time is past the stale time, counted from the epoch, and no other scope is affected |
| `LeaseLog.ClaimsAreOrderly` | src/cli/commands/lock_cmd.cpp:74-82 | claims and refreshes alone never break exclusion |
| `LeaseLog.StolenScope` | src/cli/commands/lock_cmd.cpp:69-73 | a release by someone who does not hold the scope lets it be claimed from under a live owner |
| `IntentSlice.BuildWindows` | src/core/intent_slice.hpp:62-75 | one window for every line that holds an intent term, scored by how many |
| `IntentProofs.ScoreIsDistinct` | src/core/intent_slice.hpp:62-70 | the score of a line is the number of distinct terms in it if and only if no term in it is repeated among the terms; otherwise it is greater |
| `IntentProofs.RepeatedTermCounts` | src/core/intent_slice.hpp:62-70 | the terms `ab`, `ab` score 2 on the line `ab`, which holds one distinct term |
| `IntentProofs.LowerMeaning` | src/core/intent_slice.hpp:66-68 | lower case turns capital letters into small ones and changes nothing else |
| `IntentSlice.Sort` | src/core/intent_slice.hpp:79-80 | some sorted permutation |
| `IntentSlice.MergeWindows` | src/core/intent_slice.hpp:81-89 | the last range is extended in place or a new one is started |
| `IntentSlice.PickWindows` | src/core/intent_slice.hpp:96-104 | windows are kept in score order within the two limits |
| `IntentSlice.IntentSliceRanges` | src/core/intent_slice.hpp:48-113 | the slice is what `IntentProofs.SliceRight` is about |
| `IntentProofs.WindowsCover` | src/core/intent_slice.hpp:65-75 | with non-negative context the windows lie in the file and cover exactly the lines near a hit |
| `IntentProofs.MergeKeeps` | src/core/intent_slice.hpp:78-89 | merging keeps the covered lines and the total score, and leaves ranges in order with an uncovered line between any two |
| `IntentProofs.RankedRight` | src/core/intent_slice.hpp:78-95 | the merged windows, in whatever order the sorts leave equal ones, are pairwise apart, cover the lines near a hit and keep the total score |
| `IntentProofs.PickKeeps` | src/core/intent_slice.hpp:91-104 | no more windows than allowed; no more lines than the budget or the top window; the top window is kept; one left out did not fit |
| `IntentProofs.PickPrefers` | src/core/intent_slice.hpp:96-104 | a window is kept exactly when there is a range and room for it beside the better-ranked kept ones |
| `IntentProofs.SliceRight` | src/core/intent_slice.hpp:43-113 | the slice is ascending, disjoint, inside the file, made of whole blocks of lines near hits, within the number of ranges and within the larger of the budget and the top block, which is kept; every block left out would have exceeded the budget unless the ranges ran out |
| `IntentProofs.SlicePrefers` | src/core/intent_slice.hpp:91-113 | going down from the best block, a block is in the slice exactly when the better blocks in it leave a range and enough lines, or there is none |
| `IntentProofs.BestBlock` | src/core/intent_slice.hpp:92-95 | the top block has the highest score, and is the earliest of those with it |
| `CompressSelect.StableSort` | src/core/compress_select.hpp:57-64 | the ranking whose meaning is `CompressSelect.RankMeaning` |
| `CompressSelect.RankMeaning` | src/core/compress_select.hpp:57-64 | every index once, higher scores first, equal scores by place |
| `CompressSelect.RankByScore` | src/core/compress_select.hpp:57-64 | scores go down along the ranking, a missing one counting as 0, and equal ones keep their places |
| `CompressSelect.SelectMaskByBudget` | src/core/compress_select.hpp:49-74 | the greedy selection in rank order |
| `CompressSelect.JoinKept` | src/core/compress_select.hpp:76-86 | a separator goes before a kept span when something has been written |
| `CompressSelect.SelectByBudget` | src/core/compress_select.hpp:88-93 | selection and joining composed |
| `CompressSelect.TopKept` | src/core/compress_select.hpp:45-46 | the top-scored span is always kept |
| `CompressSelect.UsedCovers` | src/core/compress_select.hpp:66-86 | the characters counted cover the joined text, and are its exact length when no span is empty |
| `CompressSelect.BudgetIff` | src/core/compress_select.hpp:44-93 | whatever the scores and the budget, the joined text is no longer than the larger of the budget and the top-scored span if and only if no empty span comes after a non-empty one or the separator is empty |
| `CompressSelect.BudgetBroken` | src/core/compress_select.hpp:69-71 | an empty span ranked before an earlier non-empty one costs a separator nobody counted |
| `CompressSelect.SelectionMaximal` | src/core/compress_select.hpp:66-72 | for spans that are not empty, adding any dropped span with a separator would exceed the budget |
| `CompressSelect.SelectionPrefers` | src/core/compress_select.hpp:66-72 | a span is kept exactly when it is the best or fits the budget beside the better ones that are kept |
| `CompressSelect.CostIsLength` | src/core/compress_select.hpp:69-71 | what kept spans that are not empty count for is the length of their text with separators between |
| `CompressSelect.JoinIsBetween` | src/core/compress_select.hpp:76-86 | for spans that are not empty, the joined text is the kept spans in their original order with separators between |
| `DanglingGuard.LooksLikeEntity` | src/core/dangling_guard.hpp:16-34 | two or more characters with an upper-case letter, or with a lower-case letter and an underscore or scope mark |
| `DanglingGuard.EntityMeaning` | src/core/dangling_guard.hpp:16-34 | a token is no entity exactly when it is shorter than two characters, or has no capital letter and either no small one or no underscore, dot or colon |
| `DanglingGuard.EntityTokens` | src/core/dangling_guard.hpp:36-50 | exactly the longest runs of token characters that look like entities |
| `DanglingGuard.AddMentions` | src/core/dangling_guard.hpp:66-68 | a line's entities not seen before are recorded with the line |
| `DanglingGuard.NamedLater` | src/core/dangling_guard.hpp:75-80 | whether a kept line after the definition names the entity |
| `DanglingGuard.PullBack` | src/core/dangling_guard.hpp:71-83 | needed lines only, at most the cap (or one), all of them when the cap is not reached, and the earliest ones when it is |
| `DanglingGuard.DanglingRepairLines` | src/core/dangling_guard.hpp:52-85 | the same, ascending; nothing when the mask does not fit the lines |
| `DanglingGuard.NoDangling` | src/core/dangling_guard.hpp:52-55 | when fewer lines come back than the cap, every entity on a kept line has its first mention kept or pulled back |
| `DanglingGuard.NeededMeaning` | src/core/dangling_guard.hpp:52-55 | a line is needed exactly when it was dropped and is the first mention of an entity some kept line names |
| `AsOf.DaysAreDayNumber` | src/cli/asof_parse.hpp:13-20 | for every year, negative ones included, every month and every `int` day count: `daysFromCivil` is the number reached from 1970-01-01 by adding Gregorian year and month lengths one at a time if and only if the date is not before the 1 March that starts its era of 400 years, and otherwise 2^32 more; every day from 1 on qualifies |
| `AsOf.DayBeforeEra` | src/cli/asof_parse.hpp:16-19 | day 0 of March 2000 is 2^32 days off |
| `AsOf.DaysIncrease` | src/cli/asof_parse.hpp:13-20 | it increases strictly in date order |
| `AsOf.DayOverflows` | src/cli/asof_parse.hpp:32-33 | a day past the end of its month, which the parser accepts up to 31, is the day that many days into the next month, for every month and every such `int` |
| `AsOf.FormattedDate` | src/cli/asof_parse.hpp:26-35 | every written date with a four-digit year, a month from 1 to 12 and a day from 1 to 31 reads back as midnight of its day, within 64 bits |
| `AsOf.PrintedAge` | src/cli/asof_parse.hpp:36-45 | for every number and unit, a printed age reads as that long before now if the number, the age in seconds and the time all fit 64 bits, as 0 if the number does not, and otherwise overflows |
| `AsOf.PrintedEpoch` | src/cli/asof_parse.hpp:46-50 | every printed epoch that fits 64 bits reads as itself, any other as 0 |
| `Text.ScanForm` | src/cli/asof_parse.hpp:29-48 | what `stoi` and `stoll` read of any white space, sign, digits and rest |
| `AsOf.Refused` | src/cli/asof_parse.hpp:25-50 | no text, a written date with a month or day no calendar has, negative ages and negative epochs all give 0 |

## Left out

- CompressorLossless.Lossless: proves that the stated condition is enough, not that it is necessary, for the reasons given above.
- CompressorLossless.Lossless: the candidate lists of the path and identifier stages and the content hash are parameters, for all of which it holds; the regular expressions, frequency thresholds and sort that make the lists are not modelled. The order in which the glossary is written is any order.
- Compressor.Compress: takes the candidate lists of the path and identifier stages and the content hash as inputs.
- Aggressive compression mode, timings, token estimates in results, and the skip reason's text; undoing `<icmg-repeat>` is `DedupProofs.Undo`, which the program does not have.
- CalcEval.EvalExprRun: numbers are reals, so the NaN and infinity checks, rounding and signed zero are not captured; `stod`, `pow`, `fmod`, `floor` and the transcendental functions are parameters.
- CalcGrammar.SoundExpr: assumes of `stod` only that, of the runs of digits, points, exponent marks and their signs that the scanner passes to it, it uses up none that ends in an exponent mark: such a run has no `x`, so it is read as a decimal, whose exponent needs a digit. `CalcReader.GrammarNeedsStod` shows that no less would do.
- `formatCalc` and the command around the evaluator.
- UnifiedDiff.ApplyUnifiedDiff: `atoi` does not overflow here, and the final newline that joining drops is not restored.
- DiffProofs.AppliesAsMeant: compares lists of lines; `DiffTexts.ApplyToText` is the same for texts.
- The write expander's template and glossary modes, its telemetry and its files.
- AuditLog.Log.Append: the clock is a parameter and the log a list of lines; a failure to open the file is not modelled.
- AuditLog.Mac: the words are laid out least significant byte first.
- BpeTokenizer.MergeCount: a pair whose rank is the greatest `int` never merges, as in the code; loading the rank table and base64 are left out.
- PreTokenPattern.ChunkIsMatch: the classes are the ASCII ones the code uses, not Unicode's.
- ArgSplit.ReadMsys: the MSYS child's rule is the one the source states, for quotes and backslashes; single quotes and wildcards of that runtime are not part of this model. The program name is split off by Microsoft's rule for MSYS children too, so for them the "only if" of `ArgSplit.AlwaysReturnsIff` is about that rule.
- ArgSplit.ArgumentsReturn: the separators outside quotes are any set of white space that the quoters put in quotes and that has the space; the program name itself is not recovered, as its trailing backslashes are doubled.
- ParallelProofs.FailFastBound: running a command is one step with any exit code; its output, its duration, time-outs and thread creation failures are left out, and a waiting worker is taken to wake whenever a slot is free while the others go on.
- MigratorProofs.AppliedIsDue: all processes have the same migration list in ascending order of version, from files or embedded; the SQL text, the stripping of transaction statements and busy retries are abstracted to statements that succeed or fail.
- The schema repair loop in the `Db` constructor, which has no recheck under its lock.
- StmtCache.Cache.GetCachedStmt: SQLite's outcome for a text is any, and is recorded; resetting and binding are left out, and a handle stands for one prepared statement rather than an address, which SQLite may use again. Moving a `Db` is left out.
- LeaseLog.RunExclusive: a claim reads the log and appends to it as one step; in the program another process can come in between.
- LeaseLog.LockFile.Claim: the file is a list of lines, so session names and scopes with a newline are outside it; the log is what was written as long as the present time fits 64 bits, as the clock's does, and the present time less a stored time does not overflow here; `list` is left out.
- IntentSlice.IntentSliceRanges: takes the file's lines and the intent's terms; splitting the text and dropping stop words are left out.
- IntentProofs.SliceRight: asks for non-negative context; with negative context a window ends before it starts.
- CompressSelect.SelectMaskByBudget: scores are reals, so NaN, for which the comparison is not an order, is not captured; `infoScore` is left out.
- AsOf.DaysAreDayNumber: years whose own arithmetic leaves 64 bits, far beyond what the parser reads, have no result in C++ and are not told apart here.
- AsOf.ParseAsOf: a signed overflow, for which C++ has no result, is a result of its own; the command supplies the present time.
- Integers are unbounded except where a range is written out, and character classes are those of the C locale.
- Command wiring, hint texts, classifiers, pricing tables, the escape pairs of the message files, and the file locks, whose check and action are separate steps.
