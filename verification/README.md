# Audit machinery of UltrafastSecp256k1: a verified model

The repository ships, beside its elliptic-curve engine, the machinery that decides whether an
audit passed: a module runner with four hand-written report printers, a source scanner, a report
analyzer with an event store, the gate that feeds it, a freshness gate, and byte-level audit
loops. This project models that machinery in Dafny 4.11 and proves what it is for. The curve code
itself appears only as return codes and as arbitrary predicates.

| file | models |
|---|---|
| `TextScan.dfy`, `CommentStripper.dfy`, `LiteralLexer.dfy`, `CtNamespaceAudit.dfy`, `AuditCheck.dfy` | the comment stripper, a C++ lexer with literals to hold it against, the pattern scanner, the per-file and structural checks, the counters |
| `BitFlips.dfy`, `BigEndian.dfy` | the in-place bit-flip loops and the byte-wise comparisons |
| `Freshness.dfy`, `Rounding.dfy` | ok, pre-alert, stale, missing over time, and the release gate |
| `AuditRunner.dfy` | the module loop, verdicts, section summaries, grouping and SARIF result list |
| `JsonString.dfy`, `NumberText.dfy`, `JsonDocument.dfy`, `PrintedPieces.dfy`, `JsonReport.dfy`, `SarifReport.dfy` | JSON escaping and number printing, a reader after RFC 8259, and the two report printers proved against it, whole documents included |
| `CiVerdict.dfy` | the CI step that reads the printed reports of all platforms and passes or fails |
| `Analyzer.dfy`, `EventStore.dfy` | event extraction, the regression diff, the report and event tables |
| `AuditGate.dfy`, `RequirementGate.dfy` | the gate's report in its two encodings, and the P21 requirement map |

`dafny verify dfyconfig.toml` checks everything.

What the specification functions compute is proved apart from them: lemmas named `…InPlainTerms`
(and others listed below) say it in the source's own fields, texts and numbers.

Strings stand for byte strings, one `char` per byte. A file is absent or present with a content,
an age is an optional real number of days, and the verifier behind a bit-flip probe is an
arbitrary predicate.

## What the code does that its text does not say

The model follows the code. Where the code and its comments or stated purpose part, a lemma gives
the exact condition or a concrete input:

- The regression diff keys events by check and section and keeps the last one, and all findings of
  one gate check share a key, so a failure followed by a pass is invisible to it
  (`AuditGate.GateRegressionsExactly`, `AuditGate.HiddenFailure`). P21 puts its summary first, so
  that failure never counts: the diff sees P21 fail exactly when the map is unusable or its last row
  has an invalid status, an invalid or expired date, or an unbound gate and a date raising no warning
  (`RequirementGate.FailureIsVisibleExactly`). Missing artifacts alone never show
  (`RequirementGate.MissingArtifactsAloneNeverShow`).
- A blocking finding that is new does not fail the `diff` command (`Analyzer.NoRegressionExactly`),
  and of the promised FAIL/WARN transitions only those into or out of blocking are listed
  (`Analyzer.TransitionIsListedExactly`): a pass that turns into a warning shows nowhere
  (`Analyzer.NewWarningIsNotListed`).
- Comparing reports raises a type error exactly when one check occurs with and without a section
  (`Analyzer.RegressionDiff`, `Analyzer.SectionAgainstFlatRaises`).
- Ingesting a report twice keeps one report row and doubles its events
  (`EventStore.SecondIngestDoublesTheEvents`); a report with neither `run_id` nor `generated_at`
  leaves orphaned events as soon as the clock moves
  (`EventStore.OrphansAppearExactlyWithoutIdentity`).
- The two encodings of a severity agree for FAIL, WARN, INFO and PASS, but not for the aliases the
  analyzer also knows, nor for most texts with a colon (`AuditGate.EncodingsAgreeExactly`). FAIL is
  level `critical` in one encoding and `high` in the other; only the classes agree.
- P21 promises, and its passing summary says, that every row binds to a live gate (a registered
  sub-check or an existing script `ci/*.py`) or is a documented residual tracked in the risk register.
  A map that passes keeps this exactly when it has no presence row, the paths of its script rows are
  among `ci/*.py` and no directories, and the register is a file that tracks its residual rows
  (`RequirementGate.PassingMapKeepsThePromiseExactly`). The check asks none of this: a presence row
  passes with neither gate nor note (`RequirementGate.PresenceAlonePasses`; the repository's own map
  has five presence rows), a residual passes while a register exists at all
  (`RequirementGate.UntrackedResidualPasses`), and the empty path, ".", a directory and a plain
  document pass for scripts (`RequirementGate.NoGatePasses`).
- A pre-alert announces every block that an artifact ages into if checks are at most the buffer
  apart (`Freshness.NoSilentJump`, `Freshness.JumpExactlyWhenChecksAreTooRare`); a negative buffer
  never warns (`Freshness.NegativeBufferJumps`). Two blocks come unannounced however often checks
  run: an artifact whose absence blocks vanishes, or an absent one comes back already stale
  (`Freshness.GreenTurnsBlockedExactly`, `Freshness.VanishedGoldenBlocksUnwarned`,
  `Freshness.ReturningEvidenceBlocksUnwarned`). A stale artifact can print a runway of zero
  (`Freshness.RunwayTellsTheState`).
- Ids, sections and the SARIF platform are printed unescaped. `JsonReport.WriteJsonReport` and
  `SarifReport.WriteSarifReport` are read back as the intended documents exactly when these hold
  no quote, backslash or control byte. With no registered module the SARIF report would also end
  its rules in a dangling comma and be no JSON text at all; the compiled module table is not empty,
  so the program as it stands never prints that.
- The JSON report prints `all_passed` and the console "ALL PASSED" whenever nothing failed; all
  passed indeed exactly when no advisory module was skipped or warned
  (`AuditRunner.AllPassedMeansAllPassedExactly`).
- CI is promised a passing report from every required platform. When it passes, each of them has one
  exactly when each is listed (`CiVerdict.RequiredHaveReportedExactly`): a required platform that no
  `--platform` argument names is not missed (`CiVerdict.UnlistedRequiredPasses`).
- The fuzzer's comment speaks of a crash when all 512 flips verify; the code traps above 32
  (`BitFlips.SoundnessProbe`, `BitFlips.TrapsBeforeAllAreAccepted`). The scalar loop's comment expects the group order to pass as zero;
  it fails once (`BigEndian.CheckScalarReduced`). The field loop accepts the prime itself
  (`BigEndian.CheckFieldCanonical`).
- A file audit that finds exactly 77 violations returns the code that means "skipped"; the result
  of the whole audit is nevertheless right (`CtNamespaceAudit.AuditRun.Run`). Only the first of the
  four structural checks looks at stripped text, so a comment satisfies the others
  (`CtNamespaceAudit.CommentSatisfiesTheEraseCheck`); raw and stripped searches agree on all
  patterns exactly for text without comments (`CommentStripper.RawSearchAgreesExactly`).
- The stripper does not know literals. It removes exactly the comments if and only if no string or
  character literal looks like the start of one (`LiteralLexer.StripsTheCommentsExactly`). After a
  literal that holds `//` the rest of the line is lost, prohibited calls included
  (`LiteralLexer.LiteralHidesACall`), and a literal that only names a prohibited call counts as one
  (`LiteralLexer.LiteralNamesACall`).
- Comments are removed without the replacement space of C++20 [lex.comment], so text on either
  side of a comment can join to a pattern. `CommentStripper.FoundExactlyWhenSpelledInCode` says
  exactly what is then found.

## Model

| member | source | states |
|---|---|---|
| TextScan.Find | audit/audit_ct_namespace.cpp:96-98 | `std::string::find`: the first occurrence at or after a position, or none at all |
| TextScan.CountOccurrences | audit/audit_ct_namespace.cpp:85-94 | The greedy loop ends and returns the size of the largest set of pairwise disjoint occurrences; zero exactly when the text does not contain the needle |
| TextScan.FirstOccurrenceCostsOne | audit/audit_ct_namespace.cpp:89-92 | Exchange step: jumping past the first occurrence loses at most one member of any packing |
| TextScan.GreedyBeatsEveryPacking | audit/audit_ct_namespace.cpp:89-92 | No set of disjoint occurrences is larger than the greedy count |
| TextScan.GreedyIsOptimal | audit/audit_ct_namespace.cpp:85-94 | The greedy count is attained and is the maximum |
| CommentStripper.StripComments | audit/audit_ct_namespace.cpp:101-121 | The index-driven loop emits exactly the characters that an independent position-by-position lexer without literals labels as code, for every source, unclosed block comments included |
| CommentStripper.CodePositionsAreAll | audit/audit_ct_namespace.cpp:105-119 | No code position is left out of what stripping keeps |
| CommentStripper.LineCommentInPlainTerms | audit/audit_ct_namespace.cpp:106-110 | What follows `//` is dropped up to the newline, which stays, or to the end; the text before it is kept and what follows is stripped on its own |
| CommentStripper.BlockCommentInPlainTerms | audit/audit_ct_namespace.cpp:111-117 | What follows `/*` is dropped up to and with the first `*/` after it, or to the end; the text before it is kept and what follows is stripped on its own |
| CommentStripper.StrippedOpensNoComment | audit/audit_ct_namespace.cpp:107-112 | Stripped text contains neither `//` nor `/*` |
| CommentStripper.FixedExactlyWithoutOpeners | audit/audit_ct_namespace.cpp:101-121 | Stripping changes nothing exactly when the text opens no comment |
| CommentStripper.StrippingIsIdempotent | audit/audit_ct_namespace.cpp:101-121 | Stripping twice is stripping once |
| CommentStripper.FoundExactlyWhenSpelledInCode | audit/audit_ct_namespace.cpp:191-199 | A pattern is found in the stripped text if and only if kept positions that are consecutive among kept positions spell it in the source |
| CommentStripper.PatternInCodeIsFound | audit/audit_ct_namespace.cpp:191-199 | A pattern lying wholly at kept positions is never lost |
| CommentStripper.RawSearchAgreesExactly | audit/audit_ct_namespace.cpp:320-373 | Searching the raw text instead finds the same patterns exactly when it opens no comment |
| AuditCheck.Counters.Check | audit/audit_check.hpp:68-78 | One check adds one to exactly one of the two counters |
| CtNamespaceAudit.FindSourceRoot | audit/audit_ct_namespace.cpp:128-154 | The first candidate directory with the sentinel file, in order |
| CtNamespaceAudit.RootInPlainTerms | audit/audit_ct_namespace.cpp:128-154 | The eight directories in order: the first whose `src/cpu/src/ct_sign.cpp` exists, none exactly when no one has it |
| CtNamespaceAudit.FilesInPlainTerms | audit/audit_ct_namespace.cpp:64-82 | A file is read whole up to four megabytes, a larger one as empty; it is looked for under the root and a slash |
| CtNamespaceAudit.OneMorePattern | audit/audit_ct_namespace.cpp:193-212 | What counts: a required pattern that the code does not spell and a prohibited one that it does |
| CtNamespaceAudit.AuditRun.RunFileAudit | audit/audit_ct_namespace.cpp:170-215 | Result and failure count are the number of patterns violated in the source's code; passes and check numbers account for all patterns; an absent file only reports a skip |
| CtNamespaceAudit.AuditRun.StructuralCheck | audit/audit_ct_namespace.cpp:320-336 | An absent file counts as a failure, never as a skip |
| CtNamespaceAudit.AuditRun.RunStructuralChecks | audit/audit_ct_namespace.cpp:291-374 | The failures added are the violated conditions, stated on the sources; four checks in all |
| CtNamespaceAudit.StructureInPlainTerms | audit/audit_ct_namespace.cpp:291-374 | The four conditions with their files and texts |
| CtNamespaceAudit.AuditRun.Run | audit/audit_ct_namespace.cpp:380-417 | 1 exactly when something is violated, 77 exactly when nothing is and a file (or the tree) is absent, 0 otherwise, in spite of the clash between 77 violations and the skip code |
| LiteralLexer.StripsTheCommentsExactly | audit/audit_ct_namespace.cpp:100-121 | Against a C++ lexer with literals: up to any position the stripper removes exactly the comments if and only if no literal before it looks like the start of one |
| LiteralLexer.LiteralHidesACall | audit/audit_ct_namespace.cpp:165-166 | A false negative: whatever ordinary call follows a literal holding `//` is executable and not found |
| LiteralLexer.LiteralNamesACall | audit/audit_ct_namespace.cpp:165-166 | A false positive: a literal naming any ordinary call holds no executable code and is found |
| CtNamespaceAudit.ProhibitedCodeIsAViolation | audit/audit_ct_namespace.cpp:165-212 | A prohibited call wholly outside comments makes its file violate, if no literal before its end looks like the start of a comment |
| CtNamespaceAudit.CommentSatisfiesTheEraseCheck | audit/audit_ct_namespace.cpp:356-373 | A file that erases only in a comment satisfies the last structural condition |
| BitFlips.FlipProbe | audit/fuzz_schnorr_verify.cpp:66-74 | The in-place loop restores the buffer and its counter is the number of accepted buffers at Hamming distance one, each tested once |
| BitFlips.SoundnessProbe | audit/fuzz_schnorr_verify.cpp:66-79 | It traps exactly when more than 32 neighbours are accepted |
| BitFlips.TrapsBeforeAllAreAccepted | audit/fuzz_schnorr_verify.cpp:62-78 | For every signature a verifier that accepts 40 of its 512 neighbours, more than the trap allows and not all |
| BitFlips.BitflipRejections | audit/audit_security.cpp:207-219 | The nested byte and bit loops count the rejected neighbours |
| BitFlips.NeighboursAreTheDistanceOneBuffers | audit/fuzz_schnorr_verify.cpp:69-74 | The flips reach exactly the buffers of Hamming distance one, 8n of them for n bytes |
| BitFlips.FlipIsANeighbour | audit/fuzz_schnorr_verify.cpp:70 | Every flip changes exactly one bit |
| BitFlips.NeighbourIsAFlip | audit/fuzz_schnorr_verify.cpp:69-70 | Every buffer at distance one is some flip |
| BitFlips.FlipsDiffer | audit/fuzz_schnorr_verify.cpp:69-70 | Different bit numbers give different buffers, so none is tested twice |
| BitFlips.ProbesAreComplementary | audit/audit_security.cpp:209-221 | Accepted and rejected neighbours make up 8n; the full-count check passes exactly when no neighbour verifies |
| BigEndian.CheckScalarReduced | audit/audit_scalar.cpp:88-102 | The failure count rises by 0, 1 or 2 exactly as the number is below, equal to or above a non-zero order |
| BigEndian.CheckFieldCanonical | audit/audit_field.cpp:259-266 | Both checks fail exactly when the number exceeds the prime; the prime itself passes |
| BigEndian.FirstDifferenceDecides | audit/audit_scalar.cpp:90-92 | The first differing byte decides the numeric order, at any equal length |
| BigEndian.SmallerPrefixDecides | audit/audit_scalar.cpp:89-92 | Once a prefix is smaller no later byte can make up for it, which justifies the early exit |
| BigEndian.ValueIsInjective | audit/audit_scalar.cpp:94-96 | Equal numbers of equal length are equal byte strings |
| Rounding.RoundTenths | ci/audit_sla_check.py:91-93 | Nearest tenth, ties to even |
| Freshness.DirNewestAge | ci/audit_sla_check.py:127-138 | The smallest known age, none exactly when no age is known |
| Freshness.CheckEvidenceStaleness | ci/audit_sla_check.py:141-210 | One status row per artifact and exactly the findings its state calls for, with the lowered severity for absent suite and build artifacts |
| Freshness.CheckCriticalFreshness | ci/audit_sla_check.py:213-257 | The same for critical paths, where absence is no finding |
| Freshness.CheckOne | ci/audit_sla_check.py:260-335 | The golden reference (absence is a finding) and the drill log (it is not) |
| Freshness.MinRunway | ci/audit_sla_check.py:353-357 | The soonest deadline over all artifacts of known age |
| Freshness.Run | ci/audit_sla_check.py:338-397 | The counts are those of the findings, and the release is ready, with exit code 0, exactly when no artifact is stale under a blocking SLO or missing where that blocks |
| Freshness.ReadyInPlainTerms | ci/audit_sla_check.py:162-187 | In the fields of the source: ready exactly when, under blocking SLOs, every artifact is present and within its threshold, except that critical paths and the drill log may be absent, and suite and build artifacts outside the full CI tree |
| Freshness.WatchedInPlainTerms | ci/audit_sla_check.py:150-187 | What is watched, in order, and the severity of each absence by scope, standalone and CI |
| Freshness.FindingsInPlainTerms | ci/audit_sla_check.py:162-209 | The one finding, if any, of an artifact: stale at the severity of its SLO, pre-alert as a warning, missing at the severity of its absence |
| Freshness.RowInPlainTerms | ci/audit_sla_check.py:85-94 | The status row of an artifact, its state by age, threshold and buffer |
| Freshness.ReadyExactly | ci/audit_sla_check.py:348-359 | Readiness and pre-alerts read from the findings agree with the artifacts' states |
| Freshness.NoSilentJump | ci/audit_sla_check.py:9-13 | On every run of checks at most the buffer apart, between an ok check and a later stale one some check reported the pre-alert |
| Freshness.NeverBackwards | ci/audit_sla_check.py:74-82 | Without a refresh the state never moves backwards, over whole runs and any buffer |
| Freshness.JumpExactlyWhenChecksAreTooRare | ci/audit_sla_check.py:9-13 | A jump from ok to stale is possible if and only if the pause exceeds the buffer and the buffer does not exceed the threshold |
| Freshness.NegativeBufferJumps | ci/audit_sla_check.py:65-82 | A negative configured buffer removes the warning altogether |
| Freshness.GreenTurnsBlockedExactly | ci/audit_sla_check.py:141-210 | From a ready report without pre-alerts, with checks within every buffer, the next report is blocked exactly when an artifact whose absence blocks vanished or an absent one came back stale |
| Freshness.BlockedIsAnnounced | ci/audit_sla_check.py:9-13 | Over whole runs in which artifacts may vanish and return: no later report is blocked unless one in between announced it or an artifact blocked in one of these two ways on the way |
| Freshness.VanishedGoldenBlocksUnwarned | ci/audit_sla_check.py:270-277 | A golden of age one that is gone at the next check blocks without any pre-alert |
| Freshness.ReturningEvidenceBlocksUnwarned | ci/audit_sla_check.py:231-243 | So does a critical path that was absent and comes back twenty days old |
| Freshness.RunwayTellsTheState | ci/audit_sla_check.py:85-94 | What the rounded `days_until_block` says about the state, and by how much it can mislead |
| AuditRunner.RunModules | audit/unified_audit_runner.cpp:2312-2379 | The results are those of the selected modules in order, and the four counters count their outcomes |
| AuditRunner.OneMoreModule | audit/unified_audit_runner.cpp:2325-2379 | One result for each module that the filter selects, in order, with its fields; passed exactly when the return code is zero |
| AuditRunner.CountsInPlainTerms | audit/unified_audit_runner.cpp:1803-1819 | What each count counts, in the fields of the results |
| AuditRunner.CountsAddUp | audit/unified_audit_runner.cpp:2361-2376 | Every result is passed, failed, skipped or warned, and only one of them |
| AuditRunner.ConsoleVerdict | audit/unified_audit_runner.cpp:2427-2459 | The verdict from the loop's counters is the rule's, and the exit code is 1 exactly when it is BLOCKED |
| AuditRunner.VerdictInPlainTerms | audit/unified_audit_runner.cpp:1852-1859 | BLOCKED exactly when the selftest or a mandatory module failed, READY exactly when the selftest passed and every module passed or is advisory with return code 77 |
| AuditRunner.RunVerdictInPlainTerms | audit/unified_audit_runner.cpp:2325-2379 | The same in the return codes of the selected modules |
| AuditRunner.JsonTotals | audit/unified_audit_runner.cpp:1801-1860 | The JSON writer's own fold gives the same verdict; passed, failed and advisory sum to the results plus the selftest |
| AuditRunner.TextTotals | audit/unified_audit_runner.cpp:1925-1991 | The text writer's fold, which keeps no skip counter, gives the same verdict and the same total |
| AuditRunner.AllPassedMeansAllPassedExactly | audit/unified_audit_runner.cpp:1844 | When nothing failed, passed equals the total exactly if no advisory module was skipped or warned |
| AuditRunner.SarifResults | audit/unified_audit_runner.cpp:2072-2140 | One SARIF result per failure, the selftest's first, in order |
| AuditRunner.SarifInPlainTerms | audit/unified_audit_runner.cpp:2072-2100 | A failed selftest, then each result that neither passed nor is advisory |
| AuditRunner.FilesInPlainTerms | audit/unified_audit_runner.cpp:2112-2121 | The source file of each section |
| AuditRunner.MoreFilesInPlainTerms | audit/unified_audit_runner.cpp:2122-2130 | The same for the other sections |
| AuditRunner.OtherFilesInPlainTerms | audit/unified_audit_runner.cpp:2111 | Any other section points to the runner itself |
| AuditRunner.EveryResultIsDeclared | audit/unified_audit_runner.cpp:2048-2067 | Every result of every run names a declared rule, as section 3.27.5 of SARIF 2.1.0 wants |
| AuditRunner.RunAudit | audit/unified_audit_runner.cpp:2250-2459 | Console, JSON and text verdicts coincide for every module list, filter and selftest; exit code 1 exactly when BLOCKED or the section is unknown; as many SARIF results as failures |
| AuditRunner.OutcomeShowsInItsSection | audit/unified_audit_runner.cpp:2328-2331 | An outcome occurs in the unfiltered run exactly when some section's filtered run shows it |
| AuditRunner.VerdictIsTheWorstSection | audit/unified_audit_runner.cpp:1852-1859 | The verdict of the whole run is the maximum of the verdicts of the runs filtered to each section |
| AuditRunner.RepairNeverWorsens | audit/unified_audit_runner.cpp:1852-1859 | Turning any module into a pass never worsens the verdict of any run |
| AuditRunner.ComputeSectionSummaries | audit/unified_audit_runner.cpp:1748-1779 | One summary per section with its own results' counts and time, and its total is the sum of the four outcomes |
| AuditRunner.SummaryInPlainTerms | audit/unified_audit_runner.cpp:1759-1775 | What one more result adds to the summary of its section, by its fields, and to no other |
| AuditRunner.GroupingPermutes | audit/unified_audit_runner.cpp:1962-1975 | Printing section by section prints each result with a heading exactly once |
| AuditRunner.GroupingIsAPermutationExactly | audit/unified_audit_runner.cpp:1962-1975 | The print order is a permutation of the results exactly when every section is known |
| AuditRunner.GroupingIsStable | audit/unified_audit_runner.cpp:1969-1975 | Within a section the results keep the order in which they ran |
| AuditRunner.SectionsComeInOrder | audit/unified_audit_runner.cpp:1962-1975 | No result is printed before one of an earlier section |
| AuditRunner.TextLines | audit/unified_audit_runner.cpp:1962-1975 | The printed lines are the grouped results, numbered consecutively from 1 across sections |
| AuditRunner.FailuresAreConservedExactly | audit/unified_audit_runner.cpp:1801-1822 | Section failures plus the selftest's never exceed the grand total, and equal it exactly when no failing module lacks a section |
| JsonString.JsonEscape | audit/unified_audit_runner.cpp:1692-1715 | The appending loop escapes the string character by character |
| JsonString.EscapesInPlainTerms | audit/unified_audit_runner.cpp:1696-1711 | The escape of each byte, spelled out |
| JsonString.FramingRoundTrip | audit/unified_audit_runner.cpp:1692-1715 | For every string and every suffix, a reader after section 7 of RFC 8259 stops at the closing quote, returns the string and leaves the suffix |
| JsonString.EscapingIsInjective | audit/unified_audit_runner.cpp:1692-1715 | Different strings never print alike |
| JsonString.EscapedTextIsPrintable | audit/unified_audit_runner.cpp:1696-1711 | No byte below 0x20 comes out, and the length is between one and six times the input's |
| JsonString.RawPrintReadsBackExactly | audit/unified_audit_runner.cpp:1891-1892 | Whatever follows, a string printed without escaping is read for itself if and only if it holds no quote, backslash or control byte |
| JsonString.RawSafeExactly | audit/unified_audit_runner.cpp:1891-1892 | A string needs no escape exactly when escaping leaves it alone |
| NumberText.IntTextIsANumber | audit/unified_audit_runner.cpp:1838-1843 | What `%d` prints is one number of section 6 of RFC 8259 |
| NumberText.TenthsTextIsANumber | audit/unified_audit_runner.cpp:1845 | What `%.1f` prints is one number of section 6 of RFC 8259 |
| NumberText.IntTextInPlainTerms | audit/unified_audit_runner.cpp:1838-1843 | The digits of a count spell it, without leading zeros and with its sign |
| NumberText.TenthsTextInPlainTerms | audit/unified_audit_runner.cpp:1845 | The digits of a time spell the nearest tenth, ties to even |
| NumberText.NumberMeans | audit/unified_audit_runner.cpp:1838-1845 | The numbers the reader takes are those of the grammar of section 6 of RFC 8259, rule by rule |
| NumberText.IntTextIsInjective | audit/unified_audit_runner.cpp:1838-1843 | Different counts print differently |
| JsonDocument.PiecesLexBackExactly | audit/unified_audit_runner.cpp:1824-1900 | Printed tokens lex back to themselves, whatever the white space between them, exactly when every string is read back |
| JsonDocument.EmitParsesBack | audit/unified_audit_runner.cpp:1824-1900 | A parser after sections 3 to 5 of RFC 8259 inverts the canonical token stream of every value |
| JsonDocument.OnlyTheCanonicalStreamParses | audit/unified_audit_runner.cpp:1824-1900 | The parser is unambiguous: it accepts no other token stream for a value |
| JsonDocument.PrintedValueParsesExactly | audit/unified_audit_runner.cpp:1824-1900 | A text printed as the tokens of a value, in any layout, parses to that value exactly when every string in it is read back |
| JsonDocument.DanglingCommaNeverParses | audit/unified_audit_runner.cpp:2054-2068 | A comma before a closing bracket spoils the whole document, even if strings after it are misread |
| PrintedPieces.ItemAdded | audit/unified_audit_runner.cpp:1887-1895 | One comma step of an array loop: a comma before every item but the first |
| PrintedPieces.ObjectPrints | audit/unified_audit_runner.cpp:1873-1897 | A format string's object reads as its members, and is read back exactly when each field is |
| JsonReport.PrintModules | audit/unified_audit_runner.cpp:1884-1896 | The `first` flag puts the commas right: the array body prints the section's modules, also for none |
| JsonReport.PrintSection | audit/unified_audit_runner.cpp:1871-1898 | A section's object prints its counts, status and own modules, read back exactly when its raw ids need no escape |
| JsonReport.PrintSections | audit/unified_audit_runner.cpp:1869-1899 | The comma after every section but the last gives the array of all of them |
| JsonReport.WriteJsonReport | audit/unified_audit_runner.cpp:1784-1903 | The whole JSON report parses to the intended document (true totals and verdict, one true summary per section, the modules grouped in order) if and only if the raw-printed ids need no escape |
| JsonReport.PrintedVerdict | audit/unified_audit_runner.cpp:1844-1861 | The printed verdict in its own words: "AUDIT-BLOCKED" exactly when the selftest or a mandatory module failed, "AUDIT-READY" exactly when each module passed or is a skipped advisory one, "AUDIT-READY-DEGRADED" otherwise; and `all_passed` |
| JsonReport.PrintedTotals | audit/unified_audit_runner.cpp:1837-1845 | The printed totals count the results by their fields |
| JsonReport.PrintedHeader | audit/unified_audit_runner.cpp:1825-1836 | The report's own fields, the platform and the selftest |
| JsonReport.PrintedSection | audit/unified_audit_runner.cpp:1869-1897 | A section's fields; its status is "FAIL" exactly when a mandatory module of it failed |
| JsonReport.PrintedModule | audit/unified_audit_runner.cpp:1887-1895 | The modules under a section are its results in order, field by field |
| JsonReport.RawHeadingsInPlainTerms | audit/unified_audit_runner.cpp:1872-1891 | What is printed raw: the ids of the sections and of the modules listed under them |
| SarifReport.PrintRules | audit/unified_audit_runner.cpp:2048-2067 | The rule loop prints the selftest's rule and one per module, and leaves a comma behind when there is none |
| SarifReport.PrintResults | audit/unified_audit_runner.cpp:2072-2142 | The `first_result` loop prints one result per failure with the commas between them, also for none |
| SarifReport.HalfRawReadsBackExactly | audit/unified_audit_runner.cpp:2135-2136 | A text partly escaped and partly raw is read for what it means exactly when the raw part needs no escape |
| SarifReport.MessageReadsBackExactly | audit/unified_audit_runner.cpp:2135-2136 | A result's message, with its name escaped and its section raw, is read back exactly when the section needs no escape |
| SarifReport.FrameEmits | audit/unified_audit_runner.cpp:2035-2160 | What is printed around rules and results is the intended document around any rules and results |
| SarifReport.WriteSarifReport | audit/unified_audit_runner.cpp:2014-2163 | The whole SARIF report parses to the intended document, one rule per module and one result per failure, if and only if a module is registered and what is printed raw needs no escape; without modules it is no JSON text |
| SarifReport.PrintedDocument | audit/unified_audit_runner.cpp:2035-2161 | The document around rules and results, field by field |
| SarifReport.PrintedRules | audit/unified_audit_runner.cpp:2048-2067 | The rules, field by field: a warning exactly for an advisory module |
| SarifReport.PrintedResults | audit/unified_audit_runner.cpp:2072-2140 | The results, field by field and in order, with rule, level, message and source file |
| SarifReport.RawTextsInPlainTerms | audit/unified_audit_runner.cpp:2057-2136 | What is printed raw: ids and sections of modules and of listed failures, and the platform |
| SarifReport.RegisteredTextsCoverTheResults | audit/unified_audit_runner.cpp:2057-2066 | For the results of a run that condition is one on the registered modules alone |
| CiVerdict.Evaluate | ci/audit_verdict.py:79-180 | CI passes exactly when there is a report, every report is accepted, and each platform without one is optional and its job cancelled or skipped; it crashes exactly when a report is JSON but has no object where a key is looked up |
| CiVerdict.PrintedReportIsAcceptedExactly | ci/audit_verdict.py:56-67 | End to end: the verdict CI finds in a printed report is accepted exactly when the selftest passed and no mandatory module failed |
| CiVerdict.CiPassesExactly | ci/audit_verdict.py:79-180 | Over all platforms: with every report printed by its run, CI passes exactly when there is a platform and none is blocked |
| CiVerdict.TopLevelDecides | ci/audit_verdict.py:62-67 | Where the verdict is looked for first, and what counts as absent |
| CiVerdict.RequiredHaveReportedExactly | ci/audit_verdict.py:79-180 | When CI passes, every required platform has an accepted report exactly when every one is listed |
| CiVerdict.UnlistedRequiredPasses | ci/audit_verdict.py:79-180 | CI passes although the required platform has no report |
| Analyzer.SeverityMeans | ci/artifact_analyzer.py:61-73 | For every raw severity, when it is blocking, advisory or pass (by alias or by the class it spells) and the level of each alias |
| Analyzer.SplitAtColon | ci/artifact_analyzer.py:63-65 | Splitting at the first colon loses nothing |
| Analyzer.ExtractEvents | ci/artifact_analyzer.py:99-128 | The events of whichever of the four layouts comes first, in order |
| Analyzer.FirstLayoutDecides | ci/artifact_analyzer.py:103-126 | `sections` decides whatever else the report holds, then `checks`, `findings` and `coverage` |
| Analyzer.EventInPlainTerms | ci/artifact_analyzer.py:61-87 | An event field by field, with the order in which alternative keys are tried |
| Analyzer.SectionsInPlainTerms | ci/artifact_analyzer.py:104-109 | The events of each section in order, under its name |
| Analyzer.FlatLayoutsInPlainTerms | ci/artifact_analyzer.py:116-126 | Flat findings and coverage items, one event each without a section; a present item passes, an absent one blocks |
| Analyzer.LastEventWins | ci/artifact_analyzer.py:226-227 | A key is present exactly when some event has it, and carries the last such event |
| Analyzer.KeysInPlainTerms | ci/artifact_analyzer.py:226-227 | A later event replaces an earlier one with its check id and section |
| Analyzer.KeyEvents | ci/artifact_analyzer.py:226-227 | The dictionary comprehension as a loop |
| Analyzer.Sorted | ci/artifact_analyzer.py:235 | A strictly increasing list of exactly the given keys |
| Analyzer.TextLessMeans | ci/artifact_analyzer.py:235 | Text order: a proper beginning first, else the first difference |
| Analyzer.CompareKeyed | ci/artifact_analyzer.py:234-267 | Each list holds exactly the keys of its kind, strictly sorted, with the severities and title of the right report |
| Analyzer.ChangesInPlainTerms | ci/artifact_analyzer.py:239-255 | Regressions and fixes in the fields of the events, sorted by key |
| Analyzer.EntriesInPlainTerms | ci/artifact_analyzer.py:256-267 | New and removed findings in the fields of the events, sorted by key |
| Analyzer.RegressionDiff | ci/artifact_analyzer.py:224-285 | A type error exactly when one check id occurs with and without a section; otherwise the diff of the keyed reports, the two commit names and the four counts |
| Analyzer.SectionAgainstFlatRaises | ci/artifact_analyzer.py:235 | Two reports that raise: one finding in a section of one, flat in the other |
| Analyzer.DiffIsUnique | ci/artifact_analyzer.py:234-267 | The stated contract leaves only one possible diff |
| Analyzer.SwapLaw | ci/artifact_analyzer.py:239-267 | Swapping the reports swaps regressions with fixes, their severities, and new with removed |
| Analyzer.SelfDiffIsEmpty | ci/artifact_analyzer.py:239-267 | A report compared with itself shows nothing |
| Analyzer.DiffAccountsForEveryKey | ci/artifact_analyzer.py:234-267 | Every key of either report is in exactly one list or unchanged |
| Analyzer.TransitionIsListedExactly | ci/artifact_analyzer.py:239-255 | A key of both reports is listed as a change exactly when one side blocks and the other does not |
| Analyzer.NewWarningIsNotListed | ci/artifact_analyzer.py:239-255 | A check that passed and now warns gives an empty diff |
| Analyzer.NoRegressionExactly | ci/artifact_analyzer.py:531-540 | The exit code is 0 exactly when every blocking key of the later report blocked before or is new |
| Analyzer.DiffBalances | ci/artifact_analyzer.py:239-267 | Regressions minus fixes plus new blocking minus removed blocking is the change in blocking keys |
| Analyzer.BalancesTelescope | ci/artifact_analyzer.py:224-285 | Over any chain of diffs the balances add up to the difference between the ends |
| Analyzer.HistoryIsConserved | ci/artifact_analyzer.py:224-285 | The same for any history of reports |
| Analyzer.BlockingKeysInPlainTerms | ci/artifact_analyzer.py:226-243 | What is conserved: the keys whose last event is blocking |
| Analyzer.BalanceInPlainTerms | ci/artifact_analyzer.py:279-284 | What a history adds up: regressions, minus fixes, plus new and minus removed blocking findings |
| Analyzer.BlockingEntriesInPlainTerms | ci/artifact_analyzer.py:257-267 | A listed finding is blocking exactly when its severity text starts with that class and a colon |
| EventStore.Store.IngestReport | ci/artifact_analyzer.py:176-217 | The report row of the run is replaced, every event is appended in order, and their number is returned |
| EventStore.NamedIngest | ci/artifact_analyzer.py:178-214 | A report with a run id is stored under it with its own runner, time and verdict, every event of it too, and no other row changes |
| EventStore.SyntheticIngest | ci/artifact_analyzer.py:92-96 | Without one the id is made of the runner, or "anon", and the digest of runner and time; without a time each event reads the clock again |
| EventStore.Store.JoinRows | ci/artifact_analyzer.py:487-492 | One run's row: its report's columns and the three aggregates of its events |
| EventStore.RowInPlainTerms | ci/artifact_analyzer.py:487-492 | The columns of a row and the numbers of its run's event rows, blocking and advisory ones |
| EventStore.Store.ExportTimeline | ci/artifact_analyzer.py:484-498 | Distinct runs, newest first, as many as the limit allows and none newer left out, each with its own report's columns and counts |
| EventStore.TimelineOrderInPlainTerms | ci/artifact_analyzer.py:494 | The order in `generated_at` itself, of what is shown and against what is left out |
| EventStore.NeverOrphans | ci/artifact_analyzer.py:176-217 | After any sequence of ingests of self-naming reports every event row has its report row |
| EventStore.OneRowPerRun | ci/artifact_analyzer.py:188-200 | A run has a report row exactly when it was ever ingested |
| EventStore.LastIngestWins | ci/artifact_analyzer.py:188-200 | The row is that of the run's last ingest |
| EventStore.EventsAccumulate | ci/artifact_analyzer.py:202-214 | A run's events are those of all its ingests |
| EventStore.SecondIngestDoublesTheEvents | ci/artifact_analyzer.py:188-214 | A second ingest changes no report row and doubles the events |
| EventStore.OrphansAppearExactlyWithoutIdentity | ci/artifact_analyzer.py:92-96 | With a moving clock an ingest keeps the tables free of orphans exactly when the report names itself or has no events |
| EventStore.FullTimelineAddsUpExactly | ci/artifact_analyzer.py:484-498 | A full timeline accounts for every event exactly when none is orphaned |
| EventStore.TimelineOfARun | ci/artifact_analyzer.py:484-498 | After any run of ingests the full timeline adds up, each row counts all ingests of its run, and blocking plus advisory stays within the count |
| AuditGate.BuildReport | ci/audit_gate.py:2016-2098 | Summary, statuses, verdicts and exit code from the findings, with both copies of every finding; the overall verdict is the worst of the sections' |
| AuditGate.OneMoreCheck | ci/audit_gate.py:2077-2097 | The events of the report: one per finding in order, with slug, title, class, level ("critical" for a failure) and message |
| AuditGate.CopiesInPlainTerms | ci/audit_gate.py:2063-2097 | Both copies of each finding, field by field |
| AuditGate.SlugInPlainTerms | ci/audit_gate.py:2084 | A check id, character by character |
| AuditGate.CountsInPlainTerms | ci/audit_gate.py:2030-2062 | What the summary counts |
| AuditGate.EncodingsAgreeExactly | ci/audit_gate.py:2085-2090 | The two encodings of a severity give the same class exactly for the severities described by a simple guard |
| AuditGate.TranslationAgreesExactly | ci/audit_gate.py:2063-2097 | Reading `sections` and reading `checks` give the same sequence of classes exactly when every severity meets that guard |
| AuditGate.GateReportsReadAlike | ci/audit_gate.py:2063-2097 | For the gate's own four severities they always do |
| AuditGate.SummaryCountsTheEvents | ci/audit_gate.py:2030-2062 | The classes read back number what the printed summary says, and when the info class holds more |
| AuditGate.FailExactlyWithABlockingEvent | ci/audit_gate.py:2023-2038 | The gate fails exactly when the analyzer finds a blocking event in its report |
| AuditGate.KeyedReportIsTheLastFindings | ci/audit_gate.py:2084 | The keyed report holds one entry per title with findings, the last one |
| AuditGate.DiffSeesOnlyLastFindings | ci/artifact_analyzer.py:226-227 | The blocking keys of a gate report are the titles whose last finding failed |
| AuditGate.GateRegressionsExactly | ci/artifact_analyzer.py:226-248 | Between two gate reports no regression shows exactly when every title whose last finding fails now failed last before, or had no finding before |
| AuditGate.HiddenFailure | ci/artifact_analyzer.py:226-227 | A failing report without any blocking key |
| RequirementGate.CheckArtifacts | ci/audit_gate.py:1275-1283 | One failure exactly when artifacts are undeclared or missing, naming exactly the missing ones |
| RequirementGate.CheckGate | ci/audit_gate.py:1285-1327 | One finding, a failure exactly when the row's gate does not meet what its status asks and a warning exactly when a presence row lacks its note, and true of the row |
| RequirementGate.FirstFlagExactly | ci/audit_gate.py:1289 | The flag found is the first blank-free word that starts with two dashes; none exactly when no word does |
| RequirementGate.FlagAfterAWord | ci/audit_gate.py:1289 | A flag behind a first word that is none is found |
| RequirementGate.GateReasonsInPlainTerms | ci/audit_gate.py:1286-1313 | What the reasons about a gate say of the row |
| RequirementGate.CheckFreshness | ci/audit_gate.py:1329-1340 | One failure exactly when the date is invalid or too old, one warning exactly when it grows old |
| RequirementGate.CheckRow | ci/audit_gate.py:1263-1340 | The failures of a row are its defects and its warnings are due, an invalid status hiding the rest; every finding is true of the row |
| RequirementGate.CheckRows | ci/audit_gate.py:1259-1340 | The blocking counter is the number of FAIL findings and of defects; gated, presence, residual and invalid rows add up to the requirements; every finding is true of some row |
| RequirementGate.CheckExternalAuditReplacement | ci/audit_gate.py:1217-1349 | The summary comes first and passes, and no finding fails, exactly when the map is usable and every row meets all that the check asks |
| RequirementGate.BoundInPlainTerms | ci/audit_gate.py:1270-1340 | All that the check asks of a row, in its own fields |
| RequirementGate.RegisteredFlagPasses | ci/audit_gate.py:1288-1297 | A gated row "audit_gate.py --flag" with a registered flag is bound |
| RequirementGate.LimitsInPlainTerms | ci/audit_gate.py:1249-1254 | The limits: 180 and 540 days unless configured, both of them as soon as either is unusable |
| RequirementGate.DefectsInPlainTerms | ci/audit_gate.py:1270-1340 | What counts against a row and what it is warned for |
| RequirementGate.AllBoundInPlainTerms | ci/audit_gate.py:1234-1349 | When a map passes, and when its last finding fails |
| RequirementGate.NoDefectsExactly | ci/audit_gate.py:1342-1347 | The counter is zero exactly when every row meets all that the check asks |
| RequirementGate.DefectsOnlyGrowWithTime | ci/audit_gate.py:1329-1340 | With map and tree unchanged the counter never decreases as the date advances |
| RequirementGate.PassingGateIsNamedExactly | ci/audit_gate.py:1298-1303 | A gated row that passes names a registered sub-check or an existing gate script exactly when it is no script row or its path is one of `ci/*.py` and no directory |
| RequirementGate.PassingMapNamesGatesExactly | ci/audit_gate.py:1298-1303 | In a map that passes, every gated row names a gate exactly when all script rows have such paths |
| RequirementGate.PassingMapKeepsThePromiseExactly | ci/audit_gate.py:1220-1231 | In a map that passes, every row binds to a gate or a tracked documented residual exactly when there is no presence row, script rows have such paths, and the register is a file tracking the residual rows |
| RequirementGate.PromiseInPlainTerms | ci/audit_gate.py:1220-1230 | The promise for a row, in its own fields |
| RequirementGate.GateScriptsInPlainTerms | ci/audit_gate.py:1222-1224 | The paths of gate scripts: `.py` files directly in ci |
| RequirementGate.PresenceAlonePasses | ci/audit_gate.py:1308-1317 | A presence row with no gate, residual or note that passes |
| RequirementGate.UntrackedResidualPasses | ci/audit_gate.py:1318-1327 | A residual row that passes although the register does not track it |
| RequirementGate.NoGatePasses | ci/audit_gate.py:1298-1303 | Rows that are bound without naming a gate: the root under two names, a directory, a plain document |
| RequirementGate.RunCheck | ci/audit_gate.py:2020-2024 | The check's result as the gate collects it: it fails exactly when the map is unusable or some row lacks something the check asks, and ends in a failure exactly when the map does |
| RequirementGate.FailureIsVisibleExactly | ci/audit_gate.py:1342-1349 | Among any other checks, P21 is a blocking key for the diff exactly when the map is unusable or its last row has an invalid status, is not fresh enough, or is not growing old and its gate is unbound |
| RequirementGate.MissingArtifactsAloneNeverShow | ci/audit_gate.py:1275-1283 | Missing or undeclared artifacts alone fail the check and never make it a blocking key |

## Left out

- Field, scalar, point, signature, batch and protocol algorithms: only their return codes and accept decisions appear.
- Timing, statistics and benchmark code, and the randomized volumes around the byte loops.
- Files, git, the clock, the environment, ANSI output and argument parsing: inputs are parameters, printers return their text, and a clock reading is an argument.
- File paths are compared as text: two spellings of one file are two files, and only the empty path and "." are known to lead to the root.
- Machine integers: counters and lengths are unbounded.
- Floating point: times, ages and thresholds are exact reals; rounding to a printed decimal is modelled on them.
- Freshness configuration: reading thresholds, severities and buffers from `docs/AUDIT_SLA.json` with their defaults; the model takes any of them.
- Freshness.Run: the timestamp, the detail texts and the console listing.
- The console's running section number, which is not bounded by the number of sections since modules of a section are not contiguous.
- The text report's header, section titles and trailer; its numbered lines, totals and verdict are modelled.
- JsonReport.WriteJsonReport: the printed layout is modelled only as some white space between the tokens.
- SarifReport.WriteSarifReport: the printed layout is modelled only as some white space between the tokens.
- JsonString.FramingRoundTrip: the reader refuses surrogate escapes, which the printer never writes.
- LiteralLexer.StripsTheCommentsExactly: line splices, raw strings, digit separators and header names are not lexed; a literal not closed on its line ends with it.
- RequirementGate.PassingMapKeepsThePromiseExactly: which rows the risk register tracks is an input.
- TextScan.CountOccurrences: the needle must not be empty, since the source's loop would not end; every pattern in its tables is non-empty.
- BigEndian.CheckScalarReduced: the two byte strings have one length, any length, where the source has 32.
- Analyzer.ExtractEvents: the event fields that no decision here reads (its report's runner, time, commit and platform, and detail, file and line).
- EventStore.Store.IngestReport: the columns of those fields.
- Malformed reports: an entry of the wrong JSON type makes the source raise, which is not modelled; absent keys are.
- EventStore.Store.ExportTimeline: an absent time and an empty one sort alike, which SQLite distinguishes; the commit and platform columns are dropped.
- CiVerdict.Evaluate: reports are read by the RFC 8259 reader, where Python also takes NaN, infinities and surrogates; underflow to zero, the console output and the step summary are left out.
- Divergence and flake detection, Markdown export and the analyzer's own SARIF export.
- AuditGate.BuildReport: the provenance beyond the short commit, the constant fields and the console output.
- Titles are lowered as ASCII.
- RequirementGate.CheckExternalAuditReplacement: message texts are reduced to their reasons, dates to day numbers, and rows of the wrong JSON type are not modelled.
- All other checks of the gate, which rest on regular expressions and repository text.
