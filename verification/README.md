# Verified model of the review agent

A Dafny model of the algorithms and state machines behind a code-review agent: what its globs match, what its audit
log proves, when it spends, answers, redacts, retries and resumes. Each module follows one part of the repository.

| module | what it models |
|---|---|
| `Strings`, `Whitespace`, `Optional` | split, join and global replace of a literal text; trimming; a value that may be absent |
| `Glob`, `GlobClash`, `GlobRegex`, `GlobMeaning` | the marker-based glob compiler, its false markers, a parser and a matching relation for the regular expressions it emits, and the set of paths a pattern stands for |
| `ToolGlob`, `Walk` | the tool dispatcher's second compiler and its directory walk under a deny list |
| `DiffText`, `DiffFilter` | the diff splitter, printer, path filters, line count and the exclusion report |
| `AuditChain`, `AuditLog` | the hash chain, its two verifiers, and the table with appends and prunes |
| `Cost`, `CostLedger` | the cost decision and the ledger with its daily rows |
| `TurnCounter`, `Conversation` | the turn counter as concurrent steps on one thread, and the whole reply handler over many threads, failures included |
| `AutoFetch` | the budgeted fetch of companion files |
| `Redaction`, `Publish` | removing found secrets, and the gates between findings and the posted review |
| `Feedback` | the feedback writer and the suppression rules over whole runs |
| `Backfill`, `BackfillRuns`, `BackfillFeedback` | the resumable backfill: one PR, one run, runs that crash, and what their repeated events do to suppression |
| `Incremental` | the incremental-review decision over a commit graph with a git that can fail |
| `DeepMerge` | the layered configuration merge and the resolution of `extends` |
| `CommentFingerprint` | the hidden marker of a comment and its reader |
| `Retry` | the retry loop and its two classifiers |

Algorithms that work step by step are methods or classes, each proved equal to a function of its inputs or of the state
before; what the repository promises is then proved about that function. Text is `seq<char>`, money and delays are
`real`, timestamps are `int`. Outside worlds are parameters: the hash function, the secret scanner, the git replies,
the file reader, the outcomes of a retried call, the random source.

## Where the code and its documentation differ

The model follows the code.

- A question mark in a glob is not escaped and becomes a quantifier (packages/core/src/glob.ts:34), although
  packages/config/src/schema.ts:170-172 counts it among the literals: `GlobMeaning.MeaningOnLinesExactly`. What such a
  pattern does match is `GlobMeaning.GlobMatchesExactly`.
- The pattern `**GLOBDOUBLEDIR**` does not match its documented meaning, although it does not contain the marker sign
  (packages/core/src/glob.ts:44-48): `GlobMeaning.StarsAroundName`.
- A double star is documented to match any sequence (packages/core/src/glob.ts:8), but the emitted `.` stops at line
  terminators: `GlobMeaning.DoubleStarMissesLines`, and `GlobMeaning.MeaningExactly` for all obstacles together.
- The cap per auto-fetched file does not count the truncation note (packages/runner/src/auto-fetch.ts:188-189):
  `AutoFetch.PerFileCapExactly`.
- Siblings are announced without the changed file itself (packages/runner/src/auto-fetch.ts:215-216); an index file is
  offered to itself: `AutoFetch.OwnSiblingExactly`.
- The limit note is promised once (packages/runner/src/conversation-runner.ts:199-200); with overlapping calls it can be
  skipped or doubled, and when its post fails it is lost for good, because the count is stored before:
  `TurnCounter.OneNoteExactly`, `TurnCounter.FailedNoteIsLost`.
- The reply handler is documented to throw for model failures only and to go on after cost and database errors
  (packages/runner/src/conversation-runner.ts:176-178); every awaited call can end it with an error, the turn used up and
  possibly the cost recorded: `Conversation.ConversationDesk.HandleConversationReply`.
- The full chain check ignores the stored previous hashes and fails after any deletion
  (packages/core/src/audit.ts:63-70): `AuditLog.FullCheckExactly`.
- The prune comment speaks of rows older than the anchor (packages/db/src/audit-retention.ts:122-125); the code compares
  ids, so with timestamps out of order it can delete rows past the cutoff: `AuditLog.PruneCanLoseNewerRow`, and
  `AuditLog.PruneDeletesOnlyOldExactly` for when.
- The backfill describes resuming inside a PR (packages/cli/src/commands/feedback-backfill.ts:393-395), but an entry is
  written only when a PR is finished, so an interrupted PR is walked again from its start and its events reach the
  recorder again: `BackfillRuns.InterruptedPrWalkedAgain`, and `BackfillRuns.HandedOnceExactly` for when. A repeated
  rejection counts towards the suppression threshold: `BackfillFeedback.RepeatedRejectionsCount`.
- Found secrets are described as redacted before posting (SECURITY.md:50); the successive replacements
  (packages/runner/src/gitleaks.ts:381-388) can write a secret with brackets anew: `Redaction.BracketSecretCanReturn`, and
  `Redaction.OneFindingExactly`, `Redaction.NoSecretSurvives` and `Redaction.SafeForAllExactly` for when they do not.
  A token can also complete a reported text that stands nowhere in the review: `Publish.TokenCanComplete`.

## Model

| member | source | states |
|---|---|---|
| `Glob.TokensLexed` | packages/core/src/glob.ts:43-46 | Reading a pattern token by token loses nothing: the tokens spell the pattern, no two stars in a row are left apart, and a double star directly before a slash is always one token |
| `Glob.PassesEmit` | packages/core/src/glob.ts:34-48 | For every pattern: escaping followed by the five successive replacements writes exactly the text of a token list, the tokenizer's own with every wildcard spelled as its marker and the two marker names then recognised wherever they stand |
| `Glob.EmittedExactly` | packages/core/src/glob.ts:43-48 | Those emitted tokens are the pattern's own if and only if nowhere the literal letters of a marker name and a neighbouring marker spell a false marker |
| `Glob.PassesAgreeExactly` | packages/core/src/glob.ts:34-48 | For every pattern the passes write the text of the one-pass tokenizer if and only if no false marker is spelled |
| `Glob.NameFreeIsClashFree` | packages/core/src/glob.ts:44-48 | A pattern that mentions neither the marker sign nor the marker name cannot clash |
| `Glob.ClashLeavesSign` | packages/core/src/glob.ts:47-48 | Without a literal sign, a false marker leaves a marker sign over among the emitted tokens |
| `GlobClash.EmittedIsOnePass` | packages/core/src/glob.ts:43-48 | The two marker replacements, one after the other, read the tokens as one pass does that says for each false marker what it takes and what it leaves |
| `GlobClash.LiteralsExactly` | packages/core/src/glob.ts:43-48 | For every pattern, literal signs included: the emitted tokens have the pattern's own literals if and only if no false marker is spelled |
| `GlobRegex.TextParses` | packages/core/src/glob.ts:52 | The emitted text, parsed as a regular expression by a parser for the whole text, is the expression of the tokens, lazy and optional quantifiers made by a question mark included |
| `GlobRegex.EscapedIsSyntax` | packages/core/src/glob.ts:34 | The characters that get a backslash are the syntax characters of ECMA-262, listed for the reader by themselves, without the star and the question mark |
| `GlobRegex.CompileIsTokens` | packages/core/src/glob.ts:26-53 | For every pattern, the rejected ones included: the compiled pattern is the expression of the emitted tokens, or the same error |
| `GlobRegex.IsValidGlobExactly` | packages/core/src/glob.ts:60-67 | The soft check accepts a pattern if and only if it is not empty, has no NUL and no question mark among its emitted tokens stands where there is nothing left to quantify |
| `GlobMeaning.GlobMatchesExactly` | packages/core/src/glob.ts:26-53 | For every pattern that compiles and every path: the match is exactly what the emitted tokens are read as, question marks as quantifiers and left-over signs as letters |
| `GlobMeaning.GlobMatchesItsMeaning` | packages/core/src/glob.ts:6-9 | A compiled pattern without question marks and false markers matches a path if and only if the pattern denotes it: a star never crosses a slash, a double star before a slash is zero or more whole segments, a double star is anything; on one-line paths without the proviso about line terminators |
| `GlobMeaning.MeaningExactly` | packages/core/src/glob.ts:6-12 | For every pattern: it matches exactly its documented meaning, in which a double star covers any characters, on all paths if and only if the code accepts it, it has no question mark, spells no false marker and has no double star |
| `GlobMeaning.MeaningOnLinesExactly` | packages/config/src/schema.ts:170-172 | For every one-line pattern: it matches exactly its documented meaning on paths without line terminators if and only if the code accepts it, it has no question mark and spells no false marker |
| `GlobMeaning.DoubleStarMissesLines` | packages/core/src/glob.ts:47-48 | A pattern with a double star and without the other obstacles misses a path of its documented meaning, one with line feeds |
| `GlobMeaning.MeaningWithinLinesExactly` | packages/core/src/glob.ts:43-48 | For every pattern and all paths: it matches exactly the reading in which a double star stops at line terminators if and only if the code accepts it, it has no question mark and spells no false marker |
| `GlobMeaning.StarsAroundName` | packages/core/src/glob.ts:43-48 | Two double stars around the marker's own name spell a false marker without a literal sign, and the compiled pattern misses the documented meaning even on one-line paths |
| `GlobMeaning.SingleStarKeepsDepth` | packages/core/src/glob.ts:43-46 | A pattern of literals and single stars only denotes paths with exactly as many slashes as the pattern |
| `GlobMeaning.DoubleDirUnfolds` | packages/core/src/glob.ts:38-44 | A double star with its slash denotes the rest directly, or one more whole segment followed by the same pattern |
| `ToolGlob.ToolMatchesItsMeaning` | packages/runner/src/tools.ts:217-221 | The dispatcher's own compiler, two markers and three passes, matches exactly what its reading of star pairs denotes, for patterns without question marks in which no literal sign stands before another sign |
| `ToolGlob.ToolEmittedExactly` | packages/runner/src/tools.ts:219 | The emitted tokens are the pattern's own if and only if no literal sign stands before another sign |
| `ToolGlob.ToolMatchesExactly` | packages/runner/src/tools.ts:217-221 | For every pattern that compiles and every path: the match is exactly what the dispatcher's emitted tokens are read as |
| `ToolGlob.ToolMatchIsCoreMatch` | packages/runner/src/tools.ts:217-221 | On one-line paths whatever the dispatcher's pattern matches the core pattern matches too, for patterns without question marks and false markers |
| `ToolGlob.ToolWithinCore` | packages/runner/src/tools.ts:219 | The same inclusion between the two readings of a pattern, for all paths |
| `ToolGlob.CompilersAgreeExactly` | packages/runner/src/tools.ts:217-221 | For patterns without question marks and false markers: the two compilers accept the same paths if and only if the pattern has no double star directly before a slash |
| `ToolGlob.OrdinaryPatternsAreClear` | packages/runner/src/tools.ts:217-221 | A pattern that mentions neither the marker sign nor the name of the other compiler's marker spells no false marker of either compiler |
| `Walk.Walker.Visit` | packages/runner/src/tools.ts:192-215 | The recursive walk appends, in order, exactly the files whose own path and ancestor directories are all undenied and whose path matches |
| `Walk.Walker.VisitEntry` | packages/runner/src/tools.ts:201-214 | One directory entry: dropped when denied, descended into when a directory, listed when a matching file |
| `Walk.WalkAndMatch` | packages/runner/src/tools.ts:180-190 | The listing in walking order; a path is in it if and only if names lead from the root through directories to a file, the path is these names joined by slashes, it matches, and no deny pattern takes it or the path of a directory on the way |
| `Walk.ListingMembers` | packages/runner/src/tools.ts:201-214 | A path is listed if and only if some file has it, it matches, and neither it nor any directory above it is denied |
| `Walk.ListedExactly` | packages/runner/src/tools.ts:199-214 | The same about the listing of all files: path and ancestors are told by the names from the root, for directory entries that have names |
| `Walk.DenyOnlyShrinks` | packages/runner/src/tools.ts:132-135 | Adding operator patterns to the built-in ones never adds a file to any listing |
| `DiffText.ParseDiffByFile` | packages/runner/src/diff-filter.ts:86-115 | The line loop computes the grouping of the lines under their headers, with a preamble before the first |
| `DiffText.ReassembleDiff` | packages/runner/src/diff-filter.ts:166-173 | The printing loop computes the printed text of a parsed payload |
| `DiffText.HeaderExactly` | packages/runner/src/diff-filter.ts:65-106 | A line is the header of a path if and only if it is three dashes, a blank and that path, with or without a final CR, and the path is not empty and on one line |
| `DiffText.ParseOfReassembled` | packages/runner/src/diff-filter.ts:152-173 | Printing any well-formed payload and parsing the text gives the payload back |
| `DiffText.ParseWellFormed` | packages/runner/src/diff-filter.ts:86-115 | Whatever the parser returns is well-formed: no header hides in a body or in the preamble, and every path is one line without a final CR |
| `DiffText.ParseReassembleParse` | packages/runner/src/diff-filter.ts:81-84 | Parsing, printing and parsing again changes nothing, for every text |
| `DiffText.RoundTripExactly` | packages/runner/src/diff-filter.ts:81-84 | Printing a parsed text gives the text back if and only if no header line ends in CR, no body is exactly one empty line and the preamble before a file is not exactly one empty line |
| `DiffText.PayloadRecoveredExactly` | packages/action/src/run.ts:125 | Parsing the payload that the Action builds gives its file list back if and only if every path is printable as a header and no patch line is header-shaped |
| `DiffFilter.FilterKeeps` | packages/runner/src/diff-filter.ts:144-150 | The early returns do not matter: the result is the files that no filter matches, under the same preamble, or the error of the first malformed filter |
| `DiffFilter.FilterComposes` | packages/runner/src/diff-filter.ts:144-150 | Filtering by one list and then by another is filtering by the two lists joined, errors included |
| `DiffFilter.FilteredTextParsesBack` | packages/runner/src/agent.ts:346-394 | The filtered and reprinted diff parses to exactly the kept files |
| `DiffFilter.CountDiffLines` | packages/runner/src/diff-filter.ts:192-211 | The nested loops count the places, file by file and line by line, where a line starts with a plus or minus and not with one of the two four-character file decorations |
| `DiffFilter.CountsAllChanges` | packages/runner/src/diff-filter.ts:192-211 | The sum over all files is the size of the set of those places |
| `DiffFilter.DiffLinesAddUp` | packages/runner/src/diff-filter.ts:192-211 | The count of the kept files and that of the dropped files add up to the count of all |
| `DiffFilter.KeepDropPaths` | packages/runner/src/diff-filter.ts:144-150 | Every parsed path is kept or dropped, as often as it occurs |
| `DiffFilter.ReportIsDropped` | packages/runner/src/agent.ts:351-356 | The exclusion report, which compares paths, names exactly the files that the filters removed |
| `DiffFilter.PlanAccountsForEveryFile` | packages/runner/src/agent.ts:346-397 | Each outcome names every parsed file once: filtered files as path-filtered, the others as reviewed or, under a cap, as cut by that cap; a cap skip means that this very cap is exceeded, a review that neither is, and a malformed filter ends the plan |
| `AuditChain.VerifyFrom` | packages/core/src/audit.ts:62-71 | The walk reports exactly the rows whose hash does not follow from the stored hash before them |
| `AuditChain.VerifyAuditChain` | packages/core/src/audit.ts:58-72 | Passes if and only if every row follows from its predecessor, the first one from genesis |
| `AuditChain.VerifyAuditChainSegment` | packages/core/src/audit.ts:80-96 | Passes if and only if every row follows from its predecessor, the first one from the previous hash it declares |
| `AuditChain.BreaksAreFailures` | packages/core/src/audit.ts:64-70 | Exactly one break for each row whose stored hash is not that of its payload over the hash before it, in the order of the rows, with its index, the hash that was expected and the hash that is stored |
| `AuditChain.HashesDistinct` | packages/core/src/audit.ts:58-72 | Without collisions and with genesis never a hash, no hash occurs twice in a verifying chain |
| `AuditChain.SameEndSameChain` | packages/core/src/audit.ts:58-72 | Two verifying chains that end in the same hash have the same length and agree on every hashed field |
| `AuditChain.TamperingDetected` | packages/core/src/audit.ts:58-72 | A chain of the same length with the same last hash and any hashed field changed anywhere is reported |
| `AuditChain.SegmentSliceExactly` | packages/db/src/hmac-chain.ts:19-49 | Rows picked from a verifying log pass the segment check if and only if they stand next to each other in the log |
| `AuditChain.FullSliceExactly` | packages/db/src/audit-log.ts:55-85 | Rows picked from a verifying log pass the full check if and only if they are its beginning |
| `AuditChain.InstallationChecksExactly` | packages/db/src/audit-log.ts:55-73 | On a log that was never pruned the two per-installation checks pass exactly when the installation's rows are contiguous, and, for the full check, start the log |
| `AuditLog.EveryRun` | packages/db/src/audit-retention.ts:130-151 | After any sequence of appends and prunes with arbitrary timestamps the surviving rows are a suffix of the whole history, pass the segment check, still do after the next append, and the newest row is never lost |
| `AuditLog.RunKeeps` | packages/db/src/audit-retention.ts:122-129 | Every append and every prune keeps ids increasing, rows a suffix and each row linked to its predecessor |
| `AuditLog.FullCheckExactly` | packages/db/src/audit-log.ts:51-87 | After any such sequence the full check passes if and only if nothing was ever deleted |
| `AuditLog.InstallationChecksAfterRun` | packages/db/src/hmac-chain.ts:15-51 | The same for what any run of appends and prunes leaves: the segment check passes if and only if the installation's rows are contiguous among the rows left, the full check if and only if moreover they start a log from which nothing was deleted |
| `AuditLog.PruneIdempotent` | packages/db/src/audit-retention.ts:130-151 | Pruning again with the same cutoff deletes nothing |
| `AuditLog.PruneDeletesOnlyOldExactly` | packages/db/src/audit-retention.ts:122-125 | A prune deletes only rows older than the cutoff if and only if no older row comes after a row at or past the cutoff |
| `AuditLog.PruneCanLoseNewerRow` | packages/db/src/audit-retention.ts:122-125 | A run of two appends and one prune that deletes a row newer than the cutoff |
| `AuditLog.MonotonePruneIsSafe` | packages/db/src/audit-retention.ts:122-129 | With timestamps in id order every row at or past the cutoff survives |
| `AuditLog.AuditTable.Append` | packages/db/src/audit-log.ts:19-42 | The transaction appends one row with the next id; it links to the last row by id or to genesis, carries the event field by field, takes the clock's time when the event has none, and stores the hash over both |
| `AuditLog.AuditTable.PruneAuditLog` | packages/db/src/audit-retention.ts:130-151 | The transaction drops a beginning of the table: nothing when no row is from before the cutoff, and otherwise everything in front of the last such row, which is then the only one; it reports the count and that row |
| `Cost.SeverityMonotone` | packages/core/src/cost.ts:58-84 | More spent or a larger estimate never gives a milder decision |
| `Cost.DailySoftensExactly` | packages/core/src/cost.ts:60-71 | A larger daily total gives a milder decision in exactly one case: it reaches the daily cap while the run is past the kill threshold |
| `Cost.AllowedExactly` | packages/core/src/cost.ts:58-84 | For estimates that are not negative: allowed exactly within the cap per review and below the daily cap; fallback exactly in the last fifth of the cap; killed exactly past one and a half caps |
| `Cost.SpendingBounded` | packages/core/src/cost.ts:58-84 | Over any run in which each allowed call costs at most its estimate plus delta, spending never exceeds the cap plus delta |
| `Cost.KillUnreachableExactly` | packages/core/src/cost.ts:64-71 | The kill branch is out of reach of every such run if and only if delta is at most half the cap |
| `CostLedger.Ledger.Record` | packages/db/src/cost-ledger.ts:11-46 | Inserts the row and adds its cost to the daily row of its day, no other day changes |
| `CostLedger.Ledger.PruneCostLedger` | packages/db/src/audit-retention.ts:160-169 | Keeps every row created at or after the cutoff as often as it occurs and no other, counts the others, and leaves every daily row as it is |
| `CostLedger.SinceAndBefore` | packages/db/src/audit-retention.ts:160-169 | Every row goes to the kept or to the deleted ones by its creation time alone, with all its copies |
| `CostLedger.Ledger.ReadTotals` | packages/db/src/cost-ledger.ts:48-71 | The running total is the sum of the job's rows; the daily total is the sum of the day's rows including deleted ones, hence never below the surviving sum |
| `CostLedger.JobSumWithout` | packages/db/src/cost-ledger.ts:48-56 | Wherever a row stands, taking it out lowers the running total by its cost if it has the installation and the job, and by nothing otherwise; with no rows the total is zero |
| `CostLedger.DaySumWithout` | packages/db/src/cost-ledger.ts:24-46 | The same for the total of an installation and a date |
| `CostLedger.PruneSplitsSum` | packages/db/src/audit-retention.ts:160-169 | A day's sum splits into what a prune keeps and what it deletes |
| `TurnCounter.StepKeeps` | packages/db/src/conversation-state.ts:37-82 | Each step of any interleaving keeps the count equal to the completed upserts and the passed calls within the bound |
| `TurnCounter.RepliesBounded` | packages/runner/src/conversation-runner.ts:196-206 | With at most c calls between read and upsert, the stored count is the number of completed upserts and replies never exceed max + c - 1 (none for a maximum of zero) |
| `TurnCounter.BoundReached` | packages/db/src/conversation-state.ts:37-82 | That bound is tight: for every maximum and every c some run reaches it |
| `TurnCounter.SerialOutcome` | packages/runner/src/conversation-runner.ts:196-206 | n calls one after the other, all of them going through: min(n, max) replies, and one limit note if and only if n exceeds the maximum and its post is accepted |
| `TurnCounter.OneNoteExactly` | packages/runner/src/conversation-runner.ts:199-204 | Over every settled run the limit note is posted once past the maximum and never before if and only if there are no calls, or calls never overlap and no post of it fails |
| `TurnCounter.SerialNoteExactly` | packages/runner/src/conversation-runner.ts:199-204 | When calls never overlap: at most one note in every run, and a settled run has it as promised if and only if no post of it failed |
| `TurnCounter.OverlapBreaksNote` | packages/runner/src/conversation-runner.ts:199-204 | For every maximum a run with two overlapping calls, all posts accepted, that misses the note or posts it twice |
| `TurnCounter.FailedNoteIsLost` | packages/runner/src/conversation-runner.ts:199-204 | When the one post fails in a serial run, no later call, however many there are, posts the note |
| `Conversation.ConversationDesk.IncrementConversationTurn` | packages/db/src/conversation-state.ts:31-83 | Reads the count and stores it plus one; other threads stay |
| `Conversation.ConversationDesk.HandleConversationReply` | packages/runner/src/conversation-runner.ts:180-264 | How a call ends is given by a table of its circumstances: cost_exceeded if and only if the call counts, turns are left, the cap is positive, the totals were read and the running total exceeds it; an answer only with no cap, no totals wired or a running total within it. The turns of the thread grow by one for every call whose turn is stored, at most one post and one ledger entry are added, and every failure ends the call where it happens |
| `Conversation.CostInNumbers` | packages/runner/src/conversation-runner.ts:208-221 | The cost check lets a call through, stops it or throws, each in terms of the cap and the running total |
| `Whitespace.TrimExactly` | packages/runner/src/conversation-runner.ts:260 | Trimming returns the text without leading and trailing white space: white space around it, none at its ends |
| `Conversation.ServeKeeps` | packages/runner/src/conversation-runner.ts:180-264 | Over any serial run over many threads and whatever fails: turns count the stored calls, answers never exceed the maximum, and past the maximum the note is there if and only if the one post of it did not fail |
| `Conversation.AnswerableAnswers` | packages/runner/src/conversation-runner.ts:196-264 | When nothing outside stops a call, not the store, the cost check, the model, the ledger or the post, a thread gets exactly min(calls, max) answers |
| `Conversation.FromTheStart` | packages/runner/src/conversation-runner.ts:180-264 | From an empty desk: turns are the counted calls, answers at most min(calls, max) and exactly that when the cap is kept and nothing else stops a call, and past the maximum one note unless its one post failed |
| `AutoFetch.CandidatesFor` | packages/runner/src/auto-fetch.ts:225-253 | Exactly the wanted companions of the changed file, each kind under its own switch, tests before type declarations before siblings and at most five |
| `AutoFetch.SignalFirst` | packages/runner/src/auto-fetch.ts:221-239 | At most five candidates, tests before type declarations before siblings; no test companion for a test, no declaration for a declaration |
| `AutoFetch.OwnSiblingExactly` | packages/runner/src/auto-fetch.ts:215-251 | A changed file is its own sibling candidate if and only if siblings are on and it is the index file |
| `AutoFetch.TryCandidate` | packages/runner/src/auto-fetch.ts:136-165 | One pass of the innermost loop, with its three ways to stop |
| `AutoFetch.CollectAutoFetchContext` | packages/runner/src/auto-fetch.ts:127-174 | Every file is a companion that the first instruction matching its changed file wants, holds what reading its path gives, the last one possibly cut, and comes in the order of the changed paths; when no cap was hit every readable wanted companion is there; a cap is reported only when reached, both caps hold, the total is the sum and no path comes twice |
| `AutoFetch.CollectedExactly` | packages/runner/src/auto-fetch.ts:127-174 | The same about the budgeted fetch over the flat list of candidates that the nested loops compute |
| `AutoFetch.FetchOntoAppends` | packages/runner/src/auto-fetch.ts:136-165 | Fetching onto files already there is appending |
| `AutoFetch.BudgetedIsCutPrefix` | packages/runner/src/auto-fetch.ts:138-164 | A budgeted run is a prefix of the unbudgeted one with at most its last content cut, and equal to it when the budget was not hit |
| `AutoFetch.CapsHold` | packages/runner/src/auto-fetch.ts:138-164 | The total is the sum of the lengths, and the caps on files and bytes hold |
| `AutoFetch.PathsDistinct` | packages/runner/src/auto-fetch.ts:137-147 | No path is fetched twice |
| `AutoFetch.CollectionContract` | packages/runner/src/auto-fetch.ts:103-175 | All of this for one collection from its start |
| `AutoFetch.PerFileCapExactly` | packages/runner/src/auto-fetch.ts:185-200 | A content keeps within the cap per file if and only if the file did; a longer file is cut to the cap and followed by a note that has the cap in decimal digits |
| `Redaction.ApplyRedactions` | packages/runner/src/gitleaks.ts:381-388 | The loop of splits and joins computes the successive replacements |
| `Redaction.NoSecretSurvives` | packages/runner/src/gitleaks.ts:381-388 | When every secret is safe with its own token and apart from the later ones, neither containing the other nor reaching over an end of it, no found secret occurs in the result, whatever brackets it has |
| `Redaction.StaysGone` | packages/runner/src/gitleaks.ts:381-388 | No later replacement re-creates a text that is gone and apart from the later tokens |
| `Redaction.SafeForAllExactly` | packages/runner/src/gitleaks.ts:381-388 | For secrets with no opening bracket after their first character and no closing one before their last: no secret survives in any text if and only if none survives in the redaction of each secret by itself |
| `Redaction.RedactableIsSafe` | packages/runner/src/gitleaks.ts:381-388 | Under that condition, which is read off the list alone, no found secret survives in any text |
| `Redaction.ReportedLeavesCopy` | packages/runner/src/gitleaks.ts:381-388 | In a text redacted by what the scanner finds in it, a text that it reports wherever it stands does not occur, if it was in the text or no token can complete it |
| `Redaction.RedactedFenced` | packages/runner/src/gitleaks.ts:385 | Text before a token, the token and the text after it are redacted independently of each other, whenever no secret can lie across a bracket at the token's ends |
| `Redaction.RedactionIdempotent` | packages/runner/src/gitleaks.ts:381-388 | Wherever redaction is safe, doing it again changes nothing |
| `Redaction.OneFindingExactly` | packages/runner/src/gitleaks.ts:381-388 | One finding, any secret: safe for all texts if and only if the token does not contain the secret, no end of the token begins it, and wherever the secret runs into the token its beginning put before it already has an earlier match |
| `Redaction.EdgeSafeAlone` | packages/runner/src/gitleaks.ts:381-388 | For a secret that cannot lie across a bracket at the token's ends that condition is that the token does not contain it |
| `Redaction.BracketSecretCanReturn` | packages/runner/src/gitleaks.ts:381-388 | A concrete list with a secret that begins with a closing bracket: absent from the text and present in the result |
| `Redaction.BracketListIsSafeOnSecrets` | packages/runner/src/gitleaks.ts:381-388 | That same list is safe on each secret by itself, so the equivalence does need its condition on brackets |
| `Redaction.WrittenTokenFails` | packages/runner/src/gitleaks.ts:381-388 | For any list: where a token is really written between two texts and not changed by later findings, every secret that the three make up survives |
| `Redaction.ShouldAbortReview` | packages/runner/src/gitleaks.ts:390-403 | Aborts exactly on more than three findings or one tagged high; the reason is their number, or else the rule of the first one tagged high |
| `Feedback.PrefixIsExtraction` | packages/runner/src/agent.ts:731-737 | A text starts with the prefix of a hex fingerprint if and only if extraction returns that fingerprint |
| `Feedback.CountsAgree` | packages/db/src/review-history.ts:118-131 | Counting rows by prefix is counting them by extracted fingerprint |
| `Feedback.FeedbackWriter.Record` | packages/runner/src/feedback-writer.ts:154-191 | A writer at its cap drops the event and changes nothing; below it one row is added: of the repository, for 180 days, of the kind of the event, the fingerprint in brackets and then a copy of the event's text that is the text itself when nothing is found in it and has no found secret when the list can be redacted; a rule is added if and only if that makes the threshold and there is none; the cap is never exceeded |
| `Feedback.ReviewHistory.CountRejectionsByFingerprint` | packages/db/src/review-history.ts:104-132 | Returns the number of places of rows that are of the repository, rejected, begin with the bracketed fingerprint and have not expired |
| `Feedback.ReviewHistory.DeleteSuppressionRule` | packages/db/src/review-history.ts:221-241 | Every row keeps its multiplicity, apart from rules with that id in that repository, of which none is left; the answer is yes exactly when there was one |
| `Feedback.PrunedMultiplicity` | packages/db/src/review-history.ts:81-90 | The cleanup keeps a row, with all its copies, if and only if its expiry has not passed |
| `Feedback.RowsAreEvents` | packages/runner/src/feedback-writer.ts:154-191 | After any run every stored row that is not a rule is the row of one of the events, with a clean copy of its text |
| `Feedback.HistoryHoldsNoSecret` | packages/runner/src/feedback-writer.ts:165-175 | After any run, for a scanner whose findings can be redacted: a text that it reports wherever it stands and that no token can complete is in no stored row after the fingerprint |
| `Feedback.RulesAlwaysSound` | packages/runner/src/feedback-writer.ts:199-232 | At any time of any run, with faults, removals, expiry and cleanups, each hex fingerprint has at most one live rule, and one only if the run rejected it at least threshold times |
| `Feedback.RunExact` | packages/runner/src/feedback-writer.ts:204-226 | After an undisturbed run of less than 180 days a fingerprint has a live rule if and only if its rejections reached the threshold, and the live rejected rows are as many as the rejecting events |
| `Feedback.MutedWasRejected` | packages/runner/src/agent.ts:289-298 | After any run at all, what a review loads as muted was rejected at least threshold times |
| `Feedback.MutedExactlyWhenRejected` | packages/runner/src/agent.ts:289-298 | After an undisturbed run of less than 180 days a review loads a fingerprint as muted if and only if it was rejected at least threshold times |
| `Publish.ApplyRulesetFilter` | packages/runner/src/agent.ts:167-200 | Keeps exactly the comments whose category has no rule or an enabled one with a floor not above their severity, and counts the others |
| `Publish.FilterSuppressed` | packages/runner/src/agent.ts:584-596 | Keeps exactly the comments whose fingerprint is not muted, and counts the others |
| `Publish.ComputeReviewEvent` | packages/core/src/review.ts:152-162 | Changes are requested if and only if some comment reaches the threshold |
| `Publish.PublishReview` | packages/runner/src/agent.ts:569-636 | The whole step: abort exactly on the scanner's verdict over the outgoing text, else post exactly the admitted comments redacted, with the two counts of dropped comments, and request changes exactly on an admitted blocking comment; with findings that can be redacted, a text that the scanner reports wherever it stands is in no part of the post, if it was in the summary or an admitted comment or no token can complete it |
| `Publish.OutgoingIsScanned` | packages/runner/src/agent.ts:598-599 | Whatever stands in the summary or in an admitted comment stands in the text that is scanned |
| `Publish.ReportedIsGone` | packages/runner/src/agent.ts:598-615 | The statement about reported texts, for the redacted summary and comments |
| `Publish.TokenCanComplete` | packages/runner/src/gitleaks.ts:381-388 | Why it needs its condition: a reported text that is nowhere in what goes out is completed by the token of another finding and posted |
| `Publish.GatesCompose` | packages/runner/src/agent.ts:569-596 | The three gates in sequence are one gate asking all three questions |
| `Publish.AdmittedExactly` | packages/runner/src/agent.ts:569-596 | A comment is published if and only if it is not muted, its confidence, high when unnamed, is among those that pass the floor, and the rule of its category, of bugs when unnamed, is absent or enabled with a floor that its severity is among those to pass |
| `Publish.NothingFoundIsPosted` | packages/runner/src/agent.ts:598-615 | No secret found in the outgoing text is posted, in the summary or in any comment, under either of the two conditions on the list of findings |
| `Publish.StricterOnlyRemoves` | packages/runner/src/agent.ts:569-596 | A stricter configuration posts a sub-list of what a looser one posts |
| `Publish.PostedExactlyUnlessRejected` | packages/runner/src/agent.ts:584-595 | From reactions to review: a comment that deduplication kept and that meets the floors is posted if and only if its fingerprint was rejected fewer times than the threshold |
| `Backfill.ListPage` | packages/cli/src/commands/feedback-backfill.ts:383-390 | A page is a window of the listing, and a short page ends it |
| `Backfill.Job.WalkReactions` | packages/cli/src/commands/feedback-backfill.ts:403-454 | The reaction pages of one comment: events in order and cursors; recorded grows by the events that the recorder takes, skipped by those it drops |
| `Backfill.Job.ProcessComment` | packages/cli/src/commands/feedback-backfill.ts:391-456 | One comment: skipped, counted as unresolved or walked |
| `Backfill.Job.NextComment` | packages/cli/src/commands/feedback-backfill.ts:391-456 | The same as the next step of a PR's walk |
| `Backfill.Job.WalkPage` | packages/cli/src/commands/feedback-backfill.ts:382-457 | The comments of one page continue the walk of the PR |
| `Backfill.Job.ProcessPr` | packages/cli/src/commands/feedback-backfill.ts:363-462 | The nested page loops hand over exactly the PR's events; recorded and skipped grow by the events that the recorder takes and drops, unresolved by the bot comments looked at that have no fingerprint |
| `Backfill.WalkPlaces` | packages/cli/src/commands/feedback-backfill.ts:391-442 | The events are those of the mapped reactions on the bot's comments with a fingerprint that lie past the prior boundary, each once and in the order of the listing |
| `Backfill.WalkAdds` | packages/cli/src/commands/feedback-backfill.ts:400-445 | Processed grows by the number of events, recorded and skipped by those with a negative and a positive answer of the recorder, unresolved by the number of bot comments looked at without a fingerprint |
| `Backfill.WalkEnds` | packages/cli/src/commands/feedback-backfill.ts:443-456 | The boundary left for resuming is the last handed-over reaction and the last resolvable comment |
| `BackfillRuns.Command.Backfill` | packages/cli/src/commands/feedback-backfill.ts:248-302 | The paged loop is a walk over the PRs up to the first that is too old, with the state file and totals that result; the totals of a first run count all the events by the recorder's answers and all the unresolved comments |
| `BackfillRuns.YieldedExactly` | packages/cli/src/commands/feedback-backfill.ts:327-341 | The PRs walked are those in front of the first one that was last updated before the bound |
| `BackfillRuns.Command.WalkPage` | packages/cli/src/commands/feedback-backfill.ts:327-341 | One page of it |
| `BackfillRuns.Command.WalkOne` | packages/cli/src/commands/feedback-backfill.ts:256-286 | One PR: its earlier totals when completed, else a walk and a completed entry |
| `BackfillRuns.SortedListingYieldsAll` | packages/cli/src/commands/feedback-backfill.ts:316-342 | On a listing sorted by update time exactly the PRs that are not too old are walked |
| `BackfillRuns.CompletedNotWalkedAgain` | packages/cli/src/commands/feedback-backfill.ts:259-266 | No run that finishes hands over an event of a PR that the state file marks as completed |
| `BackfillRuns.CompletedNotWalkedInCrash` | packages/cli/src/commands/feedback-backfill.ts:259-266 | Nor does a run that dies anywhere |
| `BackfillRuns.CrashKeeps` | packages/cli/src/commands/feedback-backfill.ts:276-285 | A run that dies anywhere leaves a state file with whole walks only, and every event of the PRs in it was handed over |
| `BackfillRuns.LogExactly` | packages/cli/src/commands/feedback-backfill.ts:248-302 | Everything that any crashing runs and the finishing run hand over, in order: per run the PRs past the ones finished before, and what the crash then loses |
| `BackfillRuns.HandedOnceAndLost` | packages/cli/src/commands/feedback-backfill.ts:276-285 | As often as it occurs, that is every event once and once more for each crash that lost it |
| `BackfillRuns.HandedOnceExactly` | packages/cli/src/commands/feedback-backfill.ts:393-395 | With distinct PRs, comments and reactions no event is handed over twice if and only if each crash hit a PR that was finished before or came before its first event |
| `BackfillRuns.InterruptedPrWalkedAgain` | packages/cli/src/commands/feedback-backfill.ts:393-395 | One PR with one reaction and one crash: the event is handed over twice, whatever its fingerprint |
| `BackfillFeedback.RepeatedRejectionsCount` | packages/cli/src/commands/feedback-backfill.ts:427-437 | Over any crashes the recorder counts every rejection once and once more for each crash that lost it |
| `BackfillFeedback.OneReactionMutes` | packages/runner/src/feedback-writer.ts:204-226 | With a threshold of two, one reaction and one crash mute the fingerprint |
| `BackfillRuns.FinalTotalsAndCoverage` | packages/cli/src/commands/feedback-backfill.ts:248-302 | After any number of crashes the run that finishes reports the totals of one uninterrupted run, and every event of every PR was handed over at least once |
| `BackfillRuns.FinalTotalsBalance` | packages/cli/src/commands/feedback-backfill.ts:426-445 | After any crashes the reported totals count every event once however often it was handed over: as processed, and as recorded or skipped by the recorder's answer; every comment that cannot be resolved is counted once |
| `BackfillRuns.FirstWalkCoversAll` | packages/cli/src/commands/feedback-backfill.ts:391-456 | A first walk hands over every mapped reaction on every resolvable bot comment |
| `Incremental.MergeBaseTestsReachability` | packages/core/src/incremental.ts:138-141 | A best common ancestor of two commits is the first one if and only if that is reachable from the second |
| `Incremental.QueryExactly` | packages/core/src/incremental.ts:103-128 | A query is asked a second time exactly after a transient failure; it reports exactly when the last reply is a failure, with its kind and whether there was a retry |
| `Incremental.IncrementalIsSafe` | packages/core/src/incremental.ts:95-143 | For every graph and every pattern of git failures an incremental result means the previous head is an ancestor or the head itself and the merge bases agree |
| `Incremental.SeriesReachesBack` | packages/core/src/incremental.ts:95-143 | Over a series of reviews that were all incremental every reviewed head is reachable from every later one |
| `Incremental.IncrementalExactly` | packages/core/src/incremental.ts:95-143 | With no query failing for good, the result is incremental if and only if the answered merge bases are equal and the previous head is reachable |
| `Incremental.DecidedByGraph` | packages/core/src/incremental.ts:95-143 | With unique merge bases the decision depends on the graph alone |
| `Incremental.RewrittenHeadReviewsInFull` | packages/core/src/incremental.ts:138-142 | A previous head that was rewritten away gives a full review |
| `Incremental.CallsAndReports` | packages/core/src/incremental.ts:103-128 | At most six git calls and three reports; a report only with a full review; each initial query that fails for good is reported |
| `DeepMerge.DeepMerge` | packages/config/src/preset-loader.ts:271-286 | The loop that fills a copy of the target computes the recursive merge, whatever the order of the keys |
| `DeepMerge.MergedAt` | packages/config/src/preset-loader.ts:271-286 | What a merge holds at every key path, with no condition on the two sides |
| `DeepMerge.NonObjectAtExactly` | packages/config/src/preset-loader.ts:340-386 | Over any layers a scalar or list ends up at a path if and only if some layer puts it there and no later layer defines the path or cuts it off |
| `DeepMerge.ObjectAtExactly` | packages/config/src/preset-loader.ts:340-386 | Over any layers an object ends up at a path if and only if some layer has one there and no later layer puts something else on the way |
| `DeepMerge.RightmostLayerWins` | packages/config/src/preset-loader.ts:384-385 | When layers agree on which paths are objects, the rightmost layer that defines a path decides it |
| `DeepMerge.EmptyIsIdentity` | packages/config/src/preset-loader.ts:275 | The empty object is neutral on both sides |
| `DeepMerge.MergeIdempotent` | packages/config/src/preset-loader.ts:271-286 | Merging a value with itself gives it back |
| `DeepMerge.AssociativeExactly` | packages/config/src/preset-loader.ts:271-286 | The grouping of three layers does not matter if and only if no path has objects in the outer two and something else in the middle, unless the last already covers the first there |
| `DeepMerge.AgreeingLayersAssociate` | packages/config/src/preset-loader.ts:271-286 | Layers that agree on which paths are objects associate |
| `DeepMerge.GroupingMatters` | packages/config/src/preset-loader.ts:271-286 | Three concrete layers for which grouping changes the result |
| `DeepMerge.FirstInner` | packages/config/src/preset-loader.ts:369-379 | Finds the first visited name in a preset's own list, if there is one |
| `DeepMerge.ResolveExtendsPresets` | packages/config/src/preset-loader.ts:340-386 | Succeeds if and only if every name is known, new, not org and leads back to no visited name; then the result is the fold of the presets and the repository on top; otherwise the error is that of the first name that fails |
| `CommentFingerprint.ParseExactly` | packages/core/src/comment-fingerprint.ts:23 | The deterministic scan finds a match at a place if and only if the pattern matches there, in one way only |
| `CommentFingerprint.ExtractExactly` | packages/core/src/comment-fingerprint.ts:53-57 | The reader returns the lower-case digits of the leftmost match, and nothing if and only if no place matches |
| `CommentFingerprint.NoMatchStraddles` | packages/core/src/comment-fingerprint.ts:35-40 | No match reaches from the body across the join into the appended marker |
| `CommentFingerprint.ReadBackAppended` | packages/core/src/comment-fingerprint.ts:35-57 | For every body and every 8 to 16 digit fingerprint: the body's own first marker if it has one, else the appended one in lower case |
| `CommentFingerprint.RoundTripExactly` | packages/core/src/comment-fingerprint.ts:35-57 | A body without a marker gives any appended text back, in lower case, if and only if the text is 8 to 16 of the digits and the letters a to f |
| `CommentFingerprint.AppendKeepsBody` | packages/core/src/comment-fingerprint.ts:35-40 | The body is kept whole, the trimmed result ends in the marker, spelled out, and a new marker stands on its own line |
| `CommentFingerprint.AppendTwice` | packages/core/src/comment-fingerprint.ts:31-33 | Appending the same marker twice changes nothing, whatever the body and the text |
| `CommentFingerprint.FirstFingerprintStays` | packages/core/src/comment-fingerprint.ts:35-57 | The fingerprint read from a comment stays the same however many markers are appended later |
| `Retry.WithRetry` | packages/core/src/retry.ts:60-84 | The loop makes between one and max(1, bound) calls and one sleep fewer, asks the classifier for each failure in turn, and ends in the first success, the last failure or its substitute |
| `Retry.OneRun` | packages/core/src/retry.ts:60-84 | Outcomes, classifier and bound determine calls, sleeps and result |
| `Retry.SucceedsExactly` | packages/core/src/retry.ts:54-58 | A run succeeds if and only if some call within the bound does with all failures before it retried; it returns the first success and calls no further |
| `Retry.CapDecidesExactly` | packages/core/src/retry.ts:79 | The bound ends a run if and only if all the calls it allows fail and are found worth retrying |
| `Retry.LlmWithRetry` | packages/llm/src/retry.ts:42-67 | The provider wrapper is a run of that loop with its classifier and a bound of six |
| `Retry.CapNeverDecides` | packages/llm/src/retry.ts:30-35 | Under the provider classifier the bound never decides, and the calls stay within one more than the limit of the last kind retried |
| `Retry.FollowedExactly` | packages/llm/src/retry.ts:20-57 | A failed call is followed by another if and only if it is a rate limit among the first five calls or an overload or transient failure among the first three |
| `Retry.SleepsExactly` | packages/llm/src/retry.ts:58-64 | The sleep is the Retry-After if there is one, else 1, 2, 4, 8 or 16 seconds by the number of the call, scaled by a factor that the draw moves from 0.8 up to 1.2, and never negative |
| `Retry.AnyLargerCap` | packages/llm/src/retry.ts:30-35 | Every larger bound gives the same run |
| `Retry.HardFailureStops` | packages/llm/src/retry.ts:53-56 | A failure of kind auth, fatal or context length is the last call, and only the last kind is replaced by another error |
| `Retry.SleepBounded` | packages/llm/src/retry.ts:57-64 | Without Retry-After each sleep is within a fifth of the schedule and a run sleeps at most 1.2 times 31 seconds |
| `Retry.ActionWithRetry` | packages/action/src/retry.ts:62-95 | No call at all for zero attempts; otherwise a run of the loop bounded by ten, with exactly one log line per sleep when there is a logger, naming its attempt and delay |
| `Retry.ActionFollowedExactly` | packages/action/src/retry.ts:29-36 | With the default test and delays a failed call is followed by another if and only if it is no client error other than 429 and fewer calls were made than asked for and than ten; the sleep is one second, then three, then nine |
| `Retry.ActionSleepExactly` | packages/action/src/retry.ts:78-80 | With the default delays the time slept depends only on the number of calls and is at most 67 seconds |
| `Retry.ClientErrorsStopExactly` | packages/action/src/retry.ts:29-36 | With the default test a failed run within its bound ends on a client error other than 429, and no such error was retried |

## Left out

- Redaction.NoSecretSurvives: for lists a sufficient condition, for any secrets; exact for one finding (`Redaction.OneFindingExactly`) and for lists of secrets that cannot lie across a bracket at the edge of a token (`Redaction.SafeForAllExactly`). For other lists the unsafe direction is `Redaction.WrittenTokenFails`.
- Redaction.SafeForAllExactly: not for secrets with an opening bracket after the first character or a closing one before the last, for which the equivalence can fail (`Redaction.BracketListIsSafeOnSecrets`).
- Redaction.RedactedFenced: the same restriction.
- GlobMeaning.GlobMatchesItsMeaning: not for patterns with a question mark or a false marker, for which it is false (`GlobMeaning.MeaningWithinLinesExactly`); what those match is `GlobMeaning.GlobMatchesExactly`.
- GlobMeaning.MeaningOnLinesExactly: one-line patterns; a pattern with a line terminator and a question mark may match no one-line path and mean none.
- ToolGlob.ToolMatchesItsMeaning: not for patterns with a question mark or a literal sign before another sign, for which it can hold or fail; what those match is `ToolGlob.ToolMatchesExactly`.
- ToolGlob.ToolMatchIsCoreMatch: not for patterns with a question mark or false markers; what each compiler matches then is given by `ToolGlob.ToolMatchesExactly` and `GlobMeaning.GlobMatchesExactly`.
- ToolGlob.CompilersAgreeExactly: the same restriction.
- BackfillRuns.CrashKeeps: writing the state file is taken as atomic; the command overwrites it in place, so a crash inside that write can leave a text that the next run refuses to load.
- Feedback.RunExact: one clock for the database default of the expiry and for the readers.
- Publish.ReportedIsGone: for a text that was not in what goes out, only a sufficient condition, that no token can be part of it or reach into it; without it the text can be posted (`Publish.TokenCanComplete`).
- Feedback.HistoryHoldsNoSecret: the same condition, since the event whose row it is need not have held the text; the suppression rules are left out, since their reason is stored as it is given.
- Walk.ListedExactly: for directory entries with names, as directories have them.
- Publish.PostedExactlyUnlessRejected: starts after deduplication, which with a history reader drops a fingerprint after one rejection.
- TurnCounter.RepliesBounded: one thread; many threads are modelled serially in `Conversation`.
- Conversation.ServeKeeps: calls are served one after the other; overlap is the subject of `TurnCounter`.
- BackfillRuns.FinalTotalsAndCoverage: assumes an unchanged remote listing and a recorder whose answer depends only on the event.
- Characters are Unicode scalar values; UTF-16 code units, and with them lengths of text outside the basic plane, are not modelled.
- SHA-256 is an arbitrary function; collision freedom and genesis never being a hash are hypotheses of the lemmas that need them. The canonical JSON payload is a record.
- Audit appends and prunes are serialised transactions; two appends that read the same last row at once are not modelled.
- Money is exact; rounding of floating-point costs, jitter and sums is not modelled.
- The day of a ledger row is given with it; the difference between the JavaScript and the database clock is not modelled.
- Paths are joined by the path library, which is a parameter of the auto-fetch model; the early return without a workspace and the loading of compiled patterns are not modelled.
- The secret scanner, its regular expressions and its entropy measure: findings are given.
- Deduplication, the prompt, the model call, schema validation and the scan of the incoming diff: the deduplicated comments are given.
- Git error messages are given as kinds; the patterns that classify them are not modelled.
- Keys named like members of the JavaScript object prototype are treated as ordinary keys by the merge.
- YAML parsing and the contents of the bundled presets: a table of parsed presets is a parameter.
- `mergeOrgIntoRepo`, which lists its fields by hand.
- Database access rules, row-level tenancy, exports of audit and cost rows.
- Network clients, sleeps between requests of the backfill, its console output and its dry-run mode.
- `resolveSafePath`, symbolic links, `grep` and `read_file` of the tool dispatcher.
- Retry attempts that are not whole numbers; log lines carry attempt, total, delay and error instead of their text.
