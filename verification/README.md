# Release and localisation tooling: a verified model

A Dafny model of the hard parts of the repository's scripts, with proofs of what they promise.

- **Child-process supervisor** (`Supervisor`, `SupervisorSafety`, `SupervisorHistory`, `SupervisorLiveness`, `ProcessRuns`,
  `OutputCapture`). Any number of concurrent runs as one state machine: the environment chooses timeouts, timer firings,
  output, close, error, parent signals and every answer to "is the process group alive". The handlers are imperative and each
  is proved to be exactly one step of the machine; safety, progress and clean-up are proved for every state of every history,
  what a run reports is tied to its events alone, and so is when a signal can still be re-raised and when it cannot be missed.
- **Batching and retrying translation** (`Batching`, `Placeholders`, `BatchTranslation`). The greedy batches are proved
  optimal; translation with recursive halving is proved faithful and bounded against an arbitrary client, and the bound tight.
- **Release refs** (`ReleaseRefs`, `VersionCodes`). A write-once register on a shared remote under every interleaving of
  recorders, and the arithmetic and naming of releases.
- **Android string compiler** (`BracedExpressions`, `KotlinInterpolations`, `AndroidResources`, `ResourceEscapes`). Rendering
  preserves meaning, and the scanner for interpolations reads exactly a grammar.
- **Kotlin literals** (`KotlinLiterals`, `KotlinLiteralGrammar`). Reading undoes writing, interpolations included, with the
  exact condition on what follows; the readers follow a grammar exactly; and the exact condition under which the two scanners
  for interpolations agree.
- **Ids, locale sync and catalogs** (`NativeIds`, `NativeIdStability`, `LocaleSync`, `LocaleTranslation`, `TranslationChoice`,
  `IosCatalog`, `Sorting`). Stability with its exact condition, fixpoints, and two independently written selectors that agree.
- **Checks** (`ImportGraph`, `LocRatchet`, `NameStatus`, `RestartProbe`). A worklist that equals reachability, a potential
  over commit histories, a parser that inverts its format, and a trace-consuming state machine.

`Options`, `Text` and `Counting` hold shared vocabulary. Strings are sequences of characters; lengths are counted in
characters. Hash functions, the translator and its client, the JavaScript parser, Git, timers and signals are arbitrary functions or
environment steps. Clock readings and budgets are reals.

Where a natural law turned out not to hold, the code is kept as it is, a concrete witness is given and the exact condition
is proved: `StrandedRegistry` with `ReraiseStaysPossible`, `ZeroLimitOvercounts` with `CaptureLawNeedsPositiveLimit`,
`LongPatchBreaksOrder` with `OrderAgreesExactly`, `CollisionTakesId` with `IdsAreKeptExactly`, `QuoteCharacterDisagrees` with
`ScannersAgreeExactly`, `MovingInWorsensScope` with `ScopesAreKeptExactly`, `ScopesLetOthersWorsen` with `TreeIsKeptExactly`,
and the exceptions in `TemplatesReadBack` and `SelectorsAgree`.

## Model

| member | source | states |
|---|---|---|
| `OutputCapture.OutputLimit` | scripts/control-ui-i18n.ts:858-864 | the limit is the floor of a requested limit of at least 1, 1 for a smaller positive one, and the default of 1 MiB when none or no positive one is requested |
| `OutputCapture.AppendKeepsLongestTail` | scripts/control-ui-i18n.ts:866-877 | one chunk turns the longest tail of the output so far into the longest tail of the longer output, counting exactly what is dropped |
| `OutputCapture.CaptureKeepsLongestTail` | scripts/control-ui-i18n.ts:866-877 | after any chunk sequence a capture is the longest tail of the concatenation within its limit and counts exactly the dropped characters |
| `OutputCapture.ZeroLimitOvercounts` | scripts/control-ui-i18n.ts:876 | with limit 0 the law fails: `slice(-0)` keeps what is counted as dropped |
| `OutputCapture.CaptureLawNeedsPositiveLimit` | scripts/control-ui-i18n.ts:858-877 | the law holds for all chunk sequences exactly for limits of at least 1, which the limit resolution guarantees |
| `SupervisorSafety.StepKeeps` | scripts/control-ui-i18n.ts:963-1105 | every event keeps the timer, relay, settle, close and output invariants of every run |
| `SupervisorSafety.ExecutionKeeps` | scripts/control-ui-i18n.ts:895-1107 | those invariants hold in every state of every history of any number of runs |
| `SupervisorSafety.EveryReachableRun` | scripts/control-ui-i18n.ts:963-1069 | a pending parent signal was sent on to the group and is done or has its force-kill timer armed; a timed-out group was sent SIGTERM; a done group was reported dead or sent SIGKILL; a closed run without signal is settled or holds its close result with the kill timer armed; the registry holds exactly the unsettled or signalled runs; a run settled without signal leaves no timer, handler or registry entry; the promise settles at most once; no armed timer is orphaned |
| `SupervisorSafety.NoRunIsStuck` | scripts/control-ui-i18n.ts:1051-1069 | every run that is neither settled nor done is driven by an armed timer, or was sent SIGKILL and awaits its close |
| `SupervisorSafety.OutcomeIsExplained` | scripts/control-ui-i18n.ts:1022-1080 | every settled run has one outcome and its variables explain it: resolved only after a close without timeout, with code 0 or failures allowed; timed out only after a timeout and a dead or killed group; failed exit, too much output and child error only for those reasons; `SupervisorHistory` ties the variables and the code to events |
| `SupervisorSafety.ResolvedZeroReturnsAllOutput` | scripts/control-ui-i18n.ts:1022-1075 | a run that resolves with code 0 never timed out and returns the concatenation of all stdout chunks received |
| `SupervisorHistory.RunIsRecord` | scripts/control-ui-i18n.ts:963-1105 | in every state of every history the variables of a run are a record of its events: output, notes, signals sent, timeout, error, close and parent signal happened exactly if recorded, the kill timer is armed exactly between timeout and firing, and every reported exit code is one the child closed with |
| `SupervisorHistory.ReportedCodeIsReal` | scripts/control-ui-i18n.ts:1022-1049 | whatever exit code a run resolves or fails with, an earlier close event of its child had it, a missing one counting as 1 |
| `SupervisorHistory.CloseDecidesOutcome` | scripts/control-ui-i18n.ts:1022-1049 | a run without child error, timeout and parent signal that closes resolves if and only if the code is 0 and all stdout fits the limit, or the code is not 0 and failures are allowed; the code, the stdout tail, the stderr text with its truncation note, and the kind of rejection are given by the events and the start options |
| `SupervisorHistory.TimeoutIsReported` | scripts/control-ui-i18n.ts:1022-1028 | a settled run without a child error reports a timeout if and only if it timed out |
| `SupervisorHistory.ErrorIsReported` | scripts/control-ui-i18n.ts:1076-1080 | a child error settles a run that is not settled yet, as a child error, for ever |
| `SupervisorHistory.CloseSettlesExactly` | scripts/control-ui-i18n.ts:1051-1105 | without a parent signal a close settles the run if and only if the group is dead, there was no timeout or the kill timer has fired; otherwise the firing timer settles it |
| `SupervisorSafety.HistoryPersists` | scripts/control-ui-i18n.ts:1007-1021 | outcomes, received signals, finished relays, sent signals and departures from the registry are never taken back |
| `SupervisorSafety.ReraiseAccountsForEveryRun` | scripts/control-ui-i18n.ts:886-893 | whenever the parent re-raises, every run ever started is settled with nothing left behind, or relayed its signal to a group that is dead or was sent SIGKILL |
| `SupervisorSafety.ReraisedWasReceived` | scripts/control-ui-i18n.ts:886-893 | what is re-raised is one signal, the one received by the run whose relay has just completed |
| `SupervisorSafety.DoneOnlyByRelay` | scripts/control-ui-i18n.ts:963-990 | a run becomes done exactly in the steps that ask for a re-raise, and stays registered in them |
| `SupervisorSafety.CompletionReraises` | scripts/control-ui-i18n.ts:886-893 | a step that completes the registry re-raises if and only if its run had received a signal before or receives it in this step |
| `SupervisorSafety.StartNeverCompletes` | scripts/control-ui-i18n.ts:920-921 | starting a run never completes the registry |
| `SupervisorHistory.ReraisesExactly` | scripts/control-ui-i18n.ts:886-990 | a run is done exactly once a signal or a close finds its group dead or its force-kill timer fires, and such an event re-raises if and only if then every registered run is done |
| `SupervisorSafety.LastForceTimerReraises` | scripts/control-ui-i18n.ts:974-986 | the last unfinished signalled run has an armed timer whose firing re-raises its signal |
| `SupervisorLiveness.ReraiseStaysPossible` | scripts/control-ui-i18n.ts:963-1105 | in every reachable state some continuation without a new run re-raises if and only if some signalled run has not closed or has its force-kill timer armed, or some unsignalled run is not settled |
| `SupervisorLiveness.ReraiseIsInevitable` | scripts/control-ui-i18n.ts:963-1105 | when every registered run has received a signal and some relay is unfinished, every continuation without a new run that leaves no force-kill timer armed has re-raised |
| `SupervisorLiveness.StartingRevives` | scripts/control-ui-i18n.ts:920-921 | after a run is started some continuation re-raises again |
| `SupervisorSafety.StepFollows` | scripts/control-ui-i18n.ts:886-1105 | every step keeps the invariants, takes nothing back of any run, and re-raises only when every run is accounted for |
| `SupervisorLiveness.StrandedRegistry` | scripts/control-ui-i18n.ts:1086-1105 | a history after which the signal a run received is never re-raised by any continuation that starts no further run: a second run starts after the signal, the first closes while it runs, and then it closes normally |
| `ProcessRuns.ProcessSupervisor.constructor` | scripts/control-ui-i18n.ts:95 | the registry starts empty, and the invariants hold |
| `ProcessRuns.ProcessSupervisor.MaybeReraiseParentSignal` | scripts/control-ui-i18n.ts:886-893 | the loop re-raises exactly when all registered runs are signalled and done, and changes nothing else |
| `ProcessRuns.ProcessSupervisor.RunProcess` | scripts/control-ui-i18n.ts:909-995 | starting a run keeps the invariants, takes nothing back, re-raises only when all runs are accounted for, and is one step of the machine; the runs before it are untouched and the registry is not complete while it is new |
| `ProcessRuns.ProcessSupervisor.HandleStdout` | scripts/control-ui-i18n.ts:1070-1072 | a stdout chunk keeps the invariants, takes nothing back, re-raises only when all runs are accounted for, and is one step of the machine; the capture is the longest tail of all stdout so far, this chunk included |
| `ProcessRuns.ProcessSupervisor.HandleStderr` | scripts/control-ui-i18n.ts:1073-1075 | a stderr chunk keeps the invariants, takes nothing back, re-raises only when all runs are accounted for, and is one step of the machine; the capture is the longest tail of all stderr so far, notes on failed signals included |
| `ProcessRuns.ProcessSupervisor.HandleTimeout` | scripts/control-ui-i18n.ts:1051-1069 | the timeout keeps the invariants, takes nothing back, re-raises only when all runs are accounted for, and is one step of the machine; the group has been sent SIGTERM and a kill timer is armed, unless it is dead or killed already |
| `ProcessRuns.ProcessSupervisor.HandleKillTimer` | scripts/control-ui-i18n.ts:980-986 | a firing kill timer, of the relay or of the timeout (lines 1056-1063), keeps the invariants, takes nothing back, re-raises only when all runs are accounted for, and is one step of the machine; the group has been sent SIGKILL and the run has no timer left |
| `ProcessRuns.ProcessSupervisor.HandleError` | scripts/control-ui-i18n.ts:1076-1080 | a child error keeps the invariants, takes nothing back, re-raises only when all runs are accounted for, and is one step of the machine; the run is settled, once, as a child error if it was not settled before, and unless it relays a signal has no timer, handler or registry entry left |
| `ProcessRuns.ProcessSupervisor.HandleClose` | scripts/control-ui-i18n.ts:1086-1105 | a close keeps the invariants, takes nothing back, re-raises only when all runs are accounted for, and is one step of the machine; the run is settled, done, or has an armed timer; without a parent signal it is settled unless its group, being killed, is alive, and without a timeout it reports its exit code and output by the options |
| `ProcessRuns.ProcessSupervisor.HandleParentSignal` | scripts/control-ui-i18n.ts:963-987 | a parent signal keeps the invariants, takes nothing back, re-raises only when all runs are accounted for, and is one step of the machine; it has been sent on and the relay is done or its force-kill timer armed |
| `Placeholders.ExtractIsExact` | scripts/control-ui-i18n.ts:365-369 | the left-to-right scan finds exactly the non-empty words that occur in braces anywhere in the text |
| `Batching.BuildTranslationBatches` | scripts/control-ui-i18n.ts:1190-1214 | the batches concatenate to the items, each is non-empty, has at most 20 items and, unless single, is within the budget, and no other split into such batches has fewer |
| `Batching.FillBatches` | scripts/control-ui-i18n.ts:1190-1207 | the loop leaves every batch unable to take the next one's first item |
| `Batching.EstimateCountsTexts` | scripts/control-ui-i18n.ts:840-842 | the estimate is two characters, all keys and texts, and eight characters per item |
| `Batching.GreedyStaysAhead` | scripts/control-ui-i18n.ts:1190-1214 | any other split, even one with a backlog to cover first, needs at least as many batches as such a greedy split |
| `Batching.CountedSpare` | scripts/control-ui-i18n.ts:840-842 | the count the loop keeps is the estimate plus two characters per item |
| `Batching.FittingBatchHasSpare` | scripts/control-ui-i18n.ts:1190-1214 | a batch of several items leaves two characters per item over its estimate |
| `BatchTranslation.ParseTranslationBatchReply` | scripts/control-ui-i18n.ts:1322-1338 | the loop computes the specified reply: the first item without a non-blank text as an error, then a changed placeholder set as an error, otherwise the texts by key |
| `BatchTranslation.ReplyAcceptedExactly` | scripts/control-ui-i18n.ts:1322-1338 | a reply is accepted if and only if every item has a text that is not blank, with the placeholders of the last item of its key; then the result is the reply text by text, and otherwise a missing text is an error naming the first such item |
| `BatchTranslation.TranslateBatch` | scripts/control-ui-i18n.ts:1340-1400 | the retry loop, with its recursion on timeouts, is the specified outcome: result and number of prompts |
| `BatchTranslation.PromptsAreBounded` | scripts/control-ui-i18n.ts:1340-1400 | against any client a batch of n items costs at most 4n - 2 prompts |
| `BatchTranslation.BoundIsReached` | scripts/control-ui-i18n.ts:1340-1400 | for every batch of non-blank texts some client makes it cost exactly 4n - 2 prompts and succeed |
| `BatchTranslation.SuccessIsFaithful` | scripts/control-ui-i18n.ts:371-418 | if it returns, the keys are exactly the input's, no text is blank and each has its source's placeholder set, however often it was split |
| `BatchTranslation.SuccessIsAnswered` | scripts/control-ui-i18n.ts:1340-1400 | if it returns, every text is what the client answered for its key to one of the prompts made, however often it was split |
| `BatchTranslation.AcceptableReplySucceeds` | scripts/control-ui-i18n.ts:1340-1400 | an acceptable first reply, or second one after a failure that is no timeout, is the result, at one or two prompts |
| `BatchTranslation.FailureIsReal` | scripts/control-ui-i18n.ts:1340-1400 | a batch fails only with the error of its last prompt, made for some consecutive part: a timeout on a part of at most one item, or a second failure in a row that is no timeout |
| `BatchTranslation.TranslateNativeEntries` | scripts/control-ui-i18n.ts:1408-1442 | all batches together translate every entry faithfully, each text being an answer of the client for that key, with at most 4n - 2b prompts over b batches, b being the least possible |
| `ReleaseRefs.StepKeepsInv` | scripts/mobile-release-ref.ts:257-313 | every read, push and read-back, whatever is reported, keeps that a success or a refusal matches the remote |
| `ReleaseRefs.RefNeverChanges` | scripts/mobile-release-ref.ts:278-313 | under every interleaving a release ref never changes once set |
| `ReleaseRefs.AbsentRefIsAvailable` | scripts/mobile-release-ref.ts:257-276 | under every interleaving a readable preflight goes on to push if and only if its own ref is absent, whatever other refs exist |
| `ReleaseRefs.TruthfulPushSucceeds` | scripts/mobile-release-ref.ts:278-313 | a truthfully reported push followed by a readable read-back succeeds, whatever happens in between |
| `ReleaseRefs.FailureIsExplained` | scripts/mobile-release-ref.ts:257-313 | a recorder fails only by a read of its own that did not work, a ref that holds another commit, a push reported as failed, or a read-back that contradicts it |
| `ReleaseRefs.SuccessIsResolvedForever` | scripts/mobile-release-ref.ts:278-326 | what a successful recorder reported is what every later resolve returns |
| `ReleaseRefs.SuccessfulRecordersAgree` | scripts/mobile-release-ref.ts:278-313 | all recorders that ever succeed on a ref report the same commit |
| `ReleaseRefs.RefusalIsFinal` | scripts/mobile-release-ref.ts:257-276 | after a preflight refusal the ref holds another commit for ever, so no recorder that brings the refused commit ever succeeds on it |
| `ReleaseRefs.ReadBackCatchesFalseReports` | scripts/mobile-release-ref.ts:305-310 | a recorder fails its read-back only if its own push was falsely reported as successful; with truthful reports it never does |
| `ReleaseRefs.RecordingAgainHeals` | scripts/mobile-release-ref.ts:257-276 | once a ref is set, recording again succeeds exactly with the recorded commit |
| `ReleaseRefs.RecordMobileReleaseRef` | scripts/mobile-release-ref.ts:278-313 | an undisturbed recording takes the recorder's steps in order; an absent ref is created, and no other touched, if and only if both reads work and the push is applied and reported, with the exact failure otherwise; a ref that exists is left alone |
| `VersionCodes.ParseReadsShow` | scripts/mobile-release-ref.ts:160-166 | every well-formed version parses back |
| `VersionCodes.ParsedShows` | scripts/mobile-release-ref.ts:160-166 | only well-formed versions parse, and to themselves |
| `VersionCodes.RefIsMadeExactly` | scripts/mobile-release-ref.ts:199-213 | a ref is made if and only if the trimmed version is well formed, the trimmed number a positive integer and on Android a code of that version, and its name is spelled out |
| `VersionCodes.RefsAreInjective` | scripts/mobile-release-ref.ts:199-213 | two requests name the same ref only if platform, trimmed version and build or version code agree |
| `VersionCodes.CodesAreExactly` | scripts/mobile-release-ref.ts:176-197 | the valid codes of a version are exactly its year, month and patch padded to two digits, and a suffix from 01 to 99 |
| `VersionCodes.CodeDeterminesVersion` | scripts/mobile-release-ref.ts:176-197 | each valid Android version code belongs to exactly one version |
| `VersionCodes.CodeValue` | scripts/mobile-release-ref.ts:176-197 | with a patch up to 99 a code is year, month, patch and suffix in base 100 |
| `VersionCodes.OrderAgreesExactly` | scripts/mobile-release-ref.ts:176-197 | the numeric order of two codes is the lexicographic order of year, month, patch and suffix if and only if the padded patches are equally long or the code with the longer patch is not of an earlier month |
| `VersionCodes.CodeOrderIsReleaseOrder` | scripts/mobile-release-ref.ts:176-197 | in particular for patches up to 99 |
| `VersionCodes.CodeFitsInt32` | scripts/mobile-release-ref.ts:176-197 | a code is below 2^31 if and only if its patch is at most 99 |
| `VersionCodes.LongPatchBreaksOrder` | scripts/mobile-release-ref.ts:176-197 | patch 100 of one year gets a larger code than a release of the next year |
| `KotlinInterpolations.ReadKotlinInterpolations` | scripts/android-app-i18n.ts:117-167 | the scanner's loops return the specified spans, or nothing for unbalanced braces |
| `KotlinInterpolations.ReadBraced` | scripts/android-app-i18n.ts:138-164 | the inner loop is the scanner for braced expressions that the grammar theorems are about, with apostrophes as quotes |
| `KotlinInterpolations.WrittenInterpolationEnds` | scripts/android-app-i18n.ts:138-164 | an interpolation written by the grammar of characters, quoted literals with escapes and nested braces ends exactly at its own closing brace, wherever it stands |
| `KotlinInterpolations.ReadInterpolationIsWritten` | scripts/android-app-i18n.ts:138-164 | and every braced interpolation that is read is written by that grammar |
| `KotlinInterpolations.ReadsTemplates` | scripts/android-app-i18n.ts:117-167 | a text is balanced if and only if it is a template of text, lone dollar signs, names and braced expressions, and then exactly the spans of its names and expressions are read |
| `BracedExpressions.WrittenExpressionEnds` | scripts/android-app-i18n.ts:138-164 | either scanner passes over every expression written by its grammar and ends exactly at its closing brace |
| `BracedExpressions.ReadExpressionIsWritten` | scripts/native-app-i18n.ts:450-474 | and every text either scanner accepts is written by its grammar |
| `BracedExpressions.ScannersAgreeExactly` | scripts/native-app-i18n.ts:450-474 | on every interpolation the scanners of the two scripts find the same end if and only if its text is also written by the grammar without character literals |
| `BracedExpressions.CountingDecides` | scripts/native-app-i18n.ts:450-474 | when no character literal holds a double quote, that is so if and only if the braces inside the character literals, counted like the others, open and close again without closing the interpolation |
| `BracedExpressions.QuoteCharacterDisagrees` | scripts/native-app-i18n.ts:450-474 | on an interpolation that begins with a character literal of a double quote the scanners disagree unless another double quote follows |
| `KotlinInterpolations.ReadsInOrder` | scripts/android-app-i18n.ts:117-167 | the spans are non-empty, ordered and do not overlap |
| `KotlinInterpolations.NothingMissed` | scripts/android-app-i18n.ts:117-167 | every start of an interpolation lies inside a span |
| `KotlinInterpolations.FillWithTokens` | scripts/android-app-i18n.ts:117-167 | replacing every interpolation by its own text gives the template back |
| `AndroidResources.RenderAndroidResourceValue` | scripts/android-app-i18n.ts:169-221 | the counting, indexing and rendering loops compute the specified resource or its error |
| `AndroidResources.RenderSucceedsExactly` | scripts/android-app-i18n.ts:169-191 | for all texts rendering succeeds if and only if both are balanced and every interpolation occurs equally often in both, in any order, and the error says which failed |
| `AndroidResources.PermutedInterpolationsRender` | scripts/android-app-i18n.ts:192-212 | so it succeeds for every translation that permutes the interpolations of its source |
| `AndroidResources.RenderPreservesMeaning` | scripts/android-app-i18n.ts:169-221 | decoding the rendered resource and formatting it with the source's values shows the translation with every interpolation replaced by the value of the source interpolation it was matched with |
| `AndroidResources.RenderEvaluatesTranslation` | scripts/android-app-i18n.ts:169-221 | when values depend only on the interpolation's text, the app shows the translation with its own interpolations evaluated |
| `AndroidResources.ArgumentsAreBijective` | scripts/android-app-i18n.ts:192-212 | every source index is used exactly once, each for the same interpolation |
| `AndroidResources.FormatStringMeans` | scripts/android-app-i18n.ts:199-212 | a positional format string with doubled percent signs formats to the template with its arguments |
| `AndroidResources.CountsDecide` | scripts/android-app-i18n.ts:178-191 | comparing the counted maps decides equality of the interpolation multisets |
| `ResourceEscapes.ResourceRoundTrip` | scripts/android-app-i18n.ts:213-221 | undoing the entities and then the backslashes, each in one pass, inverts the escaping of every text |
| `ResourceEscapes.EscapedIsSafe` | scripts/android-app-i18n.ts:213-221 | an escaped text holds no bare angle bracket, newline, quote or ampersand |
| `KotlinLiterals.ChainIsEscape` | scripts/android-app-i18n.ts:223-229 | the chain of replacements escapes each character on its own |
| `KotlinLiterals.EscapedIsSafe` | scripts/android-app-i18n.ts:223-229 | an escaped text holds no newline and no quote or dollar sign without a backslash |
| `KotlinLiterals.TemplatesReadBack` | scripts/native-app-i18n.ts:439-561 | reading a list of literals written from escaped characters and interpolations, joined by ` + ` anywhere in a text, returns the concatenation of what they stand for, interpolations verbatim, their number and the end offset if and only if what follows neither continues the run nor makes a triple quote of an empty last literal |
| `KotlinLiterals.PrintedReadsBack` | scripts/android-app-i18n.ts:223-229 | in particular for strings printed with the escape of the Android script |
| `KotlinLiterals.OtherTextLeavesRun` | scripts/native-app-i18n.ts:535-561 | the end of the text, or a character that is no quote, plus or white space, meets that condition |
| `KotlinLiterals.QuotedReadsBack` | scripts/native-app-i18n.ts:439-503 | one written literal reads back, interpolations verbatim, unless it is empty and a quote follows |
| `KotlinLiterals.FindClosingBrace` | scripts/native-app-i18n.ts:450-474 | the inner loop is the scanner for braced expressions that the grammar theorems are about, with double quotes only |
| `KotlinLiterals.ReadKotlinStringLiteral` | scripts/native-app-i18n.ts:439-503 | the reader's loop returns the specified literal and end |
| `KotlinLiteralGrammar.LiteralsAreReadExactly` | scripts/native-app-i18n.ts:439-503 | a plain literal is read, with this end and value, if and only if one in the grammar of characters, known and unknown escapes and interpolations stands there with them, and no triple quote |
| `KotlinLiterals.ReadNativeStringLiteral` | scripts/native-app-i18n.ts:505-533 | a triple-quoted literal is tried first, then a plain one |
| `KotlinLiteralGrammar.TripleQuotesAreReadExactly` | scripts/native-app-i18n.ts:505-533 | a triple quote opens a literal up to the next triple quote, whose normalised content it stands for, and none without one |
| `KotlinLiterals.ReadAdjacentStringLiterals` | scripts/native-app-i18n.ts:535-561 | the loop returns the specified run of literals, or nothing when it continues with anything else |
| `KotlinLiteralGrammar.SeparatorIsPlus` | scripts/native-app-i18n.ts:547-550 | a separator is a plus sign with all white space around it |
| `KotlinLiteralGrammar.RunsAreReadExactly` | scripts/native-app-i18n.ts:535-561 | a run is read, with this end, number and value, if and only if a chain of literals with them, joined by separators and followed by none, starts there |
| `NativeIds.AssignNativeI18nIds` | scripts/native-app-i18n.ts:1128-1158 | the loops compute the specified assignment, suffix search included |
| `NativeIds.TakenSuffixesFit` | scripts/native-app-i18n.ts:1151-1154 | the suffix search ends after at most as many steps as ids are taken |
| `NativeIds.IdsAreDistinct` | scripts/native-app-i18n.ts:1128-1158 | for any hash and any previous entries the assigned ids are pairwise distinct, not empty, and identities too |
| `NativeIds.EveryIdentityIsAssigned` | scripts/native-app-i18n.ts:1128-1158 | every identity of the input gets an entry |
| `NativeIds.AssignedIsCandidate` | scripts/native-app-i18n.ts:1128-1158 | every entry is one of the input |
| `NativeIds.EntryIsLastCandidate` | scripts/native-app-i18n.ts:1128-1158 | every entry carries the last candidate of its identity |
| `NativeIds.EntriesAreOrdered` | scripts/native-app-i18n.ts:1128-1158 | entries come by surface, path, line, kind and source |
| `NativeIds.AssignedIdExactly` | scripts/native-app-i18n.ts:1128-1158 | every entry gets the id its identity had last if no entry before it has that, else the hash id if no entry before it has that, else the hash id with the first suffix from 2 on that none has |
| `NativeIds.ReassigningIsStable` | scripts/native-app-i18n.ts:1128-1158 | re-assigning any list whose identities occur in a registry, with any lines, kinds, order and hash, gives each identity its registered id |
| `NativeIds.InventoriesAgree` | scripts/native-app-i18n.ts:1128-1158 | so an earlier output and a later one agree on every identity |
| `NativeIds.KnownIdentitiesKeepIds` | scripts/native-app-i18n.ts:1128-1158 | known identities keep their ids among new entries when no hash collides |
| `NativeIdStability.IdsAreKeptExactly` | scripts/native-app-i18n.ts:1128-1158 | for digests and surfaces without dots, every known identity keeps its id if and only if the known ids differ and before each of them that is the r-th stem of some base there are at most as many new identities with that base as stems below the r-th that are no known id |
| `NativeIdStability.DotFreeStemsApart` | scripts/native-app-i18n.ts:1149-1153 | with such digests and surfaces ids made from different bases never coincide |
| `NativeIds.CollisionTakesId` | scripts/native-app-i18n.ts:1128-1158 | for every hash: a new entry that sorts first and whose hash id a known identity holds takes it |
| `LocaleSync.ValidateNativeLocaleArtifact` | scripts/native-app-i18n.ts:1381-1465 | validation reports nothing exactly when the artifact is what the inventory demands |
| `LocaleSync.SuccessIsValid` | scripts/native-app-i18n.ts:1508-1586 | a successful sync yields an artifact that passes validation: the inventory in order, nothing blank |
| `LocaleSync.SyncedTexts` | scripts/native-app-i18n.ts:1508-1586 | a successful sync asks for exactly the entries without a reusable translation, or all under another glossary, and every text stored is the answer for the id if there is one, else the last stored translation of that id and source, else the source; it reports a change exactly if the file changes |
| `LocaleSync.SyncSucceedsExactly` | scripts/native-app-i18n.ts:1508-1586 | with a translator that answers every pending id with a non-blank text of the same structure, and a stored artifact whose translations have the structure of their sources, a sync succeeds if and only if the inventory ids are distinct |
| `LocaleSync.LaterSyncSucceedsExactly` | scripts/native-app-i18n.ts:1508-1586 | what a successful sync stores is such an artifact, so this holds for every later inventory and glossary |
| `LocaleSync.SecondSyncIsIdle` | scripts/native-app-i18n.ts:1508-1586 | syncing again calls no translator and leaves the file and the artifact as they are |
| `LocaleSync.UnchangedEntriesKeepTranslations` | scripts/native-app-i18n.ts:1508-1586 | after an inventory change under the same glossary every entry with unchanged id and source keeps its translation, given a translator that answers only for pending ids |
| `LocaleSync.GlossaryChangeRetranslatesAll` | scripts/native-app-i18n.ts:1540-1547 | a changed glossary makes every entry pending |
| `LocaleSync.GlossaryChangeTakesAnswers` | scripts/native-app-i18n.ts:1540-1560 | after a glossary change every entry the translator answers carries the new text, whatever was stored |
| `LocaleSync.TranslatorFailsExactly` | scripts/native-app-i18n.ts:1540-1550 | a sync reports a failed translator if and only if something is asked and that request fails |
| `LocaleTranslation.TranslatePending` | scripts/control-ui-i18n.ts:1408-1442 | the translator of the sync answers exactly the ids it was asked, each faithfully and with a text the client gave for that id, whatever the client does |
| `LocaleTranslation.BatchesAnswerOnlyPending` | scripts/native-app-i18n.ts:1541-1560 | so it answers only for pending ids |
| `LocaleTranslation.UnchangedEntriesKeepTheirs` | scripts/native-app-i18n.ts:1508-1586 | with it every entry with unchanged id and source keeps its translation over an inventory change |
| `TranslationChoice.SelectDeterministicTranslation` | scripts/android-app-i18n.ts:973-988 | the loop and sort compute the Android choice |
| `TranslationChoice.ChooseTranslation` | scripts/apple-app-i18n.ts:565-578 | the loop and sort compute the Apple choice |
| `TranslationChoice.ChoiceIsMostFrequent` | scripts/android-app-i18n.ts:973-988 | both selectors choose a most frequent translation other than the source, the least text among equals, and the source only if nothing else is offered |
| `TranslationChoice.SelectorsAgree` | scripts/apple-app-i18n.ts:565-578 | the two selectors agree on every non-empty list, and on the empty one only for the empty source |
| `TranslationChoice.ChoiceIgnoresOrder` | scripts/android-app-i18n.ts:973-988 | the choice depends only on the multiset of candidates |
| `TranslationChoice.SourceOnlyAsLastResort` | scripts/apple-app-i18n.ts:565-578 | the choice is a candidate, and is the source exactly when every candidate is |
| `IosCatalog.BuildIosCatalog` | scripts/apple-app-i18n.ts:580-666 | the nested loops compute the specified catalog and contradictions |
| `IosCatalog.CandidatesAreOffers` | scripts/apple-app-i18n.ts:598-616 | the candidates of a source in a locale are exactly the texts the last artifact of that locale gives for it under ids of the inventory, each as often as given |
| `IosCatalog.TranslatedUnitIsOffered` | scripts/apple-app-i18n.ts:621-653 | a unit that was not shipped and is marked translated has a text that an entry of the locale's artifact gives for the source under an id of the inventory, one of the most frequent |
| `IosCatalog.EnglishIsTheSource` | scripts/apple-app-i18n.ts:621-653 | an English unit that was not shipped is its source, marked translated |
| `IosCatalog.RebuildIsFixpoint` | scripts/apple-app-i18n.ts:580-666 | rebuilding from its own output returns the same catalog and contradictions |
| `IosCatalog.ShippedUnitsAreKept` | scripts/apple-app-i18n.ts:621-653 | every non-empty unit marked translated for a retained source is kept unchanged |
| `IosCatalog.CatalogCoversSources` | scripts/apple-app-i18n.ts:580-666 | the catalog holds exactly the inventory's sources, each with exactly the required locales |
| `IosCatalog.SourcesAreEntries` | scripts/apple-app-i18n.ts:580-591 | the sources of the catalog are exactly the spellings of its entries |
| `IosCatalog.NewMeansUntranslated` | scripts/apple-app-i18n.ts:621-653 | any other unit is marked new exactly when no candidate differs from the source |
| `IosCatalog.ContradictionsAreExact` | scripts/apple-app-i18n.ts:621-653 | a contradiction is reported exactly where two candidates differ, and lists exactly the candidates |
| `IosCatalog.ContradictionsAreOrdered` | scripts/apple-app-i18n.ts:655-666 | contradictions come by source and then by locale |
| `ImportGraph.CollectZodArtifactErrors` | scripts/openclaw-npm-postpublish-verify.ts:596-649 | the worklist terminates on every import graph and reports nothing exactly when every file reachable from the entry is present, a regular file within the size limit, parses and imports no `zod`; what it reports is one real problem |
| `ImportGraph.ScanSpecifiers` | scripts/openclaw-npm-postpublish-verify.ts:630-645 | the imports of one file yield a zod import exactly if there is one, else exactly the files they resolve to |
| `ImportGraph.ZodSpecifiers` | scripts/openclaw-npm-postpublish-verify.ts:630-635 | a zod import is `zod` itself or anything below it |
| `ImportGraph.Resolve` | scripts/openclaw-npm-postpublish-verify.ts:560-594 | a relative import resolves to the first candidate inside `dist` that exists, and to nothing exactly if there is none |
| `ImportGraph.ClosedHoldsReachable` | scripts/openclaw-npm-postpublish-verify.ts:596-649 | a set closed under imports that holds the entry holds everything reachable |
| `LocRatchet.RatchetHolds` | scripts/check-ts-max-loc.ts:297-317 | without requested paths, over every history of accepted changes with faithful diffs, neither the number of oversized production files nor their total excess ever increases |
| `LocRatchet.AcceptedExactly` | scripts/check-ts-max-loc.ts:207-317 | a change is accepted if and only if every production file it leaves in place, requested by its path or the one it was moved from, is within the limit or no longer than the base file it is compared with |
| `LocRatchet.LinesAreCounted` | scripts/check-ts-max-loc.ts:98-104 | lines are counted whether or not the last one ends with a newline |
| `LocRatchet.AcceptedNeverWorsens` | scripts/check-ts-max-loc.ts:263-317 | one accepted change, none of whose renames leads from a production path outside the requested paths to one inside, increases neither measure of those paths |
| `LocRatchet.ScopedRatchetHolds` | scripts/check-ts-max-loc.ts:207-217 | the same over every history of such changes |
| `LocRatchet.ScopesAreKeptExactly` | scripts/check-ts-max-loc.ts:263-317 | for every policy, requested paths and diff: all accepted changes with that diff keep both measures of those paths if and only if no rename leads from a production path outside them to one inside |
| `LocRatchet.TreeIsKeptExactly` | scripts/check-ts-max-loc.ts:263-317 | and all of them keep both measures of the whole tree if and only if every production file the diff leaves in place is covered by the requested paths |
| `LocRatchet.ScopesLetOthersWorsen` | scripts/check-ts-max-loc.ts:263-271 | every diff with a production file outside the requested paths has an accepted change that worsens a measure of the whole tree |
| `LocRatchet.MovingInWorsensScope` | scripts/check-ts-max-loc.ts:263-271 | every diff that renames a production file into the requested paths has an accepted change that worsens a measure of those paths |
| `LocRatchet.OriginsDiffer` | scripts/check-ts-max-loc.ts:263-292 | distinct oversized files come from distinct base files |
| `LocRatchet.AddUntracked` | scripts/check-ts-max-loc.ts:190-205 | untracked files become additions, or modifications where the diff deleted them |
| `LocRatchet.FixUpIsFaithful` | scripts/check-ts-max-loc.ts:190-205 | the fixed-up diff is faithful for the whole worktree |
| `LocRatchet.CollectChangedFiles` | scripts/check-ts-max-loc.ts:243-295 | exactly the checked files of the requested paths are measured, against the chosen base path, and sorted by path |
| `LocRatchet.FindViolations` | scripts/check-ts-max-loc.ts:297-317 | exactly the judged files are reported, with their reason, sorted by size and path |
| `LocRatchet.ReasonIsReal` | scripts/check-ts-max-loc.ts:297-313 | the reason of a violation says what is wrong with the file |
| `LocRatchet.ReportsAreOrdered` | scripts/check-ts-max-loc.ts:314-316 | for any total order of paths the sorted reports are in path order and worst first, and lose nothing |
| `LocRatchet.CheckRatchet` | scripts/check-ts-max-loc.ts:243-317 | the check passes exactly the changes the ratchet theorems are about |
| `NameStatus.ParseNameStatusZ` | scripts/check-ts-max-loc.ts:106-136 | the loop returns the specified entries or error |
| `NameStatus.ParseReadsReport` | scripts/check-ts-max-loc.ts:106-136 | reading the NUL-separated report of any list of changes, with any non-empty paths and any similarity scores, gives the list back with every path normalised, and the list itself if and only if every path is |
| `NameStatus.BrokenReportFails` | scripts/check-ts-max-loc.ts:106-136 | a report that breaks off inside an entry is an error naming that entry's status, whatever came before |
| `NameStatus.PathsAreNormalized` | scripts/check-ts-max-loc.ts:94-96 | backslashes become slashes, a leading `./` and a trailing slash go, and any other path stays |
| `RestartProbe.WaitForRestartProbe` | scripts/bench-gateway-restart.ts:680-765 | the probe stops at the first reason to and reports on exactly its attempts: transitions, first error kind, status, and downtime from the first non-200 to the first 200 after it |
| `RestartProbe.MissingTime` | scripts/bench-gateway-restart.ts:756-764 | `ms` is null exactly when no attempt was made or an outage never ended |
| `RestartProbe.DowntimeIsNotNegative` | scripts/bench-gateway-restart.ts:736-753 | with a clock that does not run backwards no downtime is negative |
| `RestartProbe.ChangesDropRepeats` | scripts/bench-gateway-restart.ts:716-732 | the reported changes are, in order, the attempts at exactly the positions whose state differs from the one before, the first included |
| `RestartProbe.TransitionsAreReported` | scripts/bench-gateway-restart.ts:716-732 | the transitions are, in order, time, status and error kind of exactly the attempts whose status or error kind differs from the one before |
| `RestartProbe.FirstErrorKindIsFirst` | scripts/bench-gateway-restart.ts:733-735 | the reported error kind is that of the first attempt that has one |
| `RestartProbe.ChangesAlternate` | scripts/bench-gateway-restart.ts:716-732 | neighbouring changes differ, and the last one has the state of the last attempt |

## Left out

- Spawning, signal delivery, timer durations, the file system, `fetch` and Git commands appear only as environment events or
  arbitrary answers; the Windows process tree kill is one of the answers.
- The wording of prompts, and the texts of error messages except where code branches on them (the prompt timeout).
- That the operating system ever closes a child, delivers a signal or fires a timer; `ReraiseStaysPossible` speaks of what
  can happen, and `ReraiseIsInevitable` of continuations in which every force-kill timer has fired or been cleared.
- SupervisorSafety.NoRunIsStuck: does not say that a child sent SIGKILL closes, because that is the operating system's part.
- ProcessRuns.ProcessSupervisor.RunProcess: the closure variables of all runs are records in one list, because the registry
  and the re-raise span them; aliasing between runs is thereby excluded, as the closures exclude it.
- ProcessRuns.ProcessSupervisor.HandleKillTimer: takes any armed timer, and does not model how long it was armed.
- BatchTranslation.TranslateNativeEntries: does not model resetting the client, delays or labels, because they change no result.
- BatchTranslation.ParseTranslationBatchReply: takes the reply's JSON fields; a reply that is no JSON is one of the client's errors.
- The answer of a push is the environment's, within what an empty lease allows: only an absent ref is created, and what is
  reported may be wrong.
- ImportGraph.Resolve: candidate paths and path normalisation are arbitrary functions of importer and specifier.
- Surrogate pairs: a character is one unit both of length and of order.
- LocaleSync: previous artifacts whose JSON has another shape than the validated one; the glossary's own checks.
- LocRatchet.AddUntracked: assumes, as Git guarantees, that a diff and the untracked list name every path once.
- LocRatchet.RatchetHolds: relies on diffs that name every changed file and whose renames have distinct existing sources.
- LocRatchet.CollectChangedFiles: the order of the locale is an arbitrary comparison of paths.
- RestartProbe.WaitForRestartProbe: the responses, the clock and both stop conditions are the given list of polls.
- KotlinLiterals.ReadNativeStringLiteral: the normalisation of multi-line text is an arbitrary function, and the Swift
  reader is not modelled, because its literals are not what the Kotlin printer prints.
- The general decoders `decodeXml` and `decodeKotlinLiteral`; the specifications use single-pass decoders.
- Scanning sources for interface literals by regular expressions, raw-copy scans and quality findings.
- Info.plist translations, macOS catalogs, resource file rendering and key naming.
- Registry signatures, Sigstore, token handling and the other post-publish checks.
- Argument parsing, report printing, benchmark statistics and the first-ready probe, which hold no protocol or algorithm.
