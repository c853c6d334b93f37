# Models of the release and localisation tooling

Dafny models of the algorithms and state machines in this repository's `scripts/` directory, and proofs of what
they promise.  Everything outside the models (processes, git, files, providers) appears as an arbitrary choice.

| file | what it models |
|---|---|
| `Supervisor.dfy`, `SupervisorSafety.dfy`, `SupervisorTheorems.dfy`, `SupervisorSettling.dfy`, `SupervisorPending.dfy`, `SupervisorReraise.dfy`, `SupervisorHistory.dfy`, `SupervisorOutcomes.dfy`, `SupervisorProcess.dfy` | concurrent `runProcess` calls that share parent signals: a transition system, its invariant, theorems over all executions, which settlements and re-raises are still to come, what a run has captured and is settled with, and the callbacks with updates in place |
| `BoundedOutput.dfy` | the bounded capture of a child's output |
| `TranslationBatches.dfy`, `RetryAndSplit.dfy`, `Placeholders.dfy` | batching, and retrying and splitting against an unreliable provider |
| `KotlinTemplates.dfy`, `AndroidPlaceholders.dfy`, `AndroidEscaping.dfy`, `AndroidDecoding.dfy`, `AndroidResources.dfy` | from Kotlin templates to Android format strings, escaping and decoding |
| `ReleaseRefs.dfy`, `ReleaseRefNames.dfy` | write-once release refs and their names |
| `TranslationChoice.dfy`, `Ordering.dfy`, `IosCatalog.dfy` | the choice between translations on both platforms, and the iOS catalog |
| `ImportWorklist.dfy` | reachability in an installed module graph |
| `LineSplitter.dfy`, `RestartProbe.dfy` | streamed lines, and the restart probe |
| `ArgumentScanner.dfy`, `Quotes.dfy` | the quote-aware scanners, and where a quoted section ends |
| `PolicyGlob.dfy`, `Dotted.dfy` | path patterns and the coverage report |
| `CatalogFlatten.dfy`, `CatalogLeaves.dfy`, `CatalogAnalysis.dfy` | flat catalogs and their comparison |
| `Text.dfy`, `Wrappers.dfy` | string operations and optional values |

`dafny verify dfyconfig.toml` checks the whole project.

## Where the code falls short of what one would expect

Each of these is stated as an exact condition, with the failing family or an example beside it.

- If the step that makes every active run signalled and done is the settling of a run started after the delivery, it
  re-raises nothing; until another start only the close of an active run with a dead group still does, and if all
  have closed the re-raise is lost for good: `SupervisorReraise.StepReraisesIff`, `CanStillReraiseIff`,
  `LateStartLosesTheRaise`.
- A signalled run whose group is dead when its child closes is never settled unless the child emits `error`, and
  neither is one that has no timeout and no grace timer armed any more: `SupervisorPending.CanSettleIff`.
- `appendBoundedProcessOutput` miscounts for limits below 1, because `slice(-0)` keeps everything.  `runProcess`
  never passes such a limit: `BoundedOutput.CaptureIsExactIff`.
- Escaping a text in which a backslash stands in front of an `n` and decoding it does not return the text, since
  the line-break replacement comes before the one for backslashes: `AndroidEscaping.DecodingBreaks`,
  `EscapeDecodeRoundTrip`, and for rendered translations `AndroidResources.RenderedResourceMeans`.
- Without candidates the Android chooser returns an empty string and the Apple chooser the source:
  `TranslationChoice.PlatformsAgree`.
- A monitored pattern with `**` can be excused by a classification that does not cover it:
  `PolicyGlob.TrustedIffNoDoubleStar`, `ExcuseHidesAPath`.
- Flattening forgets empty objects: `CatalogFlatten.FlattenAlikeIff`.

## Model

| member | source | states |
|---|---|---|
| `SupervisorTheorems.ReraiseOnlyWhenAllDone` | scripts/control-ui-i18n.ts:581-800 | In every execution of any number of concurrent runs, a step that signals the process does so once, with a signal that some active run was sent: the delivered one at a delivery, and at the close or the relay timer of a run the one that reached this run; after it every active run is signalled and done because its group was seen dead or was sent SIGKILL, and no run holds a signal handler. |
| `SupervisorTheorems.RaiseExactly` | scripts/control-ui-i18n.ts:581-588 | The step that completes the last active run re-raises if and only if it is the delivery itself or every active run had been signalled before it. |
| `SupervisorTheorems.NoReraiseLost` | scripts/control-ui-i18n.ts:658-800 | If no run starts after a delivery, then once every active run is done the process has signalled itself at least once since. |
| `SupervisorReraise.StepReraisesIff` | scripts/control-ui-i18n.ts:581-588 | A step re-raises if and only if every active run is signalled and done after it and either the step brought that about, as a delivery or with every active run signalled before, or all were done already and the step is the close of an active run whose group is dead. |
| `SupervisorReraise.ReraisedIff` | scripts/control-ui-i18n.ts:581-800 | Over any stretch of any execution, starts included, the process has signalled itself if and only if one of the steps was of that kind. |
| `SupervisorReraise.DoneThenReraisesIff` | scripts/control-ui-i18n.ts:781-800 | From a state in which every active run is signalled and done, for as long as no run starts, that stays so with the same active runs, and the process signals itself exactly when one of them closes with its group dead. |
| `SupervisorReraise.CanStillReraiseIff` | scripts/control-ui-i18n.ts:581-800 | From any state that satisfies the invariant some execution without further starts signals the process, if and only if not every active run is done or one of them has not closed yet. |
| `SupervisorReraise.LateStartLosesTheRaise` | scripts/control-ui-i18n.ts:781-800 | The condition on late starts is needed: a five-step execution with a run started after the delivery ends with every active run signalled and done and nothing re-raised, no continuation without another start ever re-raises, and the signalled run can only be settled by an error of its child. |
| `SupervisorTheorems.RelayTimerStaysArmed` | scripts/control-ui-i18n.ts:658-682 | A run that is signalled and not done has its relay kill timer armed, through timeouts, errors and closes. |
| `SupervisorTheorems.RelaysFinish` | scripts/control-ui-i18n.ts:675-681 | From any state in which all active runs are signalled, firing armed relay timers alone leads to all done and a re-raise. |
| `SupervisorTheorems.SettledOnceAndForAll` | scripts/control-ui-i18n.ts:702-716 | A promise is settled at most once, its outcome never changes, and after a timeout or a parent signal it is never fulfilled. |
| `SupervisorTheorems.FulfilledStdoutIsTheStream` | scripts/control-ui-i18n.ts:717-745 | A fulfilment with code 0 returns everything the child wrote to stdout; any other fulfilment returns the newest part that the limit allows, and only when failures are not rejected. |
| `SupervisorOutcomes.CloseDecides` | scripts/control-ui-i18n.ts:717-800 | In every execution, the close of an unsettled run that no signal reached settles it before its timeout: fulfilled with its exit code (1 after a fatal signal) if and only if that is 0 and all that its child wrote to stdout fits the limit, or it is not 0 and failures are not rejected; rejected with the exit code if and only if it is not 0 and failures are rejected; rejected for too much output if and only if it is 0 and that does not fit. The stdout returned is the newest part, the stderr the capture of what was written to it. After the timeout it is rejected as timed out, unless the grace timer is armed and the group alive: then the code is held. |
| `SupervisorHistory.RunsRecount` | scripts/control-ui-i18n.ts:590-780 | In every execution a run holds exactly what its child has written to stdout; to stderr, in between the reports of refused signals; and the signals that its timeout, its kill timers and the parent have sent. |
| `SupervisorHistory.StepTakes` | scripts/control-ui-i18n.ts:611-780 | What any event does to the two streams, the signals sent, the once-listeners and the timeout flag of any run: SIGTERM at the timeout, SIGKILL at a kill timer, the relayed signal at a delivery while the run listens, and nothing to the other runs. |
| `SupervisorHistory.CallbacksComeOnce` | scripts/control-ui-i18n.ts:746-800 | In every execution a run waits for a close and for an error of its child until each has come, and its timeout is armed until it fires or the run settles. |
| `SupervisorHistory.RunsKeepSettings` | scripts/control-ui-i18n.ts:590-610 | Every run goes back to one start and keeps the output limit, the rejection option and the pid it was started with. |
| `SupervisorSettling.NoSettlementLost` | scripts/control-ui-i18n.ts:746-800 | In every execution, a run that no signal reached, whose child has closed and whose promise is not settled, has kept the exit code and has an armed grace timer, and that timer's callback rejects the promise as timed out. |
| `SupervisorSettling.StepWaits` | scripts/control-ui-i18n.ts:746-800 | Every callback keeps this: an unsettled run that waits for a kill timer has it armed, unless its close has let go of it, and an unsignalled one with a closed child holds the exit code and waits. |
| `SupervisorPending.CanSettleIff` | scripts/control-ui-i18n.ts:658-800 | An unsettled run can still be settled without an error of its child if and only if no signal has reached it, or an exit code is held or can still be held by a close that finds the group alive, and the timeout or a grace timer is armed; with such an error, also if the listener for it is still there. |
| `SupervisorPending.SettledByWhat` | scripts/control-ui-i18n.ts:702-800 | Only three steps settle a run: an error of its child, which rejects it for that; its grace timer with an exit code held, which rejects it as timed out; or its close, if no signal has reached it. |
| `SupervisorPending.StuckForGood` | scripts/control-ui-i18n.ts:781-794 | A signalled, unsettled run without a held or still possible exit code, or without timeout and grace timer, stays that way along every path without an error of its child, later starts included. |
| `SupervisorTheorems.SignalledStaysSignalled` | scripts/control-ui-i18n.ts:658-685 | After a delivery without later starts, every active run stays signalled. |
| `SupervisorSafety.StepKeeps` | scripts/control-ui-i18n.ts:590-802 | Every callback keeps the invariant of all runs, undoes nothing an observer has seen, and re-raises at most once and only when all is done. |
| `SupervisorSafety.DeliverKeeps` | scripts/control-ui-i18n.ts:658-690 | One delivery, passed to all listening handlers in turn, keeps the invariant although earlier handlers change what later ones see. |
| `SupervisorSafety.CloseKeeps` | scripts/control-ui-i18n.ts:781-800 | The close handler keeps the invariant in each of its branches. |
| `SupervisorSafety.FireKillKeeps` | scripts/control-ui-i18n.ts:675-681 | Both kinds of kill timer keep the invariant. |
| `SupervisorProcess.Process.MaybeReraiseParentSignal` | scripts/control-ui-i18n.ts:581-588 | The early-returning loop over the shared set raises exactly when every active run is signalled and done. |
| `SupervisorProcess.Process.OnParentSignal` | scripts/control-ui-i18n.ts:658-690 | Delivering a signal to all handlers, written with updates in place, is the ParentSignal step. |
| `SupervisorProcess.Process.OnRelayedSignal` | scripts/control-ui-i18n.ts:658-685 | One relay handler, written with updates in place, is the Relay part of that step. |
| `SupervisorProcess.Process.OnTimeout` | scripts/control-ui-i18n.ts:746-764 | The timeout callback is the TimeoutFires step. |
| `SupervisorProcess.Process.OnKillTimer` | scripts/control-ui-i18n.ts:675-681 | Both kill-timer callbacks are the KillFires step. |
| `SupervisorProcess.Process.OnClose` | scripts/control-ui-i18n.ts:781-800 | The close callback is the ChildClose step. |
| `SupervisorProcess.Process.SettleWith` | scripts/control-ui-i18n.ts:702-716 | `settle` clears timers, leaves the set and removes handlers as the Settle function says, and does nothing the second time. |
| `SupervisorProcess.Process.Handle` | scripts/control-ui-i18n.ts:590-802 | Dispatching an event to its callback, whichever it is, takes the process exactly one step of the transition system. |
| `BoundedOutput.CaptureIsExactIff` | scripts/control-ui-i18n.ts:561-572 | For every way of cutting a stream into chunks the capture is its last min(total, max) characters and kept plus dropped equals the total; a limit guarantees this if and only if it is at least 1. |
| `BoundedOutput.AppendAllKeepsNewest` | scripts/control-ui-i18n.ts:561-572 | The same for a stream continued from any exact capture. |
| `BoundedOutput.ResolveOutputLimit` | scripts/control-ui-i18n.ts:553-559 | An option that is a positive number gives the limit, rounded down but at least 1; anything else gives the default of 1024 times 1024. |
| `TranslationBatches.BuildTranslationBatches` | scripts/control-ui-i18n.ts:885-909 | The greedy batches concatenate to the items, each fits the limits (1 to 20 items, within the running budget or a singleton), a batch of several items is below the budget by 2 per item, and no other admissible split has fewer batches. |
| `TranslationBatches.MaximalIsOptimal` | scripts/control-ui-i18n.ts:885-909 | Any split whose batches could not take one item more is a shortest one. |
| `TranslationBatches.GreedyStaysAhead` | scripts/control-ui-i18n.ts:885-909 | A greedy split that is ahead of another split of the same items needs no more batches for the rest. |
| `TranslationBatches.FittingBatchUndershoots` | scripts/control-ui-i18n.ts:535-537 | A fitting batch of several items has an estimate of at most the budget minus 2 per item. |
| `TranslationBatches.RunningCharsIsEstimate` | scripts/control-ui-i18n.ts:535-537 | The running count of the loop is the batch estimate plus 2 for every item. |
| `TranslationBatches.EstimateGrows` | scripts/control-ui-i18n.ts:535-537 | The estimate is 2 for no items, and every item adds 8 to the lengths of its key and its text. |
| `TranslationBatches.FitsIff` | scripts/control-ui-i18n.ts:885-909 | A batch fits exactly when it has 1 to 20 items and is a singleton or its estimate and 2 for every item are within the budget. |
| `RetryAndSplit.TranslateBatch` | scripts/control-ui-i18n.ts:1035-1095 | The loop over attempts with its recursion on both halves computes the recursive specification, prompt numbers included. |
| `RetryAndSplit.PromptsAreBounded` | scripts/control-ui-i18n.ts:1035-1095 | However the provider behaves, a batch of n items takes at most 4n - 2 prompts. |
| `RetryAndSplit.WorstCaseIsReached` | scripts/control-ui-i18n.ts:1035-1095 | A provider that fails once and then times out on every batch of several items makes it exactly 4n - 2, and the translation still succeeds. |
| `RetryAndSplit.BoundIsTight` | scripts/control-ui-i18n.ts:1035-1095 | Such a provider exists for every list of items with text, so the bound cannot be lowered. |
| `RetryAndSplit.SuccessIsComplete` | scripts/control-ui-i18n.ts:1017-1095 | Success returns exactly the items' keys, each with a non-blank value with the placeholders of its source, and every value was given by the provider for that key. |
| `RetryAndSplit.FailureIsFinal` | scripts/control-ui-i18n.ts:1035-1095 | Failure carries the error of the last prompt, made for a stretch of the items for which nothing was left to try. |
| `RetryAndSplit.OneItemIsPromptedAtMostTwice` | scripts/control-ui-i18n.ts:1044-1095 | At most one item is prompted for once if the first reply is accepted or the prompt times out, exactly twice otherwise, and the last of these replies is the result. |
| `RetryAndSplit.PromptsFollowRules` | scripts/control-ui-i18n.ts:1044-1095 | Of any two prompts in a row: behind a timeout of several items comes their first half; a single item that times out is not prompted for again, nor is anything else; behind another failure the same items come once more unless they had just failed before; and a failure that nothing may follow is the result. |
| `RetryAndSplit.AnswersCoverItems` | scripts/control-ui-i18n.ts:1044-1095 | The prompts that succeed are for consecutive stretches from the first item on; on success they cover all items, and the result is what they brought. |
| `RetryAndSplit.AttemptDecides` | scripts/control-ui-i18n.ts:1017-1050 | A prompt succeeds exactly with a reply that holds a complete translation, and an error of the provider is passed on. |
| `Placeholders.PlaceholdersAre` | scripts/control-ui-i18n.ts:321-325 | The placeholders of a text are exactly the non-empty words of letters, digits and underscores that stand in braces somewhere in it. |
| `RetryAndSplit.ParseReplyDecides` | scripts/control-ui-i18n.ts:1017-1033 | A reply is accepted if and only if it contains a complete translation, which is then the result. |
| `RetryAndSplit.ParseTranslationBatchReply` | scripts/control-ui-i18n.ts:1017-1033 | The loop over the items returns what the specification says, naming the first item without a usable value. |
| `KotlinTemplates.ReadKotlinInterpolations` | scripts/android-app-i18n.ts:124-174 | The index loop with its brace depth, quote and escape flags computes the recursive reading. |
| `KotlinTemplates.ReadFindsAll` | scripts/android-app-i18n.ts:124-174 | The reader returns a list if and only if it is the list of all interpolations of the text, left to right, each ending at its name's end or its own closing brace, with nothing that opens one in between. |
| `KotlinTemplates.ReadsAt` | scripts/android-app-i18n.ts:124-174 | Each listed interpolation is the text between its offsets, starts at a dollar sign that opens one, and does not overlap the one before. |
| `KotlinTemplates.ClosingBraceIsFirst` | scripts/android-app-i18n.ts:144-171 | The search for the end of an interpolation finds the first position at which the unquoted brace depth reaches zero, and nothing if and only if it never does. |
| `KotlinTemplates.ClosingBraceIsBehind` | scripts/android-app-i18n.ts:144-171 | That position is the one found by skipping whole quoted sections, each up to its first unescaped quote, and counting the other braces. |
| `KotlinTemplates.OpensIff` | scripts/android-app-i18n.ts:126-133 | An interpolation is opened by a dollar sign in front of a brace or of a word character that is no digit. |
| `KotlinTemplates.NamesAreWords` | scripts/android-app-i18n.ts:135-142 | The name of one goes on up to the first character that is no word character. |
| `AndroidPlaceholders.CompilingPreservesMeaning` | scripts/android-app-i18n.ts:176-219 | For every valuation of tokens, formatting the compiled string with the source tokens' values in source order gives the translation with each interpolation replaced by its value; a text without interpolations is kept as it is. |
| `AndroidPlaceholders.ArgumentsAreABijection` | scripts/android-app-i18n.ts:199-217 | When the token counts agree, the occurrence map is a bijection between the uses in the translation and the positions in the source, and each use gets an argument with its own token. |
| `AndroidPlaceholders.ArgumentExists` | scripts/android-app-i18n.ts:214-215 | So the fallback to the raw token is never taken. |
| `AndroidPlaceholders.CompileRejectsExactly` | scripts/android-app-i18n.ts:178-198 | Compilation fails if and only if a text has an unclosed interpolation or the token counts differ, with the matching error. |
| `AndroidPlaceholders.DirectiveFormats` | scripts/android-app-i18n.ts:215-215 | A positional directive formats to its argument, whatever the number of digits. |
| `AndroidPlaceholders.DoubledTextFormats` | scripts/android-app-i18n.ts:211-218 | Literal text with doubled percent signs formats to itself. |
| `AndroidEscaping.EscapeDecodeRoundTrip` | scripts/android-app-i18n.ts:99-116 | Decoding the quoted escaped text returns the original if and only if no backslash in it is directly followed by the letter n. |
| `AndroidEscaping.DecodingBreaks` | scripts/android-app-i18n.ts:99-116 | For every text, decoding the quoted escaped text gives the text with each n directly behind a backslash turned into a line break, and nothing else changed. |
| `AndroidEscaping.EscapingIsCharacterwise` | scripts/android-app-i18n.ts:220-227 | The seven replacements in sequence escape each character on its own, so none disturbs another. |
| `AndroidEscaping.StageDecodes` | scripts/android-app-i18n.ts:99-109 | Each of the eight decoding replacements undoes exactly its own code wherever it stands, also behind an escaped backslash; only the one for line breaks also takes an n behind a backslash. |
| `AndroidDecoding.EntitiesDecode` | scripts/android-app-i18n.ts:99-103 | Text without backslashes that is written with entities for angle brackets, quotes and ampersands is decoded to itself. |
| `AndroidDecoding.DecodeUnquotes` | scripts/android-app-i18n.ts:111-116 | Between two quotes, whatever blanks are around them, the quoted text is decoded. |
| `AndroidDecoding.DecodeUnquoted` | scripts/android-app-i18n.ts:111-116 | A value that does not both begin and end with a quote is decoded as it is, without the blanks around it. |
| `AndroidDecoding.DecodeNothing` | scripts/android-app-i18n.ts:111-116 | Nothing, and a single quote, are decoded to nothing. |
| `Text.ReplaceAllCuts` | scripts/android-app-i18n.ts:99-109 | A replacement cuts the text at the places of its pattern, taken from the left and without overlap, and joins the pieces by the new text. |
| `AndroidResources.RenderAndroidResourceValue` | scripts/android-app-i18n.ts:176-228 | The loops over token counts, index lists and occurrences compute the specified rendering or the specified error. |
| `AndroidResources.RenderedResourceMeans` | scripts/android-app-i18n.ts:176-228 | For every valuation, decoding and formatting a rendered value gives the translation's meaning if and only if no backslash of the translation stands directly in front of an n outside its interpolations; exactly then the decoded value is the compiled text. |
| `AndroidResources.BrokenCompiledWhole` | scripts/android-app-i18n.ts:176-228 | Whatever the escaping breaks in a compiled text is what it breaks in the translation's text outside the interpolations: breaking and compiling commute. |
| `AndroidResources.CompileUses` | scripts/android-app-i18n.ts:207-218 | The cursor loop over the translated interpolations produces the compiled string. |
| `AndroidResources.SourceIndices` | scripts/android-app-i18n.ts:200-205 | The map lists the positions of every source token, counted from 1. |
| `AndroidResources.TokenCounts` | scripts/android-app-i18n.ts:187-193 | The map counts every token, and holds no other. |
| `TranslationChoice.AppleChoiceIsBest` | scripts/apple-app-i18n.ts:566-579 | The choice on Apple is the one candidate that beats all others: not the source if avoidable, then most frequent, then smallest. |
| `TranslationChoice.AndroidChoiceIsBest` | scripts/android-app-i18n.ts:985-1000 | The choice on Android is the best candidate by the same rule. |
| `TranslationChoice.PlatformsAgree` | scripts/android-app-i18n.ts:985-1000 | Both choosers give the same result if and only if there is a candidate or the source is empty. |
| `TranslationChoice.ChoiceIgnoresOrder` | scripts/apple-app-i18n.ts:566-579 | Both choices depend only on the multiset of candidates. |
| `Ordering.LessIffParts` | scripts/apple-app-i18n.ts:442-444 | One string is less than another exactly when, behind a common beginning, it ends first or has the smaller character. |
| `TranslationChoice.ChooseTranslationOnApple` | scripts/apple-app-i18n.ts:566-579 | Counting into an insertion-ordered map and sorting computes the specified choice. |
| `TranslationChoice.SelectTranslationOnAndroid` | scripts/android-app-i18n.ts:985-1000 | The same for the filtering chooser. |
| `IosCatalog.BuildIosCatalog` | scripts/apple-app-i18n.ts:581-667 | The nested loops over sources, locales and artifacts compute the specified catalog and contradictions. |
| `IosCatalog.BuildIsAFixpoint` | scripts/apple-app-i18n.ts:581-667 | Building from its own output with the same sources and translations gives the same catalog and contradictions. |
| `IosCatalog.UnitsAreRight` | scripts/apple-app-i18n.ts:622-654 | A non-empty translated value of a live key and required locale is never replaced; otherwise English gets the source and every other locale the translation that the locale's last artifact has at the most places for this source and the id of a native entry with it, ties going to one that is not the source and then to the smallest; it is marked new exactly when it equals the source. |
| `IosCatalog.KeysAreTheSources` | scripts/apple-app-i18n.ts:586-592 | The output keys are exactly the catalog values of the eligible sources, each with exactly the required locales. |
| `IosCatalog.ContradictionsAreComplete` | scripts/apple-app-i18n.ts:627-630 | A contradiction is reported exactly for a live source and required locale with two different candidates and lists all of them, strictly increasing; so is the report by source and locale. |
| `IosCatalog.OffersAreCounted` | scripts/apple-app-i18n.ts:603-615 | A translation is offered exactly as often as there are positions in the artifact with this source, this translation and the id of a native entry with the source. |
| `IosCatalog.CandidatesArePolled` | scripts/apple-app-i18n.ts:600-618 | How often a translation is a candidate for a locale is how often the last artifact of the locale offers it. |
| `IosCatalog.CollectCandidates` | scripts/apple-app-i18n.ts:600-618 | The map by locale and source holds these candidates, the last artifact of a locale winning. |
| `ReleaseRefs.RefIsWriteOnce` | scripts/mobile-release-ref.ts:257-313 | In every interleaving of any number of recorders a ref changes at most once, from absent to one sha. |
| `ReleaseRefs.SuccessLasts` | scripts/mobile-release-ref.ts:278-313 | A recorder that reports success has a sha that the ref holds from then on. |
| `ReleaseRefs.SuccessesAgree` | scripts/mobile-release-ref.ts:278-313 | Two recorders of one ref with different shas never both succeed, at whatever times. |
| `ReleaseRefs.EveryRefIsAccountedFor` | scripts/mobile-release-ref.ts:287-293 | Every ref was there at the start or holds the sha of a recorder that meant to write it. |
| `ReleaseRefs.RetryDecides` | scripts/mobile-release-ref.ts:257-303 | Once a recorder's push has landed, even if that recorder was told it failed, every later preflight that reaches the remote reports success for its sha and fails for any other. |
| `ReleaseRefs.LaterPreflightsDecide` | scripts/mobile-release-ref.ts:225-276 | Reading a ref that existed at any earlier moment settles a preflight at once: success if and only if its sha is the one the ref held then. |
| `ReleaseRefs.AbsentMeansNeverWritten` | scripts/mobile-release-ref.ts:264-268 | A recorder goes on to push only for a ref that was absent at every earlier moment. |
| `ReleaseRefs.AcknowledgedPushSucceeds` | scripts/mobile-release-ref.ts:287-312 | A recorder whose push landed on an absent ref and was acknowledged reports "created" at any later read-back that reaches the remote, whatever others do in between, and from then on. |
| `ReleaseRefs.NewcomerCanFinish` | scripts/mobile-release-ref.ts:257-313 | Every history can be continued by a new recorder that runs to its end: it creates the ref if it is absent, and otherwise reports whether the ref holds its sha and changes nothing. |
| `ReleaseRefs.ReadBackDecides` | scripts/mobile-release-ref.ts:305-312 | In every execution a read-back makes the recorder report "created" if it reaches the remote and the ref holds its sha, and fail otherwise. |
| `ReleaseRefs.PushDecides` | scripts/mobile-release-ref.ts:287-303 | An unacknowledged push fails whether it landed or not, an acknowledged one leads to the read-back; the ref changes exactly if the push lands and the ref is absent. |
| `ReleaseRefs.PreflightDecides` | scripts/mobile-release-ref.ts:257-276 | A preflight goes on to push if and only if it reaches the remote and the ref is absent, reports "already recorded" if and only if the ref holds its sha, and fails otherwise. |
| `ReleaseRefs.ReportsHaveAStory` | scripts/mobile-release-ref.ts:257-313 | Every report has its history: "created" a preflight that found nothing, an acknowledged push and a read-back that found the sha, in this order; "already recorded" a preflight that found it; a failure a step without an answer, another sha, or a read-back without its own. |
| `ReleaseRefs.RecordersKeepOrders` | scripts/mobile-release-ref.ts:257-313 | Every recorder is about the ref and the sha it was started with. |
| `ReleaseRefs.StepKeeps` | scripts/mobile-release-ref.ts:257-313 | Every step only adds refs, keeps finished recorders, and leaves each reported success true. |
| `ReleaseRefs.Remote.PreflightMobileReleaseRef` | scripts/mobile-release-ref.ts:257-276 | The preflight, on the shared remote, is the Preflight step. |
| `ReleaseRefs.Remote.PushWithLease` | scripts/mobile-release-ref.ts:287-303 | The push with an empty lease is a compare-and-set from absent, and fails or not independently of whether it landed. |
| `ReleaseRefs.Remote.ConfirmRecorded` | scripts/mobile-release-ref.ts:305-312 | Reading back decides whether the recorder reports that it created the ref. |
| `ReleaseRefNames.RefsAreDistinct` | scripts/mobile-release-ref.ts:199-213 | Two accepted requests share a ref only if platform, version and build number agree up to surrounding blanks. |
| `ReleaseRefNames.VersionCodeAccepted` | scripts/mobile-release-ref.ts:181-197 | The accepted Android version codes are exactly the padded version followed by 01 to 99. |
| `ReleaseRefNames.VersionCodeFixesVersion` | scripts/mobile-release-ref.ts:176-197 | No version code is accepted for two versions. |
| `ReleaseRefNames.ParseVersionInvertsText` | scripts/mobile-release-ref.ts:31-31 | The version pattern accepts exactly the texts of valid versions, each in one way. |
| `ReleaseRefNames.RefDecides` | scripts/mobile-release-ref.ts:160-213 | A request gets a ref if and only if its trimmed version is one and its trimmed build number or version code fits the platform, and the ref is made of these. |
| `ImportWorklist.CollectZodArtifactErrors` | scripts/openclaw-npm-postpublish-verify.ts:639-692 | The worklist terminates, also on cycles, and reports nothing if and only if every module reachable through resolved relative imports exists, is regular, parses and imports neither zod nor a path below it; an error names a defect of a reachable module. |
| `ImportWorklist.ClosedSetHoldsChain` | scripts/openclaw-npm-postpublish-verify.ts:643-651 | A set that holds the entry and the imports of its members holds everything reachable. |
| `ImportWorklist.ScanSpecifiers` | scripts/openclaw-npm-postpublish-verify.ts:673-688 | Scanning one module finds exactly its resolved imports, or a zod import it has. |
| `ImportWorklist.FirstUsableIsFirst` | scripts/openclaw-npm-postpublish-verify.ts:623-634 | Resolution takes the first candidate that exists below the dist root. |
| `ImportWorklist.ResolveDecides` | scripts/openclaw-npm-postpublish-verify.ts:608-634 | A specifier resolves to a file if and only if it begins with a dot and the file is the first candidate that is inside the dist root and exists; to nothing if and only if it does not begin with a dot or no candidate is there. |
| `ImportWorklist.ZodSpecifiers` | scripts/openclaw-npm-postpublish-verify.ts:674-674 | The forbidden specifiers are exactly the package name and the paths below it. |
| `LineSplitter.ChunkingDoesNotMatter` | scripts/bench-gateway-restart.ts:973-979 | However two streams are cut into chunks and interleaved, each has reported all but the last piece of splitting its whole text and carries the last one, also when a line break is cut in two. |
| `LineSplitter.PiecesIsTheSplit` | scripts/bench-gateway-restart.ts:974-974 | Splitting gives the only way to read a text as parts without line feeds, separated by breaks, with every carriage return before a line feed belonging to the break. |
| `LineSplitter.SplitGoesOn` | scripts/bench-gateway-restart.ts:973-979 | Splitting a longer text keeps the finished pieces and splits only the last one again. |
| `LineSplitter.FlushedLines` | scripts/bench-gateway-restart.ts:981-998 | The lines that a stream reported and the one its flush adds are the split of its whole text, without the empty piece that follows exactly when the text is empty or ends with a line feed. |
| `LineSplitter.OutputBuffers.OnChunk` | scripts/bench-gateway-restart.ts:973-979 | Handling a chunk updates one buffer in place, reports exactly the lines that chunk completes and leaves the other stream alone. |
| `LineSplitter.OutputBuffers.FlushOutputLineBuffers` | scripts/bench-gateway-restart.ts:981-998 | A flush does nothing unless asked to, and otherwise reports both non-empty carries in order and empties them. |
| `RestartProbe.WaitForRestartProbe` | scripts/bench-gateway-restart.ts:680-765 | The polling loop makes an attempt exactly while the deadline, the callbacks and recovery allow, reports what those attempts amount to, and adds one event per transition. |
| `RestartProbe.DowntimeIsTheOutage` | scripts/bench-gateway-restart.ts:733-764 | For every clock that does not run backwards, a downtime is reported exactly if some 200 follows an attempt without one; it is then the time from the first attempt without a 200 to the next 200, and not negative; a success time is reported exactly then or when no attempt failed. |
| `RestartProbe.ReportSays` | scripts/bench-gateway-restart.ts:686-764 | The report has the last status, the first error kind of any attempt, the first time without a 200, and on recovery the time of the last attempt. |
| `RestartProbe.PollsDecides` | scripts/bench-gateway-restart.ts:698-702 | An attempt is made exactly while it is before the deadline, the process runs, there was no recovery, and the caller is not done with every attempt so far a 200. |
| `RestartProbe.StopsAtFirstRecovery` | scripts/bench-gateway-restart.ts:742-753 | Recovery is the last attempt made: the first 200 after the first attempt without one. |
| `RestartProbe.TransitionsAreTheChanges` | scripts/bench-gateway-restart.ts:714-732 | The transitions are the attempts without adjacent repeats: one for each change of state, in order. |
| `RestartProbe.LastTransitionHolds` | scripts/bench-gateway-restart.ts:714-732 | The last transition is the state of the last attempt, dated to where that state began. |
| `RestartProbe.SameKey` | scripts/bench-gateway-restart.ts:713-713 | Two attempts have equal state keys exactly when status and error kind agree, where an error kind "ok" passes for none. |
| `ArgumentScanner.FindMatchingParen` | scripts/check-temp-path-guardrails.ts:74-97 | The result is the first unquoted position at which the depth reaches zero, and -1 if and only if it never does. |
| `ArgumentScanner.SplitTopLevelArguments` | scripts/check-temp-path-guardrails.ts:99-163 | The loop returns the trimmed pieces between top-level commas, without a blank last one. |
| `ArgumentScanner.ScannersAgree` | scripts/check-temp-path-guardrails.ts:74-163 | Up to the close that the finder returns, the splitter's parenthesis depth is one lower at every position, never meets its zero clamp, and ends at zero outside quotes. |
| `ArgumentScanner.RawCutsAtTopLevelCommas` | scripts/check-temp-path-guardrails.ts:152-156 | The pieces joined by commas are the text, and the cuts are exactly its top-level commas. |
| `ArgumentScanner.CallIsTakenApart` | scripts/check-temp-path-guardrails.ts:193-197 | In a call written from well-formed arguments the finder stops at the call's own close and the splitter finds those arguments. |
| `ArgumentScanner.ArgumentsOfCall` | scripts/check-temp-path-guardrails.ts:193-197 | The two scanners together return nothing if and only if the call never closes, otherwise the trimmed pieces between the top-level commas in front of its close, which are the arguments of every call written from well-formed ones. |
| `ArgumentScanner.ClosesAtIsBehind` | scripts/check-temp-path-guardrails.ts:74-97 | The close of a call is the one found by skipping whole quoted sections, each up to its first unescaped quote, and counting the other parentheses. |
| `ArgumentScanner.TopLevelIsTop` | scripts/check-temp-path-guardrails.ts:99-156 | So are the top-level commas: outside quoted sections and with no parenthesis, bracket or brace open. |
| `ArgumentScanner.ArgumentsAre` | scripts/check-temp-path-guardrails.ts:152-163 | Every piece is trimmed, and only a blank last one is left out. |
| `ArgumentScanner.QuoteScanState.BeginQuotedSection` | scripts/check-temp-path-guardrails.ts:48-54 | The shared state enters a quoted section exactly at a quote character. |
| `ArgumentScanner.QuoteScanState.ConsumeQuotedChar` | scripts/check-temp-path-guardrails.ts:56-72 | The shared state consumes a character exactly inside quotes, and leaves them at an unescaped matching quote. |
| `PolicyGlob.MatchIffReading` | scripts/check-policy-config-coverage.ts:209-232 | A pattern matches exactly when the value falls into one run per segment: any run for `**`, one segment for `*`, itself for anything else. |
| `PolicyGlob.PathMatchIffReading` | scripts/check-policy-config-coverage.ts:209-232 | So does a whole path, split at its dots. |
| `PolicyGlob.AdjacentDoubleStarsCollapse` | scripts/check-policy-config-coverage.ts:214-224 | Two adjacent `**` mean what one means, wherever they stand. |
| `PolicyGlob.MatchingAPatternIsCovering` | scripts/check-policy-config-coverage.ts:75-84 | A pattern without `**`, taken as a value, is matched by exactly those patterns that match everything it matches; values without wildcards are enough to tell. |
| `PolicyGlob.TrustedIffNoDoubleStar` | scripts/check-policy-config-coverage.ts:80-82 | Matching a pattern as a value implies covering it, for all covering patterns, if and only if it has no `**`. |
| `PolicyGlob.ReportedIffUncovered` | scripts/check-policy-config-coverage.ts:75-84 | A monitored pattern without `**` is reported exactly when it matches no leaf and no allowed classification covers it. |
| `PolicyGlob.ExcusedPathsAreClassified` | scripts/check-policy-config-coverage.ts:75-98 | A path that appears later under an excused pattern without `**` is classified. |
| `PolicyGlob.ExcuseHidesAPath` | scripts/check-policy-config-coverage.ts:80-82 | For every pattern with `**` there is a classification that excuses it and a path under it that nothing classifies. |
| `PolicyGlob.UnmatchedMonitoredIs` | scripts/check-policy-config-coverage.ts:75-84 | The report holds each monitored pattern as often as it is monitored if it matches no leaf and no allowed classification matches it, and otherwise not at all. |
| `PolicyGlob.ClassifyFindsFirst` | scripts/check-policy-config-coverage.ts:95-97 | A path is classified by the first item whose pattern matches it, if there is one. |
| `CatalogFlatten.FlattenControlUiCatalog` | scripts/control-ui-i18n-verify.ts:61-81 | The recursion over a shared map adds exactly the string leaves, in the order met, or names the first property that is neither string nor object. |
| `CatalogFlatten.FlatteningListsTheLeaves` | scripts/control-ui-i18n-verify.ts:61-81 | For trees with non-empty dot-free keys the flat map lists every string leaf once, in the order of the tree, under its joined keys. |
| `CatalogLeaves.PathsAre` | scripts/control-ui-i18n-verify.ts:70-79 | The leaves listed are exactly the strings of the tree, each with the keys that lead to it. |
| `CatalogLeaves.PathsInOrder` | scripts/control-ui-i18n-verify.ts:70-79 | They are listed in the order of the tree: where two paths part, the one with the earlier property comes first. |
| `CatalogLeaves.PutAllRemembers` | scripts/control-ui-i18n-verify.ts:73-73 | Keys that are set more than once, as dotted keys can be, keep their first place and take their last text. |
| `CatalogFlatten.FlattenAlikeIff` | scripts/control-ui-i18n-verify.ts:61-81 | For trees with such keys, flattening has the same outcome if and only if both are accepted and equal after removing empty objects, or both are rejected with the same key in the error. |
| `CatalogFlatten.FlattenIsInjective` | scripts/control-ui-i18n-verify.ts:61-81 | Trees of strings and objects without empty objects are accepted, and flattening is injective on them. |
| `CatalogFlatten.DifferentTreesCanFlattenAlike` | scripts/control-ui-i18n-verify.ts:70-77 | Both conditions are needed: two accepted trees that differ by an empty object, or by a dotted key for a nested one, have the same outcome. |
| `CatalogFlatten.NoProblemIff` | scripts/control-ui-i18n-verify.ts:67-78 | Flattening succeeds exactly on trees of strings and objects. |
| `CatalogLeaves.ProblemIsFirst` | scripts/control-ui-i18n-verify.ts:67-78 | The error names the first place in the tree that holds neither a string nor an object, by its joined keys. |
| `CatalogAnalysis.AnalyzeControlUiCatalogs` | scripts/control-ui-i18n-verify.ts:83-132 | The nested loops report the specified findings, and for each source key the locales without it. |
| `CatalogAnalysis.NoErrorsIff` | scripts/control-ui-i18n-verify.ts:92-122 | Nothing is reported if and only if every locale's keys are an in-order subsequence of the source's and every translated text has the source's placeholders. |
| `CatalogAnalysis.FindingsAreComplete` | scripts/control-ui-i18n-verify.ts:92-122 | The report holds exactly: for each locale with keys that English does not have, all of these in order; for each with two shared keys in another order than in English, that; and for each key with other placeholders, both sets. |
| `CatalogAnalysis.FallbacksAreTheLacking` | scripts/control-ui-i18n-verify.ts:107-113 | A locale is a fallback for a key exactly when it lacks that key. |
| `CatalogAnalysis.FallbacksAreInOrder` | scripts/control-ui-i18n-verify.ts:107-113 | The fallbacks of a key are the locales that lack it, in their order. |
| `CatalogAnalysis.KeyFindingsDecide` | scripts/control-ui-i18n-verify.ts:95-105 | No orphan and no order error means exactly that the locale's keys are a subsequence of the source's. |
| `CatalogAnalysis.CompareKeys` | scripts/control-ui-i18n-verify.ts:107-122 | The loop over the source keys reports the changed placeholders and collects the fallbacks of one locale. |

## Left out

- The Windows branches of `runProcess` (`taskkill`, two relayed signals) and the fallback to `child.kill`: only the POSIX process-group path is modelled.
- A signal that arrives while no run listens: the process then takes the default action, which is not a step here.
- `spawn` failures beyond a missing pid, and writing to the child's standard input.
- SupervisorTheorems.RelaysFinish: shows that armed timers suffice; that timers fire at all, and when, is the event loop's business.
- SupervisorTheorems.FulfilledStdoutIsTheStream: the returned stderr is the capture record; the `[output truncated ...]` line that `formatProcessOutput` puts in front of it is not modelled, nor are the texts of error messages anywhere.
- TranslationBatches.BuildTranslationBatches: the budget is a parameter; reading it from the environment is left out.
- RetryAndSplit.TranslateBatch: a reply is an arbitrary map of string properties or an error; JSON parsing, client resets, delays, the wording of prompts and progress output are left out.
- RetryAndSplit.ParseReplyDecides: which placeholder mismatch the error lists is not modelled, only that there is one.
- Placeholder names are compared as sets; the source sorts them first, with `localeCompare` in one place.
- AndroidEscaping.EscapeDecodeRoundTrip: is about one quoted value; reading `strings.xml`, resource keys and the generated Kotlin are left out.
- `findClosingDelimiter`, `expressionEnd` and `splitTopLevelSegments` in `android-app-i18n.ts`: bracket scanners of the kind that `ArgumentScanner` covers, used to find unlocalized literals.
- IosCatalog.BuildIosCatalog: `isIosCatalogEntry` and `appleCatalogValue` are parameters (the eligible entries and an arbitrary function), because they only apply regular expressions; fields of an existing unit other than state and value are not modelled.
- ReleaseRefs.Remote.PushWithLease: git is a compare-and-set that may fail; parsing `ls-remote` output, resolving commits and checking the checkout root are left out, and so are writers other than recorders.
- ReleaseRefNames.VersionCodeAccepted: the command line around it is left out.
- ImportWorklist.CollectZodArtifactErrors: the paths tried for a specifier and the test for being below the dist root are parameters, as are file kinds, sizes and the parser's specifiers.
- RestartProbe.WaitForRestartProbe: each turn's clock readings, callback answers and reply are given as a list that ends no later than the deadline; times are integers; the pause between attempts and `waitForProbeReady` are left out.
- LineSplitter.OutputBuffers.OnChunk: chunks are text; a UTF-8 sequence cut between chunks, timestamps and what is done with a line are left out.
- ArgumentScanner.ArgumentsOfCall: finding `path.join(` and `os.tmpdir()` by regular expression, and stripping comments, are left out.
- PolicyGlob.UnmatchedMonitoredIs: the final sorting with `localeCompare`, the counts and the printed report are left out.
- CatalogFlatten.FlattenControlUiCatalog: a tree is given as its entries in the order of `Object.entries`; the label in the error text is left out.
- CatalogAnalysis.AnalyzeControlUiCatalogs: the locales come in their sorted order, since `localeCompare` is not modelled; the fallbacks are a map without an order of keys.
- Strings are sequences of characters: UTF-16 surrogates, case folding and normalisation are not modelled, and comparison by code unit is comparison by character.
- Command lines, usage texts, file access, hashing, HTTP, npm and Sigstore calls, the UI-literal tables and the `lib/` helpers are not part of this model.
