# Verification model of the Palworld control panel

The control panel is a web process that puts jobs into a database and a worker that runs them. This
project models its most intricate parts in Dafny and proves what their documentation and tests
promise. `dafny verify dfyconfig.toml` checks everything.

## What is modelled

**The settings file.** `OptionSettings=(...)` is read by three hand-written scanners that share one
quote, escape and parenthesis automaton (`IniScanner`), after a line-based search for the section and
the option, modelled character by character (`IniLocator`) and shown to be the two patterns of the
source (`IniPatterns`). On top stand the editor that splices values into the original text
(`IniDocument`, `IniSplice`, `IniSingleLine`), the typed values and their JSON strings (`SettingValues`,
`JsonText`) with what they mean (`SettingMeaning`) and the JSON grammar they follow (`JsonGrammar`), and
its three users: saving a page (`SettingsSave`), redacting a backup (`SettingsRedaction`) and restoring
one (`SettingsMerge`). Other configuration files are handled line by line (`TextLines`, `LineIni`,
`LineIniRoundTrip`); `LineRedaction` says what of their secrets is shown and hidden.

**The job queue.** `JobTable` holds the rows, the maintenance lock and every transaction on them.
`JobExecutor` is what the worker does with a claimed job, one atomic step at a time, with every outcome
of the calls it makes. `JobProtocol` interleaves web requests, worker steps, failing transactions,
crashes and recovery, and proves one invariant; `JobGuarantees` draws the promises from it, for every
run, and `JobProgress` their converse: which runs end in success or cancellation, and what a recorded
failure means. `JobReview` bounds the flag that asks for a manual review. `JobEscapes` says which steps
leave a job running without the lock, and `JobWitnesses` holds concrete runs. Each transaction of the
source is one step.

**Readers and validators of outside data.** Steam's KeyValues text (`KeyValues`,
`KeyValuesRoundTrip`) with its grammar and its errors (`KeyValuesGrammar`), and the backup archive with
its manifest (`BackupArchive`) and an independent description of what is accepted (`ArchiveAcceptance`).

**Smaller protocols.** The login lockout (`LoginProtection`), replacing the world of a server
(`RestoreApply`), retention on disk and on the drive (`Retention`), notifications (`Notifications`) and
the polling of a start, stop, restart or forced shutdown (`Polling`).

Parameters stand for what is not modelled inside: the settings catalogue and the expression for secret
names (`Catalog`, `Names`), `casefold`, the digest of a file, JSON and SHA-256 of archives (`Library`),
and the answers of the server, the drive, the network and the clock.

## What the proofs found

- Redacting a settings file and merging it back is not always the identity. A value that spans a line
  break can hide a `[`; redacting it can make the rest of the line a section header, and the redacted
  file is then refused (`SettingsCounterexample.RedactedHeader`). A blank value surrounded by whitespace
  is written back with that whitespace doubled, although
  `docs/integrations/palworld-settings-ini.md:37` promises that spacing stays.
  `SettingsRedaction.RedactThenMerge` states exactly when the file comes back, and
  `SettingsRedaction.RedactThenMergeOneLine` the simpler condition for files whose list stands on one
  line, as in the sample at `app/palworld_settings/storage.py:18-27`.
- The same law for other files fails for a section header that contains an assignment to a secret name,
  and for a secret before a line boundary other than `\n` and `\r\n`, which is dropped;
  `LineIniRoundTrip.RedactThenMergeGeneric` shows that nothing else can go wrong.
- `SPECIFICATION.md:486` and `docs/development/testing.md:55` speak of one global maintenance lock for
  incompatible operations. The worker releases it in a `finally` also when a backup, restore or drive
  executor raises before it could write a final status; the job then still counts as running while the
  next one is claimed (`JobWitnesses.EscapeBreaksTheLock`). `JobEscapes.Escapes` names the three kinds
  of step that do this: an exception before the executor's own handlers, or in the transaction of its
  last write, that the worker swallows, and a failing transaction in the worker's handler. Without such
  a step at most one job runs and it owns the lock it needs (`JobEscapes.CleanQueue`); after one the
  lock is free while the job still runs (`JobEscapes.EscapeLosesTheLock`); `JobEscapes.LockKeptIff` puts
  both together, and `JobGuarantees.QueueSafety` says it for every run, with restarts.
- An update or an update check that has succeeded is marked failed if writing its log entry then raises
  a database error (`JobWitnesses.SuccessIsLost`). `JobGuarantees.LateFailureIff` says when this comes
  about, and `JobGuarantees.FinishedChangesIff` that it is the only way in which a finished job changes.
- An update whose cancel request was accepted while it was still comparing versions ends as succeeded
  when there is nothing to install; it has then done nothing (`JobWitnesses.CancelledSucceeds`). No other
  job with an accepted request goes on to succeed (`JobGuarantees.AckedSuccessIff`).
- The path check of archives accepts the path `.`, the only accepted path with a part that the check is
  meant to refuse (`BackupArchive.OnlyDotPasses`).
- KeyValues cannot tell a quoted brace from a brace; `KeyValuesRoundTrip.ParsePrintIff` gives the exact
  condition.
- A failed update can ask for a manual review although it has changed nothing: if the write of its
  failure itself fails while a backup is being published, the worker's last handler takes the row's
  `is_cancellable` for the point of no return (app/updates/jobs.py:701-715);
  `JobWitnesses.NeedlessReview` is a concrete run. Apart from that handler a failed update asks for a
  review only once its preventive backup is registered (`JobReview.ReviewHasReason`).

## Model

| member | source | states |
|---|---|---|
| `IniScanner.FindClosingParenthesis` | app/palworld_settings/ini.py:83-107 | finds the parenthesis that closes the one at the given index, quotes and escapes respected, or reports that there is none |
| `IniScanner.SplitEntries` | app/palworld_settings/ini.py:110-141 | cuts a text at exactly its top-level commas, and fails exactly when no such cut exists; the empty text has no entries |
| `IniScanner.TopLevelEqual` | app/palworld_settings/ini.py:167-188 | finds the first `=` outside quotes and parentheses |
| `IniScanner.ScannersAgree` | app/palworld_settings/ini.py:83-141 | a position closes the parenthesis exactly when the text before it is balanced as the splitter sees it: the two scanners are one automaton |
| `IniScanner.BalancedSplits` | app/palworld_settings/ini.py:110-141 | every balanced text can be cut, so neither error branch of the splitter is reachable after the first scanner succeeds |
| `IniScanner.IsSplitUnique` | app/palworld_settings/ini.py:110-141 | there is only one way to cut a text, so joining pieces and cutting again gives the same pieces |
| `IniLocator.SiteAnatomy` | app/palworld_settings/ini.py:8-15 | what the section and option patterns found: one settings section, one `OptionSettings=(` line in it |
| `IniLocator.SiteStable` | app/palworld_settings/ini.py:56-75 | a text that agrees with an accepted one up to the opening parenthesis, if it is located at all, is located at the same parenthesis |
| `IniPatterns.OptionIff` | app/palworld_settings/ini.py:13-15 | the option is found at a position exactly when the pattern matches there: at the start of a line, blanks, the name in these letters, blanks, `=`, blanks, `(` |
| `IniPatterns.HeaderIff` | app/palworld_settings/ini.py:8-11 | a line is taken for the settings section, or for any section, exactly when the pattern matches it |
| `IniPatterns.LocateIff` | app/palworld_settings/ini.py:56-71 | the search succeeds exactly when there is one settings section and in it one option, and finds these |
| `IniPatterns.ReadableIff` | app/palworld_settings/ini.py:56-80 | a file is read exactly when it is located and a parenthesis before the end of the section closes a text in which quotes and parentheses match |
| `IniDocument.Parse` | app/palworld_settings/ini.py:56-80 | reads a file into prefix, entries and suffix, with every error case |
| `IniDocument.EntryOf` | app/palworld_settings/ini.py:144-164 | a key, `=` and a value with padding read back as that key and value, with the exact value offsets, also when the value is blank |
| `IniDocument.EntryParts` | app/palworld_settings/ini.py:144-164 | conversely every entry with a key has that form |
| `IniDocument.SplitNeverFails` | app/palworld_settings/ini.py:73-80 | once the closing parenthesis is found, cutting the inner text cannot fail |
| `IniSplice.ValueIsSpliceable` | app/palworld_settings/ini.py:144-164 | any value the parser cuts out of a file is closed for the scanners, has no top-level comma and no outer whitespace |
| `IniSplice.SpliceEntry` | app/palworld_settings/ini.py:33-36 | replacing a value keeps the key and yields one entry with that value; the text is unchanged exactly when the value is, save for a blank value with whitespace |
| `IniSplice.Reparse` | app/palworld_settings/ini.py:45-80 | a rendered text reads back as exactly the rewritten pieces, or the line search refuses it; there is no third outcome |
| `IniSplice.SpliceReparse` | app/palworld_settings/ini.py:33-80 | after any splice: same prefix, suffix, order and count, new values where replaced, every other entry to the byte |
| `IniSplice.RenderIdentity` | app/palworld_settings/ini.py:45-53 | rendering an accepted file without replacements gives the file back |
| `IniSingleLine.OneLineAccepted` | app/palworld_settings/ini.py:56-80 | a file whose list stands on one line accepts every splice without line breaks |
| `JsonText.LoadsDumps` | app/palworld_settings/ini.py:229-246 | a string written as JSON (section 7 of RFC 8259) reads back as itself |
| `JsonText.DumpsIsPiece` | app/palworld_settings/ini.py:229-233 | a JSON string is closed for the scanners whatever it contains |
| `JsonGrammar.LoadsIff` | app/palworld_settings/ini.py:236-246 | a text that starts with a quote is read as a string exactly when it is one by the grammar of section 7 of RFC 8259, with whitespace after it: every escape, surrogate pairs included, and every refusal |
| `SettingValues.SerializeReadsBack` | app/palworld_settings/ini.py:191-246 | for every kind, what is serialised parses to what was submitted and can be spliced into any file |
| `SettingMeaning.StripIff` | app/palworld_settings/ini.py:192-192 | stripping gives exactly the text without the whitespace around it |
| `SettingMeaning.ParseIff` | app/palworld_settings/ini.py:191-226 | kind by kind, the parser answers a value exactly when the text means it: `True` or `False` in any letter case for that very word, the stripped text for a number, the text itself or what its quotes hold for an option and a string, nothing for the kinds that cannot be edited |
| `SettingsMerge.UniqueIniEntries` | app/restores/service.py:529-540 | fails exactly when two entries share a key, and otherwise is the dictionary by key |
| `SettingsMerge.ValidateKnownValues` | app/restores/service.py:543-553 | accepts exactly the entries whose known, editable values parse |
| `SettingsMerge.MergePalworldSettings` | app/restores/service.py:487-526 | is the merge `Merge`, whose properties follow |
| `SettingsMerge.CheckSecrets` | app/restores/service.py:509-519 | accepts exactly when every secret of the current file is unchanged in the result |
| `SettingsMerge.RecheckPasses` | app/restores/service.py:507-508 | the uniqueness and validity checks the merge repeats on its own result never fail |
| `SettingsMerge.SecretsKeptIff` | app/restores/service.py:509-519 | the check of the secrets fails exactly when backup and current file disagree on a known key with a secret-looking name |
| `SettingsMerge.MergeSucceedsIff` | app/restores/service.py:487-526 | when a merge succeeds, exactly |
| `SettingsMerge.MergeIsSplice` | app/restores/service.py:487-526 | a successful merge has the current file's keys in order, the backup's value for every known non-secret key of the backup, every other entry to the byte, and every secret at its current value |
| `SettingsMerge.MergeRestores` | app/restores/service.py:487-526 | in the catalogue's terms: after an accepted merge every key of the backup that is defined with a kind other than secret holds the backup's value, read-only kinds included, every other entry is the current one, and every secret has its current value |
| `SettingsMerge.MergeRefusedIff` | app/restores/service.py:487-526 | a merge is refused as unsafe exactly when a file is unreadable, repeats a key, holds a bad value, the current file lacks such a key of the backup, or the combined text is unreadable; and for a changed secret exactly when it changes one |
| `SettingsMerge.MergeOneLine` | app/restores/service.py:487-526 | on one-line files the merged text is always readable |
| `SettingsRedaction.RedactPalworldSettings` | app/backups/source.py:162-175 | is the redaction `Redact` |
| `SettingsRedaction.RedactReads` | app/backups/source.py:162-175 | a redacted file that is readable has an empty string for every secret and every other entry to the byte |
| `SettingsRedaction.RedactHides` | app/backups/source.py:162-175 | two files that differ only in the values of secrets have the same redaction |
| `SettingsRedaction.RedactThenMerge` | app/restores/service.py:487-526 | merging the redacted file into the file gives the file back exactly when a condition on the file holds that can be checked beforehand |
| `SettingsRedaction.RedactThenMergeOneLine` | app/restores/service.py:487-526 | the same exact condition for a file without line breaks in its list, read off the file alone |
| `SettingsCounterexample.RedactedHeader` | app/backups/source.py:162-175 | a concrete accepted file whose own redaction is refused, because a secret hid the start of a section header |
| `SettingsSave.Storage.Read` | app/palworld_settings/storage.py:92-95 | the content with its version, or an error above the size limit |
| `SettingsSave.Storage.Write` | app/palworld_settings/storage.py:128-149 | compare and swap: replaces the file and keeps a backup only if the file is still the expected one and both sizes fit |
| `SettingsSave.SettingsService.Inspect` | app/palworld_settings/service.py:221-315 | which known keys a page shows, with which values, which of them can be edited and in which order, the unknown keys, and how many entries are malformed |
| `SettingsSave.SettingsService.Decide` | app/palworld_settings/service.py:159-166 | the loop over the form: what is replaced, what is reported as changed, or that a value does not parse |
| `SettingsSave.SettingsService.Prepare` | app/palworld_settings/service.py:139-183 | the part of a save between reading and writing |
| `SettingsSave.SettingsService.SavePage` | app/palworld_settings/service.py:131-219 | the whole save on the stored file, with another program writing in between; it is `Save`, whose meaning is in the rows that follow |
| `SettingsSave.SaveReadsBack` | app/palworld_settings/service.py:150-191 | after a save that changed something every editable field shows the submission, the changed keys are exactly the fields that differ, and every other entry is the same to the byte; the file was the one the page was opened on |
| `SettingMeaning.PageShows` | app/palworld_settings/service.py:221-315 | a page shows a value for a key exactly when the file holds the key once and its text means that value |
| `SettingMeaning.SavedFieldMeans` | app/palworld_settings/service.py:150-191 | after a save the file holds for every field of the form what the submitted text means, and a field counts as changed exactly when the file did not hold it before |
| `SettingsSave.ChangedInOrder` | app/palworld_settings/service.py:150-191 | the changed keys are reported in the order of the page, each as often as the page lists it; a page opened on another version of the file is a conflict |
| `SettingsSave.MalformedIs` | app/palworld_settings/service.py:221-265 | the malformed entries are exactly those without a key that hold more than whitespace |
| `SettingsSave.SaveWithoutChange` | app/palworld_settings/service.py:168-179 | a save that reports no change writes nothing, and the page already showed every submitted value |
| `SettingsSave.SaveAcceptedIff` | app/palworld_settings/service.py:139-187 | on one-line files a save succeeds exactly when version, fields, values and sizes are in order |
| `SettingMeaning.SaveRefusedIff` | app/palworld_settings/service.py:131-219 | on any file, when a save is refused and with which of the three errors, in terms of what the file holds and the submitted texts mean, and otherwise which text is written |
| `TextLines.SplitIsWell` | app/backups/source.py:180-180 | cutting a text into lines loses nothing, and every line ends at the first line boundary |
| `TextLines.SplitFlatten` | app/restores/service.py:582-582 | well-formed lines joined together are cut into the same lines |
| `LineIni.RedactGenericIni` | app/backups/source.py:178-187 | is the redaction `RedactGeneric` |
| `LineIni.BodyReads` | app/restores/service.py:598-603 | a line without its line break is the same header, or names the same secret with the same value |
| `LineIni.GenericSensitiveValues` | app/restores/service.py:590-612 | is the dictionary `SensitiveValues`, or its failure |
| `LineIni.MergeGenericIni` | app/restores/service.py:556-587 | is the merge `MergeGeneric`, with both errors |
| `LineIniRoundTrip.ValuesOf` | app/restores/service.py:590-612 | collecting the secrets succeeds exactly when they are distinct and none is blank, and then holds exactly them |
| `LineIniRoundTrip.MergedOf` | app/restores/service.py:563-581 | merging succeeds exactly when the secrets of the backup are distinct and known, and what each line becomes |
| `LineIniRoundTrip.MergeReadsBack` | app/restores/service.py:556-587 | an accepted merge keeps every line without a secret to the byte, and its secrets read back as the current values for exactly the secrets the backup names |
| `LineIniRoundTrip.RedactThenMergeGeneric` | app/backups/source.py:178-187 | a redacted file merged into the file gives the file back exactly when each line naming a secret ends in an ordinary line break and does not look like a section header |
| `LineRedaction.RedactionShows` | app/backups/source.py:178-187 | a redacted file with ordinary line breaks has the lines of the file: each that assigns a secret assigns the empty string to it, and every other is the same to the byte |
| `LineRedaction.RedactionHides` | app/backups/source.py:178-187 | files whose lines differ only in the values of secrets have the same redaction, whatever their line breaks |
| `LineRedaction.IdentityIs` | app/restores/service.py:563-570 | two secrets are told apart by the folded text of the last header before them and the folded name |
| `LineRedaction.SectionIsLastHeader` | app/restores/service.py:563-566 | the section of a line is the last header before it, stripped |
| `LineRedaction.MergeRefusedIff` | app/restores/service.py:556-612 | when the merge of a line-based file is refused, and with which of the two errors, exactly |
| `LineIniRoundTrip.SecretHeaderIsLost` | app/backups/source.py:178-187 | two concrete files that do not come back |
| `KeyValues.Tokenize` | app/updates/service.py:273-300 | is the tokenizer `Tokens`; terminates and stays in range on every input |
| `KeyValues.ReadQuotedText` | app/updates/service.py:289-299 | the inner loop over a quoted text with escapes |
| `KeyValues.ParseKeyValue` | app/updates/service.py:255-270 | is the recursive parser `ParseValue` |
| `KeyValues.ParseText` | app/updates/service.py:241-252 | is the whole parse, stray braces and a last key without value skipped |
| `KeyValuesRoundTrip.TokensOfPrint` | app/updates/service.py:273-300 | printed items are read as their tokens, whatever quote- and brace-free noise stands between them and however they are escaped |
| `KeyValuesRoundTrip.ParsePrint` | app/updates/service.py:241-300 | a printed document reads back as what it means, the last of equal keys winning |
| `KeyValuesRoundTrip.ParsePrintIff` | app/updates/service.py:241-300 | for documents with unique keys that is so exactly when no key is a brace and no value an opening brace |
| `KeyValuesGrammar.TokensIff` | app/updates/service.py:273-300 | a text has tokens exactly when it is quoted texts and braces with noise around them, and these are the tokens; otherwise a quote is never closed |
| `KeyValuesGrammar.ValueIff` | app/updates/service.py:255-270 | a value is read from exactly the tokens of a clean tree, and is what the tree means |
| `KeyValuesGrammar.RootIff` | app/updates/service.py:241-252 | a document is read exactly when its tokens are entries and stray braces, with at most one key left over, and gives what the entries mean, the last of equal keys winning |
| `KeyValuesGrammar.ErrorsMean` | app/updates/service.py:255-270 | an incomplete answer means that more tokens would have made the document readable, a malformed one that none would |
| `JobTable.CancelJob` | app/shutdown/jobs.py:212-261 | a cancel request is accepted exactly for an active, cancellable job of the three kinds that has none yet |
| `JobTable.NowJob` | app/shutdown/jobs.py:264-294 | a request to go ahead at once is accepted exactly for an active assisted shutdown that can still be cancelled and has neither request yet, and changes nothing else |
| `JobTable.MarkJob` | app/shutdown/jobs.py:327-348 | the point of no return is refused exactly when a cancel request has been accepted, and otherwise closes the job to cancellation |
| `JobTable.TickJob` | app/shutdown/jobs.py:313-325 | an accepted cancel request wins over everything else in the countdown, and only an assisted shutdown goes ahead at once |
| `JobTable.PickIsLeast` | app/jobs/service.py:49-60 | the row picked is the least eligible one by creation time and id |
| `JobTable.ClaimTakesLeast` | app/jobs/service.py:63-118 | a claim takes that row, with the lock if it needs it; the put-back branch is never taken |
| `JobTable.ClaimIsOldest` | app/jobs/service.py:49-118 | in the rows' own terms: a claim takes a waiting job of a supported kind, one that needs the lock only while it is free, and no such job is older, or as old with a lower id; nothing is claimed exactly when there is none |
| `JobTable.RecoverStopsAll` | app/jobs/service.py:125-169 | recovery interrupts every running job for review, touches no other, and leaves no lock |
| `JobTable.JobStore.EnqueueJob` | app/shutdown/jobs.py:95-209 | appends a row exactly when the guard of its kind and the unique active key allow it |
| `JobTable.EnqueueIff` | app/updates/jobs.py:104-192 | kind by kind, a request appends a waiting row exactly when the rows allow it: no active rival, no check beside a lifecycle job, an allowed countdown, a failed source for an escalation, a succeeded latest check for an update; and which rows can be cancelled |
| `JobTable.JobStore.FreeTerminalLock` | app/jobs/service.py:164-169 | drops a lock whose job has ended |
| `JobTable.JobStore.ClaimNext` | app/jobs/service.py:63-118 | is `Claim` |
| `JobTable.JobStore.ReleaseLock` | app/jobs/service.py:121-122 | drops the lock of one job |
| `JobTable.JobStore.RecoverInterrupted` | app/jobs/service.py:125-161 | is `Recover`, and returns exactly the jobs it interrupted |
| `JobTable.JobStore.RequestCancel` | app/updates/jobs.py:195-224 | is `CancelJob` on the row, and refused for an id without one |
| `JobTable.JobStore.RequestNow` | app/shutdown/jobs.py:264-294 | is `NowJob` on the row, and refused for an id without one |
| `JobTable.JobStore.MarkIrreversible` | app/shutdown/jobs.py:327-348 | is `MarkJob` on the row |
| `JobTable.JobStore.Checkpoint` | app/updates/jobs.py:509-520 | is `CheckpointJob` on the row |
| `JobTable.JobStore.Complete` | app/restores/jobs.py:431-490 | is `FinishJob` on the row |
| `JobExecutor.ExecuteKeeps` | app/lifecycle/worker.py:81-175 | every step of every executor keeps the row consistent with what the job has done, and does the next effect of its script only while no cancel request was accepted |
| `JobExecutor.CancelKeeps` | app/shutdown/jobs.py:212-261 | an accepted cancel request finds the job before its point of no return |
| `JobProtocol.NextKeeps` | app/lifecycle/worker.py:81-175 | every event, from the web, the worker, a crash or a recovery, keeps the invariant of the queue |
| `JobProtocol.AlwaysInv` | app/lifecycle/worker.py:81-175 | the invariant holds after every sequence of events |
| `JobEscapes.EscapesIff` | app/lifecycle/worker.py:81-175 | an executor's step reaches the release of the lock with the job still running exactly when it is one of three kinds of failing step |
| `JobEscapes.EscapedIff` | app/lifecycle/worker.py:145-174 | in every run, the jobs let go while running are exactly those with such a step since the last restart |
| `JobEscapes.CleanQueue` | app/lifecycle/worker.py:81-175 | in a run without such a step at most one job is running, and it owns the lock if it needs it |
| `JobEscapes.EscapeLosesTheLock` | app/lifecycle/worker.py:145-174 | after such a step and the release that follows it the job is still running and the lock is free |
| `JobEscapes.LockKeptIff` | app/lifecycle/worker.py:81-175 | after a run without such a step, running jobs keep their lock over the next event exactly when that event is not such a step of a job that needs the lock |
| `JobWitnesses.EscapeBreaksTheLock` | app/lifecycle/worker.py:145-174 | a concrete run in which a backup escapes and two jobs that need the lock are running |
| `JobWitnesses.SuccessIsLost` | app/updates/jobs.py:303-343 | a concrete run in which a check that has succeeded ends as failed |
| `JobWitnesses.CancelledSucceeds` | app/updates/jobs.py:368-373 | a concrete run in which an update with an accepted cancel request ends as succeeded, having done nothing |
| `JobGuarantees.QueueSafety` | app/jobs/service.py:63-169 | in every run: no two active jobs share a key, at most one running job has not been left behind by a failing step since the last restart, and a running job that needs the lock owns it exactly when it has not |
| `JobGuarantees.RecoveryIsClean` | app/jobs/service.py:125-161 | after a restart nothing is running, the lock is free, and no finished job was touched |
| `JobGuarantees.EscalationChain` | app/shutdown/jobs.py:140-209 | in every run each SIGKILL job points to a failed SIGTERM job and that to a failed stop |
| `JobGuarantees.SettledForGood` | app/jobs/service.py:20-26 | over any continuation of any run a finished job never becomes active again, and keeps its row but for one documented exception |
| `JobGuarantees.FinishedChangesIff` | app/updates/jobs.py:303-343 | the row of a finished job changes at an event exactly when the worker then writes the failure of that job |
| `JobGuarantees.LateFailureIff` | app/updates/jobs.py:303-343 | a job that has succeeded is about to be marked failed exactly after the step that cannot write its log |
| `JobGuarantees.AckedSuccessIff` | app/updates/jobs.py:368-373 | a job with an accepted cancel request goes on to succeed exactly when it is an update that has just found nothing to install |
| `JobGuarantees.CancelHonoured` | app/shutdown/service.py:96-120 | a job whose cancel request was accepted never stops the server, installs, or signals, a backup publishes nothing, and nothing happens afterwards |
| `JobGuarantees.CommitHonoured` | app/updates/jobs.py:245-267 | after `mark_irreversible` answered CONTINUE every cancel request in every continuation is refused |
| `JobGuarantees.SuccessIsComplete` | app/updates/jobs.py:345-469 | a job that succeeded did everything its kind does, or is an update that found nothing to install |
| `JobGuarantees.UpdateOrdered` | app/updates/jobs.py:345-493 | an update installs only after a registered preventive backup, its point of no return and a confirmed stop; past that point it never ends cancelled and asks for review if it fails |
| `JobGuarantees.RestoreOrdered` | app/restores/jobs.py:200-350 | a restore applies only after a registered preventive backup, a confirmed stop and the persisted `destructive_started`, which stays set at every crash point |
| `JobProgress.GoodRunSucceeds` | app/lifecycle/worker.py:81-175 | the converse of `SuccessIsComplete`: a claimed job that nobody cancels and whose steps go well succeeds with everything its kind does after exactly the steps its kind needs, whatever else is requested meanwhile |
| `JobProgress.CountdownIsExact` | app/shutdown/service.py:96-107 | a countdown that nobody cancels or cuts short ticks exactly sixty times a minute before the point of no return |
| `JobProgress.GoesAhead` | app/shutdown/service.py:96-107 | told to go ahead at once, an assisted shutdown leaves its countdown at the next tick |
| `JobProgress.CancelledRunEnds` | app/shutdown/service.py:96-120 | the converse of `CancelHonoured`: a job in execution whose cancel request was accepted ends as cancelled within four good steps |
| `JobProgress.FailureIsCaused` | app/shutdown/service.py:75-129 | a failure is entered only at a call that did not go well, and each reason exactly from its own call: `stop_failed` from the wait of an assisted shutdown, `signal_failed` from the wait after a signal, `communication_failed` from an announcement |
| `JobProgress.LogFollowsSuccess` | app/updates/jobs.py:303-343 | after its success is written, an update or a check goes on to write its log, and no other job does |
| `JobProgress.StopFailedMeans` | app/shutdown/jobs.py:140-209 | in every run a job with `stop_failed` is a failed assisted shutdown that was committed and whose stop was issued and never confirmed, so a SIGTERM after one never follows a confirmed stop; likewise for `signal_failed` |
| `JobReview.ReviewHasReason` | app/updates/jobs.py:480-493 | in every run a manual review is asked for only by an interrupted job, a failed update whose preventive backup is registered or that ended in the worker's last handler, or a restore that stopped the server; and only such a restore says that it began to write |
| `JobWitnesses.NeedlessReview` | app/updates/jobs.py:701-715 | a concrete run in which an update that has done nothing asks for a review |
| `LoginProtection.LoginLog.ConsecutiveFailures` | app/auth/login_protection.py:75-86 | counts the leading failures among the five newest rows |
| `LoginProtection.LoginLog.AttemptLogin` | app/auth/login_protection.py:95-207 | decides from the log and appends exactly one row |
| `LoginProtection.LogShowsCounter` | app/auth/login_protection.py:58-86 | the log refines a failure counter with one block, and the counter stays below five |
| `LoginProtection.AnswersAreTheCounters` | app/auth/login_protection.py:95-207 | every answer of every run is the counter's answer |
| `LoginProtection.Lockout` | app/auth/login_protection.py:117-148 | whoever is told to wait until a time is rejected with that time until then, right password or not |
| `LoginProtection.BlockHasCause` | app/auth/login_protection.py:176-190 | every block was set by a verified failure exactly fifteen minutes before its end |
| `LoginProtection.AnswerIff` | app/auth/login_protection.py:95-207 | a request is rejected, with a time, exactly while a block until then, set by an earlier wrong password of the same user, lasts; otherwise the password alone decides |
| `LoginProtection.FifthFailureBlocks` | app/auth/login_protection.py:150-190 | the fifth wrong password since the last success or block, and no other, blocks, for fifteen minutes |
| `LoginProtection.AtMostFiveGuesses` | app/auth/login_protection.py:21-22 | any half-open fifteen minutes without a success hold at most five verified failures of a user |
| `BackupArchive.PayloadManifestFiles` | app/backups/manifest.py:42-57 | lists the regular files of a payload with size and hash, or fails on links, special files, bad paths and an empty payload |
| `BackupArchive.ParseManifestValue` | app/backups/manifest.py:208-260 | accepts exactly the manifests `ParseManifest` describes |
| `BackupArchive.CheckMembers` | app/backups/manifest.py:157-179 | accepts exactly the member lists `MembersOk` describes |
| `BackupArchive.MatchFiles` | app/backups/manifest.py:190-200 | accepts exactly when the members are the manifest and the listed files with their sizes, within the limit |
| `BackupArchive.ValidateArchive` | app/backups/manifest.py:86-109 | is `Validate`, hashes included |
| `BackupArchive.AcceptedArchive` | app/backups/manifest.py:86-205 | an accepted archive has the manifest first, then each listed file once with its size and hash and nothing else, and its summary counts the members and their bytes |
| `ArchiveAcceptance.AcceptedIff` | app/backups/manifest.py:86-205 | an archive is accepted, with its manifest, exactly when it is good: the manifest first and small enough, regular files only, at distinct good paths, each listed in order with its size and hash, within the limits |
| `ArchiveAcceptance.GoodHeadIff` | app/backups/manifest.py:208-234 | what an accepted manifest says before its files: schema version one, an identifier of 32 hexadecimal digits, a UTC time, the format, kind and trigger |
| `ArchiveAcceptance.GoodPathIff` | app/backups/manifest.py:126-143 | a path is valid exactly when it is `.`, or names joined by slashes none of which is empty or made of one or two dots, without control characters, backslashes or a drive, within the limit |
| `ArchiveAcceptance.LessIff` | app/backups/manifest.py:255-260 | the order of the listed paths is the order of texts by their first difference |
| `ArchiveAcceptance.PayloadListed` | app/backups/manifest.py:42-57 | a payload is listed exactly when each entry can be, and then exactly its regular files are, each with its size and hash |
| `BackupArchive.OnlyDotPasses` | app/backups/manifest.py:126-143 | the path `.` is accepted, and no other path with a part that is empty or made of one or two dots |
| `BackupArchive.WrittenIsAccepted` | app/backups/service.py:236-257 | an archive written from a payload is accepted exactly when no payload file is the root `manifest.json` and the limits hold |
| `RestoreApply.Target.Apply` | app/restores/service.py:687-726 | performs the listed operations in order and stops where one fails |
| `RestoreApply.ApplyIsCrashSafe` | app/restores/service.py:703-716 | wherever it stops, a complete world is on disk, and the old one until the new one and all settings are in place |
| `RestoreApply.ApplyInstalls` | app/restores/service.py:703-716 | a normal end leaves the new world, the merged settings and neither temporary name |
| `Retention.LocalTable.ApplyRetention` | app/backups/jobs.py:329-363 | leaves exactly the survivors |
| `Retention.RetentionKeeps` | app/backups/jobs.py:347-363 | the survivors are all unmanaged and protected records and a newest-first prefix of the others, and how many they are |
| `Retention.RemoteTable.RemoveOldest` | app/backups/drive_jobs.py:419-442 | removes the oldest managed record and returns its size; nothing when there is none or the drive refuses |
| `Retention.RemoteTable.TrimToLimit` | app/backups/drive_jobs.py:402-403 | the first loop ends with exactly the surplus removed, oldest first, and fails exactly when the drive refuses a deletion that was due |
| `Retention.RemoteTable.PrepareCapacity` | app/backups/drive_jobs.py:399-413 | terminates having removed an oldest-first run of managed records, none of them needlessly; ready exactly with room, no quota exactly with none left to remove, failed exactly at a refused deletion, cancelled exactly at a cancelled turn |
| `Retention.CapacityKeeps` | app/backups/drive_jobs.py:628-641 | what is left is a newest-first prefix of the managed records below the limit and every unmanaged record |
| `Notifications.PickIsOldest` | app/notifications/service.py:109-123 | the event picked is the oldest claimable one |
| `Notifications.PickIsFirstDue` | app/notifications/service.py:109-123 | in the rows' own terms: it waits, has one of its three attempts left and is due, and no such event is older, or as old with a lower id |
| `Notifications.Outbox.ClaimNext` | app/notifications/service.py:126-148 | claims that event and counts the attempt |
| `Notifications.Outbox.FinishSuccess` | app/notifications/service.py:230-239 | marks a delivery, only of an event being sent |
| `Notifications.Outbox.FinishFailure` | app/notifications/service.py:241-259 | schedules a retry or gives up |
| `Notifications.Outbox.ReconcileSending` | app/notifications/service.py:151-181 | puts back or gives up every event a crash left in sending, and counts them |
| `Notifications.DeliveryIsBounded` | app/notifications/service.py:126-181 | over every run at most three attempts and no more sends than attempts for each event, failure only for cause, and at most three claims an event in all |
| `Notifications.EndedForGood` | app/notifications/service.py:126-259 | over every continuation of every run a sent or failed event keeps its row and is never sent again |
| `Notifications.OutcomeIsRecorded` | app/notifications/service.py:230-259 | the event in hand becomes sent when it was delivered, waits for its retry after a transient failure with attempts left, and fails otherwise; no other event changes |
| `Notifications.ClaimedIsSent` | app/notifications/service.py:208-228 | the event in hand is handed to the webhook once, and no other is |
| `Notifications.NeverStuck` | app/notifications/service.py:109-181 | a pending event whose time has come can be claimed, and one left in sending is claimable or failed after a reconciliation |
| `Notifications.RetryHasDelay` | app/notifications/service.py:22-23 | the index into the delays is always in range and a retry lies in the future |
| `Polling.Execute` | app/lifecycle/service.py:72-116 | asks the service manager once and fails exactly when it refuses; otherwise at most one look more than there are intervals in the timeout, success exactly when the last look shows the target (for a restart, with some look of this run not online), which no earlier look did, and gives up only after the timeout |
| `Polling.ExecuteSignal` | app/shutdown/service.py:148-166 | sends this signal once and fails exactly when it is refused; otherwise at most one look more than the timeout has seconds, success exactly when the last look shows the server stopped, which no earlier look did, and gives up only after the timeout |

## Left out

- HTTP routes, templates, sessions, cookies, players, metrics, diagnostics: plumbing and easy members.
- SQLAlchemy and SQLite: a table is a sequence or map, a transaction one atomic step.
- JobGuarantees.CancelHonoured: takes each transaction as atomic. The engine's default SQLite transactions (app/db/engine.py:28-35) begin at the first write, so a cancel request could still be accepted between the read and the write of a checkpoint (app/backups/jobs.py:252-261); of the modelled code only app/auth/login_protection.py begins its transaction before it reads.
- JobTable.JobStore.RequestCancel: the owner filter of the requests (app/shutdown/jobs.py:226-227) is not modelled, nor that of `RequestNow`.
- systemd, journald, SteamCMD, rclone, Discord and the Palworld REST interface: any outcome at each call.
- Two live workers after a takeover of the lease: one live worker, which may die at any point.
- Malformed job data: executors read what the enqueue functions wrote.
- JobTable.EnqueueIff: what a check found (an update is available, enough disk, the build numbers; app/updates/jobs.py:150-157) is not modelled; a check that succeeded counts as one that offers an update.
- The steps inside drive, update-check and host-power jobs, and the cancellation of drive jobs: such a job only ends in some way.
- The upload job that a finished automatic backup enqueues in the same transaction: it is enqueued as any other request.
- Number syntax and ranges of settings: `Definition.admits`, of which only the alphabet of numbers is used; `str.lower` of boolean values only on ASCII letters.
- JSON escapes of lone surrogates: a Dafny character cannot be one.
- Labels, categories and the texts of issues on the settings page.
- Symbolic links, permissions, encoding errors and partial writes of the settings file: storage fails only by version or size.
- SettingsRedaction.Redact: the definition table and the name expression are parameters, so the law is stated for every table.
- LineIni.MergeGeneric: the upper limit of the backup text is checked by the caller in app/restores/service.py:468-484, not here.
- Normalising user names: a login request carries the name under which attempts are tracked.
- LoginProtection.LogShowsCounter: states the refinement for a clock that does not run backwards; `Decide` itself is modelled for any clock.
- BackupArchive.HeadOk: a manifest whose `trigger` is a JSON array or object makes the source raise an uncaught `TypeError`; the model answers that the manifest is invalid.
- BackupArchive.WrittenIsAccepted: assumes that the JSON library reads back the manifest it wrote; compression and the tar format are not modelled.
- RestoreApply.Target.Apply: symbolic-link checks, modes and ownership of the copied files are not modelled, and replacing a settings file is one operation.
- Retention.RemoteTable.PrepareCapacity: asks for a limit of at least one, which the settings schema guarantees (app/manager_settings/service.py:69).
- Polling.Execute: the health checks and the port probe are one look; real numbers stand for the clock's floats.
- `parse_public_build`: looks up five keys in the parsed document.
- The orphan clean-up of drive transfers and preventive backups: the source does not promise it on every path.
