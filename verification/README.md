# Amber Protocol: a verified model of its governed execution and its generators

The project models the parts of Amber Protocol that decide something or rewrite something, and proves
what they promise. A file is a string or a map from names to contents, an object that changes is a
class, and each loop of the source is a loop proved against a function. One module per component:

- **Governed execution.** `ActionContracts` validates Action Types against the capability registry
  (`CommandCapabilities` is the shipped one). `ActionRuntime` builds an invocation from templates,
  `ArgumentSlots` says what texts the templates let a caller put where. `CliSeam` is the second, independent
  decision: the front of the CLI, argument parsing, classification, dispatch; `ParsedFlags` says which tokens
  are read as flags. `SpawnedLines` is the line of a spawned process with the caller's texts left open, and
  what the argument parser can make of it. `ActionServer` decides to spawn, to report a conflict or to ask for
  approval, and says when what it spawns is safe. `TwoSeams` connects the two decisions through the argument
  parser, and `TemplateChecks` computes its conditions from an Action Type. `FlagRows`, `ShippedFlags` and
  `ShippedActions` instantiate it with the shipped registry, flag table and Action Types, `CallerTexts` holds the
  calls where it fails. `InputSchema` is the schema published for an action.
- **Command lines.** `ShellQuoting` and `PowershellQuoting` print command lines and read them back the
  way the shells do (IEEE Std 1003.1, Shell Command Language, sections 2.2 and 2.3).
- **The changelog generator.** `GitLog` reads commits, `CommitEntries` prints the entry of one,
  `PullNumbers` follows the pull numbers of a subject into its entry, `CommitGroups` parses and groups them,
  `CommitPlaces` says of a written commit where it is listed, or that it is not. `Changelog` renders a release and places it in the file, `ChangelogReader` reads a release back,
  `ChangelogLaws`, `ReleasePieces` and `ChangelogReleases` say what re-running does and what stays untouched.
- **Files with a lifecycle.** `PreCommitHook`, `Breadcrumb`, `GateBackfill`, `FeatureList` with `CommaLists`.
  `CommitGuard` is the check the hook runs over the feature list, and what the hook's script makes of it.
- **Scanners, grammars, searches.** `UsageOptions` with `OptionTexts`, `TraceGrammar`, `CapabilityPin`, `Reachability`,
  `NewestSession`.
- `Text`, `Lists`, `StringSort`, `Wrappers` hold the JavaScript string and array operations used above.

## What was found

Several properties one would expect of the code hold only under a condition. Each is proved as an
equivalence with that condition, and has a failing input where it is not met:

- *Regenerating a release* (`ChangelogLaws.Absorption`): a second run leaves what it alone would leave
  if and only if the file already had the release, or the new section's last entry ends in a visible
  character. The insert branch keeps the section as rendered, the replace branch trims it. The commit
  `fix(parser): (F081)` prints an entry that ends in a blank (`CommitGroups.HandleNotAbsorbed`). The comment
  at scripts/changelog.js:299 promises idempotent re-runs without the condition; the model follows the code.
- *Keeping the other releases* (`ChangelogReleases.ReplaceExact`): regenerating a release changes its own
  block only if and only if the first occurrence of its heading text starts a line. Where that text is
  quoted inside a line, the section is written into the line and the rest of that block is lost
  (`ChangelogReleases.QuotedReplaced`).
- *Where a new release goes* (`ChangelogReleases.OthersKeptOnInsert`): in front of all releases, unless the
  file's very first line opens one; then behind that one.
- *Pull numbers survive* (`PullNumbers.SurvivalExact`): the comment at scripts/changelog.js:178-180 promises
  that they do everywhere. An entry shows the numbers of its scope and of its subject, with the citations cut
  out and the distinct ones listed at its end, if and only if no citation stands between a hash, with or
  without digits, and a digit. There the cut glues the two sides into a number the subject never had:
  `#1 (#2)3` is printed as `#13 (#2)` (`PullNumbers.GluedNumber`).
- *Citing pulls once* (`PullNumbers.CitedOnceExact`): an entry shows a citation once if and only if neither
  its scope nor its subject without citations shows it; an internal handle that carries the same number does
  (`CommitEntries.CitedTwice`).
- *Spawn safety* (`ActionServer.SpawnSafetyExact`): whatever the parameters, the CLI reads no write flag on the
  line of a spawned read, if and only if for no choice of omitted optional parameters the templates let a
  literal write flag or, where the command has write flags, a text of the caller stand where a flag may stand.
  That is decided on the templates alone, by reading their outline as the argument parser does
  (`SpawnedLines.MeetsStop`), and can be computed (`TemplateChecks.ChecksDecide`). The check at
  scripts/lib/mcp-action-contracts.js:339-345 looks at flags with a value or a source only. Accepted actions
  that are not safe: one pushes a write flag as a flag without a value (`CallerTexts.BareFlagAccepted`), one
  pushes it with a value given nowhere, which reaches the CLI as the text `undefined`
  (`CallerTexts.UnsetFlagAccepted`), one places parameters as positionals (`CallerTexts.PlacedFlagsRun`), one
  pushes parameters behind a flag that takes no value (`CallerTexts.ValuedFlagsRun`); calls of the last two
  are spawned as reads and run as approved writes.
- *The two seams* (`TwoSeams.SeamsAgree`): the CLI classifies everything the server spawns for an accepted
  action as a typed read of the same command under the same condition, and runs its handler without approval
  (`TwoSeams.HandledExact`) if and only if no help flag can be read there either. All shipped reads meet the
  first condition (`ShippedActions.ShippedReadsAgree`); those that place a parameter do not meet the second: a
  session named `--help` shows the usage (`CallerTexts.SessionShowsHelp`).
- *The configured target* (`TwoSeams.TargetKeptExact`): the command works on the target that the server
  appends, whatever the parameters, if and only if the templates never let the appended `--target` be taken
  for the value of a token in front of it. `session status` and `route test` do not meet the condition, the
  other shipped reads do (`ShippedActions.ShippedTargetExact`): the object query places its session id in
  front of `--json`, which is then what gets swallowed. A session named `--target` moves the command to a
  directory of that name (`CallerTexts.SessionMovesTarget`).
- *Positionals* (`TwoSeams.PositionalsBack`): placed texts arrive as positionals if and only if none of them is
  a flag; a route named like a boolean flag is lost (`CallerTexts.RouteNameLost`).
- *Effect parity* (`ActionContracts.ContractSoundAndComplete`): comparing sorted lists by their
  newline-joined text is sound exactly on lists that such a text determines;
  `CallerTexts.AcceptedOutOfParity` is an accepted action that declares one edit where its command makes two.
- *Undoing the commit guard* (`PreCommitHook.RunExact`): a run can be undone after every step if and only
  if no install loses track: one onto a missing hook beside an old backup, or a forced one over a hook
  that is not the one backed up. `PreCommitHook.StaleBackupReturns` is a run that does.
- *Removing the breadcrumb* (`Breadcrumb.RoundTripExact`): uninstall after install gives the file back
  unless the file was missing (an empty object is left) or held an empty list or an empty `hooks` object,
  which are removed with the entry. An action that a user added to the managed entry goes with it
  (`Breadcrumb.UninstallKeepsActions`).
- *Dry-run counts* (`GateBackfill.PlanExact`): they equal the real ones if and only if the gate ids
  without a file are valid and distinct, and are never too small.
- *PowerShell lines* (`PowershellQuoting.PowershellRoundTrip`): they read back if and only if no argument
  holds a typographic single quote (U+2018 to U+201B).
- *Traces* (`TraceGrammar.TracesRoundTrip`): one reads back unless it is unpinned and its identity ends in
  `@` and digits.

## Model

| member | source | states |
|---|---|---|
| Changelog.FormatReleaseSection | scripts/changelog.js:265-289 | the rendered section: heading, non-empty groups in fixed order, or the no-changes line |
| Changelog.SectionHasShape | scripts/changelog.js:265-289 | for newline-free entries a section opens with its heading, survives trimming, and never holds a newline followed by a release heading |
| Changelog.ChangelogFile.Update | scripts/changelog.js:291-329 | the file after replace, insert before the first release, or append, as one function of the old file |
| ChangelogReader.SectionRoundTrip | scripts/changelog.js:265-289 | a line reader gets back exactly the non-empty groups: titles, entries, both orders |
| ChangelogReader.SectionShows | scripts/changelog.js:265-289 | the first line holds version and date; the lists stand under Added, Fixed, Changed and Other, in this order, each only if it has entries |
| ChangelogReader.EmptySection | scripts/changelog.js:265-289 | the whole text of a release without entries |
| ChangelogLaws.LocateShape | scripts/changelog.js:298-325 | wherever a section goes, what precedes it cannot complete an earlier heading and what follows opens a release or is empty |
| ChangelogLaws.LocatePlaced | scripts/changelog.js:295-307 | a section just placed is found again at its place, with the same text before and after it |
| ChangelogLaws.SectionEndsClean | scripts/changelog.js:274-287 | a section ends in exactly one blank line if and only if its last entry ends visibly |
| ChangelogLaws.Absorption | scripts/changelog.js:291-329 | for every file and two runs for one version, the second absorbs the first if and only if the release was there or the last entry ends visibly |
| ChangelogLaws.AbsorptionCanFail | scripts/changelog.js:314-325 | a first release whose only entry ends in a space is changed by a second identical run |
| ChangelogReleases.OthersKeptOnReplace | scripts/changelog.js:298-311 | replacing a release whose heading starts a line, also the file's first, replaces its block by the trimmed section and changes no other, up to the newlines ending the block before it and the file |
| ChangelogReleases.ReplaceExact | scripts/changelog.js:295-311 | every regenerated section changes the release's own block only, if and only if the first occurrence of its heading text starts a line |
| ChangelogReleases.QuotedReplaced | scripts/changelog.js:295-311 | for a heading quoted inside a line: the section is written into the line, the rest of that block is lost, every other block is kept |
| ChangelogReleases.QuotedExample | scripts/changelog.js:295-311 | a one-line file for which regenerating breaks another block |
| ChangelogReleases.OthersKeptOnInsert | scripts/changelog.js:316-325 | a new release is inserted whole and every release is kept; it stands in front of all of them, or behind the one that opens the file's first line |
| ChangelogReleases.OthersKeptOnFirst | scripts/changelog.js:313-315 | a file with no heading after its first line keeps all it shows and gets the release as its last block |
| ChangelogReleases.OneBlankLine | scripts/changelog.js:303-323 | what stands before the section in every branch: nothing at the start of the file, the broken line after a quotation, otherwise text and exactly one blank line |
| GitLog.GetCommits | scripts/changelog.js:96-124 | the commits read from the output of git log |
| GitLog.ParseTokenList | scripts/changelog.js:105-122 | the token loop, with its inner loop over blank tokens |
| GitLog.ParseInvertsLog | scripts/changelog.js:96-124 | reading what git prints for any list of commits gives exactly those with a visible subject, in order, hashes cut to 7, texts trimmed; empty bodies shift nothing |
| CommitEntries.HashesConserved | scripts/changelog.js:166-172 | stripping citations removes exactly their hashes |
| CommitEntries.StripRefTidy | scripts/changelog.js:166-172 | what is left is trimmed, has no two white space characters side by side, and every other character outside the citations |
| CommitEntries.EntryPulls | scripts/changelog.js:158-211 | an entry shows what its cleaned subject still shows and then each distinct citation once, in order |
| CommitEntries.EachCitedOnce | scripts/changelog.js:158-211 | where hashes occur in citations only, the entry shows exactly the distinct citations, each once and in order |
| CommitEntries.CitedTwice | scripts/changelog.js:195-211 | subjects whose internal handle carries the number they also cite, which is shown twice |
| CommitEntries.HandleExact | scripts/changelog.js:181 | a text cites something internal if and only if one of the six names stands in it, in front of a digit and behind no word character and no hash |
| CommitEntries.TailCleaned | scripts/changelog.js:195-204 | a final parenthesis goes if and only if it cites something internal, except for its pull numbers |
| PullNumbers.HandleKeepsPulls | scripts/changelog.js:195-204 | dropping a parenthesis with an internal handle drops no pull number and changes no order |
| PullNumbers.BasePulls | scripts/changelog.js:166-211 | past the citations cut out, the cleaned entry shows the numbers of the scope and then those of the subject, in order |
| PullNumbers.StripExact | scripts/changelog.js:166-172 | for every text the numbers left and those cut out are its numbers, as often as they stood there, if and only if no citation glues a hash to a digit |
| PullNumbers.SurvivalExact | scripts/changelog.js:158-211 | the entry shows the numbers of scope and subject with citations replaced by the distinct ones of the text, as multisets, if and only if nothing is glued |
| PullNumbers.CitedOnceExact | scripts/changelog.js:158-211 | a citation is shown exactly once if and only if neither the scope nor the subject without its citations shows it; without glue, if and only if the subject shows it in citations only |
| PullNumbers.GluedNumber | scripts/changelog.js:166-172 | a family of subjects whose entry shows a number they never had |
| CommitGroups.SubjectRoundTrip | scripts/changelog.js:130-156 | type, scope, bang and message read back from every subject written with them; breaking is the bang or a footer, whatever the message says |
| CommitPlaces.MessageExact | scripts/changelog.js:143-154 | what stands behind the colon gives a message if and only if it is white space and then one line of at least one character; the message is that line, trimmed |
| CommitPlaces.FooterExact | scripts/changelog.js:130-134 | a body announces a breaking change if and only if one of its lines starts with one of the two footers |
| CommitPlaces.BookkeepingExact | scripts/changelog.js:213-230 | bookkeeping is exactly a chore, with or without a scope, whose message is a version or bumps the version to one |
| CommitPlaces.CutDropped | scripts/changelog.js:225-230 | such a commit is listed nowhere |
| CommitPlaces.ConventionalPlaced | scripts/changelog.js:213-256 | every other subject written from type, scope, bang and message gives one entry: under Changed with the mark if bang or footer says so, otherwise Added for feat, Fixed for fix, Changed for the seven listed types, Other for the rest |
| CommitPlaces.UnconventionalPlaced | scripts/changelog.js:143-258 | a subject that can be written in no such way is one entry under Other, with its text |
| CommitGroups.GroupCommits | scripts/changelog.js:205-258 | the four groups of a commit list: bookkeeping left out, each entry printed with its references |
| CommitGroups.EntryCites | scripts/changelog.js:136-228 | for every conventional commit with hashes in citations only, its entry shows the pulls its message cites, or else its body, each once and in order |
| CommitGroups.EntryFree | scripts/changelog.js:136-230 | the entry of a one-line subject is one line |
| CommitGroups.GroupedExact | scripts/changelog.js:225-256 | groups keep commit order, except that Changed is the breaking entries reversed, then the rest |
| CommitGroups.GroupsConserve | scripts/changelog.js:218-258 | every commit that is not bookkeeping contributes one entry to one group, and nothing else appears |
| CommitGroups.RegenerationAbsorbs | scripts/changelog.js:218-329 | the absorption law from two lists of commits with one-line subjects to the file |
| CommitGroups.HandleEntry | scripts/changelog.js:195-211 | the entry of a fix whose message is only an internal handle is its scope, a colon and a blank |
| CommitGroups.HandleNotAbsorbed | scripts/changelog.js:205-329 | for such a commit as a first release a second identical run changes the file |
| ShellQuoting.PosixRoundTrip | scripts/lib/mcp-action-runtime.js:79-97 | splitting the printed line as sh does gives back exactly the argument vector, empty strings, quotes and newlines included |
| ShellQuoting.BarePosix | scripts/lib/mcp-action-runtime.js:14-87 | a token is printed without quotes if and only if it is not empty and made of the listed characters |
| ShellQuoting.BarePowershell | scripts/lib/mcp-action-runtime.js:15-84 | the same for PowerShell and its characters |
| ShellQuoting.DquoteRoundTrip | scripts/lib/hooks-command.js:62-67 | escaped text between double quotes is one word meaning the original text |
| PowershellQuoting.PowershellRoundTrip | scripts/lib/mcp-action-runtime.js:79-84 | the PowerShell line reads back if and only if no argument holds a typographic single quote |
| StringSort.SortCanonical | scripts/lib/mcp-action-contracts.js:468-481 | two lists sort to the same list if and only if they are equal as multisets |
| StringSort.SameTextDecides | scripts/lib/mcp-action-contracts.js:468-481 | comparing sorted joined text decides multiset equality exactly on lists the text determines |
| ActionContracts.ComputeBindsWriteFlag | scripts/lib/mcp-action-contracts.js:334-347 | true if and only if some template carries a write flag with a value or a source |
| ActionContracts.ValidateActionContract | scripts/lib/mcp-action-contracts.js:386-511 | the findings of an action, in report order |
| ActionContracts.ValidateWhitelist | scripts/lib/mcp-action-contracts.js:515-521 | valid if and only if every action has no finding |
| ActionContracts.ContractSoundAndComplete | scripts/lib/mcp-action-contracts.js:386-511 | an action is in parity (approver, evidence, edits and side effects as multisets, mode, no visible write flag, for every variant) if and only if it passes and, if it maps anything, its effect lists are determined by their text |
| ActionContracts.AcceptedParityExact | scripts/lib/mcp-action-contracts.js:468-481 | an accepted action that maps something is in parity if and only if its effect lists are determined by their text |
| ActionContracts.OneEffect | scripts/lib/mcp-action-contracts.js:275-290 | all variants of an accepted action have one effect, the one its edits declare |
| ActionContracts.ReadOnlyIffDryRun | scripts/lib/mcp-action-contracts.js:353-369 | where reads are registered as direct, an accepted action is directly executable if and only if its mode is dry-run and it maps something or edits nothing |
| CommandCapabilities.ShippedRegistryKept | scripts/lib/mcp-action-contracts.js:34-267 | in the shipped registry reads are direct and edit nothing, writes edit something, effects are listed as non-empty single lines |
| CommandCapabilities.Registered | scripts/lib/mcp-action-contracts.js:34-267 | every entry of the table is found under its command and subcommand |
| FlagRows.ShippedContextAgrees | scripts/lib/context/action-registry.js:13-61 | a registered context command has the effect of the context action of its name, and no write flags |
| ShippedFlags.RowOrigin | scripts/lib/core/cli-output.js:12-389 | each of the 300 rows of the flag table is one of those the shipped reads use, or sets no key that a write flag or a help flag sets |
| ShippedFlags.ShippedTablesAgree | scripts/lib/core/cli-output.js:12-389 | what the seam theorems ask of registry, flag table and typed commands holds of the shipped registry and the whole shipped flag table |
| ActionRuntime.BuildCommand | scripts/lib/mcp-action-runtime.js:34-77 | the invocation, the unknown variant or the first missing parameter |
| ActionRuntime.ResolvedExact | scripts/lib/mcp-action-runtime.js:34-43 | a call resolves to the plain execution or to the first variant its selector names; it is refused if and only if the selector is missing, empty or names none |
| ActionRuntime.SourceExact | scripts/lib/mcp-action-runtime.js:51-52 | a source names the parameter behind `parameters.`, or the one it is spelled like |
| ActionRuntime.BindingOrigin | scripts/lib/mcp-action-runtime.js:62-74 | every flag on the line comes from a template that pushes it |
| ArgumentSlots.TameExact | scripts/lib/mcp-action-runtime.js:45-77 | whatever the parameters, none of some given texts is pushed as a flag or placed as a positional, if and only if no template of the variant pushes or can place one |
| ActionServer.Server.RunAction | scripts/lib/mcp-action-runtime.js:151-199 | the decision, and that on the line of every process ever spawned by write-free actions, with any target and with `undefined` for a missing text, the argument parser reads no write flag |
| ActionServer.Start | scripts/lib/mcp-action-contracts.js:513-521 | a server exists if and only if its whole whitelist is valid |
| ActionServer.UnspawnedExact | scripts/lib/mcp-action-runtime.js:115-199 | exactly when approval is requested, a conflict reported or corrupt state refused, by the parameters alone; a conflict lists the active sessions that the parameters do not name, each as often as it is active |
| ActionServer.OwnSessionExact | scripts/lib/mcp-action-runtime.js:115-137 | with a session id given, or else an id: approval if and only if every active session has that id, otherwise exactly the others conflict; a value that is no text makes every session one |
| ActionServer.OthersExact | scripts/lib/mcp-action-runtime.js:129-137 | the sessions in conflict are exactly the active ones of other callers |
| SpawnedLines.OutlineFills | scripts/lib/mcp-action-runtime.js:34-77 | the template loop with the caller's texts left open gives, once they are put in, exactly what the loop builds, holes included, or fails with it |
| SpawnedLines.UnreachableExact | scripts/lib/core/cli-output.js:395-425 | no call of a variant makes the argument parser read one of some flags, if and only if for no choice of omitted keys the outline lets one of them, or a text of the caller, stand as a flag |
| SpawnedLines.TargetExact | scripts/lib/mcp-action-runtime.js:161-165 | every call of a variant works on the appended target, if and only if for no choice of omitted keys, and of keys that hold a flag with a value, the outline swallows the target flag |
| ActionServer.SpawnSafetyExact | scripts/lib/mcp-action-runtime.js:45-77 | no parameters make the CLI read a write flag on the line of a process started for the action, if and only if it is not directly executable or no selectable variant lets a write flag, or a text of the caller, stand as a flag |
| ActionServer.StartedExact | scripts/lib/mcp-action-runtime.js:140-178 | a process is started for an accepted action, which is what the decision to spawn comes to, if and only if it declares dry-run, its variant is known and no parameter is missing |
| CliSeam.RunParseArgs | scripts/lib/core/cli-output.js:395-425 | the argument loop over the flag table |
| CliSeam.RegistryCheckTypes | scripts/lib/command-registry.js:2616-2650 | after the startup check every command with a registered capability is typed |
| CliSeam.Dispatcher.LoadTypedSeam | scripts/lib/cli-typed-seam.js:48-63 | the cached index is always that of a valid whitelist; a corrupt seam is never cached |
| CliSeam.IndexKeys | scripts/lib/cli-typed-seam.js:48-63 | the indexed keys are exactly those some action maps to |
| CliSeam.Dispatcher.Dispatch | scripts/lib/cli-typed-seam.js:91-188 | the disposition; in every run no handler is ever called for an invocation that asks for a mutation, by its registered effect, its context command or a write flag, without yes or confirm |
| CliSeam.IndexLast | scripts/lib/cli-typed-seam.js:48-63 | a key answers to the last action that maps it, and to none if no action does |
| CliSeam.ClassifiedExact | scripts/lib/cli-typed-seam.js:65-89 | a call is classified as a write or a read by the names and values on its line, under its own key, and as directly executable by its registration and the write flags given |
| CliSeam.WriteDecided | scripts/lib/cli-typed-seam.js:91-188 | a mutation is handled if and only if it is confirmed, the seam is intact and an action answers for it; unconfirmed it asks for the approval of that action, and unanswered it is refused |
| CliSeam.ReadDecided | scripts/lib/cli-typed-seam.js:91-188 | a read with an intact seam is handled without approval, as the action that answers for it, or refused if none does |
| CliSeam.OtherDecided | scripts/lib/cli-typed-seam.js:91-144 | every other call: untyped and incomplete ones are handled as such, the rest refused |
| CliSeam.Dispatcher.Run | scripts/amber.js:69-108 | the front of the CLI: shortcuts, unknown commands, help, and otherwise dispatch |
| ParsedFlags.BoundExact | scripts/lib/core/cli-output.js:395-425 | an argument key ends up bound if and only if it was or a token read as a flag sets it |
| ParsedFlags.PositionalsExact | scripts/lib/core/cli-output.js:395-425 | the positionals are the tokens that are neither flags nor their values |
| ParsedFlags.LastReadExact | scripts/lib/core/cli-output.js:395-425 | a key holds what the last flag on the line says, a flag that ends the line says nothing, and a key no flag names stays as it was |
| ParsedFlags.CollectedExact | scripts/lib/core/cli-output.js:412-421 | a collecting key holds the values of all its flags in order, behind those it held before |
| ParsedFlags.DefaultsStand | scripts/lib/core/cli-output.js:395-397 | what no flag names: the working directory as target, plain output, no dry run, and no other key |
| TwoSeams.FlagKeysInjective | scripts/lib/cli-typed-seam.js:79-82 | two flags without upper-case letters share an argument key only if they are equal |
| TwoSeams.WriteBoundExact | scripts/lib/cli-typed-seam.js:78-82 | a write flag's key is bound if and only if a write flag is read on the line |
| TwoSeams.LineDecided | scripts/amber.js:100-108 | what a run of the CLI does with a registered read, whatever its line: usage if help is read, a read without write flags handled as one, with one only if approved |
| TwoSeams.PositionalsBack | scripts/lib/core/cli-output.js:395-425 | the placed texts come back as the positionals if and only if none of them is a flag of the table |
| TwoSeams.SeamsAgree | scripts/lib/cli-typed-seam.js:65-144 | for every accepted action: whatever the parameters, the CLI classifies what the server spawns as a typed read of the same command, if and only if no variant lets a write flag, or where there is one a text of the caller, stand as a flag |
| TwoSeams.HandledExact | scripts/lib/cli-typed-seam.js:146-188 | for every accepted action: each process started for it reaches its handler as a read without approval, if and only if no variant lets a write flag, a help flag or a text of the caller stand as a flag |
| TwoSeams.TargetKeptExact | scripts/lib/mcp-action-runtime.js:161-165 | whatever the parameters, each started process works on the configured target, if and only if no variant lets the target flag be swallowed |
| TemplateChecks.NeverMeetsExact | scripts/lib/mcp-action-runtime.js:45-77 | whether a stop or a text of the caller can stand as a flag is decided by the subsets of the keys of optional templates |
| TemplateChecks.NeverSwallowsExact | scripts/lib/mcp-action-runtime.js:45-77 | whether the target flag can be swallowed is decided by those subsets and the subsets of the keys that may hold a flag with a value |
| TemplateChecks.ChecksDecide | scripts/lib/mcp-action-contracts.js:334-369 | three computable checks of an accepted action decide, for all parameters, targets and directories, whether its calls are typed reads to the CLI, reach their handler as such, and keep the target |
| TwoSeams.FittingExact | scripts/lib/mcp-action-runtime.js:45-77 | for templates written as the flag table reads them the condition is that no template pushes or can place a stop |
| TwoSeams.SpawnThenRun | scripts/lib/mcp-action-runtime.js:151-178 | one call through both seams: the spawned vector is what the CLI parses, its handler runs at most once, and as a read if and only if no write or help flag is read |
| ShippedActions.ShippedReadsAgree | action-types/object-query.json:1-90 | for every shipped dry-run Action Type, all parameters and every flag table that contains the modelled rows and keeps the conventions, what is spawned is a typed read of the same command to the CLI |
| ShippedActions.ShippedHandledExact | action-types/session-status.json:1-33 | for every such table, every process of a shipped read reaches its handler if and only if the action places no parameter |
| ShippedActions.ShippedTargetExact | action-types/route-test.json:1-34 | for every such table, a shipped read keeps the configured target for all parameters if and only if it is neither the route test nor the session status |
| CallerTexts.RouteNameLost | action-types/route-test.json:1-34 | a route named like a boolean flag does not arrive as a positional |
| CallerTexts.SessionMovesTarget | action-types/session-status.json:1-33 | a session named `--target` becomes the target, and the target the session |
| CallerTexts.SessionShowsHelp | action-types/session-status.json:1-33 | a session named `--help` never reaches the handler |
| CallerTexts.PlacedFlagsRun | scripts/lib/mcp-action-runtime.js:45-77 | an accepted action that places parameters of a command with write flags: spawned as a read, run as an approved write |
| CallerTexts.ValuedFlagsRun | scripts/lib/mcp-action-runtime.js:66-74 | an accepted action that pushes parameters behind a flag which takes no value: spawned as a read, run as an approved write |
| CallerTexts.BareFlagAccepted | scripts/lib/mcp-action-contracts.js:334-347 | an accepted action that pushes a write flag as a flag without a value: spawned with it on every call, and never handled as a read |
| CallerTexts.UnsetFlagAccepted | scripts/lib/mcp-action-runtime.js:66-74 | an accepted action that pushes a write flag with a value given nowhere: spawned with it and a token without a text on every call, and never handled as a read |
| CallerTexts.AcceptedOutOfParity | scripts/lib/mcp-action-contracts.js:468-481 | an accepted action that declares one edit where its command makes two |
| InputSchema.BuildSchema | scripts/amber-mcp.js:124-167 | each property's type, enum and pattern, the required keys and the required keys per variant |
| InputSchema.AdmittedExact | scripts/amber-mcp.js:124-167 | the schema admits an input if and only if every value fits its declaration (type, choices, own pattern, or showing something where it is required or some variant needs it) and nothing is missing that a declaration or the selected variant requires |
| InputSchema.SelectedComplete | scripts/amber-mcp.js:124-167 | an input the schema admits selects a variant and supplies all it needs |
| InputSchema.SelectedVisible | scripts/amber-mcp.js:138-144 | a string parameter the selected variant needs is not blank, even when declared optional |
| InputSchema.BuildFromAdmitted | scripts/amber-mcp.js:124-167 | the command can be built from every admitted input |
| ArgumentSlots.SlotsExact | scripts/lib/mcp-action-runtime.js:49-61 | each positional slot holds what was placed there last, or is a hole |
| ArgumentSlots.NoHolesExact | scripts/lib/mcp-action-runtime.js:47-76 | no holes if and only if every slot up to a filled one is filled |
| UsageOptions.SplitUsageAlternatives | scripts/lib/command-registry.js:1867-1891 | the pieces between top-level bars; together, in order, they hold exactly the options of the line, and exactly its required ones |
| UsageOptions.SplitsOnce | scripts/lib/command-registry.js:1867-1891 | no piece holds a bar at which it would be split again |
| OptionTexts.JoinedSplit | scripts/lib/command-registry.js:1867-1891 | tidy alternatives with closed brackets, joined by bars between blanks, are split into exactly themselves |
| UsageOptions.RequiredOptionsIn | scripts/lib/command-registry.js:2022-2042 | the index loop with its bracket depth |
| OptionTexts.OptionListed | scripts/lib/command-registry.js:1850-1854 | an option that stands in a line, with nothing at its sides that could belong to it, is listed whole, between those in front of it and those behind it |
| OptionTexts.OptionRequired | scripts/lib/command-registry.js:2022-2042 | it is required there if and only if no bracket is open in front of it |
| OptionTexts.FirstListed | scripts/lib/command-registry.js:1850-1854 | the first option of a line is listed first |
| OptionTexts.FirstRequired | scripts/lib/command-registry.js:2022-2042 | the first option of a line is the first required one, or is not among them while a bracket is open |
| OptionTexts.ReportedStands | scripts/lib/command-registry.js:1850-1854 | whatever is listed or required is such an option, standing in the line with no option character behind it |
| OptionTexts.DepthExact | scripts/lib/command-registry.js:2026-2034 | an opening bracket adds a level, a closing one takes one away if there is one |
| UsageOptions.ScannersAgree | scripts/lib/command-registry.js:1850-1854 | the second scanner finds exactly the matches of the first outside brackets |
| UsageOptions.RequiredAllowed | scripts/lib/command-registry.js:2044-2140 | a contract never requires an option it does not allow |
| UsageOptions.SubcommandExact | scripts/lib/command-registry.js:2080-2140 | what a subcommand allows and requires: the options every usage line has and those of the lines that name it; a help line that repeats the prefix requires nothing |
| UsageOptions.CommandExact | scripts/lib/command-registry.js:2054-2068 | what a command on its own allows and requires: the options of its common lines |
| Reachability.CollectSeen | scripts/check-reachability.js:82-91 | the worklist ends, with exactly the files a chain of requires leads to |
| Reachability.FindUnreachable | scripts/check-reachability.js:82-95 | the report is sorted and holds each library file as often as listed if no path leads to it, and not at all otherwise |
| PreCommitHook.ShimIsManaged | scripts/lib/hooks-command.js:69-83 | the guard is recognised as managed, whatever the paths |
| CommitGuard.GuardExact | scripts/lib/hooks-command.js:69-83 | the script ends with 1 if and only if it is not skipped, finds node and amber, and the check fails; otherwise with 0 |
| CommitGuard.CheckRuns | scripts/lib/hooks-command.js:79 | sh asks node for the check of exactly this repository, told to warn only if the guard is installed so |
| CommitGuard.CheckFeatureEvidence | scripts/lib/hooks-command.js:11-29 | exactly the features that claim completion without evidence, in order |
| CommitGuard.CheckGovernance | scripts/lib/hooks-command.js:31-47 | errors, or with warn-only warnings, if and only if there is such a feature |
| CommitGuard.CommitStopped | scripts/lib/hooks-command.js:8-83 | a commit is stopped if and only if a completed feature has no evidence, and the guard is neither warn-only nor skipped nor without node or amber |
| PreCommitHook.HooksDirectory.InstallHook | scripts/lib/hooks-command.js:85-138 | both files after an install, and whether a hook was backed up |
| PreCommitHook.HooksDirectory.UninstallHook | scripts/lib/hooks-command.js:140-171 | both files after an uninstall, and its answer |
| PreCommitHook.RunExact | scripts/lib/hooks-command.js:85-171 | the guard can be undone after every step of a run if and only if no install loses track of the displaced hook |
| PreCommitHook.OrdinaryRuns | scripts/lib/hooks-command.js:85-171 | runs of plain installs, uninstalls and overwrites stay undoable and never back up a guard |
| PreCommitHook.UninstallRestores | scripts/lib/hooks-command.js:140-171 | after such a run uninstall puts back the displaced bytes and leaves no backup |
| PreCommitHook.RepeatedInstalls | scripts/lib/hooks-command.js:85-138 | repeated installs never replace the backup by the guard |
| PreCommitHook.StaleBackupReturns | scripts/lib/hooks-command.js:140-171 | a run after which uninstall brings back a hook that was not there |
| Breadcrumb.CommandRuns | scripts/lib/hooks-command.js:561-565 | sh runs the written command with the installation path and the root as exact arguments |
| Breadcrumb.NewEntryIsManaged | scripts/lib/hooks-command.js:517-536 | the written entry is recognised, whatever the paths |
| Breadcrumb.ManagedExact | scripts/lib/hooks-command.js:504-523 | an entry is managed if and only if its legacy command, or else the first command of its array, holds the marker and asks for the breadcrumb |
| Breadcrumb.SettingsFile.Install | scripts/lib/hooks-command.js:567-652 | the settings after an install: untouched, repaired in place or with one more entry |
| Breadcrumb.SettingsFile.Uninstall | scripts/lib/hooks-command.js:654-699 | the settings after an uninstall |
| Breadcrumb.MergeKeepsForeign | scripts/lib/hooks-command.js:567-652 | foreign entries keep content and order |
| Breadcrumb.InstallIdempotent | scripts/lib/hooks-command.js:567-652 | installing twice is installing once |
| Breadcrumb.ForeignKept | scripts/lib/hooks-command.js:567-699 | neither operation touches a foreign entry; uninstall leaves no managed one |
| Breadcrumb.UninstallKeepsActions | scripts/lib/hooks-command.js:654-699 | uninstall keeps every action a user wrote if and only if no managed entry holds one |
| Breadcrumb.InstallKeepsActions | scripts/lib/hooks-command.js:567-652 | install keeps every action a user wrote if and only if the entry it repairs, if any, holds none |
| Breadcrumb.RoundTripExact | scripts/lib/hooks-command.js:654-699 | uninstall after install gives the file back if and only if it existed and nothing empty was there to lose |
| GateBackfill.BuildGateStageMap | scripts/lib/gate-writer.js:29-46 | each gate maps to the first stage that names it |
| GateBackfill.ApprovedGatesFromTimeline | scripts/backfill-gates.js:45-54 | each gate maps to its first passed event |
| GateBackfill.FirstApprovalIsFirst | scripts/backfill-gates.js:45-54 | that event is a passed event of the gate and none before it is |
| GateBackfill.SessionDirectory.WriteGateDefinition | scripts/lib/gate-writer.js:52-75 | writes if and only if the id is valid and free |
| GateBackfill.FileNameExact | scripts/lib/gate-writer.js:16-24 | a gate id is valid if and only if it is non-empty and made of letters, digits, hyphens and underscores |
| GateBackfill.SessionDirectory.WriteGateDecision | scripts/lib/gate-writer.js:97-117 | writes if and only if the id is valid and free |
| GateBackfill.SessionDirectory.WriteRouteGates | scripts/lib/gate-writer.js:77-95 | the definitions after offering every gate of a route, and how many were written |
| GateBackfill.SessionDirectory.BackfillSession | scripts/backfill-gates.js:56-110 | skipped, with the files untouched, if and only if there is no manifest, no route id, an unknown route or one without gates; otherwise all files afterwards, and as counts how many each kind grew by |
| GateBackfill.SessionDirectory.PlanSession | scripts/backfill-gates.js:112-137 | the counts of a dry run; it skips the same sessions |
| GateBackfill.DefinitionsExact | scripts/backfill-gates.js:66-88 | afterwards every declared gate with a valid id has a definition; a new one carries the ids of gate and session, the kind or `user-approval`, the first stage that leads to the gate or `unknown`, the description, and the creation time or now |
| GateBackfill.DecisionsExact | scripts/backfill-gates.js:85-104 | afterwards every declared valid gate with a passed event has a decision; a new one carries the time of the first such event, or now |
| GateBackfill.WrittenCounts | scripts/backfill-gates.js:78-104 | the counts are the numbers of files that were not there before |
| GateBackfill.FillExact | scripts/backfill-gates.js:56-110 | existing files stay as they are, a new one holds the first content offered |
| GateBackfill.DecisionFilesExact | scripts/backfill-gates.js:85-104 | each new decision belongs to a declared gate with a passed event and carries the first such event's time when present |
| GateBackfill.BackfillIdempotent | scripts/backfill-gates.js:56-110 | a second backfill, at any later time, writes nothing |
| GateBackfill.PlanExact | scripts/backfill-gates.js:112-137 | dry-run counts are never too small, and right if and only if the missing ids are valid and distinct |
| CommaLists.SplitCommaList | scripts/lib/core/text-utils.js:57-68 | the trimmed visible parts of every value, in order |
| CommaLists.CommaListTidy | scripts/lib/core/text-utils.js:57-68 | every part is visible, trimmed and free of commas |
| CommaLists.CommaRoundTrip | scripts/lib/core/text-utils.js:57-68 | such parts joined by commas are read back, each and in order |
| FeatureList.BookExact | scripts/lib/feature-commands.js:300-335 | exactly the new paths are appended, each once; added and duplicates together are the request |
| FeatureList.BookKeepsOrder | scripts/lib/feature-commands.js:300-335 | paths are appended in order of first request |
| FeatureList.BookAgain | scripts/lib/feature-commands.js:300-335 | booking again adds nothing |
| FeatureList.FeatureFile.AddFeature | scripts/lib/feature-commands.js:44-128 | the list after an add or its refusal |
| FeatureList.FeatureFile.RemoveFeature | scripts/lib/feature-commands.js:152-193 | the list after a removal, and the feature removed |
| FeatureList.FeatureFile.RecordFeatureEvidence | scripts/lib/feature-commands.js:195-253 | the list after evidence is recorded |
| FeatureList.FeatureFile.RecordFeaturePaths | scripts/lib/feature-commands.js:257-342 | the list after the paths of the raw values are booked, and the answer |
| FeatureList.RemovedExact | scripts/lib/feature-commands.js:152-193 | after a removal no feature has the id and every other one is still there |
| FeatureList.VerifiedExact | scripts/lib/feature-commands.js:195-253 | recorded evidence is the feature's last entry, and makes it passing only if it had no status or was not started |
| FeatureList.BookedExact | scripts/lib/feature-commands.js:257-342 | a feature keeps the paths it had, followed by the new ones of the raw values, each once; nothing else of it changes |
| FeatureList.OthersUntouched | scripts/lib/feature-commands.js:44-342 | a command touches the feature it names and no other, in content or order |
| FeatureList.RunKeeps | scripts/lib/hooks-command.js:11-29 | every run keeps unique ids unique, and a list that passes the commit check passing it |
| FeatureList.EvidenceAppendOnly | scripts/lib/feature-commands.js:195-253 | while a feature exists its evidence only grows at the end |
| TraceGrammar.ParseTraceFlags | scripts/lib/canonical-artifact-commands.js:109-169 | the traces of a list of flags, or malformed as soon as one is |
| TraceGrammar.TraceRoundTrip | scripts/lib/canonical-artifact-commands.js:109-169 | a printed trace reads back if and only if it is pinned or its identity does not end like a revision |
| TraceGrammar.TracesExact | scripts/lib/canonical-artifact-commands.js:109-169 | a list of flags gives a list of traces if and only if each flag gives the trace at its place |
| TraceGrammar.TracesRoundTrip | scripts/lib/canonical-artifact-commands.js:109-169 | a list of printed traces reads back, in order, if and only if each of them is pinned or does not end like a revision |
| TraceGrammar.AcceptedIsWellFormed | scripts/lib/canonical-artifact-commands.js:109-169 | whatever is accepted is well formed |
| CapabilityPin.PinExact | scripts/lib/breakglass-commands.js:56-77 | a pin is returned if and only if the text is its printed form, so its decomposition is unique |
| NewestSession.Newest | scripts/lib/mcp-functions.js:79-94 | the one pass finds a session that no other precedes |
| NewestSession.NewestIsHead | scripts/lib/mcp-functions.js:79-94 | it is the head of the listing sorted by time descending, then id, for every listing order |

## Left out

Hypotheses of the theorems:

- TwoSeams.SeamsAgree: assumes `TablesAgree` (the naming convention of the flag table for write flags, the startup registry check, matching context effects, plain names) and a target that is no flag; neither speaks of the action or of the parameters of a call.
- TwoSeams.HandledExact: assumes the same as TwoSeams.SeamsAgree.
- TwoSeams.TargetKeptExact: assumes the row of `--target` and a target that is no flag; that the target's text is no positional is not part of it, since a caller may send that text as a parameter.
- TwoSeams.FittingExact: speaks of actions whose flags are written as their rows read them; the other theorems of TwoSeams do not.
- ShippedFlags.ShippedTablesAgree: the rows are listed by kind and not in the order of the table, which has no flag twice; the commands of the CLI are any set that holds the registered ones.
- ActionServer.StartedExact: spawnSync refuses an argument with a NUL character, and the process may fail to start for reasons outside the model; the theorems count such calls as started.
- ActionContracts.ContractSoundAndComplete: assumes that the registry lists its effects as non-empty single lines, which CommandCapabilities.ShippedRegistryKept proves of the shipped one.
- GitLog.ParseInvertsLog: assumes what git guarantees of a record: a full hash that does not open with white space, no NUL in any field.
- PowershellQuoting.PowershellRoundTrip: the reader knows blank-separated safe words and single-quoted words only, and refuses the rest of the language.
- UsageOptions.RequiredAllowed: the line matchers of `invocationLines` are arbitrary predicates, and the final sort of both lists, `allowedValues` and `recognized` are not modelled.
- UsageOptions.SubcommandExact: takes the line matchers as arbitrary predicates as well.
- OptionTexts.JoinedSplit: speaks of alternatives that are trimmed, leave no bracket open, hold no bar at which they would be split, and neither start nor end with one; UsageOptions.SplitsOnce and the conservation laws cover every line.
- CommitGuard.GuardExact: for paths without a line break; which commands succeed is an arbitrary predicate.
- CommitGuard.CommitStopped: assumes that the check's process succeeds if and only if it reports no error.
- CommitEntries.TailCleaned: for a trimmed, non-empty text on one line in front of the parenthesis; a nested parenthesis is left alone by the code.
- CommitEntries.EachCitedOnce: speaks of subjects whose hashes are all in citations; for the others PullNumbers.SurvivalExact and PullNumbers.CitedOnceExact say what is shown and what is repeated.
- TraceGrammar.ParseTraceFlags: revisions are unbounded, where the source's numbers round above 2^53-1.
- InputSchema.SelectedComplete: matching a pattern is an arbitrary test; plain executions are not covered, since the schema requires of them only what the declared parameters say.
- NewestSession.Newest: modification times are integers.
- FlagRows.ShippedContextAgrees: the context registry holds more actions than the two that have a registered capability.

Not modelled:

- UTF-16: strings are sequences of characters, and sorting compares characters where the source compares code units.
- JavaScript's prototype members: an object literal used as a table also answers for names such as `constructor`.
- File system, git, processes, clocks and JSON parsing: their results are inputs, and a corrupt file is a case of the data. JSON key order and repeated keys have no counterpart.
- A corrupt feature list, which every feature command refuses; a missing one is read as an empty list.
- The session id that falls back to the directory name in a backfill: the manifest holds the one in effect.
- The wording of messages and findings; a finding is its variant and its kind.
- `path.join` on a gate id that is no valid file name: existence is looked up under the id itself.
- Finding the files a source text requires, the entry points and the library listing: the graph and both lists are inputs, with files named by their relative paths.
- `statusHook`, `statusBreadcrumb`, printing and verifying a breadcrumb.
- `parseExtensionFlags`, `parseRevisionFlag`, `optionValuesIn`, `documentedSubcommands`: they would add easy members.
- The other command adapters, the ledgers and the lifecycle under scripts/lib/core, documentation generators, release scripts.
