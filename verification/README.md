# Ergane: proved models of its state-keeping protocols

Ergane is a software factory. The parts of it modelled here keep state that
crashes, retries, other processes and the operator's own edits can disturb.
Each part is a model of the code as it is written, with its loops and in-place
updates, proved against specification functions; the theorems are about those
functions over every input, every interleaving or every run.

| part | modules | what is proved of it |
|---|---|---|
| skill ownership | `HomeTree`, `SkillModel`, `SkillSteps`, `SkillRuns`, `SkillTeardowns`, `SkillSurveys`, `SkillInstalls`, `SkillRestores`, `SkillConverges`, `SkillOutcomes`, `SkillStatus`, `SkillLinks`, `OperatorHomes`, `SkillReports` | exactly when operator bytes survive a run; install and teardown undo each other; installs converge; what each path, entry and report line is after a command; status agrees with the plan |
| repository registry | `Slugs`, `Keyed`, `Registry`, `RegistryEffects`, `RegistryFiles`, `RegistryRuns`, `Locking` | linearizable commands; slug and path stay one to one; what each command answers and leaves, record by record; the rebuild loop equals its set-level meaning; bounded waiting |
| attestation packets | `Packets`, `PacketArchives`, `PacketMembers`, `PacketHistory` | the verifier accepts what the exporter writes, and exactly which archives it accepts; an accepted manifest fixes every byte; revision history |
| objections | `Resolutions` | exactly when a report is fully fixed; it then closes every failure for good |
| usage teardown | `UsageTeardown`, `AttemptLedger` | confirmed means stable; a revoked key is accounted for |
| human decisions | `Decisions` | one winner, one answer; a row before every page |
| persona file | `Personas` | the line editor is a stable lens |
| clone refresh | `Refresh` | no commit of a branch is lost |

`Text` holds white space and the splitting and joining of strings, `Wrappers` the
optional value.

The home directory, the registry file, a clone, the ledger and the decision
store are classes whose methods change fields in place. The outside world enters
as parameters: which write fails, where a process is killed, what a fetch
brings, how long a sleep really took, what other calls do between two database
statements. Hashing is an injective constructor or function, and JSON and zip
are values, so that two documents are equal exactly when their contents are.

## Where the code does not do what it is described as doing

* `skills_teardown` looks at no parent directory (`factory/cli/skills.py:191-207`),
  although `install` refuses to write through a linked one. A skill directory that
  was moved and linked back loses the moved file. `OwnershipExactly` says exactly
  when a file outlives a run; `LinkedParentLosesFile` is a run in which it does not.
* `perform_skills_teardown` is described as applying the survey's plan
  (`factory/cli/skills.py:338-352`). Through links a removal can take what a later
  entry leads to, so that an entry announced as kept is reported absent and its
  record dropped: `SurveyMisleads`. The three lists agree exactly when no entry
  disturbs a later one, `MatchesSurveyExactly`; real directories are enough,
  `DirectIsIndependent`.
* After an install that created nothing, teardown leaves the empty manifest
  behind (`factory/cli/skills.py:246-249`): `InstallThenTeardown`, and
  `EmptyManifestStays` for one home.
* A record one level deep, or with a backslash in its path, is recorded by an
  install whose manifest the next command refuses: `ManifestReadsBack`, and
  `UnreadableManifest` for one package.
* `register` can replace the file and then refuse, on a document with another
  record whose scopes are no mapping (`factory/registry.py:440-443`):
  `RegisterRefusesAfterWriting`, and `WritesThenRefuses` for one document.
* `is_valid_slug` accepts one trailing newline: `NewlineSlugPasses`.
* `Identity.key` joins with `|` (`factory/attestation/archive.py:56-57`), so strict
  verification passes an incomplete packet, `BarHidesIncomplete`. It agrees with
  completeness on every list of items for a selection exactly when the selection's
  keys are distinct, `StrictMeansComplete`.
* A packet's predecessor is the greatest revision, not the latest
  (`factory/attestation/archive.py:438`): `LinksFollowOrder` and `LinksSkip`. The
  content digest leaves the manifest out and joins contents without framing, so two
  different contents share one and the second export is refused: `RefusedExactly`,
  `UnframedJoin` and `UnframedIsRefused`.
* Objections close for good exactly when a repeated, non-empty evaluation id is the
  id of every evaluation: `ClosedExactlyUnderSafeIds`, and `SharedIdHidesFailure`
  for one list.
* An escalation whose id the caller supplied is paged on every retry, settled or
  not (`factory/activities/notify_activities.py:402-409`): `EscalationPagedAgain`. An
  id no send was supplied with is paged once at most: `UnsuppliedIsPagedOnce`.
* For a persona whose name starts with `model:` or `fallback:` the editor is neither
  stable nor indifferent to the order of updates: `StableExactlyWhenPlain`,
  `CommuteExactlyWhenPlain`, `LastWriteExactlyWhenPlain`.
* A value with a line break makes the persona file longer with every edit,
  `LineFeedGrows`, unless its one break is a carriage return at its very end:
  `StableExactlyWhenSettled`. A rewritten line loses its trailing comment, though
  comments are said to be preserved (`factory/cli/install.py:410-412`):
  `TrailingCommentIsLost`.
* The refresh guard protects branches. A commit held only by a detached HEAD can
  be left behind (`DetachedCommit`, `DetachedIsDropped`), and an untracked file does
  not always survive a hard reset, contrary to
  `factory/activities/roadmap_activities.py:183-187` (`UntrackedFile`,
  `UntrackedIsOverwritten`).

## Model

| member | source | states |
|---|---|---|
| SkillRuns.OwnershipSafety | factory/cli/skills.py:830-1040 | From a home with no manifest, over any run of installs (any packages, failing or killed anywhere), teardowns and edits, a file the operator wrote stays byte for byte where it is, if the run never ships those bytes to that path and either ships them nowhere or never tears down through a link |
| SkillRuns.OperatorBytesSurvive | factory/cli/skills.py:775-796 | The same from any home whose manifest is honest about its history |
| SkillRuns.RunIsHonest | factory/cli/skills.py:984-1000 | Every file entry a run's manifest ever holds records bytes that some earlier install shipped to that very path |
| SkillRuns.TeardownKeeps | factory/cli/skills.py:240-278 | A teardown, cut short anywhere, leaves every file and link that no recorded path leads to with a matching record |
| SkillTeardowns.RemovesExactly | factory/cli/skills.py:255-262 | An uninterrupted teardown removes a file if and only if some recorded path, followed through links, leads to it and its record matches |
| SkillTeardowns.GoneExactly | factory/cli/skills.py:255-266 | After any number of turns, stopped by a failed lstat or not, a file is gone if and only if one of the turns reached was for a recorded path that led to it at the start with a matching record |
| SkillLinks.SurvivesExactly | factory/cli/skills.py:240-278 | From any home honest about its history, bytes never shipped to a path stay there through a whole run of installs, teardowns and edits elsewhere if and only if no teardown gets to a recorded path that leads there |
| SkillLinks.OwnershipExactly | factory/cli/skills.py:830-1040 | The same for what any run from a home with no manifest has led to |
| SkillLinks.UnreadableManifest | factory/cli/skills.py:603-608 | An install that leaves its file in place under a manifest every later install and teardown refuses |
| SkillLinks.EmptyManifestStays | factory/cli/skills.py:246-249 | A home in which an install creates nothing, writes an empty manifest, and teardown leaves it |
| SkillLinks.LinkedParentLosesFile | factory/cli/skills.py:191-207 | A run that installs, moves the skill directory away with a relative link back, and tears down: it removes a file from a path nothing was shipped to |
| SkillSurveys.MatchesSurveyExactly | factory/cli/skills.py:240-335 | In every home whose survey fails on no entry, links or not, the teardown fails on none, and removes, keeps and finds absent exactly what the survey listed if and only if no entry's record matches a node that a later, present entry leads to or through |
| SkillSurveys.TeardownMatchesSurvey | factory/cli/skills.py:240-335 | Where no entry disturbs a later one, links or not, the three lists are the survey's, the leaves that remain are those no recorded path claimed, and the manifest keeps exactly the mismatching entries |
| SkillSurveys.DirectIsIndependent | factory/cli/skills.py:191-207 | With real directories above every recorded path the survey fails on nothing and no entry disturbs another |
| SkillSurveys.DirectTeardown | factory/cli/skills.py:240-335 | So then, after any edits, the teardown does what the survey listed, and the leaves that go are the matching recorded paths themselves |
| SkillOutcomes.TearsDownExactly | factory/cli/skills.py:240-278 | There, path by path: a recorded path that holds what was recorded goes and is listed removed, one that holds anything else stays, is listed and keeps its entry, one that is not there is listed absent, and every other file and link stays |
| SkillOutcomes.TeardownRecords | factory/cli/skills.py:210-237 | However it ends, a teardown leaves the manifest, or a part of its entries under the same versions, or none |
| SkillOutcomes.FileAboveRaises | factory/cli/skills.py:191-207 | An entry below a path that is a file cannot be examined |
| SkillLinks.SurveyMisleads | factory/cli/skills.py:338-352 | A home whose survey announces an entry as kept and whose teardown, raising nothing, reports it absent and drops the manifest |
| SkillSurveys.WalkMoved | factory/cli/skills.py:744-758 | If losing several leaves changes where a walk leads, losing some one of them alone already does |
| SkillSurveys.JudgedAsSurveyed | factory/cli/skills.py:255-266 | In any home, an entry that no earlier one disturbs is judged at its turn as the survey judged it |
| SkillTeardowns.SecondTeardownRemovesNothing | factory/cli/skills.py:240-278 | With links or without, a second teardown, pruning and all, lists nothing as removed and takes no file and no link |
| SkillRestores.InstallThenTeardown | factory/cli/skills.py:210-278 | From any home without a manifest, install then teardown gives back every file and link, and no others, and the manifest is gone if and only if the install created something; the teardown is refused, and all stays, if and only if the install created a file the manifest cannot name |
| SkillRestores.ManifestDomain | factory/cli/skills.py:984-1000 | Whatever writes fail, a new manifest covers exactly the old entries and the paths this install created |
| SkillRestores.ManifestReadsBack | factory/cli/skills.py:603-676 | The manifest an install writes, whatever failed on the way, is accepted by the next command if and only if every file it entered is at least two components deep and free of backslashes |
| SkillRestores.KeyReadsBack | factory/cli/skills.py:603-610 | A recorded key reads back as the path it was written for, unless a component holds a backslash |
| SkillRestores.SafeKeys | factory/cli/skills.py:603-609 | A recorded key is refused if and only if it is empty, absolute, holds a backslash or goes upward; otherwise it names the parts between its slashes, less the empty ones and single dots |
| SkillInstalls.PlanIsApart | factory/cli/skills.py:852-945 | No two actions of one plan have paths one inside the other |
| SkillInstalls.CleanApply | factory/cli/skills.py:947-982 | An install without failures puts every planned node in place, ends every action in its final state and changes nothing else but directories it makes on the way |
| SkillConverges.SecondInstallWritesNothing | factory/cli/skills.py:947-982 | After one failure-free install, another of the same package, whatever befalls it, writes no file, link or directory |
| SkillConverges.ThirdInstallRewritesNothing | factory/cli/skills.py:1016-1024 | If the first left a manifest the second accepts, the third finds its manifest already exact and leaves it alone |
| SkillConverges.FileSettles | factory/cli/skills.py:775-796 | After an install each file that was safe is unchanged-owned with its digest recorded, and each that collided is in the state it was in |
| SkillConverges.AliasSettles | factory/cli/skills.py:799-828 | After an install no alias is left to create or upgrade |
| SkillModel.AliasNeverModified | factory/cli/skills.py:799-828 | The alias classification never answers modified-owned |
| SkillOutcomes.PlanFileMeans | factory/cli/skills.py:761-796 | Each planned file state holds if and only if the nodes and the manifest entry are so: real directories above, bytes shipped, bytes recorded, or neither |
| SkillOutcomes.PlanAliasMeans | factory/cli/skills.py:882-945 | Each planned alias state holds if and only if the skill is shipped, its files can all be written, the alias path is reachable, free or rightly linked, and its files are there and current; a missing skill and a colliding one are told apart |
| SkillOutcomes.InstalledFile | factory/cli/skills.py:947-1000 | After a failure-free install a shipped file stands with the shipped bytes if and only if it did before or could be written, that is was absent below real directories or owned with a matching record; otherwise its path and its entry are as they were, and else it is recorded with the shipped digest |
| SkillOutcomes.InstalledAlias | factory/cli/skills.py:882-1000 | An alias is made, and recorded, if and only if its path was free below real directories and the whole skill could be written; otherwise its path is as it was |
| SkillOutcomes.AliasIsNew | factory/cli/skills.py:882-982 | An alias is new if and only if its path was free below real directories, the package has the skill, and every file of it stands afterwards with the shipped bytes and was absent or owned with a matching record before |
| SkillOutcomes.InstalledElsewhere | factory/cli/skills.py:947-1000 | At any other path an install changes no node and no entry, and makes directories only |
| SkillOutcomes.AliasReads | factory/cli/skills.py:722-729 | In any home with the alias in place, a file of the skill read through it gives the bytes that stand in the canonical skill |
| SkillOutcomes.FailureLeavesPath | factory/cli/skills.py:955-982 | Where a write or link fails, whatever else happens, its path is as it was, its entry too, and the action ends failed |
| SkillOutcomes.EntryMeans | factory/cli/skills.py:642-676 | An entry is accepted if and only if its path is clean and lies where its kind may: a file at least four parts deep below the canonical destination, an alias directly in the other one with exactly its target |
| SkillStatus.StatusRefinesPlan | factory/cli/skills.py:1102-1145 | Each reported skill state holds if and only if the plan classifies the skill's files so |
| SkillStatus.AliasStatusRefinesPlan | factory/cli/skills.py:1148-1178 | For a ready skill, the alias report and the planned alias action determine each other |
| SkillStatus.FileStatusIsPlan | factory/cli/skills.py:1102-1145 | File by file, the status and the plan name the same situation, except that an unreadable owned file is collided to one and modified to the other |
| SkillStatus.CurrentAfterInstall | factory/cli/skills.py:1227-1249 | After one failure-free install a shipped skill reads current if and only if the manifest is accepted and none of the skill's files collided |
| SkillReports.CanonicalMeans | factory/cli/skills.py:1102-1145 | The canonical line, in nodes and entries: modified if some file was edited, else collided, else stale, else absent, and current only when every file of a shipped skill is |
| SkillReports.AliasStatusMeans | factory/cli/skills.py:1148-1178 | The alias line of any skill, ready or not, by whether the path is reachable, rightly linked, and every file read as shipped |
| SkillReports.ReportMeans | factory/cli/skills.py:1191-1249 | A manifest of another version makes a current copy stale and changes no other finding, the installed version being the package version or else the source version; no package version and an untrusted manifest are answered first |
| OperatorHomes.OperatorHome.Install | factory/cli/skills.py:830-1056 | The plan, the apply loop and the manifest write, killed or failing anywhere, change the home exactly as one step of the runs above, nothing at all when refused, and report what was created, upgraded, current and collided, and whether the manifest could not be written |
| OperatorHomes.OperatorHome.GatherCollisions | factory/cli/skills.py:947-982 | The collisions reported are each colliding action's path under its final state, and each node that stood in the way |
| OperatorHomes.FinalIsReported | factory/cli/skills.py:947-982 | Every planned action ends created, upgraded, current or collided |
| SkillReports.FileTold | factory/cli/skills.py:947-982 | An uninterrupted install tells of each shipped file once, under exactly the state its nodes and entry call for |
| SkillReports.AliasTold | factory/cli/skills.py:882-982 | And of each alias: created, upgraded or current, or else collided as missing skill, colliding skill, blocked parent, broken alias or unowned, each exactly when it is so |
| OperatorHomes.OperatorHome.Teardown | factory/cli/skills.py:240-278 | The removal loop, the manifest rewrite and the pruning change the home exactly as one teardown step; it reports the three lists unless it was cut short, an lstat failed or the manifest could not be written |
| OperatorHomes.OperatorHome.Survey | factory/cli/skills.py:281-308 | Lists the entries by fate without a change, or raises exactly when some entry cannot be examined |
| OperatorHomes.OperatorHome.CanonicalState | factory/cli/skills.py:1102-1145 | Gathering one state per file gives the state of the skill |
| OperatorHomes.FindParentCollision | factory/cli/skills.py:761-772 | Finds the ancestor nearest the home that is no directory, and none if and only if every ancestor is a directory or missing |
| HomeTree.LocateAfterRemoval | factory/cli/skills.py:744-758 | Removing a leaf never makes a path lead somewhere new |
| HomeTree.PruningKeepsLeaves | factory/cli/skills.py:155-188 | Removing empty directories, in any order, loses no file and no link |
| SkillOutcomes.PrunesExactly | factory/cli/skills.py:155-188 | A directory goes if and only if it is empty |
| Slugs.FixedPoints | factory/registry.py:196-206 | The proposal leaves a slug alone if and only if it is normal, and every normal slug is valid |
| Slugs.ProposalIsValidAndIdempotent | factory/registry.py:196-206 | For every text the proposed slug is valid, and proposing again gives it back |
| Slugs.NewlineSlugPasses | factory/registry.py:191-193 | One trailing newline never changes whether a slug is accepted, though no proposal ends in one |
| Slugs.ValidMeans | factory/registry.py:191-193 | A slug is valid if and only if it is a letter or digit, then letters, digits, dots, underscores and hyphens, then at most one newline |
| Slugs.ProposalIs | factory/registry.py:196-206 | For every name the proposal is the kept characters of its folded text with one hyphen for each run between, less what of hyphens, dots and underscores is at the ends, or `repo` |
| Slugs.FoldIs | factory/registry.py:202-203 | Folding goes character by character: ASCII is lowered, anything else becomes what is ASCII in its decomposition |
| Registry.ReachableIsOneToOne | factory/registry.py:400-551 | After any sequence of commands from a one-to-one document, every slug is valid and no path is under two slugs |
| Registry.ReachableFromBlank | factory/registry.py:298-314 | So from a missing or blank document |
| Registry.RefusalChangesNothing | factory/registry.py:400-551 | On a one-to-one document a refused command writes nothing |
| RegistryEffects.RegisterAnswers | factory/registry.py:415-448 | In the records alone: a registration is refused as a collision if and only if the slug is valid and held by another path, as invalid, unreadable or malformed each exactly when it is so, and otherwise succeeds; none of these but an unreadable other record writes |
| RegistryEffects.RegistersExactly | factory/registry.py:421-448 | After a registration the slug's record has this path, its manifest name and the given or derived scopes, no other slug has the path, every other record is as it was; the slugs that lost it are told, changed means the records differ, and the file is written exactly then or when it was missing |
| Registry.RegisterRefusesAfterWriting | factory/registry.py:424-448 | Exactly when a registration writes the file and then refuses |
| Registry.WritesThenRefuses | factory/registry.py:440-443 | One document and one registration that writes and is refused |
| Registry.ForgetsExactly | factory/registry.py:465-477 | Forgetting removes exactly the one record and returns it, and writes if and only if there is one in a readable document |
| Registry.ForgetUndoesRegister | factory/registry.py:424-477 | Forgetting gives back the document that a registration of a new slug and path started from |
| Registry.ReRegistering | factory/registry.py:438-448 | Registering the same record again changes and writes nothing |
| Registry.SeedsAreASet | factory/registry.py:497-551 | Permuting or repeating the seeds changes neither the outcome nor the document |
| RegistryEffects.RebuildAnswers | factory/registry.py:497-532 | A rebuild is refused if and only if a seed has no manifest, the document is unreadable and there are no seeds, or a new seed's slug is taken by a record or another new seed; a refusal leaves the file, and recovered means it was unreadable |
| RegistryEffects.RebuildKeeps | factory/registry.py:534-551 | A record stands, as it was, if and only if its path is a directory, and is told pruned if and only if not |
| RegistryEffects.RebuildAdopts | factory/registry.py:521-551 | A seed no record knew is recorded under the slug of its name, with its manifest and derived scopes, and told adopted if and only if it is a directory, and told pruned if not |
| RegistryEffects.RebuildOnly | factory/registry.py:516-551 | Nothing else is left in the document or told of |
| RegistryEffects.RebuildWrites | factory/registry.py:542-543 | The file is written if and only if it was missing or unreadable, a seed was new or a record dead |
| Registry.LiveRecordsStand | factory/registry.py:516-540 | A rebuild leaves each live record untouched, drops each dead one and adds only living seeds under the slug proposed for them |
| Registry.RebuildTwice | factory/registry.py:497-551 | A second rebuild over the same seeds does nothing if and only if every seed is a directory |
| Registry.SeedKnownAfter | factory/registry.py:516-540 | After a rebuild a seed has a slug if and only if it is a directory |
| RegistryFiles.RegistryFile.Register | factory/registry.py:415-448 | The loop over the document drops every other slug of the path, and the file, outcome and refusals are those of the set-level command, which `RegisterAnswers` and `RegistersExactly` fix record by record |
| RegistryFiles.RegistryFile.Forget | factory/registry.py:464-477 | The slug is gone and its record returned, every other record is as it was, and the file is untouched when the slug is unknown or the command refused |
| RegistryFiles.RegistryFile.Rebuild | factory/registry.py:497-551 | The rebuild loops leave the file and the outcome of the set-level rebuild, which the theorems of `RegistryEffects` fix record by record |
| RegistryFiles.AdoptSeeds | factory/registry.py:516-532 | The seed-by-seed loop succeeds if and only if the unknown seeds propose distinct slugs that miss every existing one, and then has adopted them all |
| RegistryFiles.PruneDead | factory/registry.py:534-540 | The pruning loop keeps exactly the records whose path is a directory |
| RegistryRuns.Linearizable | factory/registry.py:353-359 | Over every interleaving of processes, killed anywhere: the file is the landed commands applied in lock order, each answer is the sequential one at its point, that point lies after the request and after every command answered before it, each unlocked load is one whole committed document, and at most one process is inside the lock |
| RegistryRuns.InvStep | factory/locking.py:66-85 | Every step of every process keeps the lock and staging invariant |
| RegistryRuns.CommandIsARun | factory/registry.py:353-448 | Whenever no one holds the lock, any command can run to its end, and what it does to the file and answers is the sequential step |
| RegistryRuns.KillLeaves | factory/locking.py:66-85 | A process killed anywhere leaves the file and the landed commands, and frees the lock if it had it |
| Locking.Acquire | factory/locking.py:66-85 | Waits at most the polls that cover the timeout plus one attempts, exactly one for no timeout, and gives up only after the deadline with every attempt refused |
| Packets.GatherStaysBudgeted | factory/attestation/archive.py:380-409 | For every selection the attachments have distinct safe names, are exactly the items with an archive name, and total at most `max_total_bytes` |
| Packets.IncludedAreAttached | factory/attestation/archive.py:255-273 | An item is included if and only if it has an archive name |
| PacketMembers.SourceMeans | factory/attestation/archive.py:255-273 | A capture's bytes are taken if and only if it was permitted and kept, is no raw transcript, could be read and has the digest recorded for it; each refusal has its word |
| PacketMembers.CaptureTaken | factory/attestation/archive.py:384-409 | One turn of the export with a capture: its item, its archive name, its content and the new total, in each case, and failure exactly when no safe free name is left |
| PacketMembers.NoCaptureTaken | factory/attestation/archive.py:180-191 | Without a capture the identity is listed missing; captures that differ end the export |
| PacketMembers.BaseNameIs | factory/attestation/archive.py:395-400 | The equations that fix the name of every path |
| Packets.OverflowEndsAttaching | factory/attestation/archive.py:402-408 | Nothing selected after the first overflow is attached |
| PacketArchives.VerifierAcceptsExport | factory/attestation/archive.py:442-479 | The verifier returns the exporter's manifest if and only if the archive is within limits and, under strict, everything recorded is included |
| PacketMembers.PackedMembers | factory/attestation/archive.py:456-471 | A packed archive has the manifest, its digest, the report and the attachments, each with its bytes and size, and nothing else |
| PacketMembers.ManifestLists | factory/attestation/archive.py:421-429 | The manifest has one entry for each content: its size, its digest, and the identity and sensitivity of the first item attached under its name |
| PacketMembers.ManifestSays | factory/attestation/archive.py:415-454 | Schema, format, subject, revision and predecessor, the digest of all contents joined in order, and for each key the status of its last item |
| PacketArchives.ExportVerifies | factory/attestation/archive.py:380-479 | The same for every evidence set and selection the export loop gets through |
| PacketArchives.StrictExportVerifies | factory/attestation/archive.py:577-584 | For identities of distinct keys, strict verification of an export within limits accepts exactly the complete ones |
| PacketArchives.BarFreeExportVerifies | factory/attestation/archive.py:577-584 | In particular for distinct identities free of the bar character |
| PacketArchives.StrictMeansComplete | factory/attestation/archive.py:411-418 | Strict verification and completeness agree on every list of items for a selection if and only if its identities have distinct keys |
| PacketArchives.StrictSeesLast | factory/attestation/archive.py:415-418 | For any identities, strict verification passes if and only if the last item of every key is included |
| PacketArchives.BarHidesIncomplete | factory/attestation/archive.py:56-57 | One selection of two identities with one key, exported through the gather loop with an item missing: strict verification accepts the archive within any limits |
| PacketArchives.KeyInjective | factory/attestation/archive.py:50-57 | Identities free of the bar character have distinct keys |
| PacketArchives.ManifestFixesContent | factory/attestation/archive.py:562-576 | Two accepted archives with one manifest have the same names and the same bytes under each |
| PacketMembers.AcceptsExactly | factory/attestation/archive.py:509-585 | The verifier accepts an archive for a manifest if and only if it is within the limits; its names are distinct, relative, free of upward parts and no directories; it carries that manifest and the manifest's own digest; its members are those and the listed ones, the report among them; each listed one has the recorded size and digest, and all joined in order the content digest; schema and format are right; and under strict every recorded status is included |
| PacketArchives.VerifyPacket | factory/attestation/archive.py:509-586 | The checks in the order the code makes them accept exactly the archives the specification accepts, which are those `AcceptsExactly` describes |
| PacketArchives.CheckEntries | factory/attestation/archive.py:561-573 | The loop with its running total passes if and only if every listed entry has its size and digest |
| PacketArchives.RunningTotalFits | factory/attestation/archive.py:527-530 | The loop's running total can never exceed a limit the whole archive met |
| PacketArchives.GatherSelection | factory/attestation/archive.py:380-409 | The export loop computes the gathered items and contents, with one attachment per included item and within the total |
| PacketHistory.RunKeepsHistory | factory/attestation/archive.py:430-441 | Every run of exports keeps the history: distinct revisions, distinct content digests, each revision the hash of its evidence and its predecessor |
| PacketHistory.PacketsOfAHistory | factory/attestation/archive.py:432-441 | A packet's predecessor is the greatest revision published strictly before it, so the links never cycle and end at the first packet |
| PacketHistory.LinksFollowOrder | factory/attestation/archive.py:438-438 | The links retrace the publication order if and only if every packet but the newest had the greatest revision of its time |
| PacketHistory.LinksSkip | factory/attestation/archive.py:438-438 | Three exports whose second revision is below the first: the third names the first as its predecessor |
| PacketHistory.PublishedStays | factory/attestation/archive.py:482-486 | A published packet stays, unchanged, through every later export |
| PacketHistory.ReExportIsStable | factory/attestation/archive.py:433-436 | Evidence whose export was not refused, exported again after anything else, gives the revision and predecessor it first got and changes no packet |
| PacketHistory.RefusedExactly | factory/attestation/archive.py:482-486 | An export is refused if and only if a published packet has its content digest and differs elsewhere |
| PacketHistory.PublishesExactly | factory/attestation/archive.py:430-486 | In any run: new content is published under the hash of its identity and of the greatest revision before it, beside everything there was; known content is given its packet again if and only if that holds the same evidence |
| PacketHistory.UnframedJoin | factory/attestation/archive.py:430-430 | Whatever the report and the hash: moving bytes from the end of one attachment to the start of the next gives different contents with one content digest |
| PacketHistory.UnframedIsRefused | factory/attestation/archive.py:430-486 | Of two exports of those contents the second is refused, although its evidence differs |
| PacketHistory.StampIsManifest | factory/attestation/archive.py:442-454 | What a history publishes is the manifest the exporter builds |
| Resolutions.FailureIsAnswered | factory/attestation/report.py:76-101 | In a fully fixed report, under safe ids, each failure has a valid, strictly later pass of another revision under the same non-empty criteria |
| Resolutions.FullyFixedExactly | factory/attestation/report.py:104-118 | A report is fully fixed if and only if there was an objection, nothing contradicts, disposes or leaves it unjudged, each failed score and each explicit objection is fixed by the last reply to its evaluation, and no valid evaluation complained without a score |
| Resolutions.ResolvesExactly | factory/attestation/report.py:76-101 | Each status of an objection holds if and only if its case does: the first disposition names itself, a judge that did not run keeps its word, and fixed means the last later pass of another revision is valid under the same named criteria |
| Resolutions.DisposedMeans | factory/attestation/report.py:69-72 | Beyond the records there is one objection for each id they lack that a disposition has, as the first one states it |
| Resolutions.WordlessMeans | factory/attestation/report.py:117-117 | The further unverified resolutions are those of valid evaluations with feedback and no score |
| Resolutions.ClosedForGood | factory/attestation/report.py:104-118 | Under safe ids, no evaluation of greatest ordinal among those recording a scenario fails it in a fully fixed report |
| Resolutions.ClosedExactlyUnderSafeIds | factory/attestation/report.py:92-118 | Every fully fixed report over a sequence of ids is closed for good if and only if a repeated, non-empty id is everybody's |
| Resolutions.SharedIdHidesFailure | factory/attestation/report.py:92-98 | With a shared evaluation id, a fully fixed report whose latest evaluation fails |
| Resolutions.GatherObjections | factory/attestation/report.py:66-73 | The loops gather every failed score, then the explicit objections, then one objection for each disposition nobody raised |
| UsageTeardown.ReadFinalUsage | factory/activities/usage_activities.py:665-706 | At most three rounds, none after a rejection or a confirmation. The reading is complete if and only if a round made confirmed it, and then it is that round's; otherwise it has the last spend read, an aggregate that was read and is at least as good as every other, and is partial exactly when that counted a token; there is none if and only if no spend and no row was read |
| UsageTeardown.CompleteIsStable | factory/activities/usage_activities.py:690-703 | A complete reading had two adjacent successful log reads with one aggregate, natural token counts and a spend within tolerance of the last one read |
| UsageTeardown.StableIsComplete | factory/activities/usage_activities.py:665-706 | The first such round the loop reaches ends it with a complete reading |
| UsageTeardown.BestOfReads | factory/activities/usage_activities.py:709-714 | Otherwise the reading kept is at least as good as every log read made |
| UsageTeardown.EarliestBestIsKept | factory/activities/usage_activities.py:692-692 | Of equally good log reads the earliest is kept |
| UsageTeardown.LastSpendIs | factory/activities/usage_activities.py:681-685 | The spend kept is the last one read, and none if and only if none was read |
| UsageTeardown.QualityOrders | factory/activities/usage_activities.py:709-714 | Which measurement beats which: prompt and completion first, then requests, then the cache columns |
| UsageTeardown.CloseMeans | factory/activities/usage_activities.py:697-697 | The tolerance: a hundred-millionth, or a millionth of either side |
| UsageTeardown.AggregateIsSums | factory/usage/aggregate.py:39-98 | Each column is the sum of its own reports and none if there are none, each row is one request, and the spend is the sum of the spends |
| AttemptLedger.AliasInjective | factory/activities/usage_activities.py:272-290 | Distinct colon-free attempts never share a key alias |
| AttemptLedger.AliasIs | factory/activities/usage_activities.py:289-290 | The alias is epic, node, attempt and persona, and the invocation if there is one, with colons between |
| AttemptLedger.UpsertKeepsKeyed | factory/usage/ledger.py:304-337 | The upsert keeps one row an alias and adds no alias but its own |
| AttemptLedger.UpsertNeverForgets | factory/usage/ledger.py:319-329 | A row keeps its id, never drops in quality and never loses a spend |
| AttemptLedger.UpsertMeans | factory/usage/ledger.py:304-343 | A new alias gets a new row; a known one keeps its id and place, takes the new dimensions, keeps the old reading if and only if that is worth more, and the old cost if and only if the new one has no spend or is worth less |
| AttemptLedger.RecordMeans | factory/activities/usage_activities.py:850-903 | The row's dimensions are the lease's, its counts those measured or none, and its spend the one measured or else, for a lease with a key, the last snapshot's |
| AttemptLedger.Store.Teardown | factory/activities/usage_activities.py:613-643 | Refused if and only if a dimension is blank, by the ledger if and only if the attempt is below one, and then ledger and keys are untouched; a key dies only after an attributed row for its alias is in |
| AttemptLedger.RevokedIsAccounted | factory/activities/usage_activities.py:578-643 | In every run of starts, crashes, refusals and re-runs, a revoked key and a finished teardown have exactly one row, and it can be attributed |
| AttemptLedger.TeardownIsARun | factory/activities/usage_activities.py:613-643 | What the teardown does with nothing in between is a run of that machine |
| Decisions.CallsAgree | factory/activities/notify_activities.py:397-505 | Over every interleaving, crash and database fault, at most one call says it settled a row, and all calls that answer at all answer what the row says |
| Decisions.SettledByOne | factory/verify/store.py:1437-1440 | A row is settled if and only if exactly one update won it, and it has that update's very choice, or the very reply under ANSWERED, or EXPIRED for a lapse |
| Decisions.ExpiredLapsed | factory/verify/store.py:1559-1568 | In every run a row reads EXPIRED if and only if a lapse won it |
| Decisions.RowBeforePage | factory/activities/notify_activities.py:397-421 | In every run a page has a row, a row marked as paged was paged, and no question is paged twice |
| Decisions.SettledForGood | factory/verify/store.py:1745-1748 | What a run has settled every continuation keeps |
| Decisions.SettleIsARun | factory/activities/notify_activities.py:424-505 | What the settling method does with nothing in between is a run of the interleaved machine, ending in the same table and answer |
| Decisions.SendIsARun | factory/activities/notify_activities.py:397-421 | Whenever the method sends, its effect is that of its own steps in the interleaved machine |
| Decisions.UnsuppliedIsPagedOnce | factory/activities/notify_activities.py:397-421 | In every run an id that no send was supplied with is paged once at most |
| Decisions.EscalationPagedAgain | factory/activities/notify_activities.py:402-409 | A supplied escalation id whose row is there is paged again, settled or not |
| Decisions.StepIsLater | factory/verify/store.py:1559-1568 | No step removes a row or changes a settled one |
| Decisions.DecisionStore.Settle | factory/activities/notify_activities.py:482-505 | A winning choice leaves and answers that choice, a winning reply leaves ANSWERED with its text, a winning lapse EXPIRED; with anything happening between the update and the re-read, what the call answers is what the row says then and in every later table; it says "settled here" if and only if it found the row open |
| Decisions.DecisionStore.Send | factory/activities/notify_activities.py:381-421 | Row, page, mark, in that order, with the exact cases of refusal and adoption |
| Personas.UpdatePersonaLines | factory/cli/install.py:409-443 | The scan over the lines, edited in place, gives the declarative edit of the text |
| Personas.EditPersona | factory/cli/install.py:426-442 | One persona's scan rewrites exactly the lines that lie under a header of that name with no block end between, and leaves the array otherwise as it was |
| Personas.EditsExactly | factory/cli/install.py:417-442 | In characters: a line under a header of the name, with no line at the margin between, that begins with a field the update gives becomes the same indent in spaces, the field and the value, null, true and false spelled out; every other line stays |
| Personas.SplitsAt | factory/cli/install.py:423-423 | Where any text is split into lines |
| Personas.OnlyKeyLinesChange | factory/cli/install.py:426-442 | For every list of updates, whatever the names: lines keep their number and order, and a line that changes holds the same key, model or fallback, at the same indent before and after, with a value from the updates |
| Personas.OnlyNamedLinesChange | factory/cli/install.py:426-442 | For plain names it lies moreover in a named block of the original text and has the value of the last update whose block it is in |
| Personas.LastWriteWins | factory/cli/install.py:424-442 | For plain names, however blocks overlap, each line ends as the last update that touches it in the original text leaves it |
| Personas.LastWriteExactlyWhenPlain | factory/cli/install.py:424-442 | For a name beside plain ones that law holds in every text if and only if the name is plain |
| Personas.EditingTextTwice | factory/cli/install.py:423-443 | For names that are not mistaken for keys and values whose only break is a final carriage return, editing the edited text again changes nothing; it reads back as the edited lines, less those carriage returns |
| Personas.StableExactlyWhenSettled | factory/cli/install.py:417-422 | A value is safe in every update of plain names in every text if and only if its only break, if any, is a carriage return at its end |
| Personas.UnsettledGrows | factory/cli/install.py:440-443 | Any other value makes some text longer with a second edit |
| Personas.LineFeedGrows | factory/cli/install.py:440-443 | One text and one value with a line feed in it that grow so |
| Personas.TrailingCommentIsLost | factory/cli/install.py:440-440 | A rewritten line keeps no comment of its own |
| Personas.FlatUpdatesCommute | factory/cli/install.py:424-442 | On the flat layout updates to different personas commute |
| Personas.StableExactlyWhenPlain | factory/cli/install.py:431-433 | A name is safe in every update of every text if and only if it starts with neither `model:` nor `fallback:` |
| Personas.UpdatesCommute | factory/cli/install.py:424-442 | Two updates to plain names commute if and only if no line lies in both blocks and is given two values |
| Personas.CommuteExactlyWhenPlain | factory/cli/install.py:424-442 | For a name beside plain ones that law holds in every text if and only if the name is plain |
| Personas.ReadsAsUpdated | factory/cli/install.py:426-442 | On the flat layout a persona's field reads as the value given for it where it is present, and everything else reads as before |
| Personas.ReadsBackExactly | factory/cli/install.py:443-443 | Joined lines split back into themselves if and only if there is one and none holds a line break |
| Refresh.NothingIsLost | factory/activities/roadmap_activities.py:258-317 | However a refresh ends and wherever git fails, every commit a local branch held is still held by one |
| Refresh.ProceedsOnlyForward | factory/activities/roadmap_activities.py:307-316 | A refresh that proceeds found no tracked change, leaves other branches alone, moves this one only to a descendant, its remote, and leaves the tracked files as the remote has them |
| Refresh.RefusesExactly | factory/activities/roadmap_activities.py:208-234 | It refuses if and only if a tracked file is changed or no walk from the remote reaches the branch, and then HEAD, branches, index and files are as they were |
| Refresh.EndsExactly | factory/activities/roadmap_activities.py:288-317 | A refresh succeeds if and only if no git command fails on its own, nothing is staged, edited, deleted or unpushed, the remote has the branch and no untracked file is in the way of the checkout; it refuses if and only if something is at risk |
| Refresh.LeavesExactly | factory/activities/roadmap_activities.py:307-316 | When it succeeds: HEAD on the branch, which stands at its remote whether it was there before or not, the other branches as they were, the remote's files as tracked, and of the rest what no commit on the way had |
| Refresh.FailsExactly | factory/activities/roadmap_activities.py:288-317 | When it does not: nothing but the fetch has happened before the checkout, and past it no branch has moved but a new one at its remote |
| Refresh.DetachedCommit | factory/activities/roadmap_activities.py:219-231 | A detached HEAD's commit is still held if and only if a branch held it or the remote reaches it |
| Refresh.DetachedIsDropped | factory/activities/roadmap_activities.py:219-231 | One clone whose refresh succeeds and leaves such a commit to no branch |
| Refresh.UntrackedFile | factory/activities/roadmap_activities.py:183-187 | An untracked file keeps its bytes if and only if the remote's tree, and failing that the tree checked out on the way, has no other bytes for its path |
| Refresh.UntrackedIsOverwritten | factory/activities/roadmap_activities.py:183-187 | One clone whose refresh succeeds and replaces an untracked file |
| Refresh.LocalBranchOnly | factory/activities/roadmap_activities.py:202-205 | A branch without a remote ends in a git error with no branch moved, although HEAD has moved to it |
| Refresh.RunLosesNothing | factory/activities/roadmap_activities.py:258-317 | Over any run of refreshes and work that gives up no commit, what a branch once held stays held |
| Refresh.PastIsClosed | factory/activities/roadmap_activities.py:222-231 | An ancestor's history is part of one's own, so an empty log means every commit is on the remote |
| Refresh.Clone.WorkAtRisk | factory/activities/roadmap_activities.py:177-255 | Lists exactly the changed tracked paths, and unpushed commits exactly when the branch has some |
| Refresh.Clone.RefreshToDefault | factory/activities/roadmap_activities.py:288-317 | Fetch, question, checkout and reset in this order, with any of them failing, give the outcome and clone the theorems speak of |

## Left out

Skill ownership

- The package inventory, release validation, rendering and client lookup: no ownership state.
- Temporary siblings of atomic writes: a write either happens or does not; a leftover `.tmp` file is not modelled.
- The tree starts at HOME, and links are followed with a bounded number of hops; paths above HOME and hard links are not modelled.
- SkillTeardowns.TeardownMatchesSurvey: assumes the canonical entries come before the alias entries in sorted order, which the two roots' names give; beyond that any order.
- Which directories pruning removes, and in which order, is chosen freely by the environment; that the exact directories are restored is not claimed.
- SkillRuns.OwnershipSafety: a condition on the home that suffices; `OwnershipExactly` is the exact one, on the turns the teardowns reach.
- The ways a manifest's JSON can be malformed are one case, untrusted, which every command refuses.

Registry

- Registry.ReachableIsOneToOne: the Unicode decomposition used by `normalize_slug` is a parameter, and a rebuild's proposals are tied to it by `Proposes`.
- A record is its path, manifest and scopes: keys beside these, and the spellings of empty scopes, are not told apart, so a registration that only normalises them counts as unchanged.
- Rendering of the registry and the format of the file: a document is a value.
- Locking.Acquire: time is real-valued, and a sleep lasts at least as long as asked.

Packets

- PacketHistory.RunKeepsHistory: revisions are numbers, since equal-length hex strings order as numbers do; the directory holds only packets that `export_packet` wrote, and the optional copy to another output path is not modelled.
- The exporter's own refusals before gathering (missing stores, unknown subject, duplicate selection), of too many names, and under `strict` after gathering; redaction, credential scans and the descriptor checks of the artifact reader, whose answer is a parameter.
- PacketArchives.VerifierAcceptsExport: the archive's file size and compressed sizes are parameters.
- Malformed shapes inside a manifest's JSON.

Usage and decisions

- UsageTeardown.ReadFinalUsage: costs are real numbers, so the tolerance is exact; a request's cancellation is not modelled.
- AttemptLedger.RevokedIsAccounted: key issuance, subscription and codex readings, observations and the launch journal are not modelled.
- Decisions.CallsAgree: rows are never deleted, as no statement of the store deletes one; a store rebuilt from nothing under a running workflow is outside the model.
- Decisions.DecisionStore.Settle: a choice outside the closed enumeration raises before the store is touched, and is no settling call of the model.
- AttemptLedger.RecordMeans: a row's cache and request columns, which travel with its token counts, its termination and its times are not modelled.
- The time and channel recorded beside a resolution: no call reads them back.
- Message text, transports, reply routing and the operator's signals to workflows.

Persona file and refresh

- Personas.EditingTextTwice: goes one way for sets of updates; `StableExactlyWhenPlain` and `StableExactlyWhenSettled` are the exact conditions name by name and value by value.
- Values other than text, booleans and null are taken by the text they print as.
- Personas.ReadsAsUpdated: speaks of the lines that give a persona its field, not of a YAML parser.
- Refresh.NothingIsLost: submodules, several remotes, tags that share the branch's name, directory and file conflicts and file modes are not modelled; nor is how the declared branch is found.
- Reflogs, which would still reach a detached commit, are not modelled.
