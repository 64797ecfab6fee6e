# Verified model of the Fastly provider's migration and reconcile core

Dafny models of the three parts of the repository where a mistake loses data, with proofs of what each
promises. `dafny verify dfyconfig.toml` checks everything.

- **diff/** is the line diff of migration previews: the exact part by dynamic programming, the anchors for
  large inputs, the grouping into hunks, and the text of the patch. Minimality and the patch round trip are
  proved down to the bytes of each file of a plan (`WholePatch`).
- **rewrite/** is the source-preserving rewriter. `Splice`, `Reindent`, `Nest`, `Spans` and `Append` work on
  bytes, with the parser's positions as inputs. `Tree`, `Translate`, `TranslateAll`, `BlockNames`,
  `Expressions`, `Commute` and `Idempotent` work on a tree of attributes and blocks. `Build` folds edits into a
  plan. `Disk`, `Install`, `InstallSafety`, `InstallTheorems`, `InstallSchedule` and `Installer` are the
  transactional installer on a file tree whose every system call may fail.
- **migrate/** compiles compatibility actions into an ordered edit list and proves that running the list
  equals translating the resource by all its rules at once.
- **analyze/** is the walk over local modules.
- **reconcile/** drives a remote collection to a desired one, alone (`ReconcileRun`), guarded (`Guards`), or as
  a parent and dependent pair (`Pairs`), with the plan-time checks it relies on (`References`).
- **acl/** is the batch and the life cycle of access control list entries.

Code that loops or updates fields is written as methods and classes, proved against functions; the lemmas are
about those functions. A call that may fail takes its answer from a nondeterministic choice, or from a
parameter that stands for every possible one.

Where the code and its promises part, the code is modelled:

- The rollback does not always keep an original. If restoring a file fails and the following `os.Stat` of its
  backup fails too, the cleanup removes the only copy. `InstallSchedule.LostIff` says for which failing calls
  this happens: every call of a run has a number known beforehand, and the condition is on those numbers. Two
  failing calls never lose anything, three can, and `InstallExample.OriginalCanBeLost` is an instance.
- `replace` with two replacements at one start can depend on their order in the list.
  `EqualStarts.OrderMattersIff` says for which lists it does.
- The compiler does not check that the rules of a resource are independent. `Commute.SwappableIffIndependent`
  shows that for two rules nothing less keeps the order of their edits from mattering: `a` to `b` and `b` to
  `c` on a body with `a` gives `c` in one order and an error in the other.
- The preview does not show a file that would be created empty.
- A compiled rename can fail although its attribute was found in the resource, when another block of the same
  type lacks it. The condition under which all edits of a resource go through is `Fits`, one per rule, checked
  on the original body; it is necessary and sufficient.
- Deleting an entries resource also removes prefixes that existed before it was created.

## Model

| member | source | states |
|---|---|---|
| `Lines.SplitThenJoin` | internal/migration/migrate/diff.go:52-61 | joining the lines of a text gives the text back, and the lines are each terminated except possibly the last |
| `Lines.JoinThenSplit` | internal/migration/migrate/diff.go:52-61 | splitting the joined lines of a well-formed file gives exactly those lines back |
| `LcsTable.GuardBoundsTable` | internal/migration/migrate/diff.go:88-90 | the guard of the exact path keeps the table at 400002 cells at most, whatever the shape of the input |
| `LcsTable.FillTable` | internal/migration/migrate/diff.go:118-133 | every cell of the flat table holds the length of a longest common subsequence of the two suffixes it stands for |
| `Script.LcsLengthBounds` | internal/migration/migrate/diff.go:121-133 | the recurrence of the table is a true maximum: no common subsequence of the two files is longer |
| `Script.KeptIsCommon` | internal/migration/migrate/diff.go:63-116 | the lines any script keeps form a common subsequence of its two sides |
| `Script.KeepingLcsIsMinimal` | internal/migration/migrate/diff.go:118-155 | a script that keeps that many lines is minimal: no faithful script removes and adds fewer lines |
| `Anchors.UniqueAnchors` | internal/migration/migrate/diff.go:157-209 | the anchors pair lines that occur once on each side, increase strictly in both indices, and no such chain is longer |
| `Anchors.LongestChain` | internal/migration/migrate/diff.go:182-208 | the tails, predecessor links and binary search find a longest chain, increasing in both components, of the sorted candidate pairs |
| `AnchorBound.LcsBoundsChains` | internal/migration/migrate/diff.go:157-209 | no chain of unique shared lines is longer than a longest common subsequence |
| `DiffEngine.Differ.AppendLcs` | internal/migration/migrate/diff.go:118-155 | the walk through the table appends a faithful script that keeps exactly as many lines as a longest common subsequence, within the table limit |
| `DiffEngine.Differ.ProcessCore` | internal/migration/migrate/diff.go:79-109 | on each of the four paths the script is faithful; on the exact ones it keeps a longest common subsequence; the recursion around anchors terminates on the combined length |
| `DiffEngine.Differ.AroundAnchors` | internal/migration/migrate/diff.go:100-107 | the segments between anchors are solved in order and joined by the anchors, faithfully, keeping at least as many lines as there are anchors |
| `DiffEngine.Differ.Process` | internal/migration/migrate/diff.go:66-113 | stripping the common prefix and suffix loses neither faithfulness nor optimality |
| `DiffEngine.DiffLines` | internal/migration/migrate/diff.go:63-116 | for all inputs: dropping insertions gives before, dropping deletions gives after; minimal whenever the core is solved exactly, so whenever the line counts multiply to at most 200000; and on every path, the bounded fallback included, at least as many lines are kept as any chain of unique shared lines has |
| `DiffEngine.SmallIsExact` | internal/migration/migrate/diff.go:85-90 | files whose line counts multiply to at most 200000 are solved exactly, whatever they share at their ends |
| `Hunks.ShownOnce` | internal/migration/migrate/diff.go:232-264 | each changed step is shown by exactly one hunk |
| `Hunks.ZeroCountMeansEmptySide` | internal/migration/migrate/diff.go:240-252 | a hunk counts no lines on a side exactly when that whole side is empty, and then its start is 0 |
| `Hunks.HunksCarryTheEdit` | internal/migration/migrate/diff.go:211-267 | applying the hunks to before, checking positions, counts and context lines, gives after |
| `PatchText.HunksOwn` | internal/migration/migrate/diff.go:251-264 | the text of headers and bodies, with the missing final newline marker, reads back as the hunks it was written from |
| `PatchText.HunkText` | internal/migration/migrate/diff.go:251-264 | the printed form: the header with both positions and counts, then space, minus or plus in front of shared, deleted and inserted lines, and the marker after a line without a line break |
| `WriteDiff.GroupEnd` | internal/migration/migrate/diff.go:232-239 | a group takes in the next change exactly while it is near enough for their contexts to touch |
| `WriteDiff.WriteHunks` | internal/migration/migrate/diff.go:211-267 | the text is that of the hunks of a grouping: every range one change group with three lines of context, never over seven unchanged lines, a step left unshown between any two, nothing changed outside; it turns the old side into the new one, and is empty exactly when nothing changed |
| `WriteDiff.HunksReachAfter` | internal/migration/migrate/diff.go:211-267 | for any faithful script and its grouping, reading the rendered text and applying it to before gives after, byte for byte |
| `WriteDiff.DiffFile` | internal/migration/migrate/diff.go:31-48 | the hunks written for one file turn its Before into its After using their text alone, are empty exactly when the two are equal, and otherwise show a faithful script by its changes and their context, one that no script beats when the line counts multiply to at most 200000 |
| `WholePatch.SectionsOwn` | internal/migration/migrate/diff.go:38-48 | the text of file headers and hunks, one section a file, reads back as the sections it was written from |
| `WholePatch.HeaderText` | internal/migration/migrate/diff.go:38-44 | the two header lines of a file, and that a created file comes from /dev/null |
| `WholePatch.SectionsApply` | internal/migration/migrate/diff.go:25-50 | applying the sections of a plan to the tree it was made from gives each changed file its After, creating where there was none, and touches no other path |
| `WholePatch.WriteAll` | internal/migration/migrate/diff.go:25-50 | the diff of a whole plan has one section for each changed file in path order, and its text, read back and applied to the tree the plan was made from, gives the tree the plan leads to; only files created empty are not in it |
| `Splice.SortDescending` | internal/migration/rewrite/parse.go:59-66 | the exchange loop leaves the same replacements sorted by descending start, and a list already sorted as it is |
| `Splice.Replace` | internal/migration/rewrite/parse.go:55-77 | for distinct starts: success exactly when the ranges are valid and pairwise disjoint, and then the result is the simultaneous splice |
| `Splice.SpliceIgnoresOrder` | internal/migration/rewrite/parse.go:55-77 | neither success nor the splice depends on the order of the list |
| `Splice.SpliceLength` | internal/migration/rewrite/parse.go:68-76 | the result has the source's length minus what is deleted plus what is inserted |
| `Splice.ValueInPlace` | internal/migration/rewrite/parse.go:68-76 | each value stands where its range was, shifted by what the ranges before it removed and added |
| `Splice.SpliceUndone` | internal/migration/rewrite/parse.go:68-76 | undoing any choice of the replacements in the result leaves exactly the splice of the others: every byte outside the ranges is kept in place |
| `Splice.SpliceReversible` | internal/migration/rewrite/parse.go:68-76 | undoing all of them restores the source |
| `EqualStarts.OrderMattersIff` | internal/migration/rewrite/parse.go:59-76 | two orders the sort can leave a list in give different results exactly when some order goes through and two different replacements at one start clash: one of them cuts, or both insert texts that do not commute |
| `EqualStarts.AcceptedIff` | internal/migration/rewrite/parse.go:68-72 | whether a list goes through depends on its ranges alone, each ending at or before the start of the one before it |
| `EqualStarts.DeletionAndInsertion` | internal/migration/rewrite/parse.go:55-77 | run on the two orders of a deletion and an insertion at one start, replace succeeds on one and refuses the other |
| `Reindent.ReindentAttribute` | internal/migration/rewrite/nest.go:196-236 | the method computes the moved text or refuses: every non-blank line exchanges the old for the new indentation and only the declaration is renamed |
| `Reindent.RenameDeclaration` | internal/migration/rewrite/nest.go:216-235 | the walk with a running offset renames exactly the first line that is not a comment, and refuses anything that is not the declaration |
| `Reindent.ReindentUndone` | internal/migration/rewrite/nest.go:196-236 | moving back with indentations and names exchanged restores the segment byte for byte |
| `Reindent.ReindentMoves` | internal/migration/rewrite/nest.go:196-236 | a move goes through exactly when every line that is not blank carries the old indentation and the first line that is no comment declares the old name; then that line changes indentation and name, every other line its indentation only, and each keeps the rest |
| `Nest.FindAttributeLines` | internal/migration/rewrite/nest.go:154-194 | the upward loop finds the attribute's lines: every line it adds above is a comment carrying the attribute's indentation, and the line above those is not |
| `Nest.CommentsOnly` | internal/migration/rewrite/nest.go:179-193 | what the loop adds are complete lines, all of them comments with the attribute's indentation, and as many as there are without a break |
| `Nest.BraceLineStaysOut` | internal/migration/rewrite/nest.go:138-194 | the line of a closing brace outside the attribute's tokens is none of the attribute's lines |
| `Nest.AttributeLinesApart` | internal/migration/rewrite/nest.go:154-194 | attributes with separate tokens have separate lines, attached comments included |
| `Nest.EditsClear` | internal/migration/rewrite/nest.go:49-112 | over any number of repeated parents, no two edits start together or reach into each other |
| `Nest.NestAttribute` | internal/migration/rewrite/nest.go:29-113 | when some parent cannot be edited, the reason of the first such parent and no change; else, on sound spans, always success, and the result is the splice of exactly one cut and one paste for each parent that has the attribute: its lines with the attached comments, put in front of the closing brace line of the target block two spaces deeper than it, or into a new block in front of the parent's own |
| `Nest.EditsMoveAll` | internal/migration/rewrite/nest.go:49-112 | the collected edits are the moves of all parents and nothing else, and they are missing exactly when some parent is ambiguous, has the attribute nowhere or twice, or cannot be edited safely |
| `Nest.SafeLinesIff` | internal/migration/rewrite/nest.go:154-194 | the lines of an attribute can be moved exactly when it stands first on its line, only a comment follows it, and none of its lines has a heredoc; the cut then starts at the first attached comment |
| `Nest.OnlyMovedTextChanges` | internal/migration/rewrite/nest.go:82-112 | taking the pasted texts out of the result leaves the same bytes as cutting the moved lines out of the source |
| `Nest.PasteCarriesCut` | internal/migration/rewrite/nest.go:82-107 | the paste lands in front of the line of the target block's closing brace when there is one and else of the parent's own, two spaces deeper than that line, and carries its cut: moving it back restores the segment byte for byte; a created block adds its two brace lines and nothing else |
| `Spans.RenameAttribute` | internal/migration/rewrite/rename.go:115-152 | after the identifier, idle and resource checks: with a body that has both names or neither, the error of the first such body; else, on sound name ranges, always success, replacing the old name in every body that has it, each once and nothing else |
| `Spans.NameEditsIff` | internal/migration/rewrite/rename.go:129-147 | a replacement is among the edits exactly when some matched body has the old name at its range |
| `Spans.RemoveAttribute` | internal/migration/rewrite/remove.go:23-45 | after the resource check, refuses exactly when the lines of some occurrence cannot be cut safely; else, on sound spans, cuts the lines of every occurrence and nothing else, and never ends in the overlap error |
| `Spans.CutEditsIff` | internal/migration/rewrite/remove.go:33-44 | a cut is among the edits exactly when it is that of some occurrence, from its first attached comment to its line break |
| `Spans.CutsClear` | internal/migration/rewrite/remove.go:33-44 | the line ranges cut for different attributes never overlap |
| `Append.AppendBlock` | internal/migration/rewrite/blocks.go:126-137 | the source is kept as a prefix, the block comes last, and exactly the line breaks missing for one blank line stand between |
| `Build.EachFileAlone` | internal/migration/rewrite/plan.go:92-137 | the fold over all edits succeeds exactly when every edit resolves to a file and every file's own fold succeeds, and stages for each file what its own edits make of it |
| `Build.InterleavingIsIrrelevant` | internal/migration/rewrite/plan.go:92-150 | edit lists with the same subsequence on every file succeed or fail alike and give the same plan |
| `Build.PlannedChange` | internal/migration/rewrite/plan.go:92-150 | a planned change parses, and one for a file that did not stand on disk comes of a first edit that may create it |
| `Build.PlannedIff` | internal/migration/rewrite/plan.go:92-150 | a change is planned exactly when its file has edits, it starts from what stands on disk with that mode, or from nothing with mode 0600, ends in the composition of the file's edits, and the two differ |
| `Build.OutcomeIff` | internal/migration/rewrite/plan.go:92-137 | a build goes through exactly when no edit is nil, unresolvable, first on a file that cannot be opened or created, failing on what the file's earlier edits made of it, or leaving text that does not parse; otherwise it names the first such edit and what is wrong with it |
| `Build.PlanIsUnique` | internal/migration/rewrite/plan.go:139-150 | the plan is determined by which changes it holds, whatever order the map yields them in |
| `Build.BuildPlan` | internal/migration/rewrite/plan.go:72-151 | succeeds exactly when no edit fails, as above, and else reports the first that does; the plan is strictly sorted by path and holds exactly the changes of files whose composed edits change something |
| `InstallTheorems.AttemptEnds` | internal/migration/rewrite/apply.go:55-104 | however the attempt ends, each entry is still waiting, installed, restored or reported, and in no state in between was an original gone from both its target and its own backup |
| `InstallTheorems.AllOrNothing` | internal/migration/rewrite/apply.go:32-105 | success puts every After in place; an error leaves every target as before except exactly those it reports; files outside the plan are untouched |
| `InstallTheorems.RefusesUnplanned` | internal/migration/rewrite/apply.go:55-65 | one file that is not as planned, in its contents, its mode or its existence, and the whole plan is refused before anything is written |
| `InstallTheorems.OriginalsReachableUntilCleanup` | internal/migration/rewrite/apply.go:66-104 | in every state before the cleanup the Before bytes of every existing file are at its target or at its own backup, whatever fails |
| `InstallTheorems.LostExactlyWhenUnaccounted` | internal/migration/rewrite/apply.go:43-53 | what the returned error tells: an original survives unless its restore failed and no recovery copy was reported, and then it is gone once the cleanup's removals worked |
| `InstallSchedule.LostIff` | internal/migration/rewrite/apply.go:32-193 | an original is lost exactly when the plan still fits the disk, its replacement differs, some later install's check or rename fails, and of three calls numbered in advance its restore and the stat of its backup fail and the removal of that backup works |
| `InstallSchedule.SeenBackupsSuffice` | internal/migration/rewrite/apply.go:182-191 | while no stat of a backup fails nothing is lost, whatever else fails |
| `InstallSchedule.TwoFailuresLoseNothing` | internal/migration/rewrite/apply.go:32-193 | a call in which at most two system calls fail loses nothing |
| `InstallSchedule.ThreeFailuresCanLose` | internal/migration/rewrite/apply.go:32-193 | for every plan, each original but the last has three system calls that lose it by failing |
| `InstallSchedule.AttemptRuns` | internal/migration/rewrite/apply.go:55-104 | the attempt is rolled back exactly when every call up to some install's check works and that check or its rename fails, and the rollback starts at the call numbered for it |
| `InstallSchedule.InstalledIff` | internal/migration/rewrite/apply.go:32-105 | a plan is installed exactly when every file is as planned and every one of the numbered calls up to the last rename works |
| `InstallSchedule.RollbackRuns` | internal/migration/rewrite/apply.go:162-193 | each restore is reported exactly when its numbered call fails, and its backup is spared exactly when its numbered stat then works |
| `InstallTheorems.NothingLeftBehind` | internal/migration/rewrite/apply.go:43-53 | when every cleanup removal works and rollback reported nothing, the temporary files are those there were before |
| `InstallExample.OriginalCanBeLost` | internal/migration/rewrite/apply.go:177-192 | the promise has an exception: a refused install, a failed restore and a failing stat of the backup lose the only copy, an instance of the condition above |
| `InstallSafety.InstallKeeps` | internal/migration/rewrite/apply.go:86-103 | every check and rename of the installing loop keeps the layout of entries, targets and backups |
| `InstallSafety.RestoreKeeps` | internal/migration/rewrite/apply.go:162-176 | every restore or removal of the rollback loop settles its own entry and disturbs no other |
| `Installer.Installer.MatchesSnapshot` | internal/migration/rewrite/apply.go:107-132 | true exactly when the target is as planned and could be read |
| `Installer.Installer.StageAll` | internal/migration/rewrite/apply.go:67-84 | stages replacements and backups entry by entry exactly as specified, stopping at the first failure |
| `Installer.Installer.InstallAll` | internal/migration/rewrite/apply.go:86-103 | checks and renames entry by entry, mutating the entries, as specified |
| `Installer.Installer.RollBack` | internal/migration/rewrite/apply.go:162-193 | restores in reverse order and marks recovery copies, as specified |
| `Installer.Installer.CleanUp` | internal/migration/rewrite/apply.go:43-53 | removes what the deferred cleanup removes |
| `Installer.Installer.Apply` | internal/migration/rewrite/apply.go:32-105 | the step by step program refines the specification the theorems above are about, system call by system call |
| `TranslateAll.RulesTranslate` | internal/migration/rewrite/rename.go:115-152 | attribute edits run one after the other, in any order and with repetitions, go through exactly when every rule fits the original body, and then equal translating by all rules at once |
| `TranslateAll.OrderIsIrrelevant` | internal/migration/migrate/compile.go:66-73 | the order in which the rules arrive, and duplicates, leave no trace |
| `TranslateExample.AnyOrderGoesThrough` | internal/migration/migrate/compile.go:66-73 | an instance that meets these conditions: two moves into a settings block not there yet and a nested rename go through in any order |
| `TranslateAll.StepInPlace` | internal/migration/rewrite/rename.go:115-152 | a rename or removal applied to an already translated body adds exactly its rule to the translation |
| `TranslateAll.StepInto` | internal/migration/rewrite/nest.go:49-108 | a move into the settings block does so wherever earlier moves left or created that block |
| `Expressions.ExpressionsKept` | internal/migration/migrate/compile.go:148-220 | at every depth: each attribute of a matched body keeps its expression at the one place its rule gives it, in place or in the settings block, unless a rule drops it; every attribute of the result comes from one of the source; no two meet |
| `Expressions.MatchedIff` | internal/migration/rewrite/parse.go:36-47 | the bodies an edit matches are exactly those at the positions whose block types are its path |
| `Expressions.BodyKept` | internal/migration/migrate/compile.go:66-110 | after block renames too: expressions as above, and every block keeps its position and labels, top-level ones under their new names, with at most the settings block added |
| `Commute.SwappableIffIndependent` | internal/migration/migrate/compile.go:66-110 | two rules, each fine by itself, give the same result in both orders on every body exactly when they are independent, the condition the compiler does not check |
| `TranslateAll.UntouchedBody` | internal/migration/rewrite/parse.go:36-47 | a body that no rule reaches is carried over unchanged |
| `Translate.StepAt` | internal/migration/rewrite/parse.go:36-47 | an edit at a path rewrites exactly the bodies matching the path, and fails exactly when one of them does not fit |
| `BlockNames.RenamingsTranslate` | internal/migration/rewrite/rename.go:64-99 | block renames, one after the other in any order, go through exactly when each finds its blocks under the old or the new name, and then rename all at once |
| `Idempotent.ChangeIsIdempotent` | internal/migration/rewrite/rename.go:79-151 | re-applying an attribute rename, removal, nesting or block rename that succeeded succeeds and changes nothing |
| `Idempotent.RenameResourceRepeats` | internal/migration/rewrite/rename.go:32-47 | a resource rename repeats as a no-op exactly when the old address was declared once |
| `Idempotent.EditIsIdempotent` | internal/migration/rewrite/blocks.go:34-50 | every edit kind, adding a moved block included, is idempotent on files that declare each address at most once |
| `Idempotent.AddMovedIff` | internal/migration/rewrite/blocks.go:34-50 | a text that is no address is refused; else a moved block is added exactly when none is unclassified or uses one of its addresses, kept when the first deciding block is the very move, and refused otherwise |
| `Idempotent.RenameResourceIff` | internal/migration/rewrite/rename.go:20-47 | a resource is relabelled where it is declared first, exactly when it is declared and its new address is not; the file is left alone when only the new address is; both or neither is refused |
| `Idempotent.InResourceIff` | internal/migration/rewrite/parse.go:26-34 | an edit of a body is made on the first resource of its address and nowhere else, and fails without one, unless it renames something to itself |
| `Idempotent.ChangeGoesThrough` | internal/migration/rewrite/rename.go:64-151 | what each edit asks of the bodies under its path, and that it goes through exactly then: one of the two names for a rename, one of the two places and no second target block for a move, one block of either type for a block rename, any body for a removal |
| `Idempotent.RepeatedBlocksCanFail` | internal/migration/rewrite/rename.go:130-141 | an attribute found in the resource can still make its rename fail, when another block of the type lacks it, shown on an input |
| `Compile.CompileResource` | internal/migration/migrate/compile.go:14-131 | the loops over actions and index compute the edits, the move and the issues that the theorems below are about: when it compiles, what is written, which move it records, and what running it does; any issue leaves no edit and no move |
| `Compile.CheckIndex` | internal/migration/migrate/compile.go:36-64 | the four collision checks against the module's resources and moved blocks |
| `CompileTheorems.RenameRuleIff` | internal/migration/migrate/compile.go:148-190 | a rename rule compiles to the rename of one attribute exactly when its two routes name it, under the same blocks, by its old and new name |
| `CompileTheorems.ReshapeRuleIff` | internal/migration/migrate/compile.go:191-209 | a reshape rule compiles to a move into the settings block exactly when its routes lead from a top-level attribute to one in that block |
| `CompileTheorems.RemoveRuleIff` | internal/migration/migrate/compile.go:157-164 | a removal rule compiles exactly when its route names the attribute and it has no target |
| `CompileTheorems.BlockRuleIff` | internal/migration/migrate/compile.go:222-234 | a block rule compiles to a rename exactly when its two routes name a top-level block by its old and new name |
| `CompileTheorems.AttributeEdits` | internal/migration/migrate/compile.go:148-220 | each strategy of an attribute rule has its own edit, only an unchanged one has none, and split, rejected and unknown ones are refused |
| `CompileTheorems.BlockEdits` | internal/migration/migrate/compile.go:222-247 | a block rule renames a block or, reshaped or unchanged, names the same block on both sides; all other strategies are refused |
| `CompileTheorems.ActionCompilesIff` | internal/migration/migrate/compile.go:66-110 | an action has a writer exactly when its rule compiles or it is the service conversion with its state move |
| `CompileTheorems.IndexCleanIff` | internal/migration/migrate/compile.go:36-64 | the index has no objection exactly when type.name is declared in the resource's file, fastly_service_cdn_auto.name is not declared, and moves pair these two addresses with each other only |
| `CompileTheorems.CompilesIff` | internal/migration/migrate/compile.go:14-131 | a service compiles exactly when the index has no objection, every action has a writer and one of them converts the service; a refusal carries no edits |
| `CompileTheorems.ActionOrder` | internal/migration/migrate/compile.go:66-110 | the actions are compiled attributes first, then service blocks, then the conversion, and by legacy route within each kind |
| `CompileTheorems.MovedBlockWritten` | internal/migration/migrate/compile.go:112-131 | a compiled resource records the move from type.name to fastly_service_cdn_auto.name in its module; its edits end with a moved block of these two addresses in the module's migration.tf exactly when no move from the old address is there, and all others are for its own file and add no move |
| `CompileTheorems.OtherTypesRefused` | internal/migration/migrate/compile.go:14-34 | a resource of any other type gets no edit and no move, and one issue for each action |
| `CompileTheorems.Phases` | internal/migration/migrate/compile.go:66-110 | the sorted edits are the attribute edits, then the block renames, then the resource conversion |
| `CompileTheorems.RunInResource` | internal/migration/rewrite/parse.go:26-34 | edits on a resource act on its body and leave the rest of the file and its position alone |
| `CompileTheorems.CompiledMigrates` | internal/migration/migrate/compile.go:14-131 | run in order on the file, the compiled edits go through exactly when every rule fits the resource's original body, and then the file is the original with that one resource translated by all rules at once and relabelled, whatever order the actions arrived in; in that file every other block is as before and each expression and block of the resource is where the rules take it |
| `CompileTheorems.OutcomeKept` | internal/migration/migrate/compile.go:14-131 | what the migrated file keeps: everything outside the resource, and inside it each expression and block at the place its rules give it |
| `Discover.Analysis.Discover` | internal/migration/analyze/analyzer.go:99-206 | terminates on every finite module graph; succeeds exactly when every reachable directory can be scanned and else names what is wrong with one; on success records exactly the reachable directories, each once, exactly their Terraform files, and exactly the findings these give rise to |
| `Discover.EdgeIff` | internal/migration/analyze/analyzer.go:130-245 | a module leads to another exactly by a literal local source in one of its own native Terraform files |
| `Discover.ScanIff` | internal/migration/analyze/analyzer.go:120-170 | a directory goes through exactly when it can be listed and each of its native files read; the fault names what stops it |
| `Discover.EntryFindings` | internal/migration/analyze/analyzer.go:130-200 | a JSON file gives rise to its finding, a native file to one for a source that cannot be told and for each source outside the tree, and no file to any other |
| `Discover.SourceFindings` | internal/migration/analyze/analyzer.go:170-200 | as many findings as module blocks, for each kind of source |
| `Discover.ClosedHoldsReachable` | internal/migration/analyze/analyzer.go:99-206 | a set with the root that is closed under literal local sources holds every reachable directory |
| `Discover.PendingAdvances` | internal/migration/analyze/analyzer.go:104-201 | handling a directory keeps every child of a seen directory seen or queued |
| `Discover.Analysis.ScanDirectory` | internal/migration/analyze/analyzer.go:130-202 | one directory contributes its Terraform files, findings and local sources in order, or the first fault |
| `References.DuplicateName` | internal/validation/refs.go:11-28 | reports nothing exactly when no two known names clash; otherwise a name two items share |
| `References.BrokenReference` | internal/validation/refs.go:45-58 | reports the first reference that names nothing configured, all of earlier items and all earlier ones of its own item resolving, and nothing exactly when all resolve |
| `References.Accepts` | internal/validation/refs.go:11-72 | validation accepts exactly the configurations with unique names that are closed under references, which is what the reconciler needs |
| `Reconciler.DeletePass` | internal/reconcile/reconcile.go:55-75 | issues the deletions of undesired items in listing order, treating not-found as done; it fails exactly when a call was answered with an error, and every state on the way only drops such items |
| `Reconciler.UpsertPass` | internal/reconcile/reconcile.go:87-121 | issues the needed creations and updates in order; it fails exactly when a call was answered with an error, and every state on the way only writes desired items |
| `Reconciler.OrderByName` | internal/reconcile/reconcile.go:87-96 | sortable items are written in the order of their names, others in the order given |
| `ReconcileRun.DeleteRemoved` | internal/reconcile/reconcile.go:47-53 | with its own listing: afterwards no undesired name is left, whichever calls failed only undesired ones are gone |
| `ReconcileRun.CreateOrUpdate` | internal/reconcile/reconcile.go:79-85 | with its own listing: afterwards every desired item is written where it differed, others untouched |
| `ReconcileRun.Run` | internal/reconcile/reconcile.go:31-41 | from any remote state: it fails exactly when a listing or a call was answered with an error; the calls logged are a prefix of the needed ones, all of them on success; at every call each name is old or as desired and the item count is at most the larger of the two; success leaves exactly the desired items |
| `ReconcileRun.ReconciledMatches` | internal/reconcile/reconcile.go:31-121 | a reconciled collection has the desired names and each item is Equal to its desired form |
| `ReconcileRun.CallsAreNeeded` | internal/reconcile/reconcile.go:55-121 | a call is issued if and only if it deletes an undesired item, creates a missing one or updates a differing one |
| `ReconcileRun.NothingToDo` | internal/reconcile/reconcile.go:31-121 | no call is issued exactly when the collection matches already, so a second run makes none |
| `ReconcileRun.OneListingSuffices` | internal/reconcile/reconcile.go:29-41 | listing again after the deletions changes neither the calls nor the result |
| `Pairs.TwoPassHazard` | internal/reconcile/pairs.go:15-20 | the two-pass order deletes a parent in use exactly when some remote dependent references a parent that is going away |
| `Pairs.DependentPass` | internal/reconcile/pairs.go:26-28 | every dependent call writes existing references only and keeps the dependents closed |
| `Pairs.DependentsBetween` | internal/reconcile/pairs.go:22-29 | with dependents present parents are written first and deleted last: references hold at every call, every call is needed, and success leaves both collections as desired |
| `Pairs.ThreePassUpdate` | internal/reconcile/pairs.go:8-29 | at every call of either collection references hold, no parent in use is deleted, no dependent naming a missing parent is written, and only undesired items are deleted, missing ones created and differing ones updated; it fails exactly when a call of one of them was answered with an error, and on success both collections are as desired |
| `Guards.CheckGuards` | internal/reconcile/reconcile.go:150-185 | passes exactly when every previous item whose data would be discarded, and whose destruction is not forced, is confirmed empty; otherwise names one that is not empty, or cannot be checked, and says which |
| `Guards.GuardedRun` | internal/reconcile/reconcile.go:129-145 | a refused run issues no call; an accepted one issues needed calls only, is safe at every call as an unguarded run is, fails exactly when a call was answered with an error, and else converges |
| `Ordering.MatchOrder` | internal/reconcile/reconcile.go:209-242 | equals sorting by position in the order and then by name |
| `Ordering.ArrangementIsCanonical` | internal/reconcile/reconcile.go:207-242 | the result is a permutation of the items, does not depend on their input order, and arranging again changes nothing |
| `Ordering.ArrangedFollowsOrder` | internal/reconcile/reconcile.go:207-242 | listed names come first in listed order, the others after them in name order |
| `Ordering.NameOrderIsCanonical` | internal/reconcile/reconcile.go:245-260 | sortable comparison sees the same list whatever order either argument is in |
| `Sorting.StringLessMeans` | internal/migration/rewrite/plan.go:146-148 | the order of names and paths: the first difference decides, and a proper prefix comes first |
| `Ordering.ModelsEqual` | internal/reconcile/reconcile.go:244-273 | compares the lists item by item, in name order when they are sortable |
| `Ordering.SortableComparison` | internal/reconcile/reconcile.go:244-273 | sortable comparison decides whether the lists hold equal models under equal names |
| `AclBatch.BuildBatch` | internal/resources/aclentries/expand.go:44-91 | collecting keys in any order and sorting them gives the one specified batch |
| `AclBatch.BatchIsExact` | internal/resources/aclentries/expand.go:44-91 | every operation is needed, no prefix occurs twice, and the batch is for exactly the prefixes at which the remote list differs from its target |
| `AclBatch.BatchOrder` | internal/resources/aclentries/expand.go:44-91 | deletions come before creations and updates, and each half is in the order of its prefixes |
| `AclBatch.BatchReachesTarget` | internal/resources/aclentries/expand.go:41-91 | applying the batch gives the remote list without the managed prefixes no longer desired, overridden by the desired ones |
| `AclBatch.EmptyBatchIff` | internal/resources/aclentries/expand.go:44-91 | the batch is empty exactly when the remote list is at its target |
| `AclBatch.RebuildIsEmpty` | internal/resources/aclentries/expand.go:44-91 | building again after applying finds nothing to do, for the old and for the new managed set |
| `AclBatch.EntriesConverged` | internal/resources/aclentries/resource.go:326-342 | true exactly when every operation of the batch is reflected |
| `AclBatch.ConvergedIff` | internal/resources/aclentries/resource.go:323-342 | converged means matching the target on every prefix of the batch |
| `AclEntries.BatchNamesOwn` | internal/resources/aclentries/expand.go:44-91 | every operation sent deletes a prefix that is managed and no longer desired, or gives a desired prefix its desired action |
| `AclEntries.DoneSawTarget` | internal/resources/aclentries/resource.go:284-321 | when an operation counts as done, a listing was seen that matches the target at every prefix at which the first listing did not, whatever others did to the list before, between and after the calls |
| `AclEntries.DoneReachesTarget` | internal/resources/aclentries/resource.go:284-321 | if nobody else changes the list, the whole list has then reached its target, in whatever order and however often the service carried the operations out |
| `AclEntries.SentIff` | internal/resources/aclentries/resource.go:284-321 | the outcome follows from the answers alone: done when nothing is sent or the batch is accepted and confirmed by the first poll that decides, gone when the reply or that poll says so, failed otherwise |
| `AclEntries.NeverTouched` | internal/resources/aclentries/resource.go:64-236 | over any run without import, with failures, partly and late carried out batches and changes by others at any moment: at a prefix never declared the list ends as if the service had carried out none of the operations of the resource |
| `AclEntries.SuccessIsStable` | internal/resources/aclentries/resource.go:64-195 | right after an undisturbed success a refresh keeps the state and the same update sends no batch |
| `AclEntries.DeleteUndoesCreate` | internal/resources/aclentries/resource.go:64-236 | delete undoes create exactly when none of the declared prefixes existed before |
| `AclEntries.EntriesResource.WaitForEntries` | internal/resources/aclentries/resource.go:299-321 | the poll loop ends with the first listing that reflects the batch, the first that fails, or the timeout, while the list goes on changing |
| `AclEntries.EntriesResource.Create` | internal/resources/aclentries/resource.go:64-99 | succeeds exactly when the list could be read and there was nothing to send, or the batch was accepted and the first poll that fails or reflects it reflects it; success stores the entries, and undisturbed leaves exactly the target; failure takes no ownership |
| `AclEntries.EntriesResource.Read` | internal/resources/aclentries/resource.go:101-146 | keeps exactly the owned prefixes that are listed, with the listed actions; a missing list drops the resource |
| `AclEntries.EntriesResource.Update` | internal/resources/aclentries/resource.go:148-195 | succeeds exactly when the list is gone, and the resource with it, or as for a creation; success stores the entries after a listing confirmed them, undisturbed leaves exactly the target for the prefixes owned before and desired now, and failure leaves the state as it was |
| `AclEntries.EntriesResource.Delete` | internal/resources/aclentries/resource.go:197-236 | succeeds exactly when the list is gone, at the listing, by the reply or by a poll, or the batch is confirmed; undisturbed, removes the owned prefixes and nothing else; the resource is gone exactly when it reports success and is as it was otherwise |

## Left out

- HCL lexing, parsing and expression evaluation: byte-level modules take the parser's positions as inputs and say which ones are sound; tree-level modules take the tree. That the byte edits produce the tree edits is therefore not proved.
- The Fastly client, HTTP retries, cursors, contexts and the length of timeouts: calls succeed, fail or report not-found, and polling ends when the modelled steps do. What a listing shows is any map, so pages read at different moments are covered.
- Terraform's framework glue: schemas, state encoding, diagnostics texts, import of entries.
- `ReadForVersion`, `DiffSet`, data sources and all resources other than the access control list entries.
- `WriteDiff`: errors of the writer. Reading the patch back is stated for paths without line breaks, which no text patch could carry.
- The compatibility rule tables: rules are an arbitrary list. `CompiledMigrates` asks that they are independent (no rule's new name is another rule's old name, no two share a new name, nothing is routed through the settings block), which can be checked on the table alone.
- `AddImport`, products and the splitting of `product_enablement`, which the compiler refuses.
- Building the module index of the planner: the compiler takes the index as given, and the theorem asks that the file declares the resource once and its new address not at all.
- The layout refusals of attribute lines at tree level: a tree has no layout. They are in `Nest` and `Spans`.
- Comments, attribute order and formatting at tree level; `Nest` and `Splice` are about them.
- The text and order of compile issues: issues are a multiset.
- Symbolic links, special files, permissions beyond one mode number, renames that are not atomic, and concurrent writers. A file left by a failed staging is modelled as empty.
- Unicode: text is a sequence of characters, and white space is what ASCII knows.
- Library sorting that is not stable is modelled by a stable sort; every statement about its result holds for distinct keys, where the two agree, or for any order of ties.
- Nest.NestAttribute: states the success case for sound spans only (positions of distinct tokens, none of them inside a comment line); for other positions it promises nothing beyond the checks it makes.
- Commute.SwappableIffIndependent: is about two rules; for longer lists independence is proved sufficient.
- Spans.RenameAttribute: success is stated for name ranges that do not overlap; the parser reports no others.
- Discover.Analysis.Discover: the order of discovery is not stated, since the result is sorted afterwards; on an error the partial result is not described.
- AclEntries.NeverTouched: operations the service carries out only after the call has returned count as changes by others.
- AclEntries.EntriesResource.Update: requires a state, as the framework guarantees; a change of the list's identity is a delete and a create.
- Idempotent.EditIsIdempotent: for a resource rename it asks that the old address is declared at most once, which is exactly when it holds.
