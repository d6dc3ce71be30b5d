# Verified model of Civigent's storage and live-editing core

Civigent keeps a document as a tree of section files. Edits are staged in sparse proposals, which are published
("absorbed") into canonical content with one git commit each; browsers edit live fragments of the same sections. This
project models the parts of the backend where a wrong step loses or duplicates text and proves what they promise, for
every input, every run and every point at which a process may stop. `dafny verify dfyconfig.toml` checks all of it.

## Parts

- **Absorb** (`CanonicalAbsorb`, `CanonicalStore`): the disk is a finite map from relative path to a skeleton listing or
  a body. The two passes remove and copy one file at a time and may stop between any two of them. The files a skeleton
  declares are found by a recursion that is bounded by the longest path on disk, so a listing that names itself ends.
- **Publishing and recovery** (`ProposalLocks`, `PublishProtocol`, `PublishSteps`, `PublishGuards`, `PublishRuns`,
  `PublishLimits`, `CommitPipeline`, `CrashRecovery`): proposals, HEAD and the working tree form a state machine with a
  crash enabled in every state, also while recovering; a lock check and the write it was made for are separate steps.
  Publishing and start-up recovery are methods that take the machine's steps.
- **Sections** (`SectionForest`, `SectionEdits`, `ReplacementRoots`, `RewriteBodies`, `RewriteLaw`, `SubtreeRewrite`,
  `RewriteRuns`, `SectionFiles`, `SectionBodies`, `SectionMoves`, `MovedSections`, `SectionRenames`, `StoredRuns`,
  `SectionStore`): the section forest, its edits, rewriting a subtree from parsed text, and the files below a document
  while sections are moved and renamed.
- **Publish pause** (`PublishPause`, `PausedEditors`): the pause itself, and the system of one ordered channel each way
  per editor around it.
- **Live document** (`OptimisticTransaction`, `HeadingAddresses`, `LiveEditValidation`, `StructuralChange`, `BodyMove`,
  `BodyAtoms`, `BodyMoveKeepsBlocks`): the compute-outside, apply-inside transaction, the duplicate-heading gate, the
  structural classifier with its split applier, and moving one block.
- **Diffs** (`DiffText`, `DiffApply`): reading, printing, applying and undoing unified diffs.

Files the program changes step by step are classes with methods, each proved against a specification function or a
relation between the old and the new state; what the program promises is then proved of that specification.

## Where the code and its promise differ

Each of these is a theorem with an exact condition, not an assumption, unless it says otherwise.

- An absorb that fails after its git commit rolls back to the new HEAD; the proposal returns to where it can be edited
  while its change is already canonical (`CommitPipeline.Publisher.PublishProposalToCanonical`, outcome
  `RolledBack(true, true)`).
- When the rollback itself fails while the server runs, the proposal is taken back all the same and the tree stays torn
  with nothing committing; the next absorb commits the remains (`PublishLimits.RemainsAreCommittedByTheNextAbsorb`).
- A rename that fails after the commit was recorded leaves the commit in the meta file of a proposal that goes back to
  its owner. When it is entered again and the process stops before it lands, recovery finalizes it by the old commit:
  HEAD need not have its change, and the tree may be torn (`PublishLimits.AnOldCommitFinalizesWithoutLanding`). It is
  in HEAD when it becomes committed after landing in this attempt (`PublishRuns.CommittedIsInHead`); that one way is a
  sufficient condition.
- So, once nothing is committing, the working tree equals HEAD exactly when neither of the two has happened since it was
  last clean (`PublishRuns.NothingCommittingIsCleanIff`).
- Locks are checked and the directory is renamed in two steps. Two proposals can pass the check and then both enter
  (`PublishLimits.RacingEntriesCollide`). Proposals stay apart, whichever rename comes next, in exactly those runs in
  which no overlapping entry or claim change falls between a check and its write (`PublishRuns.ExclusionIffOrderly`), as
  when the two are always done back to back (`PublishRuns.ChecksAtOnceAreOrderly`).
- The lock index names the first overlapping claimant in order exactly when that one holds the very target or nobody
  does (`ProposalLocks.NamesTheFirstOverlapIff`).
- Recovery reads the absorb mode back from the proposal's document targets. It agrees with an interrupted merge exactly
  when wholesale would drop nothing (`PublishRuns.RecoveredMergeAgrees`).
- A deleted document is gone after its absorb exactly when nothing but its marker was staged
  (`CanonicalAbsorb.DeletedIsGoneIff`).
- Renaming a parent whose only child is its body holder, and moving a section with children within its own parent,
  remove the listing that was just written for it. All bodies survive; the tree on disk does so exactly otherwise
  (`SectionRenames.RenameIsStoredIff`, `MovedSections.MoveIsStoredIff`).
- An acknowledgement names no pause. `ready` proves that everything sent before it was handled exactly when no editor
  entered the pause owing an older acknowledgement (`PausedEditors.ReadyIsSafeIffNothingStale`).
- Heading keys join segments with ">>". Among headings without the separator a path shares its key with another exactly
  when an arrow head stands beside a separator, or a run of them, with none at its other end
  (`HeadingAddresses.KeyIsSharedIff`); when headings may hold it, only a lone heading without it owns its key
  (`HeadingAddresses.OnlyALoneHeadingOwnsItsKey`).
- Reverting what the duplicate-heading gate blames cures every reported address but can make another one worse
  (`LiveEditValidation.RevertingCanCollide`), exactly when the fragments that are not to blame have gained it and it is
  then taken twice or more (`LiveEditValidation.RevertingMakesWorseIff`).
- Splits count heading nodes while the parser skips empty ones. The survivor keeps exactly its nodes if and only if no
  empty heading stands before its end (`StructuralChange.SplitKeepsExactlyTheSurvivor`).
- When moving the only item empties a list in front of a root-level target, the move lands one place too far; the
  document is right exactly when that does not happen or the slot one further is the end
  (`BodyMoveKeepsBlocks.LandsRightIffItDoesNotSlip`). Two fragments that read the same are taken for one
  (`BodyMoveKeepsBlocks.CrossesIffTheTextsDiffer`).
- Undoing a diff gives the text back exactly when some line was left or added (`DiffApply.UndoGivesTextBack`), and a
  printed diff with a final line break reads back exactly when the last header announces no more old lines than it has
  (`DiffText.PrintThenParse`).
- The transaction's fingerprint misses a change exactly when a watched fragment is absent, reads like an absent one, or
  holds the marker of its own key or of the next (`OptimisticTransaction.AChangeIsHiddenIff`,
  `OptimisticTransaction.MayMeetAChangedDocumentIff`).

## Model

| member | source | states |
|---|---|---|
| CanonicalAbsorb.CollectSkeletonDeclaredFiles | backend/src/storage/canonical-store.ts:627-675 | The loop that follows listings, staging first and canonical second, ends on every disk and collects exactly the declared set, or fails exactly when that set is undefined |
| CanonicalAbsorb.DeclaredIsReachable | backend/src/storage/canonical-store.ts:627-675 | The declared set is exactly the files reachable by a chain of listings: both directions |
| CanonicalAbsorb.FailureHasChain | backend/src/storage/canonical-store.ts:627-675 | Collecting fails only because some reachable chain of names ends at a listed sub-skeleton that is not there |
| CanonicalAbsorb.OneOwner | backend/src/storage/canonical-store.ts:517-602 | A file belongs to at most one document, so documents cannot doom each other's files |
| CanonicalAbsorb.DeclaredIsStable | backend/src/storage/canonical-store.ts:517-675 | The declared set is the same at every intermediate state of the two passes |
| CanonicalAbsorb.DoomedIsStable | backend/src/storage/canonical-store.ts:517-602 | What is still to be deleted in a half-finished canonical is what was to be deleted at the start, restricted to what is left |
| CanonicalAbsorb.PartialComposes | backend/src/storage/canonical-store.ts:517-798 | Partial progress followed by partial progress is partial progress, so any number of crashes composes |
| CanonicalAbsorb.RerunFinishesForward | backend/src/storage/canonical-store.ts:517-798 | Stopping both passes after any single-file steps and running them again ends in the tree of an uninterrupted run |
| CanonicalAbsorb.LandingTwiceIsEmptyDelta | backend/src/storage/canonical-store.ts:517-798 | Absorbing the same staging tree again changes nothing |
| CanonicalAbsorb.AbsorbOutcome | backend/src/storage/canonical-store.ts:517-798 | After an absorb a processed document holds exactly the staged files plus the prior content of what its new skeleton declares at any depth; a tombstoned one holds nothing but what was staged under it besides its marker |
| CanonicalAbsorb.DeletedIsGoneIff | backend/src/storage/canonical-store.ts:517-798 | A tombstoned document is gone exactly when nothing but its marker was staged |
| CanonicalAbsorb.AbsorbFrame | backend/src/storage/canonical-store.ts:517-798 | Every file of a document outside the processed set is untouched |
| CanonicalPasses.CanonicalStore.DeletionPass | backend/src/storage/canonical-store.ts:517-602 | The pass removes the doomed files one by one; finished it leaves exactly the swept tree, interrupted a partial one |
| CanonicalPasses.CanonicalStore.DoomedFiles | backend/src/storage/canonical-store.ts:545-600 | The files one staged entry removes from a half-swept tree are those it removes from the tree as it was, or the skeleton is unsound |
| CanonicalPasses.CanonicalStore.CopyPass | backend/src/storage/canonical-store.ts:772-798 | The pass copies the staged files one by one; finished it leaves the tree overlaid, interrupted a partial one |
| CanonicalPasses.CanonicalStore.ApplyStaging | backend/src/storage/canonical-store.ts:517-798 | Deletion then copy ends in the absorbed tree, or anywhere a crash left a partial one |
| CanonicalPasses.CanonicalStore.Absorb | backend/src/storage/canonical-store.ts:235-396 | Success moves HEAD to the absorbed tree; a failure before the commit restores the old HEAD, one after it the new HEAD, and a failed rollback is reported as such |
| CanonicalPasses.CanonicalStore.AbsorbThroughCrashes | backend/src/storage/canonical-store.ts:235-396 | Any number of crashed attempts followed by one that completes ends as a single undisturbed absorb |
| ProposalLocks.ProposalFsmLockIndex.Build | backend/src/domain/proposal-fsm-lock-index.ts:72-100 | The three maps index exactly the claims of all other blocking proposals, first claim first |
| ProposalLocks.ProposalFsmLockIndex.HolderFor | backend/src/domain/proposal-fsm-lock-index.ts:103-114 | The lookup answers as a scan of the indexed claims in order: for the very target first, then for a claim that covers it |
| ProposalLocks.NamesTheFirstOverlapIff | backend/src/domain/proposal-fsm-lock-index.ts:103-114 | That is the first overlapping claimant of one scan exactly when this claimant holds the very target or nobody does |
| ProposalLocks.ApartHasOneHolder | backend/src/domain/proposal-fsm-lock-index.ts:103-114 | With claims that exclude each other it always is |
| ProposalLocks.ProposalFsmLockIndex.ConflictsFor | backend/src/domain/proposal-fsm-lock-index.ts:120-129 | All conflicts are reported, in target order, not only the first |
| ProposalLocks.HolderIffScanFindsOverlap | backend/src/domain/proposal-fsm-lock-index.ts:72-129 | A target has a holder exactly when a brute-force scan finds another proposal with an overlapping claim |
| ProposalLocks.NoConflictsIffAvailable | backend/src/domain/proposal-fsm-locks.ts:80-124 | The conflict list is empty exactly when no other blocking proposal overlaps any target |
| ProposalLocks.AllConflictsAreReal | backend/src/domain/proposal-fsm-lock-index.ts:120-129 | Every reported conflict names a proposal that does overlap that target |
| ProposalLocks.CheckProposalLocks | backend/src/domain/proposal-fsm-locks.ts:80-124 | Locks are granted exactly when available, with an empty claim refused on an exclusive path; reading only the documents in question loses no conflict |
| PublishSteps.StepKeepsInv | backend/src/storage/proposal-repository.ts:890-1280 | Every step, crash steps included and without any help from the locks, keeps what ties proposals to the commits they name |
| PublishSteps.StepKeepsTree | backend/src/storage/canonical-store.ts:372-394 | Every step but a failed rollback and a finalization without landing leaves the tree torn only where some committing proposal will see to it |
| PublishSteps.StepKeepsSettled | backend/src/storage/crash-recovery.ts:174-196 | While claims exclude each other, a landed but unfinished change stays in HEAD and untouched in the tree |
| PublishGuards.AvailableIffLocksFree | backend/src/domain/proposal-fsm-locks.ts:80-124 | What the lock check scans for is what the protocol calls free |
| PublishGuards.GuardedUnlessInterfered | backend/src/storage/proposal-repository.ts:920-1074 | A step leaves every waiting lock check good exactly when it gains no claim over what was checked and moves no checked claim onto something held |
| PublishGuards.GuardedIffKeepsApart | backend/src/storage/proposal-repository.ts:920-1074 | Waiting checks are good exactly when proposals are apart now and after any completion of one of them |
| PublishRuns.RunKeepsInv | backend/src/storage/commit-pipeline.ts:192-375 | Every run keeps it |
| PublishRuns.CommittedMeansLanded | backend/src/storage/commit-pipeline.ts:192-375 | In every run with crashes and races anywhere, a committed proposal names a commit of its own in the history of HEAD that carries its change |
| PublishRuns.HistoryGrows | backend/src/storage/canonical-store.ts:235-396 | A commit that landed stays in HEAD's history for ever |
| PublishRuns.FinishForward | backend/src/storage/crash-recovery.ts:174-196 | A proposal found committing at start-up is never anything but committing or committed until recovery ends, and committed afterwards |
| PublishRuns.RelandingIsEmptyDelta | backend/src/storage/crash-recovery.ts:174-196 | In runs in which nothing interfered with a lock check, publishing a landed proposal again commits the tree HEAD already has |
| PublishRuns.CommittedIsInHead | backend/src/storage/proposal-repository.ts:1077-1140 | In such runs a proposal that becomes committed after landing has its change in HEAD |
| PublishSteps.LandKeepsSettled | backend/src/storage/commit-pipeline.ts:192-268 | While claims exclude each other, another proposal's commit leaves the change of a landed but unfinished one in place |
| PublishProtocol.SettledLandsNothing | backend/src/storage/crash-recovery.ts:174-196 | Landing a settled proposal changes nothing, in either mode |
| PublishProtocol.LandingOnlyTouchesClaims | backend/src/storage/commit-pipeline.ts:234-241 | With the claim check passed, landing changes no section outside the claims |
| PublishRuns.NothingCommittingIsCleanIff | backend/src/storage/crash-recovery.ts:212-241 | In every run, once nothing is committing the working tree equals HEAD exactly when no rollback failed and nothing was finalized without landing since the tree was last clean |
| PublishRuns.ExclusionIffOrderly | backend/src/storage/proposal-repository.ts:920-1074 | Over whole runs proposals stay apart, whichever checked entry or claim is completed next, exactly when no overlapping entry or claim change falls between a lock check and its write |
| PublishRuns.ChecksAtOnceAreOrderly | backend/src/storage/proposal-repository.ts:1055-1074 | With every check followed at once by its write nothing falls between |
| PublishLimits.RacingEntriesCollide | backend/src/storage/proposal-repository.ts:1055-1074 | A run in which two proposals pass the check, both rename, and claim one section |
| PublishLimits.RemainsAreCommittedByTheNextAbsorb | backend/src/storage/canonical-store.ts:372-394 | A run that ends with a torn tree and nothing committing, and the next absorb, which commits what no published proposal wrote |
| PublishLimits.AnOldCommitFinalizesWithoutLanding | backend/src/storage/proposal-repository.ts:1087-1140 | A run in which recovery finalizes by an earlier attempt's commit: committed, other text in HEAD, a torn tree |
| PublishRuns.RecoveredMergeAgrees | backend/src/storage/commit-pipeline.ts:475-508 | Recovering an interrupted merge lands the same tree exactly when the wholesale reading drops no section |
| CommitPipeline.LandingCarries | backend/src/storage/commit-pipeline.ts:234-262 | What lands carries every write and delete of the proposal and touches nothing unclaimed |
| CommitPipeline.Publisher.AbsorbCommittingProposalToCanonical | backend/src/storage/commit-pipeline.ts:192-268 | Claim check, passes, commit and record: done means committed at the new commit; a failure says whether HEAD moved and whether the tree was restored, and leaves the status to the caller |
| CommitPipeline.Publisher.PublishProposalToCanonical | backend/src/storage/commit-pipeline.ts:341-382 | Refused exactly when the status does not allow it, nothing is claimed or another blocking proposal overlaps; published means HEAD carries the change and has the tree it found elsewhere; a failure leaves the tree at HEAD, or torn between the two when the rollback fails, and the proposal with its owner or stuck in the guard status |
| CommitPipeline.Publisher.TransitionToCommitting | backend/src/storage/proposal-repository.ts:947-1074 | Enters exactly when a scan of all other blocking proposals finds no overlap, through the index, and changes nothing otherwise |
| CommitPipeline.Publisher.RollBackCanonical | backend/src/storage/canonical-store.ts:372-394 | Reset, checkout and clean give HEAD's tree, or leave each section as it was or as HEAD has it |
| CrashRecovery.Startup.DiscardPendingProposals | backend/src/storage/crash-recovery.ts:143-158 | Exactly the pending proposals go, and their number is reported |
| CrashRecovery.Startup.PublishCommittingProposal | backend/src/storage/commit-pipeline.ts:475-508 | A recovery publish ends committed or still committing, never rolled back, whatever interrupts it; where nothing interfered with the locks before, re-landing leaves HEAD's tree as it was |
| CrashRecovery.Startup.RecoverOne | backend/src/storage/crash-recovery.ts:180-193 | One committing proposal is finalized exactly when its commit is recorded, otherwise published again; no other proposal changes |
| CrashRecovery.Startup.RecoverCommittingProposals | backend/src/storage/crash-recovery.ts:174-196 | Every proposal found committing is finalized if its commit is recorded and published again if not; no other proposal changes |
| CrashRecovery.Startup.DetectAndRecoverCrash | backend/src/storage/crash-recovery.ts:243-271 | Completed recovery leaves no pending and no committing proposal and every committed file in place; unfinished recovery has rolled nothing back; unless the crash left something torn that nobody sees to, a dirty tree is never the reason to stop and the tree equals HEAD |
| CrashRecovery.Startup.RecoverDirtyWorkingTree | backend/src/storage/crash-recovery.ts:212-241 | The last check passes exactly when every tracked file is as committed, and then the tree equals HEAD if everything torn was accounted for |
| CrashRecovery.RecoveryKeepsAccounts | backend/src/storage/crash-recovery.ts:174-241 | No step of recovery, crashes and failed rollbacks included, tears anything that nobody sees to |
| CrashRecovery.RewritingIsIdle | backend/src/storage/crash-recovery.ts:174-196 | Re-running the passes of a landed proposal changes nothing, where nothing interfered with the locks |
| SectionForest.AtMostOneWay | backend/src/storage/document-skeleton.ts:731-763 | In a forest whose sibling headings are distinct as addresses, a heading path can be followed in at most one way and lookup finds it |
| SectionForest.DeleteKeepsLaw | backend/src/storage/content-layer.ts:1647-1675 | Deleting a subtree keeps sibling addresses distinct, body holders in place and file ids unique |
| SectionForest.RetitleKeepsLaw | backend/src/storage/content-layer.ts:1802-1839 | Renaming or re-levelling after the collision check keeps the law |
| SectionForest.MoveKeepsLaw | backend/src/storage/content-layer.ts:1841-1964 | Moving a subtree, minting a holder for a former leaf, keeps the law |
| SectionForest.ReorderKeepsLaw | backend/src/storage/content-layer.ts:1966-2011 | Reordering siblings keeps the law |
| SectionForest.InsertKeepsLaw | backend/src/storage/content-layer.ts:2013-2087 | Inserting a child at a position keeps the law |
| SectionForest.ReplaceKeepsLaw | backend/src/storage/content-layer.ts:2127-2147 | Splicing addressable roots with new or reused ids over a section keeps the law |
| SectionForest.MaterializeKeepsLaw | backend/src/storage/content-layer.ts:2285-2417 | Creating missing ancestors, or the headless root for the empty path, keeps the law |
| SectionForest.MaterializedLocates | backend/src/storage/content-layer.ts:2285-2417 | Afterwards every path asked for, the empty one included, leads to a section |
| SectionForest.RemovalKeepsLists | backend/src/storage/content-layer.ts:1841-1900 | Taking one section out makes no heading appear in any list that did not have it |
| SectionForest.MoveDoesNotCollide | backend/src/storage/content-layer.ts:1873-1900 | The collision check made before the section is taken out is still right after it |
| SectionEdits.RunKeepsLaw | backend/src/storage/content-layer.ts:1647-2417 | Any sequence of edits, applied or refused, keeps the law, with rewrites taken as splices of addressable roots; `RewriteRuns` does without that |
| SectionEdits.EveryPathLeadsToOneSection | backend/src/storage/content-layer.ts:289-315 | After any such sequence every heading path leads to at most one section |
| SectionEdits.EditKeepsFront | backend/src/storage/content-layer.ts:1647-2417 | No edit lets a headless root stand anywhere but in front |
| SectionEdits.DocumentSkeleton.NoDuplicateSibling | backend/src/storage/content-layer.ts:289-315 | The check loop passes exactly when no sibling with another file has the address |
| SectionEdits.DocumentSkeleton.DeleteSubtree | backend/src/storage/content-layer.ts:1647-1675 | The delete takes its whole effect on a lawful forest or reports a stale path and changes nothing |
| SectionEdits.DocumentSkeleton.RetitleSectionInPlace | backend/src/storage/content-layer.ts:1802-1839 | Renames and re-levels in place, or reports stale path or collision and changes nothing |
| SectionEdits.DocumentSkeleton.MoveSubtree | backend/src/storage/content-layer.ts:1841-1964 | Moves the section in the forest or reports why not and changes nothing |
| SectionEdits.DocumentSkeleton.ReorderSiblingSection | backend/src/storage/content-layer.ts:1966-2011 | Puts the section before or after its sibling, or reports a stale path |
| SectionEdits.DocumentSkeleton.InsertNewChildSectionAtPosition | backend/src/storage/content-layer.ts:2013-2087 | Inserts behind the body holder at the index asked for, or reports not-a-parent, collision or an index out of range |
| SectionEdits.DocumentSkeleton.ReplaceSubtreeDeletingOmittedSections | backend/src/storage/content-layer.ts:2127-2147 | The collision loop and the splice: replaces the section unless one of the new roots collides |
| ReplacementRoots.RebuildGivesForestBack | backend/src/storage/content-layer.ts:118-187 | Rebuilding from the pre-order list of heading paths gives the same forest back and the missing-parent error does not fire |
| ReplacementRoots.RebuildWithPreamble | backend/src/storage/content-layer.ts:118-187 | The same with text before the first heading |
| ReplacementRoots.PlacesIffParentsFirst | backend/src/storage/content-layer.ts:148-175 | Placing succeeds exactly when every section's parent comes before it |
| ReplacementRoots.MissingParentExactly | backend/src/storage/content-layer.ts:164-173 | The missing-parent error fires exactly when some section precedes its parent |
| ReplacementRoots.ParserNamesParentsFirst | backend/src/storage/markdown-parser.ts:103-117 | The parser's heading stack always names parents first |
| ReplacementRoots.ParsedDocumentAlwaysBuilds | backend/src/storage/content-layer.ts:118-187 | So a parsed document never meets the missing-parent error |
| RewriteBodies.ContentsMatchSections | backend/src/storage/content-layer.ts:176-225 | After ids are reused and body holders added, content entries match the parsed sections one to one and in order |
| RewriteBodies.EveryBodyHasItsEntry | backend/src/storage/content-layer.ts:176-225 | Entries stand at pairwise distinct paths and a path that had content keeps its file id |
| RewriteBodies.BuildBodyWrites | backend/src/storage/content-layer.ts:189-225 | Every parsed body is paired with the one entry of its path, or the mismatch is reported: exactly when paths repeat or the two sets differ |
| RewriteBodies.FinishedFirst | backend/src/storage/content-layer.ts:176-184 | A finished parent is its one body holder, reused or minted, followed by its finished children |
| RewriteLaw.NoDuplicateMeansDistinct | backend/src/storage/content-layer.ts:131-138 | Parsed paths that pass the duplicate-address check build a forest whose siblings are distinct as addresses at every depth |
| RewriteLaw.FinishedIsAddressable | backend/src/storage/document-skeleton.ts:2202-2220 | Such a forest is addressable once holders are added: what a subtree rewrite needs to keep the law |
| SubtreeRewrite.ParsedIsPlaced | backend/src/storage/content-layer.ts:118-175 | Whatever the parser emits places, each section once, and without a repeated address into a tree whose siblings are distinct |
| SubtreeRewrite.FinishedIsFresh | backend/src/storage/content-layer.ts:176-187 | The ids of the finished roots are used once each and are new or the replaced section's own |
| SubtreeRewrite.EntriesAreThePaths | backend/src/storage/content-layer.ts:176-225 | Their content entries are at the resulting paths of the parsed sections, each once, with the old file where the path had one |
| RewriteRuns.ReplacementIsLegal | backend/src/storage/content-layer.ts:2089-2150 | From parser output to roots that may be spliced in, with nothing taken for granted but new ids |
| RewriteRuns.NothingBeforeMeansFirst | backend/src/storage/document-skeleton.ts:1130-1156 | A section that no body comes before is the first root or below it, so there is no headless root yet |
| RewriteRuns.RewriteKeepsLaw | backend/src/storage/content-layer.ts:2089-2173 | The whole rewrite keeps the law for any parsed text, also when leading text makes a new headless root in front |
| RewriteRuns.FindPreviousBodyHolder | backend/src/storage/document-skeleton.ts:1130-1156 | The walk finds the body before the target, none for the first, and reports a target that is not walked |
| RewriteRuns.HasDuplicateAddress | backend/src/storage/content-layer.ts:131-138 | The check in front of a rewrite fails exactly when an address is repeated |
| RewriteRuns.ReplaceSubtreeDeletingOmittedSections | backend/src/storage/content-layer.ts:2089-2173 | Refused, with nothing changed, exactly for a stale target, a repeated address, leading text before a target with sections of its own, or a colliding root; otherwise every parsed body is written to the one file of its path and leading text to the body before or a new front root |
| RewriteRuns.DocumentStaysLawful | backend/src/storage/content-layer.ts:1647-2417 | Any run of deletions, renames, moves, reorderings, insertions, created ancestors and rewrites of parsed text, applied or refused, keeps the law |
| RewriteRuns.EveryPathStaysUnique | backend/src/storage/content-layer.ts:289-315 | After any such run every heading path leads to at most one section |
| SectionFiles.SameListByFile | backend/src/storage/document-skeleton.ts:943-972 | The list found by headings is the one found by the files along the way |
| SectionFiles.EditedLists | backend/src/storage/document-skeleton.ts:1043-1083 | Editing one sibling list changes the listings there and below and no other file's listing |
| SectionBodies.EntriesAreLeaves | backend/src/storage/document-skeleton.ts:974-1019 | The flattened content entries are sections without children |
| SectionBodies.LeavesAreEntries | backend/src/storage/document-skeleton.ts:974-1019 | Every section without children is among them |
| SectionBodies.EveryBodyHasItsPath | backend/src/storage/content-layer.ts:1854-1860 | No two bodies of an addressable subtree have the same relative heading path, so collecting them by path loses none |
| SectionBodies.BodiesTravel | backend/src/storage/content-layer.ts:1854-1937 | Bodies collected by path and written back by path land at the same relative place and touch nothing else |
| SectionMoves.MovedLists | backend/src/storage/content-layer.ts:1873-1917 | For every chain of files, what is listed there after a move |
| MovedSections.MoveConservesBodies | backend/src/storage/content-layer.ts:1841-1964 | Every moved section keeps its id and body at the same relative place, a former leaf that becomes a parent keeps its body in its new holder, and every other body is untouched |
| MovedSections.MoveIsStoredIff | backend/src/storage/content-layer.ts:1946-1961 | The files are those of the moved forest exactly when the section has no children or changes its list |
| SectionRenames.RenamedLists | backend/src/storage/content-layer.ts:1677-1756 | A rename changes the one listing that names the section |
| SectionRenames.RenameConservesBodies | backend/src/storage/content-layer.ts:1677-1756 | Every body stands after a rename where it stood |
| SectionRenames.RenameIsStoredIff | backend/src/storage/content-layer.ts:1690-1754 | The files are those of the renamed forest exactly when the section is not a parent whose only child is its body holder |
| SectionStore.ContentRoot.WriteTree | backend/src/storage/document-skeleton.ts:1043-1083 | The recursive writer leaves the listing of every list in the forest, makes an empty file for exactly the missing holders below headings and touches nothing else |
| SectionStore.ContentRoot.MoveSubtree | backend/src/storage/content-layer.ts:1841-1964 | Collect, persist, remove, write back: conserves bodies, keeps the law, with the exact condition under which the tree on disk survives; a refused move changes nothing |
| SectionStore.ContentRoot.RenameHeading | backend/src/storage/content-layer.ts:1677-1756 | The same for a rename |
| StoredRuns.MoveKeepsHolders | backend/src/storage/content-layer.ts:1841-1964 | A move leaves body holders without sections unless its new parent's path ends in one |
| StoredRuns.MoveCarriesText | backend/src/storage/content-layer.ts:1841-1964 | Every text is found after a move, under its own file or under the new holder's |
| SectionStore.ContentRoot.MakeAll | backend/src/storage/content-layer.ts:1677-1964 | Over any run of moves and renames no text is lost, and the files stay those of the forest as long as no edit loses a listing |
| PublishPause.AnsweredAtMostOnce | backend/src/crdt/docsession-publish-pause.ts:76-173 | Over any sequence of calls each start is answered at most once and in call order |
| PublishPause.OnlyEndMovesASettledPause | backend/src/crdt/docsession-publish-pause.ts:107-151 | Nothing but the end call changes a settled pause |
| PublishPause.EndedEarlyIsNeverAnswered | backend/src/crdt/docsession-publish-pause.ts:144-151 | A start whose pause is ended before it settles is never answered |
| PublishPause.StepIsSound | backend/src/crdt/docsession-publish-pause.ts:76-173 | A settled pause is ready exactly when every required socket acknowledged, and its start has been answered with that outcome |
| PublishPause.DocSessionPublishPause.Begin | backend/src/crdt/docsession-publish-pause.ts:76-99 | Starting, refused unless idle, ready at once without editors, is the simple machine's start |
| PublishPause.DocSessionPublishPause.MarkReady | backend/src/crdt/docsession-publish-pause.ts:107-114 | An acknowledgement counts only while collecting and only from a required socket; the last one settles |
| PublishPause.DocSessionPublishPause.HandleSocketDisconnect | backend/src/crdt/docsession-publish-pause.ts:122-131 | A required socket that leaves unacknowledged aborts; one that acknowledged does not |
| PublishPause.DocSessionPublishPause.TimerFires | backend/src/crdt/docsession-publish-pause.ts:95-97 | The timer aborts a collecting pause and is armed only then |
| PublishPause.DocSessionPublishPause.Finish | backend/src/crdt/docsession-publish-pause.ts:144-151 | Ending resets the fields to idle from any state |
| PublishPause.DocSessionPublishPause.SettleWith | backend/src/crdt/docsession-publish-pause.ts:165-173 | Settling takes the waiter, disarms the timer and answers once |
| PausedEditors.NextKeepsInv | backend/src/ws/crdt-ws-coordinator.ts:2611-2640 | The frames still on their way down always bring every editor to where the server has the pause |
| PausedEditors.AckIsProofIffNothingStale | backend/src/crdt/docsession-publish-pause.ts:22-26 | In every run of a pause an acknowledged editor has nothing unhandled, exactly when it entered the pause owing no older acknowledgement |
| PausedEditors.ReadyIsSafeIffNothingStale | backend/src/crdt/docsession-publish-pause.ts:76-173 | Ready means every update any required editor sent is handled, connected or not, in every run exactly when no editor entered the pause with a stale acknowledgement |
| PausedEditors.ReadyIsSafeWhileEveryPauseCompletes | backend/src/ws/crdt-ws-coordinator.ts:930-958 | While no pause has been given up, every ready in every run is safe |
| OptimisticTransaction.ClockSeesExactlyTheWatched | backend/src/crdt/crdt-proposal-generator.ts:751-767 | On fragments without the separator characters the fingerprint changes exactly when a watched fragment does |
| OptimisticTransaction.ClockIgnoresTheRest | backend/src/crdt/crdt-proposal-generator.ts:751-767 | Unwatched fragments never change it |
| OptimisticTransaction.ASeparatorInsideHidesAChange | backend/src/crdt/crdt-proposal-generator.ts:751-767 | With a separator inside a fragment two different documents have one fingerprint |
| OptimisticTransaction.AChangeIsHiddenIff | backend/src/crdt/crdt-proposal-generator.ts:760-767 | Some change of the watched fragments leaves the fingerprint as it was exactly when one of them is absent, reads like an absent one, or holds the marker of its own key or of the next |
| OptimisticTransaction.LiveDocument.AttemptOnce | backend/src/crdt/crdt-proposal-generator.ts:718-737 | One attempt applies its delta to the document as the transaction finds it, or leaves it as the editors made it |
| OptimisticTransaction.LiveDocument.RunIdentityPreservingTransaction | backend/src/crdt/crdt-proposal-generator.ts:712-749 | At most one delta is applied, with one retry, and the document and log afterwards are stated for every outcome |
| OptimisticTransaction.WhatTheOutcomeMeans | backend/src/crdt/crdt-proposal-generator.ts:712-749 | Applied, not applied and kept-moving each hold exactly under the stated condition on the watched fragments and the computation |
| OptimisticTransaction.AppliedToWhatItWasComputedFrom | backend/src/crdt/crdt-proposal-generator.ts:712-749 | A delta computed from the watched fragments meets the fragments it was computed from |
| OptimisticTransaction.MayMeetAChangedDocumentIff | backend/src/crdt/crdt-proposal-generator.ts:712-749 | The delta can meet other fragments than it was computed from exactly then |
| HeadingAddresses.KeyIsTheAddress | backend/src/storage/heading-addressability.ts:15-25 | Equal addresses have one key; with segments that are non-empty and free of ">" the key tells addresses apart exactly |
| HeadingAddresses.AnArrowInAHeadingCollides | backend/src/storage/heading-addressability.ts:15-25 | A heading with the separator in it shares the key of a different path |
| HeadingAddresses.KeyIsSharedIff | backend/src/storage/heading-addressability.ts:15-25 | Among non-empty headings without the separator, a path shares its key with another exactly when an arrow head can move across a separator or a run of them |
| HeadingAddresses.OnlyALoneHeadingOwnsItsKey | backend/src/storage/heading-addressability.ts:15-25 | Among all headings only a single one, not empty and without the separator, shares its key with no other path |
| HeadingAddresses.HeadingAddressCounts | backend/src/storage/heading-addressability.ts:44-55 | The table holds exactly the addresses that occur, each with its multiplicity and a path that has it |
| HeadingAddresses.WorsenedDuplicateHeadingAddresses | backend/src/storage/heading-addressability.ts:68-82 | An address is reported, once, exactly when it is taken twice or more and more often than before |
| HeadingAddresses.CountAddressByLoop | backend/src/crdt/live-edit-structural-validation.ts:83-89 | The counting loop counts the paths of an address |
| LiveEditValidation.ValidateLiveEdit | backend/src/crdt/live-edit-structural-validation.ts:96-149 | One group for each worsened address, holding exactly the fragments that take it more often, and never empty |
| LiveEditValidation.SomeoneTookMore | backend/src/crdt/live-edit-structural-validation.ts:136-146 | A worsened address always has someone to blame |
| LiveEditValidation.ReportedAddressesAreCured | backend/src/crdt/live-edit-structural-validation.ts:96-149 | Reverting the blamed fragments of all groups brings each reported address back to at most its earlier count |
| LiveEditValidation.PassesIffNothingWorse | backend/src/crdt/live-edit-structural-validation.ts:96-149 | No groups exactly when no address is both duplicated and more frequent than before |
| LiveEditValidation.RevertingMakesWorseIff | backend/src/crdt/live-edit-structural-validation.ts:96-149 | Reverting the blamed fragments leaves an address worse than before exactly when the fragments that take no worsened address more often have gained it and it is then taken twice or more |
| LiveEditValidation.BlamedAreTheGuilty | backend/src/crdt/live-edit-structural-validation.ts:136-146 | The groups together blame exactly the touched fragments that take some worsened address more often |
| LiveEditValidation.CureIsCompleteWhenNothingWasGivenUp | backend/src/crdt/live-edit-structural-validation.ts:96-149 | In particular nothing is left worse when no blamed fragment gave an address up |
| LiveEditValidation.RevertingCanCollide | backend/src/crdt/live-edit-structural-validation.ts:96-149 | A concrete edit after which the revert itself makes an unreported address worse |
| LiveEditValidation.OccupancyIsTheDocuments | backend/src/crdt/live-edit-structural-validation.ts:101-134 | With the untouched fragments clean, the occupancy compared is that of the whole document |
| LiveEditValidation.AcceptedRunsNeverWorsen | backend/src/crdt/live-edit-structural-validation.ts:11-16 | Over any run of accepted edits no address becomes duplicated or more frequent than at first |
| StructuralChange.PartsGroup | backend/src/crdt/structural-change.ts:213-219 | Grouping a fragment by heading loses no node and each group has one heading, its first node |
| StructuralChange.CuttingMakesClassifyingTotal | backend/src/crdt/structural-change.ts:116-130 | The classifier throws exactly for a headed fragment with leading text; after the cut it never does, and chunk and remainder make up the fragment |
| StructuralChange.CleanIffStructurallyClean | backend/src/crdt/structural-change.ts:194-273 | Clean is answered exactly for structurally clean fragments, so the last fallback is unreachable |
| StructuralChange.SplitListsEverySection | backend/src/crdt/structural-change.ts:152-173 | Before, survivor and after list every headed section once and in order; the survivor is the first match, or the first section marked as renamed |
| StructuralChange.FindNthHeading | backend/src/crdt/structural-appliers.ts:133-143 | The counting loop finds the n-th heading node |
| StructuralChange.CountingNodesFindsIt | backend/src/crdt/structural-appliers.ts:133-143 | That is the n-th heading the parser sees exactly when no empty heading stands before it |
| StructuralChange.LiveFragment.ApplyStructuralSplitPlan | backend/src/crdt/structural-appliers.ts:237-252 | After the two deletes exactly the planned stretch is left, ids and order kept |
| StructuralChange.SplitKeepsExactlyTheSurvivor | backend/src/crdt/structural-appliers.ts:200-252 | The fragment left is exactly the survivor's nodes if and only if no empty heading stands before their end, for root and section splits, leading cut or not |
| BodyMove.LocatePmOwner | backend/src/crdt/body-move-markdown.ts:149-182 | The counting loops find the n-th owner and, in a list, its k-th item |
| BodyMove.PmDoc.InsertIncomingAtLocation | backend/src/crdt/body-move-markdown.ts:222-255 | Inserts as items, or cuts the list in two around a block that cannot be one, or refuses and changes nothing |
| BodyMove.PmDoc.ApplySameFragmentMove | backend/src/crdt/body-move-markdown.ts:277-309 | The in-place move computes the specified result and succeeds exactly when both addresses resolve and the block fits |
| BodyAtoms.TakingOut | backend/src/crdt/body-move-markdown.ts:288-300 | Taking a block out removes its atoms and nothing else |
| BodyAtoms.Inserting | backend/src/crdt/body-move-markdown.ts:222-255 | An insertion, splitting a list or not, adds the incoming atoms at one point and keeps all others in order and in their kind of list |
| BodyMoveKeepsBlocks.MoveKeepsEveryOtherBlock | backend/src/crdt/body-move-markdown.ts:277-309 | A move keeps every other block in its order and list and adds the incoming block once, at the landing point |
| BodyMoveKeepsBlocks.LandsRightIffItDoesNotSlip | backend/src/crdt/body-move-markdown.ts:296-307 | The moved document is the rest with the incoming blocks directly beside the target on the side asked for exactly when no emptied list in front shifted the slot |
| BodyMoveKeepsBlocks.AMoveThatSlips | backend/src/crdt/body-move-markdown.ts:296-307 | A document in which the only item of a list, moved in front of a paragraph, lands behind it |
| BodyMoveKeepsBlocks.AcrossKeepsEveryOtherBlock | backend/src/crdt/body-move-markdown.ts:337-350 | Between fragments the source loses exactly its block and the target gains the incoming one beside its own |
| BodyMoveKeepsBlocks.CrossesIffTheTextsDiffer | backend/src/crdt/body-move-markdown.ts:319-335 | The block leaves its source fragment exactly when the two fragments do not read the same |
| DiffText.ParseUnifiedDiff | backend/src/storage/diff-parser.ts:41-96 | The nested loops compute the parsed hunks, with both errors |
| DiffText.ReadHunkLines | backend/src/storage/diff-parser.ts:57-83 | The inner loop reads a hunk's lines up to the line that ends it |
| DiffText.HeaderReadsBack | backend/src/storage/diff-parser.ts:98-112 | Every printed header reads back, counts of one written or left out |
| DiffText.PrintThenParse | backend/src/storage/diff-parser.ts:41-112 | Printed hunks read back as themselves; with a final line break exactly when the last hunk is not short of its announced old lines, and otherwise with one empty context line more |
| DiffApply.ApplyHunks | backend/src/storage/diff-parser.ts:118-170 | The loops compute the applied text or the first mismatch |
| DiffApply.AppliesIffAgrees | backend/src/storage/diff-parser.ts:134-158 | Applying succeeds exactly when every context and removed line agrees with the line it meets, lines past the end unchecked |
| DiffApply.FittingHunksReplace | backend/src/storage/diff-parser.ts:118-170 | Ordered matching hunks give the text with every old side replaced by its new side |
| DiffApply.UndoGivesTextBack | backend/src/storage/diff-parser.ts:118-170 | Applying the swapped hunks gives the text back exactly when some line was left or added; an emptied text comes back with a line break too many |
| DiffApply.PatchTextDoesWhatItsHunksDo | backend/src/storage/diff-parser.ts:175-178 | A patch sent as text does what its hunks do |

## Left out

- Git, the filesystem, child processes and clocks: a map from path to content, a history of trees and nondeterministic crashes stand for them; pruning of empty directories has no counterpart.
- The section-level merge that rewrites staged skeletons before a merge absorb (backend/src/storage/canonical-store.ts:747-770): taken as applied at file level; at section level `PublishProtocol` states what it must achieve.
- A staging tree that holds both a skeleton and a tombstone of one document, or entries that are not documents: excluded by the predicate `Coherent`.
- Change reports, snapshots, receipts, commit messages and the write-permission gate (backend/src/storage/canonical-store.ts:491-515, 801-860; backend/src/storage/commit-pipeline.ts:129-172, 309-335): no property beside the ones above.
- Proposals flagged as degraded, and the gate that compares a proposal's sections with its targets (backend/src/storage/proposal-repository.ts:965-1034): not states of `PublishProtocol`.
- An edit of a proposal changes its overlay and its meta file in one step, and a proposal has one publish attempt and one live edit under way at a time.
- PublishRuns.CommittedIsInHead: gives a sufficient condition; whether HEAD happens to have the change of a proposal finalized by an old commit depends on what others published since.
- Which sections a live edit touches (backend/src/ws/crdt-ws-coordinator.ts:1686-1776): the protocol has the lock check of its gate and the claim written afterwards, over any targets.
- Lock keys are targets, not strings joined with ">>"; segments are taken as trimmed.
- Lower-casing covers ASCII letters only.
- Generated file ids are new: a premise of the edits that mint them.
- What the callers of a subtree rewrite do before it, and the replacement of whole documents (backend/src/storage/content-layer.ts:960-1172, 1305-1367): whether leading text dissolves, merges or retitles is decided there.
- Levels above six, which the parser of heading levels refuses; renaming to an empty heading; the inner heading removal with its reparenting (backend/src/storage/document-skeleton.ts:1257-1480).
- MovedSections.MoveIsStoredIff: is about one content root, because reading an overlay falls back to canonical, which may still hold the listing that was removed.
- The rewrite of a body holder's own text when a move's destination already is a parent with no other section: it writes what is there.
- Editors are modelled from the acknowledgement rule alone: once they have acknowledged they send nothing until the pause ends. Observers, mode transitions of a connected socket and the frames' encoding are not modelled; frames of a closed socket that were not handled are lost.
- An `applyDelta` that throws inside the transaction: functions are total here. `computeDelta` sees the document once, as it was when the snapshot was taken.
- When a proposal is due for publishing, and the bound and authored proposal of the generator (backend/src/crdt/crdt-proposal-generator.ts): easy beside the transaction.
- Markdown and the editor's schema: fragments are node sequences, parsing groups them by heading, `fitIncomingForSlot` is any partial function. Trimming of bodies, seeds for new fragments and the final convergence of a survivor onto its text are not modelled.
- Addresses of a body move are resolved in the editor's document; the fingerprint check against the markdown before it, and the answer a client gets, are not.
- Hunk numbers are natural numbers of any size, while the program's lose precision above 2^53.
