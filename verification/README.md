# Object repository verification

A model, in Dafny, of the immutable-identity object repository of the automation harness and of the tree,
locator and region algorithms around it, with proofs of what they promise.

- **Ownership** (`Ownership`, `ComponentRepository`, `RepositoryEdits`, `ObjectReparenting`,
  `RepositoryChanges`, `RepositoryRuns`, `RepositoryRecovery`). A repository maps aliases to definitions with unique ids, and every owner chain reaches a
  root. The constructor's walk is proved to accept exactly these; every edit, and every run of edits, stays among
  them; deletion, reparenting and moving are characterised by what they do to the ancestor relation.
- **Normalization and merging** (`SortOrder`, `RepositoryNormalization`, `NormalizedObjects`,
  `RepeatedNormalization`, `RepositoryMerge`, `MergedEntries`).
  Hiding layout containers keeps visible ancestry, a second normalization may only hand numbers out anew, and the OR
  merge conserves identities and is stable.
- **Menus** (`MenuNavigation`, `MenuSelection`, `LogicalMenu`, `MenuRecording`, `RecaptureMerge`). Printed paths parse back to themselves or to an
  ambiguity; staging a recorded path adds or updates along one path only; a recapture loses inventory in one case only.
- **Locators** (`LocatorMatching`, `StructureMatching`). The weakened question to the bridge loses no match, and the greedy lineage scan
  agrees with every possible placement.
- **Regions** (`VisualRegion`, `VisualGeometry`). The flood fill computes the connected region and its tight box;
  relative bounds resolve to the captured pixels, or overshoot by at most one.
- **Trees and plans** (`LeafPaths`, `IdentityWorkbench`, `AssignmentOrder`, `Assignments`, `IdentityEditor`,
  `CaptureContext`, `ReusableExtraction`, `ExtractionContract`, `ScatteredExtraction`). The two flatten/rebuild pairs, the rewriting of captured trees, and
  what an extracted step stands for.
- **Hotkeys** (`GlobalHotkeys`). All-or-nothing grabs against a server that may refuse any of them, and the events
  they deliver.

Code that updates state is modelled by classes, and loops by methods with invariants, each tied to a
specification function or to the property itself; recursive code is modelled by functions. What such a function gives
is then stated a second time, entry by entry and field by field, in terms that do not use it. Dictionaries whose order
cannot matter are iterated in arbitrary order; where order matters they are sequences of entries.

## Findings

Where the code and what is said about it disagree, the model follows the code.

- `load_recoverable` parses each entry as a repository of its own, which refuses every object with an owner. A
  repository that needs recovery therefore loses all owned objects, valid or not
  (`RepositoryRecovery.RecoverableLoadKeepsOnlyRoots`). What is left fails only over shared ids: the loop after it
  repairs one id shared by two aliases and gives up on anything more, such as three aliases of one id
  (`RootsRecoverableIffOneClash`, `ThreeAliasesNeverRecovered`), which is narrower than its comment.
- The constructor normalizes an owner before it looks it up among the ids and not before the cycle walk, so in a
  repository without cycles an owner spelled unlike its object's id always ends in a `KeyError`
  (`ComponentRepository.Construct`, `MisspelledOwnerCrashes`); documents are parsed to one spelling and do not reach
  it. `overlay` has a similar corner (`RepositoryEdits.Overlay`, `SpellingsClash`).
- `reparent_leaf` fails when the new alias it builds has surrounding space (`ObjectReparenting.ReparentLeaf`,
  `PaddedAliasNotMoved`).
- A normalization plan whose `changed` is false may still drop visibility markers
  (`RepositoryNormalization.QuietPlanDropsMarkers`, `QuietPlanOccurs`).
- A second normalization may rename again, since aliases sort as text: "X 10" before "X 2"
  (`RepeatedNormalization.SecondPassIsIdentityIffNoneOvertakes`, `TenthSortsBeforeSecond`).
- Whether an OR merge adds a new object depends on alias order, since its owner must have been added before it
  (`RepositoryMerge.MergeSucceedsIff`). And a source object that shares only its alias with the target loses its own
  id, so that its new children are refused in every order (`AliasMatchedOwnerRefused`, `AliasMatchedOwnerOccurs`).
- The exact subset of a matcher can itself look like a regular expression, to the harness's own matcher; the
  code hands it to the bridge only, which reads it literally (`LocatorMatching.SubsetWeakerIffNoPatternLeft`,
  `BroadQuestionLosesNothing`).
- Staging replaces an item's recorded identity by the observed one. An observation with fewer fields erases the
  others, and a conflicting observation can then overwrite the item (`LogicalMenu.StageKeepsIdentitiesIffCovering`,
  `ErasedTextOverwritten`).
- A recapture does lose recorded inventory below an item whose `subobjects` it has as something else than a
  mapping (`RecaptureMerge.NothingLostIff`, `BrokenRecaptureErases`).
- A captured visual region need not contain the click (`VisualRegion.RegionHoldsClickIff`, `RegionMissesClick`).
- The workbench's rebuild depends on the order of leaves whose paths are no prefixes of each other, when one goes on
  with an index where the other goes on with a key (`AssignmentOrder.OrderIrrelevantIffApart`, `PrefixFreeNotEnough`).
- Text and key-list navigation differ on an empty key (`MenuNavigation.TextAndPathSelectAlike`,
  `EmptyKeyRefused`), staging is stable
  only for observations with an id or text (`LogicalMenu.StagingAgain`), the workbench's rebuild loses what has no
  leaf (`IdentityWorkbench.RebuildRestoresIffWhole`), and an extracted step is faithful only without early reads
  (`ReusableExtraction.InputsSufficeIffNoEarlyRead`), and not for every selection with other calls in between
  (`ScatteredExtraction.StepReplacesScatteredIff`, `NoPlaceAroundCarrier`).

## Model

| member | source | states |
|---|---|---|
| `ComponentRepository.WalkOwners` | automation_harness/core/component_repository.py:78-85 | the visited-set walk reports a root exactly when the owner chain is finite and stays in the repository; a repetition means that some object owns itself through others, and a crash that some owner is not an id of the repository as written |
| `ComponentRepository.CheckIdentities` | automation_harness/core/component_repository.py:49-61 | the identity loop accepts exactly the mappings whose keys are their aliases and whose ids parse and are pairwise different once normalized |
| `ComponentRepository.CheckOwners` | automation_harness/core/component_repository.py:62-73 | the owner loop, with only its `seen` map, accepts exactly when every owner parses, is not the object itself and normalizes to some object's id |
| `ComponentRepository.ValidateOwnershipCycles` | automation_harness/core/component_repository.py:76-85 | the cycle check passes exactly when every owner chain of the repository reaches a root, and reports a cycle only when there is one |
| `ComponentRepository.Construct` | automation_harness/core/component_repository.py:48-85 | the constructor accepts exactly the mappings with distinct identities whose every owner chain reaches a root; its identity and owner errors occur exactly when those checks fail and name an entry that fails them, a cycle error only with a cycle, and without a cycle the walk ends in a `KeyError` exactly when some owner is spelled unlike its object's id |
| `ComponentRepository.OwnersAcceptedIff` | automation_harness/core/component_repository.py:62-73 | the owner checks refuse exactly an owner that does not parse, is the object itself, or is nobody |
| `ComponentRepository.MisspelledOwnerCrashes` | automation_harness/core/component_repository.py:62-85 | such a `KeyError` occurs: two objects, the second owned by the first under its id without hyphens |
| `RepositoryEdits.RenamedKeepsOwnership` | automation_harness/core/component_repository.py:331-334 | putting an object under a free alias keeps the repository valid and leaves who owns whom untouched |
| `RepositoryEdits.Rename` | automation_harness/core/component_repository.py:324-334 | past its own checks a rename of a valid repository is never refused by the constructor, and keeps the ownership graph |
| `RepositoryEdits.RenameUndone` | automation_harness/core/component_repository.py:324-334 | renaming back restores the repository exactly, if and only if the old alias was non-empty and trimmed |
| `RepositoryEdits.SweepOwned` | automation_harness/core/component_repository.py:311-314 | one sweep, in any dictionary order, adds only members of the subtree, and adds nothing only when the set is closed under ownership |
| `RepositoryEdits.ClosedIsSubtree` | automation_harness/core/component_repository.py:307-314 | a set of subtree members that holds the root and everything owned from it is the whole subtree |
| `RepositoryEdits.DeleteSubtree` | automation_harness/core/component_repository.py:304-322 | the chaotic fixpoint removes exactly the root and the objects whose owner chain passes through it, reports exactly their aliases, and is never refused by the constructor |
| `RepositoryEdits.ReparentChildren` | automation_harness/core/component_repository.py:297-301 | the loop over the children, in any order, gives every child the removed object's owner and changes nothing else |
| `RepositoryEdits.WithoutComponent` | automation_harness/core/component_repository.py:276-302 | an unknown reference changes nothing, children without the reparenting flag are refused, and every other removal from a valid repository yields a valid one |
| `RepositoryEdits.RemovalKeepsAncestors` | automation_harness/core/component_repository.py:276-302 | removing an object with its children reparented keeps "is an ancestor of" among the survivors in both directions |
| `RepositoryEdits.WithComponent` | automation_harness/core/component_repository.py:268-274 | the update succeeds exactly under the condition of the next row, an existing alias keeping its object id |
| `RepositoryEdits.PutAcceptedIff` | automation_harness/core/component_repository.py:268-274 | a new alias is accepted exactly with an id no entry has in any spelling and a known owner; a known alias exactly with no owner or a known one outside the object's own subtree |
| `RepositoryEdits.OwnerReplaced` | automation_harness/core/component_repository.py:268-274 | replacing a definition creates a cycle exactly when the new owner is the object or something it owns |
| `RepositoryEdits.FreshDefinitionAccepted` | automation_harness/core/component_repository.py:268-274 | a definition with a new alias and id is accepted exactly when its id parses, no other id normalizes to the same, and its owner is present; it then only adds its own edge |
| `RepositoryEdits.Compose` | automation_harness/core/component_repository.py:336-349 | the nested conflict loops of `overlay`, in any order, succeed exactly when equal aliases carry equal definitions and equal ids carry equal aliases, and then hold the union |
| `RepositoryEdits.OverlayRooted` | automation_harness/core/component_repository.py:336-350 | the union of two valid, agreeing repositories never has a cycle or a lost owner: only its ids can clash |
| `RepositoryEdits.Overlay` | automation_harness/core/component_repository.py:336-350 | past its own two checks `overlay` is refused only when one id is written in two spellings, which canonically spelled repositories rule out |
| `RepositoryEdits.SpellingsClash` | automation_harness/core/component_repository.py:336-350 | that refusal occurs: two valid repositories that agree on aliases and ids as written, one id being spelled with and one without hyphens |
| `RepositoryChanges.FindIff` | automation_harness/core/component_repository.py:200-210 | a reference means the entry under that alias, else the one with that id, else nothing |
| `RepositoryChanges.RenameIs` | automation_harness/core/component_repository.py:324-334 | a rename succeeds exactly for a non-blank name that is the object's own or free; it puts that one definition under the trimmed name and leaves all other entries as they are |
| `RepositoryChanges.RemovalIs` | automation_harness/core/component_repository.py:276-301 | a removal is refused exactly when the object has children that may not be reparented; otherwise that entry goes and of its children only the owner changes |
| `RepositoryChanges.DeletionIs` | automation_harness/core/component_repository.py:317-322 | what a deletion keeps it keeps as it was |
| `RepositoryChanges.PutIs` | automation_harness/core/component_repository.py:268-274 | a put writes one entry, under the id its alias has already, and leaves the others alone |
| `ObjectReparenting.ReparentLeaf` | automation_harness/core/object_reparenting.py:9-59 | past its explicit checks a move is never refused by the constructor; the one other failure is a new alias that `rename` trims, after which the lookup of the untrimmed alias fails |
| `ObjectReparenting.PaddedAliasNotMoved` | automation_harness/core/object_reparenting.py:37-42 | that failure occurs: a root whose alias ends in a space cannot be moved under another |
| `ObjectReparenting.MoveAccepted` | automation_harness/core/object_reparenting.py:37-58 | a movable leaf under a free alias: both the renamed and the re-owned repository are valid, and only the leaf's owner edge differs |
| `ObjectReparenting.MoveChangesOneLineage` | automation_harness/core/object_reparenting.py:9-59 | after a successful move the leaf's ancestors are the new parent and its ancestors, every other object keeps exactly its own, and the set of ids is unchanged |
| `ObjectReparenting.MoveKeepsTheRest` | automation_harness/core/object_reparenting.py:35-59 | a move leaves every other object as it was; of the moved one it keeps id and locators, raises the revision by one, and marks it for recapture exactly when it is visual |
| `RepositoryChanges.MoveRefusedIff` | automation_harness/core/object_reparenting.py:9-42 | a move is refused exactly when child and parent are one object, a visual child would get a parent that is no rendering surface, the child owns something or qualifies an alias, or its new alias is taken or not trimmed; each error says which |
| `RepositoryChanges.MoveUnknown` | automation_harness/core/object_reparenting.py:17-19 | a reference that means nothing is reported, the child's before the parent's |
| `RepositoryChanges.MovedLeafIs` | automation_harness/core/object_reparenting.py:43-59 | of the moved object alias, owner and revision change, and of a visual one the three properties that ask for recapture and name its former owner |
| `RepositoryRuns.StepStaysValid` | automation_harness/core/component_repository.py:268-350 | each kind of edit that its own conditions admit takes a valid repository to a valid one, a put under the condition of `PutAcceptedIff` |
| `RepositoryRuns.RunStaysValid` | automation_harness/core/component_repository.py:268-350 | every state of every run of renames, removals, subtree deletions, moves, puts and overlays is valid |
| `RepositoryRuns.PruningRunKeepsOwnership` | automation_harness/core/component_repository.py:276-334 | over every run of renames, reparenting removals and subtree deletions no object appears and the survivors keep their ancestor relation exactly |
| `RepositoryRecovery.FindRemovable` | automation_harness/core/component_repository.py:168-177 | the search finds the first entry, in the dictionary's order, whose removal repairs the repository, and nothing only when no removal does |
| `RepositoryRecovery.Recover` | automation_harness/core/component_repository.py:164-183 | the recovery loop returns the input when it is valid and otherwise drops the first entry whose removal repairs it; it raises exactly when the input is invalid and no single deletion repairs it |
| `RepositoryRecovery.RootsRecoverableIffOneClash` | automation_harness/core/component_repository.py:164-183 | for entries without owners, which are all that a load hands to the loop, it succeeds exactly when at most one id is shared, and by two aliases only |
| `RepositoryRecovery.ThreeAliasesNeverRecovered` | automation_harness/core/component_repository.py:164-183 | three aliases of one id are never recovered, whatever else there is |
| `RepositoryRecovery.RecoverableIff` | automation_harness/core/component_repository.py:164-183 | for any parsed entries: with distinct ids at most one chain may miss a root, otherwise one id is shared by two aliases and without one of them every chain reaches a root; narrower than the "smallest set" of the comment |
| `RepositoryRecovery.RecoverableIffOneUnrooted` | automation_harness/core/component_repository.py:164-183 | the loop in isolation, the case of distinct ids: at most one entry's chain fails to reach a root |
| `RepositoryRecovery.StuckNeverRecovered` | automation_harness/core/component_repository.py:164-183 | two entries in a set that no owner chain leaves are never recovered, whatever ids are shared elsewhere |
| `RepositoryRecovery.RecoverableIffNoneStuck` | automation_harness/core/component_repository.py:164-183 | with distinct ids nothing else stands in the way: entries are recovered exactly when no such set holds two |
| `RepositoryRecovery.CycleNeverRecovered` | automation_harness/core/component_repository.py:164-183 | an ownership cycle of any length is never recovered, unless an id on it is shared |
| `RepositoryRecovery.DanglingOwnerWithDependentsNeverRecovered` | automation_harness/core/component_repository.py:164-183 | a missing owner whose holder owns something is never recovered, unless the holder's id is shared |
| `RepositoryRecovery.SharedIdIsRecovered` | automation_harness/core/component_repository.py:164-183 | sharing an id does save both: a cycle, or a missing owner with dependents, is repaired when another entry has the id of the one removed |
| `RepositoryRecovery.StandsAloneIffRoot` | automation_harness/core/component_repository.py:147-155 | parsing an entry as a repository of its own succeeds exactly for objects without an owner |
| `RepositoryRecovery.LoadRecoverable` | automation_harness/core/component_repository.py:117-183 | the whole recoverable load fails exactly when, among the entries that parse alone, more than two aliases share an id or more than one id is shared; it reports every refused entry and at most one more, the first in reading order whose removal repairs the rest, and what it returns is valid and contains no owned object at all |
| `RepositoryRecovery.FirstIdKept` | automation_harness/core/component_repository.py:156-160 | an alias read several times keeps the id of the first entry that stands alone under it |
| `RepositoryRecovery.LastDefinitionKept` | automation_harness/core/component_repository.py:156-160 | and otherwise the definition of the last one |
| `RepositoryRecovery.RefusedIs` | automation_harness/core/component_repository.py:147-155 | the issues of the first loop are the aliases of the entries that do not parse or have an owner, in reading order |
| `RepositoryRecovery.FileRecoverableIffOneClash` | automation_harness/core/component_repository.py:117-183 | read off a file: it can be loaded recoverably exactly when among its objects without owner at most one id is shared, by two |
| `RepositoryRecovery.RecoverableLoadKeepsOnlyRoots` | automation_harness/core/component_repository.py:117-183 | a valid repository loaded recoverably loses every owned object and reports it as an issue: exactly the roots survive, although the documentation promises to keep the valid entries |
| `Text.AllocateName` | automation_harness/core/repository_normalization.py:285-291 | the loop returns the base if it is free and otherwise the first free numbered variant, starting at 2; it terminates for every finite set of reserved names |
| `Text.CanonicalIff` | automation_harness/core/component_repository.py:54-58 | a text has a normalized id exactly when without its hyphens it is thirty-two hexadecimal digits |
| `Text.CanonicalIs` | automation_harness/core/component_repository.py:54-58 | and that id is these digits in lower case, in groups of 8, 4, 4, 4 and 12 |
| `RepositoryNormalization.NearestVisibleOwner` | automation_harness/core/repository_normalization.py:170-185 | the climb returns the first visible object on the owner chain, or nothing when all of it is hidden; its cycle guard never fires on a valid repository |
| `RepositoryNormalization.AllocateNames` | automation_harness/core/repository_normalization.py:75-90 | in the order of type, folded alias and id, every visible object gets the lowest variant of its semantic name that is free in its turn; aliases avoid the hidden objects' and differ, and the renames collected are exactly the aliases that change |
| `RepositoryNormalization.Show` | automation_harness/core/repository_normalization.py:117-136 | the change flag, with its revision bump, is set exactly when the definition differs |
| `RepositoryNormalization.Hide` | automation_harness/core/repository_normalization.py:96-107 | a hidden container is marked once: the flag is set exactly when the definition was not marked before; the next row but one says what it keeps |
| `RepositoryNormalization.RehomeVisible` | automation_harness/core/repository_normalization.py:109-147 | in any order, the loop re-owns every visible object by its nearest visible ancestor and collects a move for exactly the objects whose owner changes, with the aliases before and after; an empty alias, for which the source falls back to an order-dependent one, is excluded from the last clause only |
| `RepositoryNormalization.ReportsAreExact` | automation_harness/core/repository_normalization.py:81-147 | the renames and moves collected in the loops are exactly the differences of alias and owner between the repository before and after |
| `RepositoryNormalization.ReformDefinitions` | automation_harness/core/repository_normalization.py:92-147 | the two loops assemble one definition for each id and count as changed exactly the ids whose definition differs |
| `RepositoryNormalization.NormalDefinitions` | automation_harness/core/repository_normalization.py:57-147 | before re-keying the aliases are distinct, so re-keying by alias loses no definition |
| `RepositoryNormalization.Normalize` | automation_harness/core/repository_normalization.py:53-167 | normalizing a valid repository never trips the constructor, keeps exactly its ids, hides exactly the layout objects, re-owns every visible object by its nearest visible ancestor, and its renames, moves and unchanged count, collected along the way, are exact |
| `NormalizedObjects.ObjectAfterNormalization` | automation_harness/core/repository_normalization.py:96-136 | every object keeps all its fields but alias, owner, properties and revision, and all its properties but the two markers; a hidden one keeps alias and owner and carries both markers, or those it had; a visible one carries none; the revision rises by one exactly when anything differs |
| `NormalizedObjects.ReportIs` | automation_harness/core/repository_normalization.py:81-167 | the plan reports every alias that changed with the new one, every object that changed owners by its new alias and the aliases of the old and the new owner, the aliases of all hidden objects, and how many objects did not change |
| `RepositoryNormalization.NormalFormGraph` | automation_harness/core/repository_normalization.py:96-147 | the result's ownership graph has the same ids; visible objects bypass the hidden ones and hidden objects keep their owner |
| `RepositoryNormalization.NormalFormValid` | automation_harness/core/repository_normalization.py:149-154 | every chain of a normalized repository still reaches a root, through visible and hidden objects alike |
| `RepositoryNormalization.NormalizationKeepsVisibleAncestors` | automation_harness/core/repository_normalization.py:109-136 | for visible u and v, "v is an ancestor of u" is the same before and after |
| `RepositoryNormalization.ClimbHidden` | automation_harness/core/repository_hierarchy.py:44-52 | the authoring climb returns the nearest owner that is not marked hidden |
| `RepositoryNormalization.AuthoringParentIds` | automation_harness/core/repository_hierarchy.py:36-53 | the authoring parents are the nearest unmarked ancestors, listed for exactly the unmarked objects |
| `RepositoryNormalization.NormalizedAuthoringParents` | automation_harness/core/repository_hierarchy.py:36-53 | the authoring parents of a normalized repository are the nearest visible owners of the repository before it, for exactly the visible objects |
| `RepositoryNormalization.SecondPassOnlyRenames` | automation_harness/core/repository_normalization.py:53-167 | a second pass changes no owner, no marker and no locator: a definition differs at most in alias and revision, and the following rows say when |
| `RepeatedNormalization.UniqueNameIff` | automation_harness/core/repository_normalization.py:285-291 | allocation gives a name exactly when it is free and the lowest variant of the base that is |
| `RepeatedNormalization.AllKeptIffInPlace` | automation_harness/core/repository_normalization.py:75-90 | allocation gives every object its own alias back exactly when every alias is a variant of its object's name all lower ones of which hidden objects or objects sorted before it have |
| `RepeatedNormalization.RenamesNothingIff` | automation_harness/core/repository_normalization.py:53-167 | normalizing any valid repository renames nothing exactly when all its visible aliases are in place in this sense |
| `RepeatedNormalization.SecondPassIsIdentityIff` | automation_harness/core/repository_normalization.py:53-167 | a second pass is the identity exactly when the aliases of the first are in place, for every naming policy |
| `RepeatedNormalization.SecondPassIsIdentityIffNoneOvertakes` | automation_harness/core/repository_normalization.py:75-90 | where names come from identity alone, a second pass is the identity exactly when, among visible objects of one type, no numbered variant of a name sorts before a lower one |
| `RepeatedNormalization.BelowTenStays` | automation_harness/core/repository_normalization.py:75-90 | so it is the identity when no object has a variant numbered ten or higher |
| `RepeatedNormalization.TenthSortsBeforeSecond` | automation_harness/core/repository_normalization.py:75-90 | it need not be: ten objects of one type and name, for which "X 10" sorts before "X 2", change again in a second pass |
| `RepositoryNormalization.QuietPlanDropsMarkers` | automation_harness/core/repository_normalization.py:27-29 | a plan whose `changed` is false differs from its input in exactly the objects that carry a stale visibility marker |
| `RepositoryNormalization.QuietPlanOccurs` | automation_harness/core/repository_normalization.py:27-29 | such a plan exists: normalizing one root with a marker reports no change and returns a different repository |
| `RepositoryMerge.AppendNewContents` | automation_harness/authoring/plan_repository.py:354-357 | the strategy loop keeps the target's strategies as a prefix, ends with exactly the union, and adds none exactly when the source brings none |
| `RepositoryMerge.UnchangedIffAbsorbed` | automation_harness/authoring/plan_repository.py:341-390 | the eleven-way change test is false, for compatible types, exactly when the target already says everything the source says |
| `RepositoryMerge.MergeResult` | automation_harness/authoring/plan_repository.py:340-407 | a merge keeps alias, id and owner of the target, and returns the target itself exactly when the source is absorbed |
| `RepositoryMerge.MergeJoins` | automation_harness/authoring/plan_repository.py:340-407 | a merge invents nothing and drops nothing: strategies, actions and every metadata mapping are the union, the target's word first, under the more specific type; visual, description and revision are in the rows of `MergedEntries` |
| `RepositoryMerge.MergedAbsorbs` | automation_harness/authoring/plan_repository.py:340-407 | after a merge the target says everything the source said |
| `RepositoryMerge.AbsorptionPersists` | automation_harness/authoring/plan_repository.py:340-407 | what a target had absorbed stays absorbed through any later merge |
| `RepositoryMerge.TargetById` | automation_harness/authoring/plan_repository.py:331-337 | an entry with the source's id is the canonical target, whatever the aliases |
| `RepositoryMerge.SameIdentityValid` | automation_harness/authoring/plan_repository.py:315-321 | writing a merged definition back is never refused: its alias, id and owner are those of the entry it replaces |
| `RepositoryMerge.MergeRepositoryOr` | automation_harness/authoring/plan_repository.py:296-323 | the loop over the source in alias order returns the repository and tally whose laws the next three rows state, failing with incompatible types or with a refused addition |
| `RepositoryMerge.MergeConserves` | automation_harness/authoring/plan_repository.py:296-323 | a successful merge keeps every target alias with its id and owner, only extends its locators, actions and metadata, grows by exactly `added`, and counts every source entry once |
| `MergedEntries.TargetsIff` | automation_harness/authoring/plan_repository.py:331-337 | a source goes into the entry with its id, else into the one under its alias |
| `MergedEntries.EntryIsFolded` | automation_harness/authoring/plan_repository.py:307-321 | over a whole merge each entry of the target is merged with exactly the sources that go into it, in order |
| `MergedEntries.MergedEntry` | automation_harness/authoring/plan_repository.py:296-407 | a whole merge, entry by entry: of every mapping the first of target and sources that has a key decides, the first visual that shows anything stays, strategies come once each in order of first occurrence, the one specific type wins, a description is only extended, the revision never falls and rises when the entry changes; all other entries are sources that go into nothing, without framework and native class |
| `MergedEntries.ChangedEntry` | automation_harness/authoring/plan_repository.py:372-407 | where a merge changes an entry its description is the non-empty ones of both, once, joined by " / ", and its revision the least above both |
| `MergedEntries.FoldedUnchangedIff` | automation_harness/authoring/plan_repository.py:377-391 | an entry is left alone exactly when it says already what each of its sources says |
| `MergedEntries.RevisionExceedsSources` | automation_harness/authoring/plan_repository.py:406 | the final revision exceeds that of every source that changed the entry |
| `RepositoryMerge.MergingAgainChangesNothing` | automation_harness/authoring/plan_repository.py:296-323 | merging the same source again returns an equal repository and counts every entry unchanged |
| `RepositoryMerge.ListedMergeable` | automation_harness/authoring/plan_repository.py:307-313 | the definitions of every valid source satisfy what the next row assumes of them |
| `RepositoryMerge.MergeSucceedsIff` | automation_harness/authoring/plan_repository.py:296-323 | for the definitions of any valid source, whatever it shares with the target: the merge succeeds exactly when all types that meet in one entry fit pairwise, no added id is the target's in another spelling, and every added object has no owner, one of the target's, or one added before it under its own id |
| `RepositoryMerge.AliasMatchedOwnerRefused` | automation_harness/authoring/plan_repository.py:307-321 | a new object whose owner meets the target by alias only is refused in every order: the owner is merged under the target's id and its own is dropped |
| `RepositoryMerge.AliasMatchedOwnerOccurs` | automation_harness/authoring/plan_repository.py:307-321 | such a source: a panel known to the target under another id, and its child, refused in both orders |
| `RepositoryMerge.NewObjectsMergeInOwnerOrder` | automation_harness/authoring/plan_repository.py:307-313 | the case of new objects only: owner order is the whole condition, a child that sorts before its absent owner being refused, and the target's entries stay as they are |
| `VisualRegion.VisitNeighbours` | automation_harness/core/object_capture.py:721-732 | the scan of offsets finds each unseen foreground pixel at distance one to three once, and nothing else |
| `VisualRegion.ClosedIsRegion` | automation_harness/core/object_capture.py:713-732 | a set of connected pixels that holds the seed and is closed under steps is the whole connected region |
| `VisualRegion.Flood` | automation_harness/core/object_capture.py:713-732 | whichever pending pixel is popped, the fill terminates with `seen` equal to the set of foreground pixels reachable from the seed, and with that set's tight bounding box |
| `VisualRegion.BridgesTwoPixels` | automation_harness/core/object_capture.py:722-732 | a step of the fill bridges a gap of up to two dark pixels: two lonely lit pixels are connected exactly up to distance three |
| `VisualRegion.FindSeed` | automation_harness/core/object_capture.py:702-711 | the seed is the clicked pixel if it is foreground, else the first foreground pixel of the growing cross, and there is none exactly when all of these are background |
| `VisualRegion.SeedIs` | automation_harness/core/object_capture.py:702-711 | the seed is the clicked pixel if lit, else the nearest lit one in line with it, at most eight away, left before right before above before below; there is none exactly when all of these are dark |
| `VisualRegion.RegionAtPoint` | automation_harness/core/object_capture.py:668-736 | a region comes back exactly for a click inside the anchor with a seed whose connected region is at least six pixels each way, and it is that region's box on the screen |
| `VisualRegion.TightUnique` | automation_harness/core/object_capture.py:717-736 | the outcome does not depend on the order of the fill: a set of pixels has one tight box |
| `VisualRegion.RegionInsideAnchor` | automation_harness/core/object_capture.py:733-736 | a captured region lies inside its anchor, is at least six pixels wide and high, and contains the seed |
| `VisualRegion.RegionHoldsClickIff` | automation_harness/core/object_capture.py:702-736 | a captured region holds the click, and not only the seed, exactly when it has a pixel past the click as seen from the seed |
| `VisualRegion.RegionMissesClick` | automation_harness/core/object_capture.py:702-736 | it may miss the click: a background column was clicked and all that is right of it is lit |
| `VisualGeometry.SurfaceRegionInside` | automation_harness/core/capture_boundaries.py:102-108 | whatever the click and size, the clamped region lies inside a surface of positive size, and contains a click that does |
| `VisualGeometry.SurfaceRegionSize` | automation_harness/core/capture_boundaries.py:104-108 | with room on all sides the region is a full square, of at least eight pixels, centred on the click |
| `VisualGeometry.ClampedRegionIs` | automation_harness/core/capture_boundaries.py:104-108 | the region begins half its size before the click, or at the nearest column and row of the surface, and ends with the surface |
| `VisualGeometry.RoundIff` | automation_harness/core/object_resolution.py:114-117 | rounding gives the nearest integer, and of two equally near ones the even one |
| `VisualGeometry.BoundsNearest` | automation_harness/core/object_resolution.py:110-117 | a relative region resolves to the pixels nearest to its exact place and size, with at least one each way |
| `VisualGeometry.AcceptedIff` | automation_harness/core/object_resolution.py:110-113 | bounds are refused exactly when they begin before the owner, have no extent, or end more than a ten-thousandth beyond it |
| `VisualGeometry.StoredRegionResolves` | automation_harness/core/object_resolution.py:105-117 | a region inside its surface passes the stored-bounds validator and resolves to the same pixels wherever a surface of that size stands |
| `VisualGeometry.SurfaceCaptureRoundTrip` | automation_harness/core/capture_boundaries.py:102-115 | a surface capture stores bounds that the validator accepts and that resolve to the captured region |
| `VisualGeometry.FloodCaptureRoundTrip` | automation_harness/core/object_capture.py:733-736 | a flood-filled region, stored relative to its anchor, is accepted and resolves to itself |
| `VisualGeometry.OvershootAtMostOnePixel` | automation_harness/core/object_resolution.py:110-117 | at every other positive owner size a region with x + w and y + h at most 1 passes the owner's far edge by at most one pixel, under round half to even |
| `VisualGeometry.AcceptedOvershoot` | automation_harness/core/component_repository.py:516-519 | for everything the validator's tolerance accepts, the overshoot is at most that tolerance plus a pixel and a half |
| `VisualGeometry.OvershootOccurs` | automation_harness/core/object_capture.py:173-178 | the bound is met: the right half of a surface of width 2 overshoots by a pixel at width 3 |
| `VisualGeometry.WholeFactorScalesExactly` | automation_harness/core/object_resolution.py:110-117 | enlarging the owner by a whole factor enlarges the region by that factor exactly |
| `GlobalHotkeys.ParseAccelerator` | automation_harness/authoring/global_hotkeys.py:84-98 | an accelerator is refused exactly when it is blank or has an unknown modifier, and its mask never contains a lock modifier |
| `GlobalHotkeys.TokensSplit` | automation_harness/authoring/global_hotkeys.py:84-86 | the tokens of a text are the stripped, non-blank pieces between its plus signs, in order |
| `GlobalHotkeys.ParsedIs` | automation_harness/authoring/global_hotkeys.py:84-98 | the key is the last token, a single letter folded, and all before it are modifiers |
| `GlobalHotkeys.CombinedMaskIs` | automation_harness/authoring/global_hotkeys.py:60-69 | a mask has exactly the modifiers that some token names, case aside, and parsing fails at the first token that names none |
| `GlobalHotkeys.CombinedMaskLockFree` | automation_harness/authoring/global_hotkeys.py:60-72 | no combination of the modifier table contains a lock bit |
| `GlobalHotkeys.VariantsNormalize` | automation_harness/authoring/global_hotkeys.py:221-232 | the lock variants of a lock-free mask are exactly the states that normalize to it |
| `GlobalHotkeys.XServer.Resolve` | automation_harness/authoring/global_hotkeys.py:237-243 | the key and modifiers an accelerator stands for, or the reason there are none; the modifiers are lock-free |
| `GlobalHotkeys.XServer.IdentityIs` | automation_harness/authoring/global_hotkeys.py:237-243 | an accelerator stands for a key if it parses, its key has a symbol and the symbol a key code; the first of these that fails is the error |
| `GlobalHotkeys.X11GlobalHotkeyBackend.Rollback` | automation_harness/authoring/global_hotkeys.py:264-265 | rollback releases exactly the grabs of this attempt |
| `GlobalHotkeys.X11GlobalHotkeyBackend.Acquire` | automation_harness/authoring/global_hotkeys.py:248-272 | against a server that may refuse any request, either all variants are grabbed or what is held is as before, with the error the first refusal gives, and the error handler is restored |
| `GlobalHotkeys.X11GlobalHotkeyBackend.Register` | automation_harness/authoring/global_hotkeys.py:234-275 | registering keeps the held grabs equal to the lock variants of the registered identities on every outcome; it succeeds exactly when the accelerator resolves to a free identity and the server grants all of its variants, and a failure changes nothing |
| `GlobalHotkeys.X11GlobalHotkeyBackend.Stop` | automation_harness/authoring/global_hotkeys.py:303-321 | stopping releases every grab, and stopping again does nothing |
| `GlobalHotkeys.X11GlobalHotkeyBackend.Run` | automation_harness/authoring/global_hotkeys.py:285-301 | the event loop calls back, in order, for exactly the key presses that held grabs deliver, each with the action registered for its key and modifiers |
| `GlobalHotkeys.HeldInStep` | automation_harness/authoring/global_hotkeys.py:273-275 | adding an identity and its variants keeps held and registered in step, and takes no grab another identity holds |
| `GlobalHotkeys.GlobalHotkeyService.TryRegister` | automation_harness/authoring/global_hotkeys.py:347-353 | a binding ends up registered, in the service as in the backend, exactly when the backend can register it, and otherwise with an error and nothing else changed |
| `GlobalHotkeys.GlobalHotkeyService.Start` | automation_harness/authoring/global_hotkeys.py:342-357 | whatever the server refuses and whatever was recorded before, every binding is accounted for, the grabs are those of the registered ones, and the listener runs exactly when it did or something is registered |
| `GlobalHotkeys.GlobalHotkeyService.Stop` | automation_harness/authoring/global_hotkeys.py:372-379 | after stopping nothing is held |
| `LocatorMatching.WithoutRegexIsLiteral` | automation_harness/core/locator_matching.py:60-102 | without regular expressions inside, the structural match is plain literal comparison |
| `LocatorMatching.ExactSubsetIsWeaker` | automation_harness/core/locator_matching.py:70-102 | whatever matches a nested matcher matches its exact subset literally |
| `LocatorMatching.GreedyLineageIsComplete` | automation_harness/core/locator_matching.py:121-136 | the greedy cursor reaches the end exactly when some strictly increasing placement of the expected lineage in the ancestors matches pairwise |
| `LocatorMatching.LineageMatches` | automation_harness/core/locator_matching.py:121-136 | the loop answers whether the expected lineage embeds in the ancestors |
| `LocatorMatching.CriterionWeaker` | automation_harness/core/locator_matching.py:105-139 | dropping regular expressions weakens every kind of criterion: parent, ancestor, lineage and plain |
| `LocatorMatching.NodeMatchesIff` | automation_harness/core/locator_matching.py:105-139 | a node meets criteria exactly when its parent matches, some one of its ancestors matches, its ancestors hold the lineage in order, and every other field matches, a missing one being null |
| `LocatorMatching.AncestorIsLineageOfOne` | automation_harness/core/locator_matching.py:111-136 | an ancestor criterion is a lineage of one, and the order of the ancestors makes no difference to it |
| `StructureMatching.StructureMatchesIff` | automation_harness/core/locator_matching.py:88-102 | a structure matches exactly when every place of it agrees: a text the pattern matches in full, a mapping, a list of the same length, or the same scalar |
| `StructureMatching.ContainsRegexIff` | automation_harness/core/locator_matching.py:60-67 | a value contains a regular expression exactly when one stands somewhere in it |
| `StructureMatching.ExactSubsetKeeps` | automation_harness/core/locator_matching.py:70-85 | the exact subset has every place under keys that can be asked exactly, with what stood there |
| `StructureMatching.BroadIs` | automation_harness/core/locator_matching.py:254-255 | the question to the bridge has every criterion of which anything can be asked exactly |
| `LocatorMatching.BroadQuestionLosesNothing` | automation_harness/core/locator_matching.py:254-258 | every node that meets the full criteria meets the question the bridge is asked, so its answer contains it |
| `LocatorMatching.FirstStage` | automation_harness/core/locator_matching.py:254-264 | filtering the bridge's answer by the mandatory criteria gives what filtering all nodes gives |
| `LocatorMatching.NextStage` | automation_harness/core/locator_matching.py:268-276 | an assistive stage never grows, and filters to all nodes meeting one criterion more |
| `LocatorMatching.FindMatches` | automation_harness/core/locator_matching.py:232-282 | the result is, among all nodes, those that meet, in the sense of `NodeMatchesIff`, the mandatory criteria and the shortest run of assistive ones that leaves at most one, or all of them; the stage counts are exact and non-increasing |
| `LocatorMatching.SubsetIsPatternIff` | automation_harness/core/locator_matching.py:70-85 | what is left of a mapping looks like a regular expression exactly when it has plain entries `match` and `value` filled like one and all its other entries vanish |
| `LocatorMatching.SubsetWeakerIffNoPatternLeft` | automation_harness/core/locator_matching.py:70-102 | read by the harness's own matcher, the exact subset is weaker for every meaning of the patterns exactly when no place of the matcher has such entries |
| `LocatorMatching.PatternLeftExample` | automation_harness/core/locator_matching.py:8-15 | such a leftover exists: plain entries named `match` and `value` beside a regular expression |
| `MenuNavigation.MatchesAre` | automation_harness/core/menu_navigation.py:54-70 | the collected matches are exactly the entries of the level that answer to the folded label |
| `MenuNavigation.NavigationFromPath` | automation_harness/core/menu_navigation.py:15-30 | the walk prints the labels along a path, failing exactly on an undefined segment or an empty path; `PrintedPathResolves` is its inverse law |
| `MenuSelection.LabelIs` | automation_harness/core/menu_navigation.py:172-182 | an item's label is the first text there is of four own fields, five criteria, its titled key and "Menu Item" |
| `MenuSelection.AnswersIff` | automation_harness/core/menu_navigation.py:56-70 | an entry answers to its key, its label and its five criteria, case aside |
| `MenuSelection.PrintedIs` | automation_harness/core/menu_navigation.py:15-30 | a printed path is the labels of its items with " > " between, if there is one and all are recorded |
| `MenuNavigation.ResolveText` | automation_harness/core/menu_navigation.py:43-85 | the walk over the labels resolves level by level, with the errors of the source in their order; `ResolvesToSamePath` says what it finds |
| `MenuNavigation.ResolvePath` | automation_harness/core/menu_navigation.py:37-42 | a list of keys is accepted, unchanged, exactly when it is non-empty, has no empty key and is defined in the tree |
| `MenuSelection.ResolvingAlong` | automation_harness/core/menu_navigation.py:54-85 | resolving labels gives the key of the one match of each on the level reached so far, and is undefined or ambiguous at the first label that has not one |
| `MenuSelection.PathAcceptedIff` | automation_harness/core/menu_navigation.py:37-42 | a list of keys is accepted exactly when it is not empty, has no empty key and leads along recorded items |
| `MenuSelection.TextRefusedFirst` | automation_harness/core/menu_navigation.py:43-51 | blank text and blank segments are refused before anything is looked up |
| `MenuNavigation.SplitJoined` | automation_harness/core/menu_navigation.py:30-46 | splitting what was joined gives the labels back, for labels that are non-empty, trimmed and free of the delimiter sign |
| `MenuNavigation.ResolvesToSamePath` | automation_harness/core/menu_navigation.py:52-85 | resolving the labels of a path gives that path when no sibling on the way answers to the same label, and reports ambiguity otherwise |
| `MenuNavigation.PrintedPathResolves` | automation_harness/core/menu_navigation.py:15-85 | printing a path with such labels and resolving the text gives that very path or reports ambiguity, the latter exactly when a sibling answers to the same label; never another path |
| `MenuNavigation.SelectorsFromPath` | automation_harness/core/menu_navigation.py:99-118 | the selectors of an internal path, or the first reason there are none, are what `TextAndPathSelectAlike` compares with those of text |
| `MenuNavigation.SelectorsFromText` | automation_harness/core/menu_navigation.py:103-169 | the selectors of text, unrecorded options by their visible text and everything below them likewise, are what `TextAndPathSelectAlike` compares with those of a path |
| `MenuSelection.PathSelectorsAlong` | automation_harness/core/menu_navigation.py:105-168 | by keys there is a selector for each item, with its kind or the stored one or one by place, its criteria or its label, its ordinal and offset; the first item that is missing, disabled, a separator or, at the end, not selectable gives the error |
| `MenuSelection.TextSelectorsAlong` | automation_harness/core/menu_navigation.py:105-168 | by labels the same holds for recorded options, options never recorded are selected by their text, and a label with several matches is ambiguous |
| `MenuNavigation.ResolvedLabelsSelectAlike` | automation_harness/core/menu_navigation.py:109-169 | labels that resolve select the same, or are refused for the same reason, as the path they resolve to |
| `MenuNavigation.TextAndPathSelectAlike` | automation_harness/core/menu_navigation.py:89-169 | when text resolves, it and its internal path have the same outcome exactly when no key on the path is empty: an empty key is refused in a list |
| `MenuNavigation.EmptyKeyRefused` | automation_harness/core/menu_navigation.py:37-42 | the difference occurs: an item stored under the empty key is found by its label and refused by its path |
| `LogicalMenu.NormalizeIsNormal` | automation_harness/core/logical_menu.py:47-67 | after normalizing no item on any level keeps a nested selector |
| `LogicalMenu.NormalizeNormal` | automation_harness/core/logical_menu.py:47-67 | normalizing a normalized tree changes nothing |
| `LogicalMenu.MatchingIndex` | automation_harness/core/logical_menu.py:456-468 | the matching child is the first entry of the level with a shared and no conflicting identity field |
| `LogicalMenu.SlotLookup` | automation_harness/core/logical_menu.py:244-271 | an observation changes one entry of a level: the first match, updated in place, or a new one under a key no entry has |
| `LogicalMenu.BuildRecordedPath` | automation_harness/core/logical_menu.py:239-292 | the loop, which descends through a moving `current`, builds the tree, path and selectors whose laws the following rows state |
| `LogicalMenu.StagedTargetIsThere` | automation_harness/core/logical_menu.py:239-292 | the staged path is in the staged tree, and its last item carries the terminal observation's criteria and kind |
| `LogicalMenu.TargetIsPersisted` | automation_harness/core/logical_menu.py:563-569 | the persistence check accepts exactly the paths that lead to an item |
| `LogicalMenu.WalkFindsMatches` | automation_harness/core/logical_menu.py:489-526 | the walk collects a path exactly when its item matches the captured criteria |
| `LogicalMenu.StagedTargetIsFound` | automation_harness/core/logical_menu.py:489-512 | the walk for the terminal criteria finds the staged target exactly when they hold an id or a text |
| `LogicalMenu.StageKeepsUniqueKeys` | automation_harness/core/logical_menu.py:245-253 | no level ever gets one key twice |
| `LogicalMenu.StageLeavesOthers` | automation_harness/core/logical_menu.py:239-283 | every path off the staged one leads to exactly the item it led to before, at any depth |
| `LogicalMenu.StageUpdatesOnlyMatches` | automation_harness/core/logical_menu.py:244-271 | an item that was already on the staged path had matched the observation, so no shared id or text conflicts; its recorded identity is replaced by the observed one, and it keeps its other fields, its display name and its selectability |
| `LogicalMenu.SafeIffCovered` | automation_harness/core/logical_menu.py:255-258 | overwriting an item is safe for good exactly when the observation has every identity field the item had; otherwise some later observation matches what is left and conflicts with what was recorded |
| `LogicalMenu.CoveringIsOnPath` | automation_harness/core/logical_menu.py:239-283 | the items a staging overwrites can be read off the recorded tree, level by level, as the first match of each observation |
| `LogicalMenu.StageKeepsIdentitiesIffCovering` | automation_harness/core/logical_menu.py:239-283 | a staging loses no recorded identity field, at any depth, exactly when each observation has every identity field of the item it first matches, descending the recorded tree |
| `LogicalMenu.CoveringRunKeepsIdentities` | automation_harness/core/logical_menu.py:239-292 | over a run of such stagings no item loses or changes an identity field between any two points |
| `LogicalMenu.CoveringRunOverwritesNoConflict` | automation_harness/core/logical_menu.py:244-271 | over such a run no observation overwrites an item whose recorded identity, at any earlier point, conflicts with it |
| `LogicalMenu.ErasedTextOverwritten` | automation_harness/core/logical_menu.py:255-258 | without it a conflict gets in: "Open" loses its text to an observation by id, and then its place to "Save" |
| `LogicalMenu.StageRemovesNothing` | automation_harness/core/logical_menu.py:239-292 | no recorded item disappears, at any depth |
| `LogicalMenu.StageKeepsNormal` | automation_harness/core/logical_menu.py:167-174 | a staged tree stays normalized, so comparing it with the normalized source detects a change |
| `LogicalMenu.StagingAgain` | automation_harness/core/logical_menu.py:239-292 | staging the same observations again leaves the tree alone exactly when every one of them has an id or a text; position-only ones get a fresh key each time |
| `LogicalMenu.RecordCapture` | automation_harness/core/logical_menu.py:167-188 | a change is reported exactly when the normalized tree differs; the owner then gets one more revision, a normalized tree and exactly the two partial-inventory properties, and otherwise comes back as it was; there is a target exactly when some element of the path is informative |
| `LogicalMenu.LegacyOwnerReturned` | automation_harness/core/logical_menu.py:167-188 | an owner stored in the older form comes back as stored, not normalized, when an observation adds nothing to it |
| `LogicalMenu.RecordingAgain` | automation_harness/core/logical_menu.py:134-188 | a recorded target is persisted in the owner that comes back, and recording the same observation again reports no change and the same target when every element identifies something |
| `MenuRecording.CriteriaMatchIff` | automation_harness/core/logical_menu.py:515-526 | two identities agree when they share an id or a text and differ in neither where both have it |
| `MenuRecording.PathSelectorsSay` | automation_harness/core/logical_menu.py:224-237 | the selectors of a path say, one for one, what its recordable elements say: those with an id, a text, an ordinal or an offset, but for a leading one that is the owner |
| `MenuRecording.StagedItems` | automation_harness/core/logical_menu.py:244-283 | each observation is written on the first item of its level that matches, or on a new one under a key made of its id, text or place: kind and criteria are the observed ones, ordinal and offset where observed, display name and selectability where there were none; the target keeps exactly these |
| `MenuRecording.CaptureRecords` | automation_harness/core/logical_menu.py:134-188 | recording a path gives a target exactly when it has a recordable element, and then each such element, in order, has its item on the target's path and its selector in the target |
| `MenuRecording.ChangedOwner` | automation_harness/core/logical_menu.py:177-187 | a changed owner gets one more revision and says that its inventory is partial and dynamic; its other properties stay |
| `MenuRecording.NormalizedItem` | automation_harness/core/logical_menu.py:47-67 | normalizing a tree leaves every item where it is and fills criteria, ordinal and offset from a nested selector where it has none |
| `MenuRecording.WalkInPreorder` | automation_harness/core/logical_menu.py:489-512 | the walk lists what it finds in preorder |
| `RecaptureMerge.MergeRecaptureSubobjects` | automation_harness/core/object_capture.py:740-753 | the loop over the recaptured keys, in any order, computes the merge whose laws follow |
| `RecaptureMerge.MergeUnitesPaths` | automation_harness/core/object_capture.py:740-753 | the merged tree has exactly the recaptured paths and those recorded ones that meet no item recaptured with subobjects that are no mapping |
| `RecaptureMerge.NothingLostIff` | automation_harness/core/object_capture.py:740-753 | a recapture loses no recorded inventory exactly when no recorded path meets such an item |
| `RecaptureMerge.BrokenRecaptureErases` | automation_harness/core/object_capture.py:746-751 | such a recapture: a menu read again with nothing under `subobjects` loses its options |
| `RecaptureMerge.FreshAttributesWin` | automation_harness/core/object_capture.py:746-747 | at every path a recaptured attribute wins, and one that was not captured again stays where the path stays |
| `RecaptureMerge.MergeIdempotent` | automation_harness/core/object_capture.py:740-753 | merging a tree with itself changes nothing exactly when all entries on all levels are mappings |
| `RecaptureMerge.AbsorbedIff` | automation_harness/core/object_capture.py:740-753 | a recapture comes out of a merge as it went in exactly when it holds everything recorded |
| `RecaptureMerge.MergeAssociative` | automation_harness/core/object_capture.py:740-753 | recaptures may be merged in another grouping exactly when, wherever the middle one erases and the last starts anew, the last holds everything the first does |
| `RecaptureMerge.MergingAgain` | automation_harness/core/object_capture.py:740-753 | merging the same recapture twice is merging it once exactly when what it adds whole consists of mappings only |
| `IdentityWorkbench.Flatten` | automation_harness/authoring/object_identity_workbench.py:747-758 | the leaves are exactly the scalars of the value with their paths, in any dictionary order |
| `IdentityWorkbench.AssignExtendsPart` | automation_harness/authoring/object_identity_workbench.py:832-857 | assigning one more leaf to what some leaves have built gives what those leaves and it build, whichever came first |
| `IdentityWorkbench.RebuildFromPaths` | automation_harness/authoring/object_identity_workbench.py:823-829 | assigning the leaves one by one into an empty mapping gives the outcome the next rows describe, an index first or after an index being refused |
| `IdentityWorkbench.RebuiltIsPart` | automation_harness/authoring/object_identity_workbench.py:823-829 | the case of scalar leaves of one mapping: the rebuilt mapping depends on which leaves there are and not on the order of assignment |
| `AssignmentOrder.OrderIrrelevantIffApart` | automation_harness/authoring/object_identity_workbench.py:832-857 | two assignable paths may be assigned in either order, to every root and with any values, containers included, failures included, exactly when they part into two keys or two indices |
| `AssignmentOrder.LeavesApart` | automation_harness/authoring/object_identity_workbench.py:747-758 | different leaves of one value do |
| `AssignmentOrder.RebuiltInAnyOrder` | automation_harness/authoring/object_identity_workbench.py:823-857 | any leaves whose paths are pairwise apart rebuild the same, or fail alike, in every order, on every root |
| `AssignmentOrder.PrefixFreeNotEnough` | automation_harness/authoring/object_identity_workbench.py:832-857 | that no path is a prefix of another is not enough: an index and a key below one field succeed in one order and are refused in the other |
| `Assignments.AssignIs` | automation_harness/authoring/object_identity_workbench.py:832-857 | assigning a path fails exactly when it meets, before an index, something that is no list; otherwise the value stands at its end, with mappings and lists on the way, and everything apart from the path stands as it did, but for the padding of lists |
| `IdentityWorkbench.UnassignableFails` | automation_harness/authoring/object_identity_workbench.py:832-852 | a path with an index after an index, or beginning with one, is always refused |
| `IdentityWorkbench.PartIsWhole` | automation_harness/authoring/object_identity_workbench.py:823-857 | all leaves of a value rebuild it exactly when nothing without a leaf is inside, empty mappings before the last leaf of a list excepted |
| `IdentityWorkbench.RebuildRestoresIffWhole` | automation_harness/authoring/object_identity_workbench.py:747-857 | flattening and rebuilding a mapping is the identity exactly when no list is directly inside a list on a leaf's path and nothing without a leaf is inside, save list padding |
| `IdentityEditor.FlattenEntry` | automation_harness/authoring/identity_editor.py:473-490 | the form has an entry for exactly the scalars and the empty containers, an empty container showing the empty text |
| `IdentityEditor.RebuildRestores` | automation_harness/authoring/identity_editor.py:473-500 | flattening and rebuilding along the value itself is the identity on every value, empty containers and lists in lists included |
| `IdentityEditor.RebuildsIffCovered` | automation_harness/authoring/identity_editor.py:493-500 | rebuilding meets a missing entry exactly when some scalar of the template has none |
| `IdentityEditor.RebuiltField` | automation_harness/authoring/identity_editor.py:493-500 | after editing scalars every entry of the result is the edited one, and empty containers stay empty |
| `IdentityEditor.RebuildKeepsShape` | automation_harness/authoring/identity_editor.py:493-500 | editing scalars keeps containers, keys and lengths |
| `IdentityEditor.EditsReadBack` | automation_harness/authoring/identity_editor.py:473-500 | the other round trip: edited entries come back when the rebuilt value is flattened, and its shape is the original's |
| `CaptureContext.Semanticize` | automation_harness/authoring/capture_context.py:435-454 | the recursion, with its boundary flag and promoted children, builds the forest whose shape the next row states |
| `CaptureContext.RewritingKeepsAncestry` | automation_harness/authoring/capture_context.py:435-454 | in preorder the rewritten tree shows exactly the target, the boundaries and the named context below no boundary, and the ancestors of each are exactly its kept raw ancestors in order |
| `CaptureContext.RewrittenFlagsAgree` | automation_harness/authoring/capture_context.py:451-464 | every shown node is flagged target exactly when it has the target's reference, and semantic exactly when it is the target or a boundary |
| `CaptureContext.SemanticChildren` | automation_harness/authoring/capture_context.py:426-432 | the same for the forest below a window root, which does not bound its children |
| `CaptureContext.PathSearch.Visit` | automation_harness/authoring/capture_context.py:656-664 | the walk with its shared path finds the first node in preorder with the reference, leaves the path to it, and otherwise restores the path |
| `CaptureContext.ResolvedSemanticRef` | automation_harness/authoring/capture_context.py:652-671 | a capture stands for the deepest boundary on the path to its target, or for the target when there is no boundary or no such node |
| `CaptureContext.TargetsShown` | automation_harness/authoring/capture_context.py:436-451 | rewriting drops no node with the target's reference |
| `CaptureContext.ResolvedTargetIsShown` | automation_harness/authoring/capture_context.py:312-314 | when the target is in the window and resolves to a node other than the root, the forest shows that node as target: as often as the window has its reference, so once for unique references |
| `ReusableExtraction.SeenAlikeIffAgree` | automation_harness/authoring/reusable_extraction.py:270-283 | two stores look alike to an argument exactly when they agree on the roots of the references found in it: none is missed and none is superfluous |
| `ReusableExtraction.SelectionModesAgree` | automation_harness/authoring/reusable_extraction.py:205-230 | naming a group's calls one by one selects what naming the group does, in plan order, when ids tell calls apart |
| `ExtractionContract.SelectionIff` | automation_harness/authoring/reusable_extraction.py:205-230 | a selection succeeds exactly for one mode that names something known, and is then every wanted call in plan order |
| `ExtractionContract.SelectionErrors` | automation_harness/authoring/reusable_extraction.py:205-230 | its errors say which of these fails, and list all unknown ids |
| `ReusableExtraction.InputsSufficeIffNoEarlyRead` | automation_harness/authoring/reusable_extraction.py:39-53 | the calls see and do the same on the inferred inputs alone as on the whole store, for every store, exactly when no selected call reads an internally produced variable before a call ahead of it has produced it |
| `ReusableExtraction.InputsSuffice` | automation_harness/authoring/reusable_extraction.py:39-53 | in that case the two runs also end with the same values of all inputs and produced variables |
| `ReusableExtraction.RootIffRead` | automation_harness/authoring/reusable_extraction.py:61-64 | for a variable without a dot the textual test is reading the variable: it holds exactly when the variable is the path's root |
| `ReusableExtraction.OutputIffReadOutside` | automation_harness/authoring/reusable_extraction.py:55-64 | a variable is declared an output exactly when the selection produces it and a call outside reads it |
| `ReusableExtraction.StepStandsForCalls` | automation_harness/authoring/reusable_extraction.py:39-64 | copying back the declared outputs alone is enough for every later call |
| `ReusableExtraction.ExtractionPreservesBehaviour` | automation_harness/authoring/reusable_extraction.py:22-100 | the extracted step on its inputs does what the selected calls do on the whole store exactly when there is no early read, and on its own defaults what they do on the plan's variables |
| `ExtractionContract.TypeNameIff` | automation_harness/authoring/reusable_extraction.py:244-259 | every value has one declared type, and it is the name of its kind |
| `ExtractionContract.ContractDescribes` | automation_harness/authoring/reusable_extraction.py:39-84 | an input is what a selected call reads and none writes, required exactly when the plan has no such variable and otherwise with that variable as default and its type; an output is what a selected call writes and another call reads, under its own name |
| `ExtractionContract.ContractSuffices` | automation_harness/authoring/reusable_extraction.py:75-100 | whatever arguments a caller gives, on the contract's defaults overlaid with them the step does what the selected calls do on the plan's variables overlaid with them |
| `ExtractionContract.RequiredIsWhatIsMissing` | automation_harness/authoring/reusable_extraction.py:233-241 | every reference inside the step finds a value exactly when the caller gives the required inputs |
| `ReusableExtraction.StepReplacesCalls` | automation_harness/authoring/reusable_extraction.py:22-100 | calling the reusable step in place of the selected calls leaves what every following call sees and does unchanged |
| `ScatteredExtraction.AlikeIffSameReads` | automation_harness/authoring/reusable_extraction.py:270-283 | two lists of calls, such as two orders, give every call of both the same view and effect, for every store and every action, exactly when each call reads each variable from the same source: the store, or calls of one step on the same arguments that read alike |
| `ScatteredExtraction.StepReplacesScatteredIff` | automation_harness/authoring/reusable_extraction.py:22-100 | the reusable step, called at one place, may stand for selected calls with others in between, for every store and every action, exactly when there is no early read and gathering the calls there changes no source of a read |
| `ScatteredExtraction.NoPlaceAroundCarrier` | automation_harness/authoring/reusable_extraction.py:22-100 | a call outside that carries a value from one selected call to another leaves no place for the step |
| `ReusableExtraction.DependenciesStayInside` | automation_harness/authoring/reusable_extraction.py:66-73 | a dependency survives exactly when both its ends are selected |
| `ReusableExtraction.ExtractingAgain` | automation_harness/authoring/reusable_extraction.py:22-100 | extracting the whole extracted plan again gives the same step, inputs and defaults included, without outputs |

## Left out

- RepeatedNormalization.SecondPassIsIdentityIffNoneOvertakes: is about names that come from identity alone; a name taken from the old alias may change with it, which `SecondPassIsIdentityIff` covers.
- RepositoryMerge.MergeRepositoryOr: takes the source's definitions as a list; that the list is sorted by alias matters only to which additions succeed, which `MergeSucceedsIff` states for every order.
- RepositoryNormalization.RehomeVisible: states the collected moves for non-empty aliases, which semantic names guarantee; for an empty one it follows the source's fallback and says only whether anything moved.
- GlobalHotkeys.X11GlobalHotkeyBackend.Register: is not modelled after `stop`, when the display connection is closed; releasing a grab is taken to succeed.
- LocatorMatching.FindMatches: takes the identity split into mandatory and assistive criteria; the bridge is taken to return, in its own order, every node meeting the exact criteria, and the Python equality of `True` and `1` is not modelled.
- LogicalMenu.BuildRecordedPath: works on values, so that the copies the source takes before writing share nothing with their originals is not modelled; entries that are no mappings and fields that are no text are left out, and keys, as the dictionary's, are distinct.
- LogicalMenu.RecordCapture: starts from the one matching owner; owner matching, creating a context menu owner, `find_logical_menu_targets` and attaching invokers are left out.
- IdentityWorkbench.RebuildFromPaths: assigns into values where the source writes into nested mappings and lists in place; it reports every attempt to index into something that is not a list as a failure, also the one case in which Python would write an integer key into a mapping; keys are strings and tuples are lists.
- RecaptureMerge.MergeRecaptureSubobjects: merges values; that nested mappings taken over from an input are shared with it is not modelled; keys are strings.
- VisualRegion.RegionAtPoint: takes the foreground test as a parameter; grabbing the screen and choosing the background colour are left out.
- CaptureContext.ResolvedTargetIsShown: is about the forest before a child with the root's own reference is merged into the root and before the fallback for a missing target, neither of which unique references reach.
- ReusableExtraction.ExtractionPreservesBehaviour: takes a call's effect as a function of its step and of what it sees, writing every variable it names; descriptions, the fallback name and the copied step definitions are left out.
- RepositoryRecovery.CycleNeverRecovered: assumes that no id on the cycle is shared, since otherwise it is false (`SharedIdIsRecovered`); `RecoverableIff` covers all cases.
- RepositoryRecovery.DanglingOwnerWithDependentsNeverRecovered: assumes this of the holder's id, for the same reason.
- GlobalHotkeys.GlobalHotkeyService.Start: is about a backend that was not stopped, like `Register`.
- ComponentRepository.Construct: does not say which of the two errors a repository with both a cycle and a misspelled owner gets; the dictionary's order decides.
- RepositoryRecovery.LoadRecoverable: takes the entries of all files in reading order with the result of parsing each value; reading YAML and the wording of issues are left out, an issue being the alias it names.
- Object ids: the model of UUID text accepts hexadecimal digits with hyphens, not braces or a `urn:` prefix.
- Case folding is on ASCII letters where a function is needed and a parameter where the menus need it, as are title case, slugs, semantic names, layout judgements and the meaning of patterns.
- Arithmetic on stored bounds is over exact reals, not floating point.
- Strict `load` with its legacy override, schema parsing, saving, fingerprints and locator validation: input and output around the modelled core.
- Copying an extracted step's components into a registry, compilation of plans and the managed execution queue: other components, mostly serialization.
- Windows, dialogs, accessibility and desktop drivers: foreign code without an algorithmic core.
