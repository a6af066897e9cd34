# gmcollage: a Dafny model of the module partition/merge engine

gmcollage splits a GameMaker project into modules and merges them back.

- **Out.** The "out" run reads module configs, each a list of (kind, folder path) pairs. The project document must be a `*.project.gmx` tree of kind folders and resource leaves. Each listed folder is cut out of the project and wrapped in a `part` element of its module's document. The asset file of every resource leaf in the cut folders then moves into the module's output directory.
- **In.** The "in" run makes sure the project has a root folder for every kind but datafiles. It refuses module resources whose text the project already holds. Otherwise it grafts every `part` back under its chain of parent folders, creating missing folders on the way, and moves the module's asset files back.

The model covers the following:

- the resource catalog;
- the module parts and how they are gathered from configs;
- the validation loop, with its three error lists;
- the extraction of folders out of the project tree;
- the relocation plan of asset moves;
- the kind roots, the collision check and the graft of the "in" run;
- the directory moves of the "in" run;
- the path helpers (project directory, module names).

## How the model works

- **Documents.** A document is a `Tree.Node` value: tag, attributes, optional text and children. A node is identified by its address, the path of child indices from the root, so the parent map `gmx_parents` becomes address prefixes.
- **In-place edits.** Each in-place `append` or `remove` becomes a function from the old tree to the new tree. The loops that perform these edits become `method`s, proved equal to those functions.
- **The validation loop.** This loop is the method `Validation.Validate`. Its result is tied to `Validation.Expected`, and the lemmas state exactly which pairs and parts each list holds.
- **The two runs.** `Run.OutWith` and `Run.InWith` define each run from its stages, with the points where the source goes wrong as parameters: the grouping of the parts and the project directory for "out", the collision labels and the move-back outcome for "in". `Run.OutAsWritten` and `Run.InAsWritten` fill them in as the source does; `Run.OutSpec` and `Run.InSpec` as evidently intended. The method `Run.RunOut` takes the grouping and the directory as arguments, so it is proved for both; `Run.RunIn` is the intended run. The outcomes are datatypes that record whether the run:
  - stopped;
  - was a test run;
  - crashed after some moves;
  - committed, listing the moves and writes it made.

  The file system is an abstract log of `(src, dst)` moves. Directory listings are an input map. The test flag is a boolean.

### Properties the code does not have

- **Distinct targets can still nest.** Parts with pairwise distinct (kind, path) can still be reported as nested, as `Enemies` and `Enemies/Boss` are (`Validation.NestedScenario`). Distinct targets rule out only duplicates (`Validation.DistinctTargetsNoDuplicates`).
- **Modules are not compared with each other.** The collision check compares each module's resource texts with the project's texts only. Two modules holding the same text do not clash (`Merge.ModulesNotComparedWithEachOther`).
- **Extract then merge is not an exact inverse.** A folder extracted and grafted back is found again under its path with the same subtree (`RoundTrip.ExtractThenGraft`). That holds only when:
  - the folder is the only one of its name among its siblings;
  - the parent path does not join to `""`.

  Otherwise the graft goes elsewhere.

## Model

| member | source | states |
|---|---|---|
| Catalog.ParseKindExactly | gmcollage.py:15 | a kind string is accepted exactly when it is one of the eleven `RESOURCE_TYPES`, and the kind found has that name |
| Catalog.CatalogIsClosed | gmcollage.py:15-54 | there are exactly eleven kinds, their names in catalog order, and each parses back to itself |
| Catalog.NamesDetermineKind | gmcollage.py:16-41 | name, tag name and storage directory each identify one kind |
| PathStrings.JoinSplit | gmcollage.py:314-315 | joining the segments of a split with the same separator gives back the string |
| PathStrings.SplitJoin | gmcollage.py:233 | splitting a join of separator-free segments gives back the segments |
| PathStrings.RStripDrops | gmcollage.py:189-190 | `rstrip('/')` drops exactly the trailing slashes: a prefix with no slash at its end, where only slashes follow |
| PathStrings.ReplaceChar | gmcollage.py:172 | `replace("\\", "/")` changes every backslash and nothing else, keeping the length |
| PathStrings.ReplaceCharRemovesAll | gmcollage.py:172 | after the replacement no backslash is left, and replacing again changes nothing |
| PathStrings.DirectoryOf | gmcollage.py:145 | the intended project directory is empty or ends in "/", and followed by the file name it gives the project path |
| PathStrings.GmxDirectoryLosesSeparators | gmcollage.py:145 | the directory as written glues the directory names together ("a/b/f" gives "ab/") and turns a bare file name into "/" |
| PathStrings.ConfigName | gmcollage.py:150 | a module name in "out" mode is the config path's prefix up to its first dot, with no dot in it |
| PathStrings.ModuleName | gmcollage.py:278 | a module name in "in" mode is the directory path's suffix after its last slash, with no slash in it |
| Tree.UpdateAt | gmcollage.py:247-251 | replacing the node at an address leaves the new node there and keeps the root's labels, text and child count |
| Tree.UpdateAtFrame | gmcollage.py:247-251 | every node on the path above the replaced one keeps its labels, text and child count, and every child off the path is unchanged |
| Tree.AppendAt | gmcollage.py:248 | appending a child at an address extends that node's children by exactly that child and keeps its labels |
| Tree.RemoveChild | gmcollage.py:250-251 | `parent.remove(folder)` drops exactly that child from the parent's children |
| Tree.FindChild | gmcollage.py:313 | `find` of one step returns the first child with that tag (and `name`), and none when no child matches |
| Tree.FindChildSameMatches | gmcollage.py:322 | a step finds the same child in two child lists that match at the same positions |
| Tree.Descend | gmcollage.py:232-235 | a resolved folder path is a valid address, one step per segment, ending at a folder named by the last segment; Tree.DescendExactly and Tree.DescendNoneExactly characterise both outcomes |
| Tree.FindChildIsFirstMatch | gmcollage.py:235 | one `find` step answers a position exactly when that child matches and no earlier child does |
| Tree.FirstMatchWalkCons | gmcollage.py:233-235 | a walk that starts at child i is a first-match step to i followed by a first-match walk below it |
| Tree.DescendExactly | gmcollage.py:233-235 | the walk returns an address exactly when every step of it enters the first folder of the kind named by its segment |
| Tree.DescendNoneExactly | gmcollage.py:235-236 | the walk finds nothing exactly when no such first-match walk exists |
| Tree.Texts | gmcollage.py:294-295 | the texts of a node list, position by position |
| Parts.PartOfPair | gmcollage.py:171-174 | config i's pair j is the part at position Offset(i)+j of the flat part list |
| Parts.AllPartsUseSlashes | gmcollage.py:172 | no part path and no module path in the flat part list holds a backslash |
| Parts.OffsetBounds | gmcollage.py:174 | every config's first position lies within the flat part list |
| Parts.AllPartsPrefix | gmcollage.py:174 | the flat list after i configs is a prefix of the full flat list |
| Parts.GroupsAsWrittenShareParts | gmcollage.py:173 | as written, every part lies in every module's group |
| Parts.GroupsByConfigLists | gmcollage.py:173 | as intended, group i lists exactly config i's parts, in order |
| Parts.GroupsByConfigDisjoint | gmcollage.py:173 | as intended, no part lies in two groups or twice in one |
| Validation.Validate | gmcollage.py:176-192 | the nested loop computes exactly the duplicate, nested and invalid lists the check predicates define |
| Validation.TableMembers | gmcollage.py:179-192 | a pair is in a list exactly when the loop flags it, for positions inside the part list |
| Validation.InvalidExactly | gmcollage.py:179-181 | a part is listed invalid exactly when its kind is not in the catalog, and each invalid part is listed once, in order |
| Validation.DuplicatesOncePerPair | gmcollage.py:182-187 | two distinct parts with equal kind and path are recorded in exactly one orientation, whatever the declaration order; different targets are never recorded; no pair is recorded twice |
| Validation.DuplicateTest | gmcollage.py:186 | the "not yet recorded in either order" test holds exactly for the earlier-first orientation |
| Validation.DistinctTargetsNoDuplicates | gmcollage.py:185-187 | pairwise distinct targets give no duplicate |
| Validation.NestedExactly | gmcollage.py:188-192 | a same-kind pair of distinct parts is recorded as nested exactly when the first path lies strictly inside the second; only as (descendant, ancestor); at most once |
| Validation.IdenticalNeverNested | gmcollage.py:189-191 | paths equal after `rstrip('/')` are never nested in each other |
| Validation.NestedMeansAncestor | gmcollage.py:189-191 | for slash-free ends, nesting holds exactly when one path's segments are a proper prefix of the other's |
| Validation.NestedScenario | gmcollage.py:188-192 | for "Enemies" and "Enemies/Boss" the only nesting is (1, 0), there is no duplicate, and the run stops |
| Validation.CleanExactly | gmcollage.py:196-223 | the run passes validation exactly when all kinds are valid, no two parts share a target and no part is nested in another of its kind |
| Extraction.FindPart | gmcollage.py:232-236 | a found part is a valid address one deeper than its segments, ending at a folder of the kind named by the last segment; Extraction.FindPartExactly characterises both outcomes |
| Extraction.FindPartExactly | gmcollage.py:232-236 | the lookup answers exactly the address whose first step is the kind root and whose other steps take the first folder named by each segment, and nothing when no address fits |
| Extraction.Detach | gmcollage.py:250-251 | detaching removes exactly that child from its parent |
| Extraction.ExtractStepMovesFolder | gmcollage.py:244-251 | the new `part` is the module root's last child, carries the part's kind and path and holds exactly the folder, and the folder's old parent lost one child |
| Extraction.Extract | gmcollage.py:230-251 | the extraction loops compute the state the step functions define |
| Extraction.ExtractModule | gmcollage.py:231-251 | the inner loop handles one module's parts in group order, each as one extraction step |
| Extraction.ExtractAllAccounted | gmcollage.py:236-242 | after the loops every grouped part is either missing or has its resources recorded |
| Extraction.MoveFor | gmcollage.py:267-268 | a leaf with text moves from the project directory to the module directory, and both paths end in text plus extension; a leaf without text has no move |
| Extraction.Performed | gmcollage.py:266-269 | a plan is performed to its end only if no leaf lacks text |
| Extraction.PerformedAppend | gmcollage.py:264-269 | a plan performed without a stop is followed by what comes after it |
| Extraction.Relocate | gmcollage.py:264-269 | the move loops perform the planned moves in order, up to the first leaf without text |
| Extraction.RelocateGroup | gmcollage.py:265-269 | one module's parts are relocated in group order; a leaf without text there ends the whole run, whatever plan follows |
| Extraction.RelocatePart | gmcollage.py:266-269 | one part's leaves are relocated in document order, up to the first leaf without text, after which nothing more is performed |
| Extraction.MovesFromShape | gmcollage.py:267-268 | every planned move takes a file from the project directory to some module's directory, keeping its relative name |
| Extraction.MovesFromOwner | gmcollage.py:264-268 | every planned move is the move of a recorded leaf of a part in some group |
| Extraction.MovedForRelocates | gmcollage.py:267-268 | a move planned for group g goes from the project directory to module g's directory, keeping its relative name |
| Extraction.PerformedIsPlanned | gmcollage.py:264-269 | every performed move was planned, and a plan without textless leaves is performed in full and in order |
| Extraction.SharedGroupsReportMissing | gmcollage.py:151 | with the shared group list, two configs of one sprite folder each see both folders go to the first module and both come up missing for the second |
| Extraction.OwnGroupsExtractBoth | gmcollage.py:230-251 | with one group per config, each module takes its own folder and nothing is missing |
| Merge.EnsureKindRoots | gmcollage.py:283-287 | the kind-root loop yields the root children the specification function defines |
| Merge.WithRootsShape | gmcollage.py:283-287 | existing children are kept as a prefix; each added child is an empty element for a kind other than datafiles that had no root, and no tag is added twice |
| Merge.WithRootsComplete | gmcollage.py:283-287 | afterwards every kind but datafiles has a root child |
| Merge.WithRootsIdempotent | gmcollage.py:283-287 | running the kind-root loop a second time adds nothing |
| Merge.NoRootsAdded | gmcollage.py:286-287 | a project that already has every root is unchanged |
| Merge.CheckedTagsAreCatalogTags | gmcollage.py:291-293 | the check walks the catalog's leaf tags in order, all but "datafile" |
| Merge.CheckCollisions | gmcollage.py:289-305 | the collection loops compute the project texts, the module entries and the clashes the specification functions define |
| Merge.ProjectLeafTextListed | gmcollage.py:294-295 | the text of every project leaf of a checked tag is among the project texts (one direction; Merge.ProjectTextsHas states both) |
| Merge.TextsHas | gmcollage.py:294-295 | a text is among a leaf list's texts exactly when one of the leaves has it |
| Merge.ProjectTextsHas | gmcollage.py:291-295 | a text is among the project texts exactly when a project leaf of one of the checked tags has it |
| Merge.LeafEntriesHas | gmcollage.py:297-298 | an entry is among one module's entries exactly when one of its leaves has that text and the entry carries the label |
| Merge.TagEntriesExactly | gmcollage.py:296-298 | for one tag, an entry is collected exactly when some module's leaf of that tag has its text, under that module's label |
| Merge.ModuleEntriesExactly | gmcollage.py:291-298 | an entry is collected exactly when some module's leaf of a checked tag has its text, under that module's label |
| Merge.ClashAtLeaves | gmcollage.py:300-305 | an entry is reported exactly when it is a module leaf's entry whose text a project leaf of a checked tag carries |
| Merge.ClashesAtLeaves | gmcollage.py:289-305 | the clashes are exactly those entries, and there is one exactly when a module leaf and a project leaf of checked tags share a text |
| Merge.TagEntryLabels | gmcollage.py:296-298 | each module entry comes from one module's leaves and carries that module's label (one direction; Merge.TagEntriesExactly states both) |
| Merge.ClashesExactly | gmcollage.py:302-305 | an entry clashes exactly when it is a module entry whose text occurs in the project |
| Merge.ModulesNotComparedWithEachOther | gmcollage.py:302-303 | a text absent from the project never clashes, however many modules hold it |
| Merge.ClashLabelledWithFirstModule | gmcollage.py:298 | as written, a clash of the second module is reported under the first module's name; with each module's own name, under the second's |
| Merge.AsWrittenLabelsNameFirstModule | gmcollage.py:298 | as written, every module entry names the first module |
| Merge.ClashesIgnoreLabels | gmcollage.py:302-309 | whether and where the run stops does not depend on the labels |
| Merge.AppendTexts | gmcollage.py:294-295 | the project-text loop appends the texts of the given leaves in order |
| Merge.AppendModuleEntries | gmcollage.py:296-298 | the module loop for one tag appends the entries the specification function defines, module after module |
| Merge.AppendLeafEntries | gmcollage.py:297-298 | the leaf loop appends one entry per leaf of one module, in order |
| Merge.FindClashes | gmcollage.py:302-305 | the report loop keeps exactly the entries `Merge.Clashes` defines, that is, the module entries whose text is among the project texts, in order |
| Merge.ModuleEntriesTexts | gmcollage.py:296-298 | the entry texts are the same whatever the labels |
| Merge.ParentSegments | gmcollage.py:314 | the parent segments followed by the last segment are the path's segments |
| Merge.GraftChain | gmcollage.py:314-319 | the walk covers no folder, or all parent segments |
| Merge.Chain | gmcollage.py:321-328 | the walk keeps the kind folder's tag, attributes and text |
| Merge.GraftPart | gmcollage.py:313-328 | grafting one part gives the tree the specification function defines, or the crash |
| Merge.AppendAlongChain | gmcollage.py:321-328 | the folder walk replaces the kind folder by its walked version and changes nothing else |
| Merge.ChainStepFound | gmcollage.py:322 | a segment naming an existing folder continues the walk inside it |
| Merge.ChainStepNew | gmcollage.py:323-325 | a segment naming no folder appends a new folder with that `name` and continues inside it |
| Merge.ChainFrame | gmcollage.py:321-328 | at most the first folder matching the first segment changes, and at most one child is appended: exactly when the path is empty or that folder was absent, and then it is the subtree or a new folder of that name |
| Merge.ChainResolves | gmcollage.py:321-328 | after the walk the segments resolve to a folder whose last child is the grafted subtree |
| Merge.ChainReuses | gmcollage.py:322-326 | when the chain already exists, the walk reuses it and only appends the subtree |
| Merge.GraftPlaces | gmcollage.py:313-328 | a graft that does not crash changes only the kind's root child, keeps its labels, walks no folder exactly when the parent path joins to "", and leaves the subtree last under the resolved folder |
| Merge.GraftEachConcat | gmcollage.py:311-312 | grafting two lists of parts is grafting the first list, then the second; a crash ends it |
| Merge.GraftParts | gmcollage.py:312-328 | the graft loop over one module's parts gives the specification function's tree |
| Merge.GraftCrashStops | gmcollage.py:312-328 | a crash on an earlier part of a module ends the whole graft |
| Merge.GraftModules | gmcollage.py:311-328 | the graft loop over every module's parts gives the specification function's tree |
| Merge.ModulePartsStep | gmcollage.py:311-312 | the modules' parts are taken module by module, each in document order |
| Merge.CrashInModulePrefix | gmcollage.py:311-328 | a crash while grafting earlier modules ends the whole graft |
| Merge.GraftEachKeepsRoots | gmcollage.py:311-328 | grafting keeps the project root's labels, its child count and every root child's labels |
| Merge.KindRootsSurviveGraft | gmcollage.py:311-328 | after grafting, each kind's root is found where it was |
| Merge.MoveDirBack | gmcollage.py:336-340 | the move loop for one module directory performs the moves the specification function defines |
| Merge.DirMovesStep | gmcollage.py:337-340 | one more storage directory either lists and adds its file moves, or fails and ends the run |
| Merge.MoveFiles | gmcollage.py:338-340 | the file loop appends one move per listed file, in order |
| Merge.MoveBack | gmcollage.py:336-340 | as intended, the move loops empty every module directory in turn (the source empties only the first) and perform the moves the specification function defines |
| Merge.DirMovesStop | gmcollage.py:337 | after an unlistable directory no further storage directory is processed |
| Merge.MovesBackStop | gmcollage.py:337 | after an unlistable directory no further module is processed |
| Merge.DirMovesRelocate | gmcollage.py:336-340 | every move keeps its path below the module and project directories |
| Merge.DirMovesComplete | gmcollage.py:336-340 | the run completes exactly when every storage directory is listable |
| Merge.DirMovesAll | gmcollage.py:336-340 | when the run completes, every listed file is moved |
| Merge.SecondModuleFilesStay | gmcollage.py:337 | as written, a file of the second module directory is never moved; as intended, the run completes and moves it |
| Merge.MovesBackRelocate | gmcollage.py:336-340 | every move comes from below some module directory and keeps its path below the project directory |
| Merge.MovesBackComplete | gmcollage.py:336-340 | the moves complete exactly when every storage directory of every module is listable |
| Merge.MovesBackMovesAll | gmcollage.py:336-340 | a complete run has moved every listed file of every module directory |
| RoundTrip.DetachKeepsLabel | gmcollage.py:250-251 | detaching a folder keeps the tag, attributes and text of the root and of every node on the path above the folder |
| RoundTrip.ReGraftChain | gmcollage.py:321-328 | a folder detached from its parent chain and grafted back along it is found under the same segments again |
| RoundTrip.ExtractThenGraft | gmcollage.py:232-251 | grafting the part extracted from a project makes its path resolve again to the same folder, when it had no same-named sibling and the parent path does not join to "" |
| Run.CleanKindsValid | gmcollage.py:216-223 | a run past validation only visits parts of known kinds |
| Run.ByConfigInRange | gmcollage.py:173 | every grouped part index points into the flat part list |
| Run.AsWrittenInRange | gmcollage.py:151 | every index of the as-written groups points into the flat part list |
| Run.ReadyAfterExtract | gmcollage.py:253-266 | with nothing missing, every part the move loop visits has its resources recorded |
| Run.RunOut | gmcollage.py:176-273 | for any grouping and project directory, the "out" run ends in the outcome `Run.OutWith` defines; with the source's grouping and directory that is the as-written run, with the intended ones the intended run |
| Run.OutRejectedExactly | gmcollage.py:196-225 | for any grouping, the run stops at validation exactly when the parts are not acceptable; it then does not depend on the project and moves and writes nothing |
| Run.OutQuietUnlessComplete | gmcollage.py:253-262 | for any grouping, a missing part or test mode means no move and no write |
| Run.OutStopsOnMissing | gmcollage.py:253-259 | past validation the run stops exactly when some part is missing, and reports exactly the missing parts |
| Run.OutMovesRelocate | gmcollage.py:264-273 | for any grouping and project directory, every move goes from that directory to one module's directory with the same relative name; a complete run writes each module document to out_dir/name/module and then the project |
| Run.OutMovesByGroup | gmcollage.py:264-268 | each move of a run is the move of a recorded leaf of a part in some group g, and lands in the directory of config g's module |
| Run.SlashFreeNotNested | gmcollage.py:189-191 | a path without a slash is never nested in another |
| Run.TwoSpritePartsClean | gmcollage.py:176-223 | two sprite parts with different slash-free paths pass validation |
| Run.SharedGroupsStopRun | gmcollage.py:151 | with two configs naming one sprite folder each, the as-written run stops with both parts missing, while the intended run gets past validation and extraction |
| Run.RunIn | gmcollage.py:281-342 | the "in" run from the parsed documents ends in the outcome the intended run `Run.InSpec` defines |
| Run.InCollidesExactly | gmcollage.py:289-309 | whatever the labels, the run stops before any graft exactly when a module leaf and a project leaf of checked tags share a text; the clashes are exactly the entries of such module leaves, and nothing is moved or written |
| Run.InTestModeQuiet | gmcollage.py:333-334 | whatever the labels and move outcome, a test run moves and writes nothing |
| Run.InCommittedGraft | gmcollage.py:311-342 | a complete run writes the grafted project, in which every kind but datafiles has its folder, and made exactly the moves of a move-back loop that ran to its end |
| Run.InCommittedProject | gmcollage.py:283-342 | a complete intended run writes the grafted project and has moved every listed file of every module directory, each from some module directory |
| Run.InAsWrittenCommitted | gmcollage.py:336-340 | a complete as-written run needs a module directory, and has moved every listed file of the first one and only files of the first one, below the as-written project directory |
| Run.InAsWrittenLeavesSecondModule | gmcollage.py:298-340 | with two module directories, a sprite file of the second is never moved as written, and is moved by every intended run that gets past the collision check, the graft and test mode; both runs stop at the collision check in the same cases |

## Definitions

These functions and predicates write down what the source computes. The rows of the table above state and prove properties about them.

| member | source | defines |
|---|---|---|
| PathStrings.Split | gmcollage.py:233 | `str.split` on one separator character |
| PathStrings.Join | gmcollage.py:315 | `str.join` with a separator |
| PathStrings.GmxDirectoryAsWritten | gmcollage.py:145 | the project directory as the source builds it |
| PathStrings.DirectoryOf | gmcollage.py:145 | the project directory as evidently intended |
| Parts.ConfigParts | gmcollage.py:171-174 | the parts one config contributes |
| Parts.AllParts | gmcollage.py:165-174 | the flat part list |
| Parts.ConfigNames | gmcollage.py:150 | the module names derived from the config paths |
| Parts.GroupsAsWritten | gmcollage.py:151, 173 | the per-module groups as the source builds them |
| Parts.GroupsByConfig | gmcollage.py:151, 173 | the per-module groups as evidently intended |
| Validation.NestedIn | gmcollage.py:189-191 | the nesting test on two paths |
| Validation.Flagged | gmcollage.py:180-192 | when the validation loops flag a pair or a part |
| Validation.Expected | gmcollage.py:176-192 | the three reports of the validation loops |
| Tree.Iter | gmcollage.py:239, 294, 297 | `Element.iter`: the matching nodes in pre-order |
| Extraction.Initial | gmcollage.py:159-163, 228 | the state before extraction |
| Extraction.ExtractStep | gmcollage.py:232-251 | one part's extraction |
| Extraction.ExtractAll | gmcollage.py:230-251 | the extraction loops |
| Extraction.PartPlan | gmcollage.py:266-269 | the moves of one part |
| Merge.WithRoots | gmcollage.py:283-287 | the project after the missing kind folders are added |
| Merge.ProjectTexts | gmcollage.py:291-295 | the project's resource texts |
| Merge.LeafEntries | gmcollage.py:297-298 | one module's collision entries for one tag |
| Merge.ModuleEntries | gmcollage.py:291-298 | all module collision entries |
| Merge.LabelsAsWritten | gmcollage.py:298 | the labels as the source assigns them |
| Merge.Clashes | gmcollage.py:302-305 | the entries reported as collisions |
| Merge.GraftSpec | gmcollage.py:313-328 | the graft of one part |
| Merge.GraftEach | gmcollage.py:311-328 | the graft loops |
| Merge.FileMoves | gmcollage.py:337-340 | the moves of one storage directory |
| Merge.DirMoves | gmcollage.py:336-340 | the moves out of one module directory |
| Merge.MovesBackAsWritten | gmcollage.py:336-340 | the move-back loop as written, on the first directory only |
| Merge.MovesBack | gmcollage.py:336-340 | the move-back loop as evidently intended, over every directory |
| Run.ModuleWrites | gmcollage.py:271-272 | the module documents' writes |
| Run.OutWith | gmcollage.py:176-273 | the "out" run for a given grouping and project directory |
| Run.OutAsWritten | gmcollage.py:145-273 | the "out" run as written |
| Run.OutSpec | gmcollage.py:145-273 | the "out" run as evidently intended |
| Run.ModuleNames | gmcollage.py:278 | the module names derived from the directories |
| Run.InWith | gmcollage.py:281-342 | the "in" run for given labels and a given move-back outcome |
| Run.InAsWritten | gmcollage.py:276-342 | the "in" run as written |
| Run.InSpec | gmcollage.py:276-342 | the "in" run as evidently intended |
| Catalog.Kind.Name | gmcollage.py:15 | the RESOURCE_TYPES name of a kind |
| Catalog.Kind.StoragePath | gmcollage.py:16-28 | the RESOURCE_PATHS storage directory of a kind |
| Catalog.Kind.TagName | gmcollage.py:29-41 | the RESOURCE_TAG_NAMES element tag of a kind |
| Catalog.Kind.Extension | gmcollage.py:42-54 | the RESOURCE_FILE_EXTENSIONS suffix of a kind |
| Catalog.AllKinds | gmcollage.py:15 | the kinds in RESOURCE_TYPES order, the iteration order of the tables |
| Catalog.ResourceTypes | gmcollage.py:15 | the RESOURCE_TYPES list of names |
| Catalog.ParseKind | gmcollage.py:180 | the membership test `resource_type in RESOURCE_TYPES`, giving the kind |
| Parts.MakePart | gmcollage.py:172 | the `ModulePart` built from one config pair, with backslashes replaced |
| Validation.SameTarget | gmcollage.py:185 | two parts with equal kind and path |
| Validation.Clean | gmcollage.py:194-223 | a report with all three lists empty, which lets the run go on |
| Validation.Acceptable | gmcollage.py:176-223 | the parts pass validation, stated through their meaning |
| PathStrings.StartsWith | gmcollage.py:191 | the `a.find(b) == 0` prefix test |
| PathStrings.RStrip | gmcollage.py:189-190 | `rstrip('/')` |
| Tree.Element | gmcollage.py:162, 244 | `ET.Element(tag)` |
| Tree.Folder | gmcollage.py:324-325 | `ET.SubElement` with its `name` attribute set |
| Tree.Matches | gmcollage.py:234, 322 | the `tag[@name='…']` path-step test |
| Extraction.Wrap | gmcollage.py:244-247 | the `part` element holding one folder, with its kind and path |
| Extraction.Resources | gmcollage.py:239 | the resource leaves of a folder, `folder.iter(tag)` |
| Extraction.ExtractGroup | gmcollage.py:231-251 | the inner extraction loop over one module's parts |
| Extraction.ExtractModules | gmcollage.py:230-251 | the outer extraction loop over the first modules |
| Extraction.ModuleOutDir | gmcollage.py:268 | the directory `out_dir/name/` of one module |
| Extraction.Relocation.Leaves | gmcollage.py:242, 266 | the leaves recorded for one part of one group |
| Extraction.Relocation.MoveAt | gmcollage.py:266-268 | the move of one leaf into its group's module directory |
| Extraction.Relocation.Plan | gmcollage.py:264-269 | all planned moves in the order of the three loops |
| Extraction.MovedFor | gmcollage.py:264-268 | a move planned for a leaf of a part in a given group |
| Merge.TagEntries | gmcollage.py:296-298 | the collision entries of the first modules for one tag |
| Merge.ModuleParts | gmcollage.py:311-312 | the `part` elements of all modules, module by module |
| Run.WithKindRoots | gmcollage.py:283-287 | the project with the missing kind folders added |

## Left out

- Command-line parsing and flag handling (gmcollage.py:56-143): host plumbing. The model takes its results as parameters, that is, the project path, the config paths or module directories, the output directory and the test flag.
- Reading and writing JSON and XML (gmcollage.py:166-170, 225, 273, 279-281): external serialisers. The model starts from parsed configs and documents, and a write is a `(path, document)` record. Malformed input, such as a config pair with fewer than two items or an unparsable file, is part of parsing and is not modelled.
- Directory creation for the module outputs (gmcollage.py:154-157): a pure filesystem effect with no influence on the rest of the run.
- Failure of `shutil.move` itself (a missing source file, a clash at the destination): foreign I/O. The moves of both runs always succeed. The only crashes modelled are raised by the code itself: a leaf without text in "out" mode, an unlistable directory in "in" mode, the `None` dereferences of the graft, and the `IndexError` of `module_dirs[0]` when there is no module directory (gmcollage.py:337), which `Merge.MovesBackAsWritten` gives as an unfinished move-back with no moves.
- Message wording, including the branches that print one or two module paths (gmcollage.py:196-220, 241, 253-256, 305): printing. The model records which parts, pairs and entries are reported.
- The `resources == None` warning (gmcollage.py:240-241): `iter` never returns `None`, so the branch is dead and has no model. Likewise the `error_state` test after the graft (gmcollage.py:330-331) can never fire, because the run has already stopped when the flag was set.
- The laziness of `Element.iter` (gmcollage.py:239, 266): the resources are taken as the pre-order list of the folder's leaves at extraction time. Later detachments cannot change a recorded folder, because validation rejects nested parts and the folder has already left the tree. The list is also reusable where the generator is single-use. A part that two modules visit under the shared groups of gmcollage.py:151 and :242 therefore yields its leaves to the first module only in the source, while the model's recorded list plans them for both. An example is configs A with one sprite folder x and B with none, over a project with two sibling folders named x. The source moves the files only to out/A/, while the model also plans a second move of the same files to out/B/.
- Extraction.FindPart: XPath `find` (gmcollage.py:234-235) returns the first match in document order over all matching chains. The model steps into the first folder of each name. When two sibling folders share a name and only the second continues the path, the source finds the folder and the model reports it missing. Quoting problems with a `'` in a folder name are also not modelled.
- Merge.MovesBack: its destinations are built as the source builds them, project directory + "/" + storage directory + "/" + name, with the intended project directory. They therefore contain "//" after a non-empty directory and begin with "/" for a bare project file name. The model does not normalise these paths.
- RoundTrip.ExtractThenGraft: stated only for a folder without same-named siblings and a parent path that does not join to "". Outside those conditions the graft can land in another folder, and that case is not stated.
- Run.RunIn: performs the intended run, `Run.InSpec`. The as-written run is the function `Run.InAsWritten`, and `Run.InCollidesExactly`, `Run.InAsWrittenCommitted` and `Run.InAsWrittenLeavesSecondModule` state its behaviour.
- Run.InCommittedProject: stated for the intended run. As written only the first module directory is emptied, which `Run.InAsWrittenCommitted` states.
- Merge.MoveBack: its outer loop over every module directory is the corrected form of gmcollage.py:336-340. The loop as written is `Merge.MovesBackAsWritten`, which runs only on the first directory.
- Identity of the `ModulePart` objects is their position in the flat part list. The `module_resources_iterator` field is kept in a map from that position to the recorded leaves.

## Findings

| source | as written | input that shows it | evidently intended | confidence | as-written member | corrected member |
|---|---|---|---|---|---|---|
| gmcollage.py:151 | `[[]] * n` makes every module's group the same list, holding every part | two configs, each listing one of two sprite folders | group i holds config i's parts | not executed | Parts.GroupsAsWritten, Extraction.SharedGroupsReportMissing, Run.OutAsWritten, Run.SharedGroupsStopRun | Parts.GroupsByConfig, Extraction.OwnGroupsExtractBoth, Run.OutSpec |
| gmcollage.py:145 | the directory segments are joined with "" | project path "games/demo/demo.project.gmx" gives "gamesdemo/"; a bare file name gives "/" | the path up to its last "/" | not executed | PathStrings.GmxDirectoryAsWritten, PathStrings.GmxDirectoryLosesSeparators, Run.OutAsWritten, Run.InAsWritten | PathStrings.DirectoryOf, Run.OutSpec, Run.InSpec |
| gmcollage.py:298 | every collision is labelled with `module_names[0]` | two modules where only the second holds a leaf whose text the project also has | the label of the module that holds the leaf | not executed | Merge.LabelsAsWritten, Merge.ClashLabelledWithFirstModule, Run.InAsWritten | Merge.CheckCollisions with labels Run.ModuleNames, Merge.ClashLabelledWithFirstModule (second ensures), Run.InSpec |
| gmcollage.py:337 | only `module_dirs[0]` is emptied | two module directories, the second listing a sprite file | every module directory is emptied | not executed | Merge.MovesBackAsWritten, Merge.SecondModuleFilesStay, Run.InAsWritten, Run.InAsWrittenCommitted, Run.InAsWrittenLeavesSecondModule | Merge.MovesBack, Merge.MovesBackMovesAll, Run.InSpec, Run.InCommittedProject |

`Run.OutAsWritten` and `Run.InAsWritten` combine the as-written definitions from these rows; `Run.OutSpec` and `Run.InSpec` combine the corrected ones. `Run.RunOut` performs either run, depending on its grouping and directory arguments, and `Run.RunIn` performs the corrected run.
