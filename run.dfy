/** The two runs, gmcollage_out (gmcollage.py:147-273) and gmcollage_in
    (gmcollage.py:275-342), put together from their stages. Parsing and
    writing documents, and the file system, stay outside: the parsed
    documents and directory listings are inputs, and the outcome lists the
    file moves and document writes the run performs, in order. */
module Run {
  import opened Wrappers
  import opened Catalog
  import opened PathStrings
  import opened Tree
  import opened Parts
  import opened Validation
  import opened Extraction
  import opened Merge

  /** `tree.write(path)` of a document. */
  datatype Write = Write(path: string, doc: Node)

  // ---------------------------------------------------------------------
  // The "out" run
  // ---------------------------------------------------------------------

  /** How an "out" run ends: stopped by validation before the project is
      read, stopped because parts were not found, a test run, a run that
      failed on a leaf without text after some moves, or a complete run. */
  datatype OutOutcome =
    | Rejected(report: Report)
    | Missing(missing: seq<nat>)
    | OutDryRun
    | OutCrashed(crashMoves: seq<Move>)
    | OutCommitted(moves: seq<Move>, writes: seq<Write>)

  function OutMoves(o: OutOutcome): seq<Move> {
    match o
    case OutCrashed(m) => m
    case OutCommitted(m, _) => m
    case _ => []
  }

  function OutWrites(o: OutOutcome): seq<Write> {
    if o.OutCommitted? then o.writes else []
  }

  /** The module documents' writes (gmcollage.py:271-272). */
  function ModuleWrites(outDir: string, names: seq<string>, docs: seq<Node>): (r: seq<Write>)
    requires |names| == |docs|
    ensures |r| == |docs|
    ensures forall i :: 0 <= i < |docs| ==> r[i] == Write(outDir + "/" + names[i] + "/module", docs[i])
  {
    seq(|docs|, i requires 0 <= i < |docs| => Write(outDir + "/" + names[i] + "/module", docs[i]))
  }

  lemma CleanKindsValid(parts: seq<ModulePart>)
    requires Clean(Expected(parts))
    ensures KindsValid(parts)
  {
    CleanExactly(parts);
    forall k | 0 <= k < |parts| ensures ParseKind(parts[k].resourceType).Some? {
      ParseKindExactly(parts[k].resourceType);
    }
  }

  lemma ByConfigInRange(configs: seq<Config>)
    ensures GroupsInRange(AllParts(configs), GroupsByConfig(configs))
  {
    var g := GroupsByConfig(configs);
    forall i, j | 0 <= i < |g| && 0 <= j < |g[i]| ensures g[i][j] < |AllParts(configs)| {
      GroupsByConfigLists(configs, i, j);
    }
  }

  /** With nothing missing, every grouped part has recorded resources. */
  lemma ReadyAfterExtract(parts: seq<ModulePart>, groups: seq<seq<nat>>, tree: Node, names: seq<string>, srcDir: string, outDir: string)
    requires KindsValid(parts) && GroupsInRange(parts, groups) && |names| == |groups|
    requires ExtractAll(tree, parts, groups).missing == []
    ensures Relocation(parts, groups, ExtractAll(tree, parts, groups).iterators, names, srcDir, outDir).Ready()
  {
    ExtractAllAccounted(tree, parts, groups);
    var st := ExtractAll(tree, parts, groups);
    forall i, j | 0 <= i < |groups| && 0 <= j < |groups[i]| ensures groups[i][j] in st.iterators {
      assert Accounted(st, groups[i]);
      assert groups[i][j] in groups[i];
    }
  }

  /** The as-written groups name parts of the list too. */
  lemma AsWrittenInRange(configs: seq<Config>)
    ensures GroupsInRange(AllParts(configs), GroupsAsWritten(configs))
  {
    var g := GroupsAsWritten(configs);
    forall i, j | 0 <= i < |g| && 0 <= j < |g[i]| ensures g[i][j] < |AllParts(configs)| {
      assert g[i] == Range(0, |AllParts(configs)|);
    }
  }

  /** The "out" run with the grouping of the parts (`moduleconfig_parts_grouped`)
      and the project directory (`gmx_directory`) as parameters: validation,
      extraction module by module, the missing-part stop, test mode, the
      asset moves and the document writes (gmcollage.py:176-273). */
  function OutWith(gmxPath: string, configs: seq<Config>, project: Node, outDir: string, testMode: bool,
                   groups: seq<seq<nat>>, srcDir: string): OutOutcome
    requires GroupsInRange(AllParts(configs), groups) && |groups| == |configs|
  {
    var parts := AllParts(configs);
    var report := Expected(parts);
    if !Clean(report) then Rejected(report)
    else
      CleanKindsValid(parts);
      var st := ExtractAll(project, parts, groups);
      if |st.missing| > 0 then Missing(st.missing)
      else if testMode then OutDryRun
      else
        var names := ConfigNames(configs);
        ReadyAfterExtract(parts, groups, project, names, srcDir, outDir);
        var job := Relocation(parts, groups, st.iterators, names, srcDir, outDir);
        var performed := Performed(job.Plan());
        if !performed.1 then OutCrashed(performed.0)
        else OutCommitted(performed.0, ModuleWrites(outDir, names, st.modules) + [Write(gmxPath, st.tree)])
  }

  /** The "out" run AS WRITTEN: every group is the whole part list
      (gmcollage.py:151) and the project directory has its separators
      dropped (gmcollage.py:145). */
  function OutAsWritten(gmxPath: string, configs: seq<Config>, project: Node, outDir: string, testMode: bool): OutOutcome
  {
    AsWrittenInRange(configs);
    OutWith(gmxPath, configs, project, outDir, testMode, GroupsAsWritten(configs), GmxDirectoryAsWritten(gmxPath))
  }

  /** The "out" run with the parts grouped by config and the project
      directory computed as intended. */
  function OutSpec(gmxPath: string, configs: seq<Config>, project: Node, outDir: string, testMode: bool): OutOutcome
  {
    ByConfigInRange(configs);
    OutWith(gmxPath, configs, project, outDir, testMode, GroupsByConfig(configs), DirectoryOf(gmxPath))
  }

  /** gmcollage_out from the parsed configs on (gmcollage.py:176-273), for a
      given grouping and project directory: with `GroupsAsWritten` and
      `GmxDirectoryAsWritten` it is the source as written, with
      `GroupsByConfig` and `DirectoryOf` the run as intended. */
  method RunOut(gmxPath: string, configs: seq<Config>, project: Node, outDir: string, testMode: bool,
                groups: seq<seq<nat>>, srcDir: string) returns (o: OutOutcome)
    requires GroupsInRange(AllParts(configs), groups) && |groups| == |configs|
    ensures o == OutWith(gmxPath, configs, project, outDir, testMode, groups, srcDir)
  {
    var parts := AllParts(configs);
    var report := Validate(parts);
    if !Clean(report) {
      return Rejected(report);
    }
    CleanKindsValid(parts);
    var st := Extract(project, parts, groups);
    if |st.missing| > 0 {
      return Missing(st.missing);
    }
    if testMode {
      return OutDryRun;
    }
    var names := ConfigNames(configs);
    ReadyAfterExtract(parts, groups, project, names, srcDir, outDir);
    var job := Relocation(parts, groups, st.iterators, names, srcDir, outDir);
    var moves, complete := Relocate(job);
    if !complete {
      return OutCrashed(moves);
    }
    o := OutCommitted(moves, ModuleWrites(outDir, names, st.modules) + [Write(gmxPath, st.tree)]);
  }

  /** Validation decides before the project is looked at: the run is
      rejected exactly when the parts are not acceptable, whatever the
      project and the grouping, and then it moves and writes nothing. */
  lemma {:induction false} OutRejectedExactly(gmxPath: string, configs: seq<Config>, project: Node, other: Node, outDir: string, testMode: bool,
                           groups: seq<seq<nat>>, srcDir: string)
    requires GroupsInRange(AllParts(configs), groups) && |groups| == |configs|
    ensures var o := OutWith(gmxPath, configs, project, outDir, testMode, groups, srcDir);
      o.Rejected? <==> !Acceptable(AllParts(configs))
    ensures var o := OutWith(gmxPath, configs, project, outDir, testMode, groups, srcDir);
      o.Rejected? ==>
        o == OutWith(gmxPath, configs, other, outDir, testMode, groups, srcDir) && OutMoves(o) == [] && OutWrites(o) == []
  {
    CleanExactly(AllParts(configs));
  }

  /** A missing part or test mode means no move and no write. */
  lemma {:induction false} OutQuietUnlessComplete(gmxPath: string, configs: seq<Config>, project: Node, outDir: string, testMode: bool,
                               groups: seq<seq<nat>>, srcDir: string)
    requires GroupsInRange(AllParts(configs), groups) && |groups| == |configs|
    requires Clean(Expected(AllParts(configs)))
    ensures KindsValid(AllParts(configs))
    ensures var o := OutWith(gmxPath, configs, project, outDir, testMode, groups, srcDir);
      (ExtractAll(project, AllParts(configs), groups).missing != [] || testMode) ==> OutMoves(o) == [] && OutWrites(o) == []
  {
    CleanKindsValid(AllParts(configs));
  }

  /** Every move of an "out" run, complete or not, takes a file from the
      project directory `srcDir` to one module's directory, keeping its name,
      which is a leaf's text and its kind's extension. A complete run writes
      each module document into its directory and then the project. */
  lemma {:induction false} OutMovesRelocate(gmxPath: string, configs: seq<Config>, project: Node, outDir: string, testMode: bool,
                         groups: seq<seq<nat>>, srcDir: string)
    requires GroupsInRange(AllParts(configs), groups) && |groups| == |configs|
    ensures var o := OutWith(gmxPath, configs, project, outDir, testMode, groups, srcDir);
      forall mv :: mv in OutMoves(o) ==>
        exists g :: 0 <= g < |configs| && Relocates(mv, srcDir, ModuleOutDir(outDir, ConfigNames(configs)[g]))
    ensures var o := OutWith(gmxPath, configs, project, outDir, testMode, groups, srcDir);
      o.OutCommitted? ==> (|o.writes| == |configs| + 1 && o.writes[|configs|].path == gmxPath &&
        forall i :: 0 <= i < |configs| ==> o.writes[i].path == outDir + "/" + ConfigName(configs[i].path) + "/module")
  {
    var o := OutWith(gmxPath, configs, project, outDir, testMode, groups, srcDir);
    var parts := AllParts(configs);
    if Clean(Expected(parts)) {
      CleanKindsValid(parts);
      var st := ExtractAll(project, parts, groups);
      if |st.missing| == 0 && !testMode {
        var names := ConfigNames(configs);
        ReadyAfterExtract(parts, groups, project, names, srcDir, outDir);
        var job := Relocation(parts, groups, st.iterators, names, srcDir, outDir);
        MovesFromShape(job, 0);
        PerformedIsPlanned(job.Plan());
        forall mv | mv in OutMoves(o)
          ensures exists g :: 0 <= g < |configs| && Relocates(mv, srcDir, ModuleOutDir(outDir, names[g]))
        {
          assert Some(mv) in job.Plan();
        }
      }
    }
  }

  /** Each move of an "out" run goes to the module whose group holds the part:
      it is the planned move of a recorded leaf of a part in group `g`, and it
      lands in module `g`'s directory (gmcollage.py:264-268). */
  lemma {:induction false} OutMovesByGroup(gmxPath: string, configs: seq<Config>, project: Node, outDir: string, testMode: bool,
                        groups: seq<seq<nat>>, srcDir: string, mv: Move)
    requires GroupsInRange(AllParts(configs), groups) && |groups| == |configs|
    requires mv in OutMoves(OutWith(gmxPath, configs, project, outDir, testMode, groups, srcDir))
    ensures Clean(Expected(AllParts(configs))) && KindsValid(AllParts(configs))
    ensures var parts := AllParts(configs);
      var job := Relocation(parts, groups, ExtractAll(project, parts, groups).iterators, ConfigNames(configs), srcDir, outDir);
      job.Ready() &&
      exists g :: 0 <= g < |groups| && MovedFor(job, g, mv) && Relocates(mv, srcDir, ModuleOutDir(outDir, ConfigNames(configs)[g]))
  {
    var parts := AllParts(configs);
    CleanKindsValid(parts);
    var st := ExtractAll(project, parts, groups);
    var names := ConfigNames(configs);
    ReadyAfterExtract(parts, groups, project, names, srcDir, outDir);
    var job := Relocation(parts, groups, st.iterators, names, srcDir, outDir);
    PerformedIsPlanned(job.Plan());
    assert Some(mv) in job.Plan();
    MovesFromOwner(job, 0);
    var g :| 0 <= g < |groups| && MovedFor(job, g, mv);
    MovedForRelocates(job, g, mv);
  }

  /** Past validation, the run stops exactly when some part is missing, and
      then it reports exactly the missing parts. */
  lemma {:induction false} OutStopsOnMissing(gmxPath: string, configs: seq<Config>, project: Node, outDir: string, testMode: bool,
                          groups: seq<seq<nat>>, srcDir: string)
    requires GroupsInRange(AllParts(configs), groups) && |groups| == |configs|
    requires Clean(Expected(AllParts(configs)))
    ensures KindsValid(AllParts(configs))
    ensures var o := OutWith(gmxPath, configs, project, outDir, testMode, groups, srcDir);
      var st := ExtractAll(project, AllParts(configs), groups);
      !o.Rejected? && (o.Missing? <==> |st.missing| > 0) && (o.Missing? ==> o.missing == st.missing)
  {
    CleanKindsValid(AllParts(configs));
  }

  /** A part path with no slash is never nested in another path. */
  lemma SlashFreeNotNested(a: string, b: string)
    requires '/' !in a
    ensures !NestedIn(a, b)
  {
    RStripDrops(a, '/');
    var x, y := RStrip(a, '/'), RStrip(b, '/');
    if StartsWith(x, y) && |x| > |y| {
      assert x[|y|] == a[|y|];
    }
  }

  /** The parts of the two-module example pass validation. */
  lemma TwoSpritePartsClean(parts: seq<ModulePart>)
    requires TwoSpriteParts(parts)
    ensures Clean(Expected(parts))
  {
    assert "sprites" in ResourceTypes;
    SlashFreeNotNested(parts[0].resourcePath, parts[1].resourcePath);
    SlashFreeNotNested(parts[1].resourcePath, parts[0].resourcePath);
    CleanExactly(parts);
  }

  /** Two configs that each name one of the project's two sprite folders: as
      written the whole run stops with both parts reported missing and moves
      and writes nothing; as intended it gets past validation and
      extraction. */
  lemma SharedGroupsStopRun(gmxPath: string, a: string, b: string, x: string, y: string, outDir: string, testMode: bool)
    requires '/' !in x && '/' !in y && '\\' !in x && '\\' !in y && x != y
    ensures var c := TwoConfigs(a, b, x, y);
      var p := SpriteProject([Folder("sprites", x), Folder("sprites", y)]);
      OutAsWritten(gmxPath, c, p, outDir, testMode) == Missing([0, 1]) &&
      !OutSpec(gmxPath, c, p, outDir, testMode).Rejected? && !OutSpec(gmxPath, c, p, outDir, testMode).Missing?
  {
    var c := TwoConfigs(a, b, x, y);
    var p := SpriteProject([Folder("sprites", x), Folder("sprites", y)]);
    TwoConfigsParts(a, b, x, y);
    assert TwoSpriteParts(AllParts(c));
    TwoSpritePartsClean(AllParts(c));
    SharedGroupsReportMissing(a, b, x, y);
    OwnGroupsExtractBoth(a, b, x, y);
    AsWrittenInRange(c);
    ByConfigInRange(c);
    OutStopsOnMissing(gmxPath, c, p, outDir, testMode, GroupsAsWritten(c), GmxDirectoryAsWritten(gmxPath));
    OutStopsOnMissing(gmxPath, c, p, outDir, testMode, GroupsByConfig(c), DirectoryOf(gmxPath));
  }

  // ---------------------------------------------------------------------
  // The "in" run
  // ---------------------------------------------------------------------

  /** How an "in" run ends: stopped by a name collision before any graft, a
      graft that failed, a test run, a failed directory listing after some
      moves, or a complete run. */
  datatype InOutcome =
    | Collided(clashes: seq<Entry>)
    | GraftCrashed
    | InDryRun
    | InCrashed(crashMoves: seq<Move>)
    | InCommitted(moves: seq<Move>, write: Write)

  function InMoves(o: InOutcome): seq<Move> {
    match o
    case InCrashed(m) => m
    case InCommitted(m, _) => m
    case _ => []
  }

  /** `module_names` (gmcollage.py:278). */
  function ModuleNames(dirs: seq<string>): (r: seq<string>)
    ensures |r| == |dirs| && forall i :: 0 <= i < |dirs| ==> r[i] == ModuleName(dirs[i])
  {
    seq(|dirs|, i requires 0 <= i < |dirs| => ModuleName(dirs[i]))
  }

  /** The project root after the kind roots are ensured. */
  function WithKindRoots(project: Node): Node {
    project.(children := WithRoots(project.children, ResourceTypes))
  }

  /** The "in" run with the labels of the collision report and the outcome
      of the move-back loop as parameters: the collision stop, the graft,
      test mode, the asset moves and the project write
      (gmcollage.py:289-342). The moves depend only on the directories and
      their listings, never on the documents, so they are given as the
      moves made and whether the loop ran to its end. */
  function InWith(gmxPath: string, modules: seq<Node>, project: Node, testMode: bool,
                  labels: seq<string>, back: (seq<Move>, bool)): InOutcome
    requires |modules| == |labels|
  {
    var root := WithKindRoots(project);
    var clashes := Clashes(ModuleEntries(modules, labels, CheckedTags), ProjectTexts(root, CheckedTags));
    if |clashes| > 0 then Collided(clashes)
    else match GraftEach(root, ModuleParts(modules))
      case None => GraftCrashed
      case Some(merged) =>
        if testMode then InDryRun
        else if !back.1 then InCrashed(back.0)
        else InCommitted(back.0, Write(gmxPath, merged))
  }

  /** The "in" run AS WRITTEN: every clash is labelled with the first
      module's name (gmcollage.py:298), only the first module directory is
      emptied (gmcollage.py:337) and the project directory has its
      separators dropped (gmcollage.py:145). */
  function InAsWritten(gmxPath: string, dirs: seq<string>, modules: seq<Node>, project: Node,
                       listing: map<string, seq<string>>, testMode: bool): InOutcome
    requires |modules| == |dirs|
  {
    InWith(gmxPath, modules, project, testMode, LabelsAsWritten(ModuleNames(dirs), |dirs|),
           MovesBackAsWritten(dirs, listing, GmxDirectoryAsWritten(gmxPath)))
  }

  /** The "in" run with each clash labelled by its own module, every module
      directory emptied and the project directory computed as intended. */
  function InSpec(gmxPath: string, dirs: seq<string>, modules: seq<Node>, project: Node,
                  listing: map<string, seq<string>>, testMode: bool): InOutcome
    requires |modules| == |dirs|
  {
    InWith(gmxPath, modules, project, testMode, ModuleNames(dirs), MovesBack(dirs, listing, DirectoryOf(gmxPath), AllKinds))
  }

  /** gmcollage_in from the parsed documents on (gmcollage.py:281-342), as
      intended: the run `InSpec` defines. */
  method RunIn(gmxPath: string, dirs: seq<string>, modules: seq<Node>, project: Node,
               listing: map<string, seq<string>>, testMode: bool) returns (o: InOutcome)
    requires |modules| == |dirs|
    ensures o == InSpec(gmxPath, dirs, modules, project, listing, testMode)
  {
    var names := ModuleNames(dirs);
    var root := EnsureKindRoots(project);
    var gmxResources, moduleResources, clashes := CheckCollisions(root, modules, names);
    if |clashes| > 0 {
      return Collided(clashes);
    }
    var merged := GraftModules(root, modules);
    if merged.None? {
      return GraftCrashed;
    }
    if testMode {
      return InDryRun;
    }
    var moves, complete := MoveBack(dirs, listing, DirectoryOf(gmxPath));
    if !complete {
      return InCrashed(moves);
    }
    o := InCommitted(moves, Write(gmxPath, merged.value));
  }

  /** Whatever the labels, the run stops before any graft exactly when a
      leaf of a checked tag in some module has the text of a leaf of a
      checked tag in the project. The clashes reported are exactly the
      entries of such module leaves, and nothing is moved or written. */
  lemma InCollidesExactly(gmxPath: string, modules: seq<Node>, project: Node, testMode: bool,
                          labels: seq<string>, back: (seq<Move>, bool))
    requires |modules| == |labels|
    ensures var o := InWith(gmxPath, modules, project, testMode, labels, back);
      o.Collided? <==> LeafCollision(modules, WithKindRoots(project), CheckedTags)
    ensures var o := InWith(gmxPath, modules, project, testMode, labels, back);
      o.Collided? ==>
        InMoves(o) == [] && !o.InCommitted? &&
        forall e :: e in o.clashes <==>
          ModuleHas(modules, labels, CheckedTags, e) && ProjectHas(WithKindRoots(project), CheckedTags, e.text)
  {
    ClashesAtLeaves(modules, labels, WithKindRoots(project), CheckedTags);
  }

  /** Test mode moves and writes nothing. */
  lemma InTestModeQuiet(gmxPath: string, modules: seq<Node>, project: Node, labels: seq<string>, back: (seq<Move>, bool))
    requires |modules| == |labels|
    ensures var o := InWith(gmxPath, modules, project, true, labels, back);
      InMoves(o) == [] && !o.InCommitted?
  {
  }

  /** A complete "in" run writes the grafted project, in which every kind but
      datafiles has its folder, and has performed exactly the moves of a
      move-back loop that ran to its end. */
  lemma InCommittedGraft(gmxPath: string, modules: seq<Node>, project: Node, testMode: bool,
                         labels: seq<string>, back: (seq<Move>, bool))
    requires |modules| == |labels|
    requires InWith(gmxPath, modules, project, testMode, labels, back).InCommitted?
    ensures var o := InWith(gmxPath, modules, project, testMode, labels, back);
      GraftEach(WithKindRoots(project), ModuleParts(modules)) == Some(o.write.doc) && o.write.path == gmxPath &&
      (forall k :: k in ResourceTypes && k != "datafiles" ==> FindChild(o.write.doc.children, k, None).Some?) &&
      back.1 && o.moves == back.0
  {
    var root := WithKindRoots(project);
    var o := InWith(gmxPath, modules, project, testMode, labels, back);
    WithRootsComplete(project.children, ResourceTypes);
    forall k | k in ResourceTypes && k != "datafiles" ensures FindChild(o.write.doc.children, k, None).Some? {
      KindRootsSurviveGraft(root, ModuleParts(modules), k);
    }
  }

  /** A complete intended run has moved every listed asset file of every
      module directory into the project directory under the same relative
      path, and nothing else. */
  lemma InCommittedProject(gmxPath: string, dirs: seq<string>, modules: seq<Node>, project: Node,
                           listing: map<string, seq<string>>, testMode: bool)
    requires |modules| == |dirs|
    requires InSpec(gmxPath, dirs, modules, project, listing, testMode).InCommitted?
    ensures var o := InSpec(gmxPath, dirs, modules, project, listing, testMode);
      GraftEach(WithKindRoots(project), ModuleParts(modules)) == Some(o.write.doc) && o.write.path == gmxPath &&
      AllListable(dirs, listing, AllKinds) && AllMoved(dirs, listing, DirectoryOf(gmxPath), AllKinds, o.moves) &&
      forall mv :: mv in o.moves ==> FromSomeModule(mv, dirs, DirectoryOf(gmxPath))
  {
    MovesBackMovesAll(dirs, listing, DirectoryOf(gmxPath), AllKinds);
    MovesBackRelocate(dirs, listing, DirectoryOf(gmxPath), AllKinds);
  }

  /** A complete as-written run needs at least one module directory, and has
      moved every listed file of the first one, and only files of the first
      one, each to the same relative path below the as-written project
      directory. */
  lemma InAsWrittenCommitted(gmxPath: string, dirs: seq<string>, modules: seq<Node>, project: Node,
                             listing: map<string, seq<string>>, testMode: bool)
    requires |modules| == |dirs|
    requires InAsWritten(gmxPath, dirs, modules, project, listing, testMode).InCommitted?
    ensures var o := InAsWritten(gmxPath, dirs, modules, project, listing, testMode);
      |dirs| > 0 && Listable(dirs[0], listing, AllKinds) &&
      o.moves == DirMoves(dirs[0], listing, GmxDirectoryAsWritten(gmxPath), AllKinds).0 &&
      (forall k, f :: k in AllKinds && dirs[0] + "/" + k.StoragePath() in listing && f in listing[dirs[0] + "/" + k.StoragePath()] ==>
        Move(dirs[0] + "/" + k.StoragePath() + "/" + f, GmxDirectoryAsWritten(gmxPath) + "/" + k.StoragePath() + "/" + f) in o.moves) &&
      forall mv :: mv in o.moves ==> Relocates(mv, dirs[0] + "/", GmxDirectoryAsWritten(gmxPath) + "/")
  {
    var gd := GmxDirectoryAsWritten(gmxPath);
    var o := InAsWritten(gmxPath, dirs, modules, project, listing, testMode);
    assert o.moves == DirMoves(dirs[0], listing, gd, AllKinds).0;
    DirMovesRelocate(dirs[0], listing, gd, AllKinds);
    DirMovesComplete(dirs[0], listing, gd, AllKinds);
    DirMovesAll(dirs[0], listing, gd, AllKinds);
  }

  /** With two module directories, the second holding a sprite file outside
      the first: as written that file is never moved, however the run ends;
      as intended a run that gets past the collision check, the graft and
      test mode completes and moves it. Both runs stop at the collision check
      in the same cases. */
  lemma InAsWrittenLeavesSecondModule(gmxPath: string, dirs: seq<string>, modules: seq<Node>, project: Node,
                                      listing: map<string, seq<string>>, testMode: bool, f: string)
    requires |modules| == |dirs| == 2
    requires forall k :: k in AllKinds ==> dirs[0] + "/" + k.StoragePath() in listing && dirs[1] + "/" + k.StoragePath() in listing
    requires dirs[1] + "/sprites" in listing && f in listing[dirs[1] + "/sprites"]
    requires !StartsWith(dirs[1] + "/sprites/" + f, dirs[0] + "/")
    ensures var a := InAsWritten(gmxPath, dirs, modules, project, listing, testMode);
      Move(dirs[1] + "/sprites/" + f, GmxDirectoryAsWritten(gmxPath) + "/sprites/" + f) !in InMoves(a)
    ensures var o := InSpec(gmxPath, dirs, modules, project, listing, testMode);
      !o.Collided? && !o.GraftCrashed? && !testMode ==>
        o.InCommitted? && Move(dirs[1] + "/sprites/" + f, DirectoryOf(gmxPath) + "/sprites/" + f) in o.moves
    ensures InAsWritten(gmxPath, dirs, modules, project, listing, testMode).Collided? <==>
      InSpec(gmxPath, dirs, modules, project, listing, testMode).Collided?
  {
    SecondModuleFilesStay(dirs, listing, GmxDirectoryAsWritten(gmxPath), f);
    SecondModuleFilesStay(dirs, listing, DirectoryOf(gmxPath), f);
    var w := LabelsAsWritten(ModuleNames(dirs), |dirs|);
    InCollidesExactly(gmxPath, modules, project, testMode, w, MovesBackAsWritten(dirs, listing, GmxDirectoryAsWritten(gmxPath)));
    InCollidesExactly(gmxPath, modules, project, testMode, ModuleNames(dirs), MovesBack(dirs, listing, DirectoryOf(gmxPath), AllKinds));
  }
}
