/** Extraction, the "out" direction (gmcollage.py:225-269): every part's
    folder is looked up in the project document, wrapped in a `part` element
    of its module document and detached from the project; afterwards the
    asset file of every resource leaf of the extracted folders is moved into
    the module's output directory. The documents are values; the in-place
    `append`/`remove` of the source become functions from the old document
    to the new one. */
module Extraction {
  import opened Wrappers
  import opened Catalog
  import opened PathStrings
  import opened Tree
  import opened Parts

  /** `gmx_root.find(xpath)` for the path built at gmcollage.py:232-235: the
      kind's root child, then one folder per segment of the part path. The
      result, when there is one, is a folder of that kind named by the last
      segment, strictly below the root. */
  function FindPart(root: Node, kind: string, path: string): (r: Option<Address>)
    ensures r.Some? ==> ValidAddress(root, r.value) && |r.value| == |Split(path, '/')| + 1
    ensures r.Some? ==>
      var segs := Split(path, '/'); Matches(At(root, r.value), kind, Some(segs[|segs| - 1]))
  {
    match FindChild(root.children, kind, None)
    case None => None
    case Some(k) =>
      match Descend(root.children[k], kind, Split(path, '/'))
      case None => None
      case Some(a) =>
        assert ([k] + a)[0] == k && ([k] + a)[1..] == a;
        Some([k] + a)
  }

  /** `a` is the address the ElementTree path names: the first root child of
      the kind, then the first-match walk through the part path's segments. */
  predicate PartAddress(root: Node, kind: string, path: string, a: Address) {
    |a| > 0 && IsFirstMatch(root.children, kind, None, a[0]) &&
    FirstMatchWalk(root.children[a[0]], kind, Split(path, '/'), a[1..])
  }

  /** The lookup answers exactly the address the path names, and nothing
      when no address fits it. */
  lemma FindPartExactly(root: Node, kind: string, path: string, a: Address)
    ensures FindPart(root, kind, path) == Some(a) <==> PartAddress(root, kind, path, a)
    ensures FindPart(root, kind, path).None? ==> !PartAddress(root, kind, path, a)
  {
    var segs := Split(path, '/');
    if |a| > 0 {
      var k, b := a[0], a[1..];
      assert a == [k] + b;
      FindChildIsFirstMatch(root.children, kind, None, k);
      if k < |root.children| {
        DescendExactly(root.children[k], kind, segs, b);
      }
    }
  }

  /** The `part` element that carries an extracted folder (gmcollage.py:243-247). */
  function Wrap(p: ModulePart, folder: Node): Node {
    Node("part", map["resource_type" := p.resourceType, "resource_path" := p.resourcePath], None, [folder])
  }

  /** `folder_parent.remove(folder)` for the node at `a`, whose parent is the
      address without its last position: the parent loses exactly that child. */
  function Detach(n: Node, a: Address): (r: Node)
    requires ValidAddress(n, a) && |a| > 0
    ensures ValidAddress(n, a[..|a| - 1]) && ValidAddress(r, a[..|a| - 1])
    ensures var p := At(n, a[..|a| - 1]); var i := a[|a| - 1];
      i < |p.children| && p.children[i] == At(n, a) &&
      At(r, a[..|a| - 1]) == p.(children := p.children[..i] + p.children[i + 1..])
  {
    ParentValid(n, a);
    RemoveChild(n, a[..|a| - 1], a[|a| - 1])
  }

  /** What extraction has built so far: the project document, one module
      document per config, the parts not found (by position in the flat part
      list) and, for each extracted part, the resources of its folder (the
      `module_resources_iterator` attribute set at gmcollage.py:242). */
  datatype OutState = OutState(tree: Node, modules: seq<Node>, missing: seq<nat>, iterators: map<nat, seq<Node>>)

  /** The empty module documents of gmcollage.py:159-163. */
  function Initial(tree: Node, n: nat): (r: OutState)
    ensures |r.modules| == n && r.tree == tree && r.missing == [] && r.iterators == map[]
    ensures forall m :: 0 <= m < n ==> r.modules[m] == Element("module")
  {
    OutState(tree, seq(n, _ => Element("module")), [], map[])
  }

  /** Every kind string is in the catalog; validation guarantees this before
      extraction starts, and the lookup at gmcollage.py:239 needs it. */
  predicate KindsValid(parts: seq<ModulePart>) {
    forall k :: 0 <= k < |parts| ==> ParseKind(parts[k].resourceType).Some?
  }

  /** The groups name parts of the list. */
  predicate GroupsInRange(parts: seq<ModulePart>, groups: seq<seq<nat>>) {
    forall i, j :: 0 <= i < |groups| && 0 <= j < |groups[i]| ==> groups[i][j] < |parts|
  }

  /** The resources of one extracted folder: its leaves of the kind's tag. */
  function Resources(folder: Node, kind: string): seq<Node>
    requires ParseKind(kind).Some?
  {
    Iter(folder, ParseKind(kind).value.TagName())
  }

  /** One iteration of the loop body of gmcollage.py:230-251 for part `k` of
      module `m`. An unresolved path is recorded as missing and changes
      nothing else; a resolved folder becomes the only child of a new `part`
      element appended to module `m` and is detached from its parent in the
      project. No other module changes. */
  function ExtractStep(st: OutState, parts: seq<ModulePart>, m: nat, k: nat): (r: OutState)
    requires m < |st.modules| && k < |parts| && ParseKind(parts[k].resourceType).Some?
    ensures |r.modules| == |st.modules|
  {
    var p := parts[k];
    match FindPart(st.tree, p.resourceType, p.resourcePath)
    case None => st.(missing := st.missing + [k])
    case Some(a) =>
      var folder := At(st.tree, a);
      var mod := st.modules[m];
      OutState(Detach(st.tree, a),
               st.modules[m := mod.(children := mod.children + [Wrap(p, folder)])],
               st.missing,
               st.iterators[k := Resources(folder, p.resourceType)])
  }

  /** The parts `ks` of module `m`, handled in order. */
  function ExtractGroup(st: OutState, parts: seq<ModulePart>, m: nat, ks: seq<nat>): (r: OutState)
    requires m < |st.modules| && KindsValid(parts)
    requires forall j :: 0 <= j < |ks| ==> ks[j] < |parts|
    ensures |r.modules| == |st.modules|
    decreases |ks|
  {
    if |ks| == 0 then st
    else ExtractStep(ExtractGroup(st, parts, m, ks[..|ks| - 1]), parts, m, ks[|ks| - 1])
  }

  /** Modules `0 .. i - 1`, each with its group, handled in order. */
  function ExtractModules(st: OutState, parts: seq<ModulePart>, groups: seq<seq<nat>>, i: nat): (r: OutState)
    requires i <= |groups| == |st.modules| && KindsValid(parts) && GroupsInRange(parts, groups)
    ensures |r.modules| == |st.modules|
  {
    if i == 0 then st
    else ExtractGroup(ExtractModules(st, parts, groups, i - 1), parts, i - 1, groups[i - 1])
  }

  /** The whole extraction loop of gmcollage.py:229-251. */
  function ExtractAll(tree: Node, parts: seq<ModulePart>, groups: seq<seq<nat>>): (r: OutState)
    requires KindsValid(parts) && GroupsInRange(parts, groups)
    ensures |r.modules| == |groups|
  {
    ExtractModules(Initial(tree, |groups|), parts, groups, |groups|)
  }

  /** The extraction loop, updating the project document and the module
      documents as the source does. */
  method Extract(tree: Node, parts: seq<ModulePart>, groups: seq<seq<nat>>) returns (st: OutState)
    requires KindsValid(parts) && GroupsInRange(parts, groups)
    ensures st == ExtractAll(tree, parts, groups)
  {
    var gmx := tree;
    var modules: seq<Node> := seq(|groups|, _ => Element("module"));
    var missing: seq<nat> := [];
    var iterators: map<nat, seq<Node>> := map[];
    var i := 0;
    while i < |groups|
      invariant 0 <= i <= |groups|
      invariant OutState(gmx, modules, missing, iterators) == ExtractModules(Initial(tree, |groups|), parts, groups, i)
    {
      gmx, modules, missing, iterators := ExtractModule(parts, i, groups[i], gmx, modules, missing, iterators);
      i := i + 1;
    }
    st := OutState(gmx, modules, missing, iterators);
  }

  /** The inner extraction loop of gmcollage.py:231-251 for module `i`. */
  method ExtractModule(parts: seq<ModulePart>, i: nat, group: seq<nat>,
                       gmx0: Node, modules0: seq<Node>, missing0: seq<nat>, iterators0: map<nat, seq<Node>>)
    returns (gmx: Node, modules: seq<Node>, missing: seq<nat>, iterators: map<nat, seq<Node>>)
    requires i < |modules0| && KindsValid(parts)
    requires forall j :: 0 <= j < |group| ==> group[j] < |parts|
    ensures OutState(gmx, modules, missing, iterators) ==
      ExtractGroup(OutState(gmx0, modules0, missing0, iterators0), parts, i, group)
  {
    ghost var before := OutState(gmx0, modules0, missing0, iterators0);
    gmx, modules, missing, iterators := gmx0, modules0, missing0, iterators0;
    var j := 0;
    while j < |group|
      invariant 0 <= j <= |group|
      invariant OutState(gmx, modules, missing, iterators) == ExtractGroup(before, parts, i, group[..j])
    {
      var k := group[j];
      var mp := parts[k];
      ghost var cur := OutState(gmx, modules, missing, iterators);
      assert ExtractGroup(before, parts, i, group[..j + 1]) == ExtractStep(cur, parts, i, k) by {
        assert group[..j + 1][..j] == group[..j];
      }
      var folder := FindPart(gmx, mp.resourceType, mp.resourcePath);
      if folder.None? {
        missing := missing + [k];
      } else {
        var a := folder.value;
        var f := At(gmx, a);
        iterators := iterators[k := Resources(f, mp.resourceType)];
        var modulePart := Wrap(mp, f);
        modules := modules[i := modules[i].(children := modules[i].children + [modulePart])];
        gmx := Detach(gmx, a);
      }
      j := j + 1;
    }
    assert group[..|group|] == group;
  }

  /** Each of the parts `ks` was reported missing or has its resources recorded. */
  predicate Accounted(st: OutState, ks: seq<nat>) {
    forall k :: k in ks ==> k in st.missing || k in st.iterators
  }

  /** `r` still lists every part `st` reported missing or recorded. */
  predicate Keeps(st: OutState, r: OutState) {
    (forall x :: x in st.missing ==> x in r.missing) && (forall x :: x in st.iterators ==> x in r.iterators)
  }

  lemma KeepsTrans(s1: OutState, s2: OutState, s3: OutState)
    requires Keeps(s1, s2) && Keeps(s2, s3)
    ensures Keeps(s1, s3)
  {
  }

  /** What is kept stays accounted for. */
  lemma AccountedKept(st: OutState, r: OutState, ks: seq<nat>)
    requires Accounted(st, ks) && Keeps(st, r)
    ensures Accounted(r, ks)
  {
  }

  /** Handling part `k` accounts for it, and forgets nothing recorded before. */
  lemma StepAccounted(st: OutState, parts: seq<ModulePart>, m: nat, k: nat)
    requires m < |st.modules| && k < |parts| && ParseKind(parts[k].resourceType).Some?
    ensures var r := ExtractStep(st, parts, m, k);
      (k in r.missing || k in r.iterators) && Keeps(st, r)
  {
  }

  lemma AccountedSnoc(r: OutState, ks: seq<nat>, k: nat)
    requires Accounted(r, ks) && (k in r.missing || k in r.iterators)
    ensures Accounted(r, ks + [k])
  {
    forall x | x in ks + [k] ensures x in r.missing || x in r.iterators {
      if x != k {
        assert x in ks;
      }
    }
  }

  /** The last part of a group is accounted for by its own step. */
  lemma LastAccounted(st: OutState, parts: seq<ModulePart>, m: nat, ks: seq<nat>)
    requires m < |st.modules| && KindsValid(parts) && |ks| > 0
    requires forall j :: 0 <= j < |ks| ==> ks[j] < |parts|
    ensures var mid := ExtractGroup(st, parts, m, ks[..|ks| - 1]);
      var r := ExtractGroup(st, parts, m, ks);
      (ks[|ks| - 1] in r.missing || ks[|ks| - 1] in r.iterators) && Keeps(mid, r)
  {
    StepAccounted(ExtractGroup(st, parts, m, ks[..|ks| - 1]), parts, m, ks[|ks| - 1]);
  }

  /** Every part of a handled group is either missing or has its resources
      recorded; nothing recorded before is forgotten. */
  lemma {:induction false} GroupAccounted(st: OutState, parts: seq<ModulePart>, m: nat, ks: seq<nat>)
    requires m < |st.modules| && KindsValid(parts)
    requires forall j :: 0 <= j < |ks| ==> ks[j] < |parts|
    ensures Accounted(ExtractGroup(st, parts, m, ks), ks)
    ensures Keeps(st, ExtractGroup(st, parts, m, ks))
    decreases |ks|
  {
    if |ks| > 0 {
      var init := ks[..|ks| - 1];
      var last := ks[|ks| - 1];
      var mid := ExtractGroup(st, parts, m, init);
      GroupAccounted(st, parts, m, init);
      LastAccounted(st, parts, m, ks);
      var r := ExtractGroup(st, parts, m, ks);
      AccountedKept(mid, r, init);
      KeepsTrans(st, mid, r);
      assert ks == init + [last];
      AccountedSnoc(r, init, last);
    }
  }

  /** Module `i - 1` accounts for its own group and keeps what came before. */
  lemma ModuleStepAccounted(st: OutState, parts: seq<ModulePart>, groups: seq<seq<nat>>, i: nat)
    requires 0 < i <= |groups| == |st.modules| && KindsValid(parts) && GroupsInRange(parts, groups)
    ensures var prev := ExtractModules(st, parts, groups, i - 1);
      var r := ExtractModules(st, parts, groups, i);
      Accounted(r, groups[i - 1]) && Keeps(prev, r)
  {
    GroupAccounted(ExtractModules(st, parts, groups, i - 1), parts, i - 1, groups[i - 1]);
  }

  lemma {:induction false} ModulesAccounted(st: OutState, parts: seq<ModulePart>, groups: seq<seq<nat>>, i: nat)
    requires i <= |groups| == |st.modules| && KindsValid(parts) && GroupsInRange(parts, groups)
    ensures var r := ExtractModules(st, parts, groups, i);
      forall l :: 0 <= l < i ==> Accounted(r, groups[l])
    decreases i
  {
    if i > 0 {
      var prev := ExtractModules(st, parts, groups, i - 1);
      var r := ExtractModules(st, parts, groups, i);
      ModulesAccounted(st, parts, groups, i - 1);
      ModuleStepAccounted(st, parts, groups, i);
      forall l | 0 <= l < i ensures Accounted(r, groups[l]) {
        if l < i - 1 {
          AccountedKept(prev, r, groups[l]);
        }
      }
    }
  }

  /** After the loop, every part of every group either was reported missing
      or has its resources recorded; so when nothing is missing, every part
      the relocation loop visits has its resources (gmcollage.py:253-266). */
  lemma ExtractAllAccounted(tree: Node, parts: seq<ModulePart>, groups: seq<seq<nat>>)
    requires KindsValid(parts) && GroupsInRange(parts, groups)
    ensures forall i :: 0 <= i < |groups| ==> Accounted(ExtractAll(tree, parts, groups), groups[i])
  {
    var init := Initial(tree, |groups|);
    ModulesAccounted(init, parts, groups, |groups|);
    assert ExtractAll(tree, parts, groups) == ExtractModules(init, parts, groups, |groups|);
  }

  /** Extracting a resolved part takes its folder, unchanged, out of the
      project and into module `m` as the only child of a `part` element whose
      attributes are the part's kind and path; the module document keeps its
      earlier children, and the folder's parent has one child less. */
  lemma ExtractStepMovesFolder(st: OutState, parts: seq<ModulePart>, m: nat, k: nat)
    requires m < |st.modules| && k < |parts| && ParseKind(parts[k].resourceType).Some?
    requires FindPart(st.tree, parts[k].resourceType, parts[k].resourcePath).Some?
    ensures var a := FindPart(st.tree, parts[k].resourceType, parts[k].resourcePath).value;
      var r := ExtractStep(st, parts, m, k);
      var mod := r.modules[m];
      |a| > 0 && |mod.children| == |st.modules[m].children| + 1 &&
      mod.children[..|mod.children| - 1] == st.modules[m].children &&
      mod.children[|mod.children| - 1].tag == "part" &&
      mod.children[|mod.children| - 1].children == [At(st.tree, a)] &&
      mod.children[|mod.children| - 1].attrs["resource_type"] == parts[k].resourceType &&
      mod.children[|mod.children| - 1].attrs["resource_path"] == parts[k].resourcePath &&
      ValidAddress(st.tree, a[..|a| - 1]) && ValidAddress(r.tree, a[..|a| - 1]) &&
      |At(r.tree, a[..|a| - 1]).children| + 1 == |At(st.tree, a[..|a| - 1]).children|
  {
    var a := FindPart(st.tree, parts[k].resourceType, parts[k].resourcePath).value;
    var r := ExtractStep(st, parts, m, k);
    var mod := r.modules[m];
    assert mod.children[..|mod.children| - 1] == st.modules[m].children;
  }

  /** The move for one resource leaf (gmcollage.py:267-268): its text plus the
      kind's extension, from the project directory to the module directory.
      A leaf without text has no move: the source fails there with a type
      error, so the loop stops. Source and destination share the suffix
      `text + extension`. */
  function MoveFor(leaf: Node, ext: string, srcDir: string, dstDir: string): (r: Option<Move>)
    ensures r.None? <==> leaf.text.None?
    ensures r.Some? ==>
      StartsWith(r.value.src, srcDir) && StartsWith(r.value.dst, dstDir) &&
      r.value.src[|srcDir|..] == r.value.dst[|dstDir|..] == leaf.text.value + ext
  {
    match leaf.text
    case None => None
    case Some(t) =>
      assert (srcDir + t + ext)[..|srcDir|] == srcDir && (srcDir + t + ext)[|srcDir|..] == t + ext;
      assert (dstDir + t + ext)[..|dstDir|] == dstDir && (dstDir + t + ext)[|dstDir|..] == t + ext;
      Some(Move(srcDir + t + ext, dstDir + t + ext))
  }

  /** The directory module `name`'s assets go to: `out_dir/name/`. */
  function ModuleOutDir(outDir: string, name: string): string {
    outDir + "/" + name + "/"
  }

  /** The moves, in order, for the leaves of one extracted part. */
  function PartPlan(leaves: seq<Node>, ext: string, srcDir: string, dstDir: string): (r: seq<Option<Move>>)
    ensures |r| == |leaves|
    ensures forall t :: 0 <= t < |leaves| ==> r[t] == MoveFor(leaves[t], ext, srcDir, dstDir)
  {
    seq(|leaves|, t requires 0 <= t < |leaves| => MoveFor(leaves[t], ext, srcDir, dstDir))
  }

  /** What the relocation loop reads: the parts, the groups, the resources
      recorded for each extracted part, the module names, the project
      directory and the output directory. */
  datatype Relocation = Relocation(parts: seq<ModulePart>, groups: seq<seq<nat>>, iterators: map<nat, seq<Node>>,
                                   names: seq<string>, srcDir: string, outDir: string)
  {
    /** Every visited part has a valid kind and recorded resources, and every
        group has a name. */
    predicate Ready() {
      KindsValid(parts) && GroupsInRange(parts, groups) && |names| == |groups| &&
      forall i, j :: 0 <= i < |groups| && 0 <= j < |groups[i]| ==> groups[i][j] in iterators
    }

    /** The leaves of part `j` of group `i`. */
    function Leaves(i: nat, j: nat): seq<Node>
      requires Ready() && i < |groups| && j < |groups[i]|
    {
      iterators[groups[i][j]]
    }

    /** The move for leaf `t` of part `j` of group `i`. */
    function MoveAt(i: nat, j: nat, t: nat): Option<Move>
      requires Ready() && i < |groups| && j < |groups[i]| && t < |Leaves(i, j)|
    {
      MoveFor(Leaves(i, j)[t], ParseKind(parts[groups[i][j]].resourceType).value.Extension(),
              srcDir, ModuleOutDir(outDir, names[i]))
    }

    /** The moves for leaves `t ..` of part `j` of group `i`. */
    function PartFrom(i: nat, j: nat, t: nat): seq<Option<Move>>
      requires Ready() && i < |groups| && j < |groups[i]| && t <= |Leaves(i, j)|
      decreases |Leaves(i, j)| - t
    {
      if t == |Leaves(i, j)| then [] else [MoveAt(i, j, t)] + PartFrom(i, j, t + 1)
    }

    /** The moves for parts `j ..` of group `i`. */
    function GroupFrom(i: nat, j: nat): seq<Option<Move>>
      requires Ready() && i < |groups| && j <= |groups[i]|
      decreases |groups[i]| - j
    {
      if j == |groups[i]| then [] else PartFrom(i, j, 0) + GroupFrom(i, j + 1)
    }

    /** The moves for groups `i ..`, in the order of gmcollage.py:264-269. */
    function MovesFrom(i: nat): seq<Option<Move>>
      requires Ready() && i <= |groups|
      decreases |groups| - i
    {
      if i == |groups| then [] else GroupFrom(i, 0) + MovesFrom(i + 1)
    }

    /** All planned moves. */
    function Plan(): seq<Option<Move>>
      requires Ready()
    {
      MovesFrom(0)
    }
  }

  /** The moves performed for a planned sequence: all of them up to the first
      leaf without text, and whether the end was reached. */
  function Performed(plan: seq<Option<Move>>): (r: (seq<Move>, bool))
    ensures r.1 ==> None !in plan
  {
    if |plan| == 0 then ([], true)
    else if plan[0].None? then ([], false)
    else
      var rest := Performed(plan[1..]);
      assert rest.1 ==> None !in plan by {
        assert plan == [plan[0]] + plan[1..];
      }
      ([plan[0].value] + rest.0, rest.1)
  }

  /** A plan that reaches its end without a textless leaf performs all its
      moves, and what follows it is performed after them. */
  lemma {:induction false} PerformedAppend(a: seq<Option<Move>>, b: seq<Option<Move>>)
    requires None !in a
    ensures Performed(a + b).0 == Performed(a).0 + Performed(b).0
    ensures Performed(a + b).1 == Performed(b).1
  {
    if |a| > 0 {
      var tail := a[1..];
      assert a[0] in a;
      assert (a + b)[0] == a[0];
      assert (a + b)[1..] == tail + b;
      assert a == [a[0]] + tail;
      PerformedAppend(tail, b);
    } else {
      assert a + b == b;
    }
  }

  lemma Assoc(a: seq<Option<Move>>, b: seq<Option<Move>>, c: seq<Option<Move>>)
    ensures a + b + c == a + (b + c)
  {
  }

  /** Performing one more move that has a source and a destination. */
  lemma PerformedSnoc(done: seq<Option<Move>>, moves: seq<Move>, move: Option<Move>)
    requires Performed(done) == (moves, true) && move.Some?
    ensures Performed(done + [move]) == (moves + [move.value], true)
  {
    PerformedAppend(done, [move]);
    assert Performed([move]) == ([move.value], true) by {
      assert [move][1..] == [];
      assert Performed([]) == ([], true);
      assert [move.value] + [] == [move.value];
    }
  }

  /** A leaf without text ends the relocation: nothing after it is performed. */
  lemma PerformedStop(done: seq<Option<Move>>, moves: seq<Move>, rest: seq<Option<Move>>)
    requires Performed(done) == (moves, true)
    ensures Performed(done + ([None] + rest)) == (moves, false)
  {
    PerformedAppend(done, [None] + rest);
    assert moves + [] == moves;
  }

  /** The innermost relocation loop (gmcollage.py:266-269) for part `j` of
      group `i`: the moves of its leaves are appended to the log, up to the
      first leaf without text. */
  method RelocatePart(job: Relocation, i: nat, j: nat, moves0: seq<Move>, ghost done0: seq<Option<Move>>)
    returns (moves: seq<Move>, complete: bool, ghost done: seq<Option<Move>>)
    requires job.Ready() && i < |job.groups| && j < |job.groups[i]|
    requires Performed(done0) == (moves0, true)
    ensures complete ==> done == done0 + job.PartFrom(i, j, 0) && Performed(done) == (moves, true)
    ensures !complete ==> forall after :: Performed(done0 + (job.PartFrom(i, j, 0) + after)) == (moves, false)
  {
    moves, done := moves0, done0;
    var k := job.groups[i][j];
    var leaves := job.iterators[k];
    var ext := ParseKind(job.parts[k].resourceType).value.Extension();
    var dst := ModuleOutDir(job.outDir, job.names[i]);
    var t := 0;
    while t < |leaves|
      invariant 0 <= t <= |leaves|
      invariant done0 + job.PartFrom(i, j, 0) == done + job.PartFrom(i, j, t)
      invariant Performed(done) == (moves, true)
    {
      var move := MoveFor(leaves[t], ext, job.srcDir, dst);
      assert job.PartFrom(i, j, t) == [move] + job.PartFrom(i, j, t + 1);
      if move.None? {
        forall after ensures Performed(done0 + (job.PartFrom(i, j, 0) + after)) == (moves, false) {
          Assoc(done0, job.PartFrom(i, j, 0), after);
          Assoc(done, job.PartFrom(i, j, t), after);
          Assoc([move], job.PartFrom(i, j, t + 1), after);
          PerformedStop(done, moves, job.PartFrom(i, j, t + 1) + after);
        }
        complete := false;
        return;
      }
      PerformedSnoc(done, moves, move);
      Assoc(done, [move], job.PartFrom(i, j, t + 1));
      done := done + [move];
      moves := moves + [move.value];
      t := t + 1;
    }
    assert done + [] == done;
    complete := true;
  }

  /** The middle relocation loop (gmcollage.py:265-269) for group `i`: the
      moves of its parts in order, up to the first leaf without text. */
  method RelocateGroup(job: Relocation, i: nat, moves0: seq<Move>, ghost done0: seq<Option<Move>>)
    returns (moves: seq<Move>, complete: bool, ghost done: seq<Option<Move>>)
    requires job.Ready() && i < |job.groups|
    requires Performed(done0) == (moves0, true)
    ensures complete ==> done == done0 + job.GroupFrom(i, 0) && Performed(done) == (moves, true)
    ensures !complete ==> forall after :: Performed(done0 + (job.GroupFrom(i, 0) + after)) == (moves, false)
  {
    moves, done := moves0, done0;
    var j := 0;
    while j < |job.groups[i]|
      invariant 0 <= j <= |job.groups[i]|
      invariant done0 + job.GroupFrom(i, 0) == done + job.GroupFrom(i, j)
      invariant Performed(done) == (moves, true)
    {
      assert job.GroupFrom(i, j) == job.PartFrom(i, j, 0) + job.GroupFrom(i, j + 1);
      ghost var before := done;
      var partComplete;
      moves, partComplete, done := RelocatePart(job, i, j, moves, done);
      if !partComplete {
        forall after ensures Performed(done0 + (job.GroupFrom(i, 0) + after)) == (moves, false) {
          Assoc(done0, job.GroupFrom(i, 0), after);
          Assoc(before, job.GroupFrom(i, j), after);
          Assoc(job.PartFrom(i, j, 0), job.GroupFrom(i, j + 1), after);
        }
        complete := false;
        return;
      }
      Assoc(before, job.PartFrom(i, j, 0), job.GroupFrom(i, j + 1));
      j := j + 1;
    }
    assert done + [] == done;
    complete := true;
  }

  /** The relocation loop of gmcollage.py:264-269. Moves are collected in a
      log instead of being performed; a leaf without text stops the loop with
      `complete` false, after the moves before it. */
  method Relocate(job: Relocation) returns (moves: seq<Move>, complete: bool)
    requires job.Ready()
    ensures (moves, complete) == Performed(job.Plan())
  {
    moves := [];
    ghost var done: seq<Option<Move>> := [];
    var i := 0;
    while i < |job.groups|
      invariant 0 <= i <= |job.groups|
      invariant done + job.MovesFrom(i) == job.Plan()
      invariant Performed(done) == (moves, true)
    {
      assert job.MovesFrom(i) == job.GroupFrom(i, 0) + job.MovesFrom(i + 1);
      ghost var before := done;
      var groupComplete;
      moves, groupComplete, done := RelocateGroup(job, i, moves, done);
      if !groupComplete {
        assert Performed(before + (job.GroupFrom(i, 0) + job.MovesFrom(i + 1))) == (moves, false);
        complete := false;
        return;
      }
      Assoc(before, job.GroupFrom(i, 0), job.MovesFrom(i + 1));
      i := i + 1;
    }
    assert done + [] == done;
    complete := true;
  }

  lemma {:induction false} PartFromShape(job: Relocation, i: nat, j: nat, t: nat)
    requires job.Ready() && i < |job.groups| && j < |job.groups[i]| && t <= |job.Leaves(i, j)|
    ensures forall x :: x in job.PartFrom(i, j, t) && x.Some? ==>
      Relocates(x.value, job.srcDir, ModuleOutDir(job.outDir, job.names[i]))
    decreases |job.Leaves(i, j)| - t
  {
    if t < |job.Leaves(i, j)| {
      PartFromShape(job, i, j, t + 1);
    }
  }

  lemma {:induction false} GroupFromShape(job: Relocation, i: nat, j: nat)
    requires job.Ready() && i < |job.groups| && j <= |job.groups[i]|
    ensures forall x :: x in job.GroupFrom(i, j) && x.Some? ==>
      Relocates(x.value, job.srcDir, ModuleOutDir(job.outDir, job.names[i]))
    decreases |job.groups[i]| - j
  {
    if j < |job.groups[i]| {
      PartFromShape(job, i, j, 0);
      GroupFromShape(job, i, j + 1);
    }
  }

  /** Every planned move takes a file named by a leaf's text and its kind's
      extension from the project directory to the directory of the module
      whose group holds the part. */
  lemma {:induction false} MovesFromShape(job: Relocation, i: nat)
    requires job.Ready() && i <= |job.groups|
    ensures forall x :: x in job.MovesFrom(i) && x.Some? ==>
      exists g :: i <= g < |job.groups| && Relocates(x.value, job.srcDir, ModuleOutDir(job.outDir, job.names[g]))
    decreases |job.groups| - i
  {
    if i < |job.groups| {
      GroupFromShape(job, i, 0);
      MovesFromShape(job, i + 1);
    }
  }

  /** `mv` is the planned move of a leaf of a part in group `g`. */
  predicate MovedFor(job: Relocation, g: nat, mv: Move)
    requires job.Ready() && g < |job.groups|
  {
    exists j, t :: 0 <= j < |job.groups[g]| && 0 <= t < |job.Leaves(g, j)| && job.MoveAt(g, j, t) == Some(mv)
  }

  /** A move planned for group `g` goes into module `g`'s directory. */
  lemma MovedForRelocates(job: Relocation, g: nat, mv: Move)
    requires job.Ready() && g < |job.groups| && MovedFor(job, g, mv)
    ensures Relocates(mv, job.srcDir, ModuleOutDir(job.outDir, job.names[g]))
  {
    var j, t :| 0 <= j < |job.groups[g]| && 0 <= t < |job.Leaves(g, j)| && job.MoveAt(g, j, t) == Some(mv);
  }

  lemma {:induction false} PartFromOwner(job: Relocation, i: nat, j: nat, t: nat)
    requires job.Ready() && i < |job.groups| && j < |job.groups[i]| && t <= |job.Leaves(i, j)|
    ensures forall x :: x in job.PartFrom(i, j, t) && x.Some? ==> MovedFor(job, i, x.value)
    decreases |job.Leaves(i, j)| - t
  {
    if t < |job.Leaves(i, j)| {
      PartFromOwner(job, i, j, t + 1);
      var x := job.MoveAt(i, j, t);
      if x.Some? {
        assert MovedFor(job, i, x.value);
      }
    }
  }

  lemma {:induction false} GroupFromOwner(job: Relocation, i: nat, j: nat)
    requires job.Ready() && i < |job.groups| && j <= |job.groups[i]|
    ensures forall x :: x in job.GroupFrom(i, j) && x.Some? ==> MovedFor(job, i, x.value)
    decreases |job.groups[i]| - j
  {
    if j < |job.groups[i]| {
      PartFromOwner(job, i, j, 0);
      GroupFromOwner(job, i, j + 1);
    }
  }

  /** Every planned move from group `i` on is the move of a leaf of a part in
      some group `g >= i`, the group whose module directory receives it
      (gmcollage.py:264-268). */
  lemma {:induction false} MovesFromOwner(job: Relocation, i: nat)
    requires job.Ready() && i <= |job.groups|
    ensures forall x :: x in job.MovesFrom(i) && x.Some? ==>
      exists g :: i <= g < |job.groups| && MovedFor(job, g, x.value)
    decreases |job.groups| - i
  {
    if i < |job.groups| {
      GroupFromOwner(job, i, 0);
      MovesFromOwner(job, i + 1);
    }
  }

  /** What is performed is a prefix of the plan: every performed move is
      planned, and when no leaf lacks a text every planned move is performed,
      in order. */
  lemma {:induction false} PerformedIsPlanned(plan: seq<Option<Move>>)
    ensures forall mv :: mv in Performed(plan).0 ==> Some(mv) in plan
    ensures None !in plan ==>
      (Performed(plan).1 && |Performed(plan).0| == |plan| &&
       forall n :: 0 <= n < |plan| ==> Some(Performed(plan).0[n]) == plan[n])
  {
    if |plan| > 0 && plan[0].Some? {
      PerformedIsPlanned(plan[1..]);
      assert plan == [plan[0]] + plan[1..];
      if None !in plan {
        assert None !in plan[1..];
        var r := Performed(plan).0;
        forall n | 0 <= n < |plan| ensures Some(r[n]) == plan[n] {
          if n > 0 {
            assert r[n] == Performed(plan[1..]).0[n - 1];
          }
        }
      }
    }
  }

  /** A project whose sprite root holds the given folders. */
  function SpriteProject(folders: seq<Node>): Node {
    Node("project", map[], None, [Node("sprites", map[], None, folders)])
  }

  /** Looking up a one-segment sprite path in such a project. */
  lemma FindInSpriteProject(folders: seq<Node>, x: string)
    requires '/' !in x
    ensures FindPart(SpriteProject(folders), "sprites", x) ==
      match FindChild(folders, "sprites", Some(x))
      case None => None
      case Some(i) => Some([0, i])
  {
    SplitNone(x, '/');
    var root := SpriteProject(folders);
    assert FindChild(root.children, "sprites", None) == Some(0);
    var r := FindChild(folders, "sprites", Some(x));
    if r.Some? {
      assert Descend(root.children[0].children[r.value], "sprites", []) == Some([]);
      assert [x][1..] == [] && [x][0] == x;
      assert Descend(root.children[0], "sprites", [x]) == Some([r.value] + []);
      assert [0] + ([r.value] + []) == [0, r.value];
    } else {
      assert [x][0] == x;
    }
  }

  /** The configs of the two-module example: one sprite folder each. */
  function TwoConfigs(a: string, b: string, x: string, y: string): seq<Config> {
    [Config(a, [("sprites", x)]), Config(b, [("sprites", y)])]
  }

  lemma DetachFromSpriteProject(folders: seq<Node>, i: nat)
    requires i < |folders|
    ensures ValidAddress(SpriteProject(folders), [0, i])
    ensures Detach(SpriteProject(folders), [0, i]) == SpriteProject(folders[..i] + folders[i + 1..])
  {
    var t := SpriteProject(folders);
    assert [0, i][1..] == [i] && [i][1..] == [];
    assert [0, i][..1] == [0];
    assert ValidAddress(t, [0]) by { assert [0][1..] == []; }
    assert At(t, [0]) == t.children[0] by { assert [0][1..] == []; }
    var q := t.children[0];
    var z := q.(children := q.children[..i] + q.children[i + 1..]);
    assert UpdateAt(t, [0], z) == t.(children := t.children[0 := UpdateAt(q, [], z)]) by { assert [0][1..] == []; }
  }

  /** A part path without ASCII backslashes is kept as it is. */
  lemma ReplaceCharAbsent(s: string, a: char, b: char)
    requires a !in s
    ensures ReplaceChar(s, a, b) == s
  {
    var r := ReplaceChar(s, a, b);
    assert forall k :: 0 <= k < |s| ==> r[k] == s[k];
  }

  /** The parts of the two-module example, in declaration order. */
  lemma TwoConfigsParts(a: string, b: string, x: string, y: string)
    requires '\\' !in x && '\\' !in y
    ensures var c := TwoConfigs(a, b, x, y);
      AllParts(c) == [MakePart(c[0], ("sprites", x)), MakePart(c[1], ("sprites", y))] &&
      AllParts(c)[0].resourcePath == x && AllParts(c)[1].resourcePath == y &&
      AllParts(c)[0].resourceType == AllParts(c)[1].resourceType == "sprites"
    ensures GroupsAsWritten(TwoConfigs(a, b, x, y)) == [[0, 1], [0, 1]]
    ensures GroupsByConfig(TwoConfigs(a, b, x, y)) == [[0], [1]]
  {
    var c := TwoConfigs(a, b, x, y);
    ReplaceCharAbsent(x, '\\', '/');
    ReplaceCharAbsent(y, '\\', '/');
    assert c[..1] == [c[0]] && c[..1][..0] == [] && c[..2] == c;
    assert ConfigParts(c[0]) == [MakePart(c[0], ("sprites", x))];
    assert ConfigParts(c[1]) == [MakePart(c[1], ("sprites", y))];
    assert AllParts(c[..1]) == [MakePart(c[0], ("sprites", x))];
    assert Offset(c, 0) == 0 && Offset(c, 1) == 1;
    assert Range(0, 2) == [0, 1] && Range(0, 1) == [0] && Range(1, 2) == [1];
  }

  /** Extracting a sprite part whose one-segment path names a folder of the
      sprite root. */
  lemma StepFinds(st: OutState, parts: seq<ModulePart>, m: nat, k: nat, folders: seq<Node>, i: nat)
    requires m < |st.modules| && k < |parts| && parts[k].resourceType == "sprites"
    requires st.tree == SpriteProject(folders) && '/' !in parts[k].resourcePath
    requires FindChild(folders, "sprites", Some(parts[k].resourcePath)) == Some(i)
    ensures ExtractStep(st, parts, m, k) ==
      OutState(SpriteProject(folders[..i] + folders[i + 1..]),
               st.modules[m := st.modules[m].(children := st.modules[m].children + [Wrap(parts[k], folders[i])])],
               st.missing,
               st.iterators[k := Resources(folders[i], "sprites")])
  {
    FindInSpriteProject(folders, parts[k].resourcePath);
    DetachFromSpriteProject(folders, i);
    assert At(st.tree, [0, i]) == folders[i] by {
      var t := SpriteProject(folders);
      assert [0, i][0] == 0 && [0, i][1..] == [i] && [i][0] == i && [i][1..] == [];
      assert At(t, [0, i]) == At(t.children[0], [i]);
      assert At(t.children[0], [i]) == At(folders[i], []);
    }
  }

  /** Extracting a sprite part whose folder is not there. */
  lemma StepMisses(st: OutState, parts: seq<ModulePart>, m: nat, k: nat, folders: seq<Node>)
    requires m < |st.modules| && k < |parts| && parts[k].resourceType == "sprites"
    requires st.tree == SpriteProject(folders) && '/' !in parts[k].resourcePath
    requires FindChild(folders, "sprites", Some(parts[k].resourcePath)).None?
    ensures ExtractStep(st, parts, m, k) == st.(missing := st.missing + [k])
  {
    FindInSpriteProject(folders, parts[k].resourcePath);
  }

  lemma ExtractPair(st: OutState, parts: seq<ModulePart>, m: nat, s1: OutState, s2: OutState)
    requires m < |st.modules| && KindsValid(parts) && |parts| == 2
    requires s1 == ExtractStep(st, parts, m, 0) && s2 == ExtractStep(s1, parts, m, 1)
    ensures ExtractGroup(st, parts, m, [0, 1]) == s2
  {
    assert [0, 1][..1] == [0] && [0, 1][..1][..0] == [];
  }

  lemma ExtractSingle(st: OutState, parts: seq<ModulePart>, m: nat, k: nat, s1: OutState)
    requires m < |st.modules| && KindsValid(parts) && k < |parts|
    requires s1 == ExtractStep(st, parts, m, k)
    ensures ExtractGroup(st, parts, m, [k]) == s1
  {
    assert [k][..0] == [];
  }

  /** Two modules are extracted one after the other. */
  lemma ExtractAllTwo(tree: Node, parts: seq<ModulePart>, gs: seq<seq<nat>>)
    requires KindsValid(parts) && |gs| == 2 && GroupsInRange(parts, gs)
    ensures ExtractAll(tree, parts, gs) ==
      ExtractGroup(ExtractGroup(Initial(tree, 2), parts, 0, gs[0]), parts, 1, gs[1])
  {
    assert ExtractModules(Initial(tree, 2), parts, gs, 1) == ExtractGroup(Initial(tree, 2), parts, 0, gs[0]);
  }

  /** Two sprite parts with different one-segment paths, both folders present. */
  predicate TwoSpriteParts(parts: seq<ModulePart>) {
    |parts| == 2 && parts[0].resourceType == parts[1].resourceType == "sprites" &&
    '/' !in parts[0].resourcePath && '/' !in parts[1].resourcePath &&
    parts[0].resourcePath != parts[1].resourcePath
  }

  /** Both parts of the example have a known kind. */
  lemma TwoSpritePartsValid(parts: seq<ModulePart>)
    requires TwoSpriteParts(parts)
    ensures KindsValid(parts)
  {
    assert ParseKind("sprites") == Some(Sprites);
  }

  function TwoFolders(parts: seq<ModulePart>): seq<Node>
    requires TwoSpriteParts(parts)
  {
    [Folder("sprites", parts[0].resourcePath), Folder("sprites", parts[1].resourcePath)]
  }

  /** The state after the first module has taken the first folder. */
  function AfterFirst(parts: seq<ModulePart>): OutState
    requires TwoSpriteParts(parts)
  {
    var fs := TwoFolders(parts);
    OutState(SpriteProject([fs[1]]), [Element("module").(children := [Wrap(parts[0], fs[0])]), Element("module")], [],
             map[0 := Resources(fs[0], "sprites")])
  }

  /** The state after module `m` has taken the second folder too. */
  function AfterSecond(parts: seq<ModulePart>, m: nat): OutState
    requires TwoSpriteParts(parts) && m < 2
  {
    var fs := TwoFolders(parts);
    var st := AfterFirst(parts);
    var mod := st.modules[m];
    OutState(SpriteProject([]), st.modules[m := mod.(children := mod.children + [Wrap(parts[1], fs[1])])], [],
             st.iterators[1 := Resources(fs[1], "sprites")])
  }

  /** The first extraction of the example takes the first folder. */
  lemma FirstFolderTaken(parts: seq<ModulePart>)
    requires TwoSpriteParts(parts)
    ensures ExtractStep(Initial(SpriteProject(TwoFolders(parts)), 2), parts, 0, 0) == AfterFirst(parts)
  {
    var fs := TwoFolders(parts);
    var e := Element("module");
    var wx := Wrap(parts[0], fs[0]);
    var s0 := Initial(SpriteProject(fs), 2);
    assert s0.modules == [e, e];
    assert FindChild(fs, "sprites", Some(parts[0].resourcePath)) == Some(0);
    assert fs[..0] + fs[1..] == [fs[1]];
    StepFinds(s0, parts, 0, 0, fs, 0);
    assert e.children + [wx] == [wx];
    assert [e, e][0 := e.(children := [wx])] == [e.(children := [wx]), e];
  }

  /** The second extraction takes the second folder, into module `m`. */
  lemma SecondFolderTaken(parts: seq<ModulePart>, m: nat)
    requires TwoSpriteParts(parts) && m < 2
    ensures ExtractStep(AfterFirst(parts), parts, m, 1) == AfterSecond(parts, m)
  {
    var fy := TwoFolders(parts)[1];
    assert FindChild([fy], "sprites", Some(parts[1].resourcePath)) == Some(0);
    assert [fy][..0] + [fy][1..] == [];
    StepFinds(AfterFirst(parts), parts, m, 1, [fy], 0);
  }

  /** Neither part is found once both folders are gone. */
  lemma BothMissing(parts: seq<ModulePart>)
    requires TwoSpriteParts(parts)
    ensures KindsValid(parts)
    ensures ExtractGroup(AfterSecond(parts, 0), parts, 1, [0, 1]) == AfterSecond(parts, 0).(missing := [0, 1])
  {
    var s2 := AfterSecond(parts, 0);
    TwoSpritePartsValid(parts);
    StepMisses(s2, parts, 1, 0, []);
    var s3 := s2.(missing := [0]);
    StepMisses(s3, parts, 1, 1, []);
    ExtractPair(s2, parts, 1, s3, s2.(missing := [0, 1]));
  }

  /** With the shared groups the first module takes both folders and the
      second finds neither. */
  lemma SharedGroupsState(parts: seq<ModulePart>, gs: seq<seq<nat>>)
    requires TwoSpriteParts(parts) && |gs| == 2 && gs[0] == [0, 1] && gs[1] == [0, 1]
    ensures KindsValid(parts) && GroupsInRange(parts, gs)
    ensures ExtractAll(SpriteProject(TwoFolders(parts)), parts, gs) == AfterSecond(parts, 0).(missing := [0, 1])
  {
    SharedTwoGroups(parts);
    PairInRange(gs, |parts|);
    ExtractAllTwo(SpriteProject(TwoFolders(parts)), parts, gs);
  }

  /** Groups drawn from positions 0 and 1 name parts of a two-part list. */
  lemma PairInRange(gs: seq<seq<nat>>, n: nat)
    requires n == 2 && |gs| == 2
    requires gs[0] == [0, 1] || gs[0] == [0]
    requires gs[1] == [0, 1] || gs[1] == [1]
    ensures forall i, j :: 0 <= i < |gs| && 0 <= j < |gs[i]| ==> gs[i][j] < n
  {
  }

  lemma SharedTwoGroups(parts: seq<ModulePart>)
    requires TwoSpriteParts(parts)
    ensures KindsValid(parts)
    ensures var s0 := Initial(SpriteProject(TwoFolders(parts)), 2);
      ExtractGroup(ExtractGroup(s0, parts, 0, [0, 1]), parts, 1, [0, 1]) == AfterSecond(parts, 0).(missing := [0, 1])
  {
    FirstGroupTakesBoth(parts);
    BothMissing(parts);
  }

  lemma FirstGroupTakesBoth(parts: seq<ModulePart>)
    requires TwoSpriteParts(parts)
    ensures KindsValid(parts)
    ensures ExtractGroup(Initial(SpriteProject(TwoFolders(parts)), 2), parts, 0, [0, 1]) == AfterSecond(parts, 0)
  {
    TwoSpritePartsValid(parts);
    FirstFolderTaken(parts);
    SecondFolderTaken(parts, 0);
    ExtractPair(Initial(SpriteProject(TwoFolders(parts)), 2), parts, 0, AfterFirst(parts), AfterSecond(parts, 0));
  }

  lemma SharedGroupsParts(parts: seq<ModulePart>, gs: seq<seq<nat>>)
    requires TwoSpriteParts(parts) && |gs| == 2 && gs[0] == [0, 1] && gs[1] == [0, 1]
    ensures KindsValid(parts) && GroupsInRange(parts, gs)
    ensures var r := ExtractAll(SpriteProject(TwoFolders(parts)), parts, gs);
      r.missing == [0, 1] &&
      r.modules[0].children == [Wrap(parts[0], TwoFolders(parts)[0]), Wrap(parts[1], TwoFolders(parts)[1])] &&
      r.modules[1].children == []
  {
    SharedGroupsState(parts, gs);
    var fs := TwoFolders(parts);
    assert [Wrap(parts[0], fs[0])] + [Wrap(parts[1], fs[1])] == [Wrap(parts[0], fs[0]), Wrap(parts[1], fs[1])];
  }

  lemma FirstGroupTaken(parts: seq<ModulePart>)
    requires TwoSpriteParts(parts)
    ensures KindsValid(parts)
    ensures ExtractGroup(Initial(SpriteProject(TwoFolders(parts)), 2), parts, 0, [0]) == AfterFirst(parts)
  {
    TwoSpritePartsValid(parts);
    FirstFolderTaken(parts);
    ExtractSingle(Initial(SpriteProject(TwoFolders(parts)), 2), parts, 0, 0, AfterFirst(parts));
  }

  lemma SecondGroupTaken(parts: seq<ModulePart>)
    requires TwoSpriteParts(parts)
    ensures KindsValid(parts)
    ensures ExtractGroup(AfterFirst(parts), parts, 1, [1]) == AfterSecond(parts, 1)
  {
    TwoSpritePartsValid(parts);
    SecondFolderTaken(parts, 1);
    ExtractSingle(AfterFirst(parts), parts, 1, 1, AfterSecond(parts, 1));
  }

  /** With one group per config each module takes its own folder. */
  lemma OwnGroupsState(parts: seq<ModulePart>, gs: seq<seq<nat>>)
    requires TwoSpriteParts(parts) && |gs| == 2 && gs[0] == [0] && gs[1] == [1]
    ensures KindsValid(parts) && GroupsInRange(parts, gs)
    ensures ExtractAll(SpriteProject(TwoFolders(parts)), parts, gs) == AfterSecond(parts, 1)
  {
    FirstGroupTaken(parts);
    SecondGroupTaken(parts);
    PairInRange(gs, |parts|);
    ExtractAllTwo(SpriteProject(TwoFolders(parts)), parts, gs);
  }

  lemma OwnGroupsParts(parts: seq<ModulePart>, gs: seq<seq<nat>>)
    requires TwoSpriteParts(parts) && |gs| == 2 && gs[0] == [0] && gs[1] == [1]
    ensures KindsValid(parts) && GroupsInRange(parts, gs)
    ensures var r := ExtractAll(SpriteProject(TwoFolders(parts)), parts, gs);
      r.missing == [] && r.tree == SpriteProject([]) &&
      r.modules[0].children == [Wrap(parts[0], TwoFolders(parts)[0])] &&
      r.modules[1].children == [Wrap(parts[1], TwoFolders(parts)[1])]
  {
    OwnGroupsState(parts, gs);
    var fs := TwoFolders(parts);
    assert Element("module").children + [Wrap(parts[1], fs[1])] == [Wrap(parts[1], fs[1])];
  }

  /** With the shared part list of gmcollage.py:151, two configs that each
      name one folder of the project: the first module takes both folders,
      and the second module finds neither, so both parts are reported
      missing and the run stops. */
  lemma SharedGroupsReportMissing(a: string, b: string, x: string, y: string)
    requires '/' !in x && '/' !in y && '\\' !in x && '\\' !in y && x != y
    ensures var c := TwoConfigs(a, b, x, y);
      |AllParts(c)| == 2 && KindsValid(AllParts(c)) && GroupsInRange(AllParts(c), GroupsAsWritten(c))
    ensures var c := TwoConfigs(a, b, x, y);
      var r := ExtractAll(SpriteProject([Folder("sprites", x), Folder("sprites", y)]), AllParts(c), GroupsAsWritten(c));
      r.missing == [0, 1] &&
      r.modules[0].children == [Wrap(AllParts(c)[0], Folder("sprites", x)), Wrap(AllParts(c)[1], Folder("sprites", y))] &&
      r.modules[1].children == []
  {
    var c := TwoConfigs(a, b, x, y);
    TwoConfigsParts(a, b, x, y);
    var parts := AllParts(c);
    assert TwoSpriteParts(parts);
    assert TwoFolders(parts) == [Folder("sprites", x), Folder("sprites", y)];
    SharedGroupsParts(parts, GroupsAsWritten(c));
  }

  /** With one group per config, the same two configs each take their own
      folder: nothing is missing, each module carries its own part and the
      project keeps neither folder. */
  lemma OwnGroupsExtractBoth(a: string, b: string, x: string, y: string)
    requires '/' !in x && '/' !in y && '\\' !in x && '\\' !in y && x != y
    ensures var c := TwoConfigs(a, b, x, y);
      |AllParts(c)| == 2 && KindsValid(AllParts(c)) && GroupsInRange(AllParts(c), GroupsByConfig(c))
    ensures var c := TwoConfigs(a, b, x, y);
      var r := ExtractAll(SpriteProject([Folder("sprites", x), Folder("sprites", y)]), AllParts(c), GroupsByConfig(c));
      r.missing == [] && r.tree == SpriteProject([]) &&
      r.modules[0].children == [Wrap(AllParts(c)[0], Folder("sprites", x))] &&
      r.modules[1].children == [Wrap(AllParts(c)[1], Folder("sprites", y))]
  {
    var c := TwoConfigs(a, b, x, y);
    TwoConfigsParts(a, b, x, y);
    var parts := AllParts(c);
    assert TwoSpriteParts(parts);
    assert TwoFolders(parts) == [Folder("sprites", x), Folder("sprites", y)];
    OwnGroupsParts(parts, GroupsByConfig(c));
  }
}
