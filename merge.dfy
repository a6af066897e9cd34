/** Merge, the "in" direction (gmcollage.py:275-340): the project gets a root
    folder for every kind but datafiles, module resources whose text already
    occurs in the project stop the run, and otherwise every `part` of every
    module document has its folder grafted back under the chain of its
    parent folders, which is found or created on the way. */
module Merge {
  import opened Wrappers
  import opened Catalog
  import opened PathStrings
  import opened Tree

  // ---------------------------------------------------------------------
  // Kind roots (gmcollage.py:283-287)
  // ---------------------------------------------------------------------

  /** The root children after the loop of gmcollage.py:283-287 has handled
      the kind strings `ks`: a kind other than "datafiles" that has no root
      child yet gets an empty one appended. */
  function WithRoots(cs: seq<Node>, ks: seq<string>): seq<Node>
    decreases |ks|
  {
    if |ks| == 0 then cs
    else
      var prev := WithRoots(cs, ks[..|ks| - 1]);
      var k := ks[|ks| - 1];
      if k == "datafiles" || FindChild(prev, k, None).Some? then prev else prev + [Element(k)]
  }

  /** The loop of gmcollage.py:283-287 on the project root. */
  method EnsureKindRoots(root: Node) returns (r: Node)
    ensures r == root.(children := WithRoots(root.children, ResourceTypes))
  {
    r := root;
    var t := 0;
    while t < |ResourceTypes|
      invariant 0 <= t <= |ResourceTypes|
      invariant r == root.(children := WithRoots(root.children, ResourceTypes[..t]))
    {
      var resourceType := ResourceTypes[t];
      assert ResourceTypes[..t + 1][..t] == ResourceTypes[..t];
      if resourceType != "datafiles" {
        if FindChild(r.children, resourceType, None).None? {
          r := r.(children := r.children + [Element(resourceType)]);
        }
      }
      t := t + 1;
    }
    assert ResourceTypes[..|ResourceTypes|] == ResourceTypes;
  }

  /** The existing children are kept, in order, and only empty roots are
      added after them, each for a handled kind other than "datafiles" that
      had no root child, and each at most once. */
  lemma {:induction false} WithRootsShape(cs: seq<Node>, ks: seq<string>)
    ensures var r := WithRoots(cs, ks);
      |cs| <= |r| && r[..|cs|] == cs &&
      forall j :: |cs| <= j < |r| ==>
        r[j] == Element(r[j].tag) && r[j].tag in ks && r[j].tag != "datafiles" &&
        FindChild(cs, r[j].tag, None).None? &&
        forall l :: 0 <= l < j ==> r[l].tag != r[j].tag
    decreases |ks|
  {
    if |ks| > 0 {
      var init := ks[..|ks| - 1];
      WithRootsShape(cs, init);
      var prev := WithRoots(cs, init);
      var k := ks[|ks| - 1];
      assert forall x :: x in init ==> x in ks;
      if !(k == "datafiles" || FindChild(prev, k, None).Some?) {
        var r := prev + [Element(k)];
        assert r[..|cs|] == prev[..|cs|];
        assert FindChild(cs, k, None).None? by {
          forall l | 0 <= l < |cs| ensures !Matches(cs[l], k, None) {
            assert cs[l] == prev[l];
          }
        }
      }
    }
  }

  /** After the loop every handled kind other than "datafiles" has a root
      child with its tag. */
  lemma {:induction false} WithRootsComplete(cs: seq<Node>, ks: seq<string>)
    ensures forall k :: k in ks && k != "datafiles" ==> FindChild(WithRoots(cs, ks), k, None).Some?
    decreases |ks|
  {
    if |ks| > 0 {
      var init := ks[..|ks| - 1];
      WithRootsComplete(cs, init);
      var prev := WithRoots(cs, init);
      var r := WithRoots(cs, ks);
      assert r[..|prev|] == prev;
      forall k | k in ks && k != "datafiles" ensures FindChild(r, k, None).Some? {
        if k in init {
          var i := FindChild(prev, k, None).value;
          assert Matches(r[i], k, None);
        } else {
          assert k == ks[|ks| - 1];
          if FindChild(prev, k, None).None? {
            assert Matches(r[|prev|], k, None);
          } else {
            var i := FindChild(prev, k, None).value;
            assert Matches(r[i], k, None);
          }
        }
      }
    }
  }

  /** A second pass adds nothing. */
  lemma WithRootsIdempotent(cs: seq<Node>)
    ensures WithRoots(WithRoots(cs, ResourceTypes), ResourceTypes) == WithRoots(cs, ResourceTypes)
  {
    var once := WithRoots(cs, ResourceTypes);
    WithRootsComplete(cs, ResourceTypes);
    NoRootsAdded(once, ResourceTypes);
  }

  /** When every handled kind already has a root, the loop changes nothing. */
  lemma {:induction false} NoRootsAdded(cs: seq<Node>, ks: seq<string>)
    requires forall k :: k in ks && k != "datafiles" ==> FindChild(cs, k, None).Some?
    ensures WithRoots(cs, ks) == cs
    decreases |ks|
  {
    if |ks| > 0 {
      var init := ks[..|ks| - 1];
      assert forall k :: k in init ==> k in ks;
      NoRootsAdded(cs, init);
      assert ks[|ks| - 1] in ks;
    }
  }

  // ---------------------------------------------------------------------
  // Collision check (gmcollage.py:289-309)
  // ---------------------------------------------------------------------

  /** The leaf tags the check walks: RESOURCE_TAG_NAMES without "datafile",
      in catalog order (gmcollage.py:291-293). */
  const CheckedTags: seq<string> :=
    ["sound", "sprite", "background", "path", "script", "shader", "font", "object", "timeline", "room"]

  lemma CheckedTagsAreCatalogTags()
    ensures |CheckedTags| == |AllKinds| - 1
    ensures forall i :: 0 <= i < |CheckedTags| ==> CheckedTags[i] == AllKinds[i + 1].TagName()
    ensures AllKinds[0].TagName() == "datafile" && "datafile" !in CheckedTags
  {
  }

  /** One entry of `module_resources`: a leaf's text and the module name the
      error message will show. */
  datatype Entry = Entry(text: Option<string>, owner: string)

  /** The texts of the project's leaves with the tags `tags`, tag after tag,
      each tag's leaves in document order (`gmx_resources`). */
  function ProjectTexts(root: Node, tags: seq<string>): seq<Option<string>>
    decreases |tags|
  {
    if |tags| == 0 then [] else ProjectTexts(root, tags[..|tags| - 1]) + Texts(Iter(root, tags[|tags| - 1]))
  }

  /** The entries for one module's leaves with tag `tag`, labelled `owner`. */
  function LeafEntries(leaves: seq<Node>, owner: string): (r: seq<Entry>)
    ensures |r| == |leaves|
    ensures forall j :: 0 <= j < |leaves| ==> r[j] == Entry(leaves[j].text, owner)
  {
    seq(|leaves|, j requires 0 <= j < |leaves| => Entry(leaves[j].text, owner))
  }

  /** The entries of modules `0 .. m - 1` for one tag; module `i` is labelled
      `labels[i]`. */
  function TagEntries(modules: seq<Node>, labels: seq<string>, tag: string, m: nat): seq<Entry>
    requires m <= |modules| == |labels|
  {
    if m == 0 then [] else TagEntries(modules, labels, tag, m - 1) + LeafEntries(Iter(modules[m - 1], tag), labels[m - 1])
  }

  /** `module_resources`: for each tag in turn, the entries of all modules. */
  function ModuleEntries(modules: seq<Node>, labels: seq<string>, tags: seq<string>): seq<Entry>
    requires |modules| == |labels|
    decreases |tags|
  {
    if |tags| == 0 then []
    else ModuleEntries(modules, labels, tags[..|tags| - 1]) + TagEntries(modules, labels, tags[|tags| - 1], |modules|)
  }

  /** The labels AS WRITTEN at gmcollage.py:298: every module is labelled with
      the first module's name. */
  function LabelsAsWritten(names: seq<string>, n: nat): (r: seq<string>)
    requires n > 0 ==> |names| > 0
    ensures |r| == n && forall i :: 0 <= i < n ==> r[i] == names[0]
  {
    seq(n, _ requires |names| > 0 => names[0])
  }

  /** The entries reported as clashes: those whose text occurs among the
      project's texts (gmcollage.py:302-305). */
  function Clashes(entries: seq<Entry>, texts: seq<Option<string>>): seq<Entry>
    decreases |entries|
  {
    if |entries| == 0 then []
    else
      var prev := Clashes(entries[..|entries| - 1], texts);
      var e := entries[|entries| - 1];
      if e.text in texts then prev + [e] else prev
  }

  /** A reported clash is exactly a module entry whose text the project also
      has; and the report keeps the order of the entries. */
  lemma {:induction false} ClashesExactly(entries: seq<Entry>, texts: seq<Option<string>>)
    ensures forall e :: e in Clashes(entries, texts) <==> e in entries && e.text in texts
    ensures |Clashes(entries, texts)| <= |entries|
    decreases |entries|
  {
    if |entries| > 0 {
      var init := entries[..|entries| - 1];
      ClashesExactly(init, texts);
      assert entries == init + [entries[|entries| - 1]];
    }
  }

  /** Two modules that share a text the project does not have are not
      reported: the check compares modules with the project only. */
  lemma ModulesNotComparedWithEachOther(entries: seq<Entry>, texts: seq<Option<string>>, t: Option<string>)
    requires t !in texts
    ensures forall e :: e in Clashes(entries, texts) ==> e.text != t
  {
    ClashesExactly(entries, texts);
  }

  /** The project texts are the texts of the project's leaves of the checked
      tags. */
  lemma {:induction false} ProjectLeafTextListed(root: Node, tags: seq<string>, tag: string, n: Node)
    requires tag in tags && n in Iter(root, tag)
    ensures n.text in ProjectTexts(root, tags)
    decreases |tags|
  {
    var init := tags[..|tags| - 1];
    var last := tags[|tags| - 1];
    var texts := Texts(Iter(root, last));
    if tag == last {
      var j :| 0 <= j < |Iter(root, tag)| && Iter(root, tag)[j] == n;
      assert texts[j] == n.text;
      assert ProjectTexts(root, tags)[|ProjectTexts(root, init)| + j] == n.text;
    } else {
      assert tags == init + [last];
      ProjectLeafTextListed(root, init, tag, n);
      var p := ProjectTexts(root, init);
      var j :| 0 <= j < |p| && p[j] == n.text;
      assert ProjectTexts(root, tags)[j] == n.text;
    }
  }

  /** The project has a leaf of one of `tags` whose text is `x`. */
  predicate ProjectHas(root: Node, tags: seq<string>, x: Option<string>) {
    exists t, n :: t in tags && n in Iter(root, t) && n.text == x
  }

  /** `e` is the entry of a leaf of one of `tags` in module `i`, labelled
      `labels[i]`. */
  predicate ModuleHas(modules: seq<Node>, labels: seq<string>, tags: seq<string>, e: Entry)
    requires |modules| == |labels|
  {
    exists i, t, n :: 0 <= i < |modules| && t in tags && n in Iter(modules[i], t) && e == Entry(n.text, labels[i])
  }

  /** Some module leaf of a checked tag has the text of some project leaf of
      a checked tag. */
  predicate LeafCollision(modules: seq<Node>, root: Node, tags: seq<string>) {
    exists i, t, n :: 0 <= i < |modules| && t in tags && n in Iter(modules[i], t) && ProjectHas(root, tags, n.text)
  }

  /** A text is among the texts of `leaves` exactly when one of them has it. */
  lemma TextsHas(leaves: seq<Node>, x: Option<string>)
    ensures x in Texts(leaves) <==> exists n :: n in leaves && n.text == x
  {
    if x in Texts(leaves) {
      var j :| 0 <= j < |leaves| && Texts(leaves)[j] == x;
      assert leaves[j] in leaves;
    }
    if exists n :: n in leaves && n.text == x {
      var n :| n in leaves && n.text == x;
      var j :| 0 <= j < |leaves| && leaves[j] == n;
      assert Texts(leaves)[j] == x;
    }
  }

  /** Both directions of `gmx_resources`: a text is collected exactly when a
      project leaf of one of the tags carries it. */
  lemma {:induction false} ProjectTextsHas(root: Node, tags: seq<string>, x: Option<string>)
    ensures x in ProjectTexts(root, tags) <==> ProjectHas(root, tags, x)
    decreases |tags|
  {
    if |tags| > 0 {
      var init, last := tags[..|tags| - 1], tags[|tags| - 1];
      assert tags == init + [last];
      ProjectTextsHas(root, init, x);
      TextsHas(Iter(root, last), x);
      if exists n :: n in Iter(root, last) && n.text == x {
        var n :| n in Iter(root, last) && n.text == x;
        assert ProjectHas(root, tags, x);
      }
      if ProjectHas(root, init, x) {
        var t, n :| t in init && n in Iter(root, t) && n.text == x;
        assert ProjectHas(root, tags, x);
      }
      if ProjectHas(root, tags, x) {
        var t, n :| t in tags && n in Iter(root, t) && n.text == x;
        if t != last {
          assert ProjectHas(root, init, x);
        }
      }
    }
  }

  /** `e` is the entry of a leaf with tag `tag` in one of modules
      `0 .. m - 1`, labelled with its module's label. */
  predicate TagLeaf(modules: seq<Node>, labels: seq<string>, tag: string, m: nat, e: Entry)
    requires m <= |modules| == |labels|
  {
    exists i, n :: 0 <= i < m && n in Iter(modules[i], tag) && e == Entry(n.text, labels[i])
  }

  /** The entries of one module's leaves are exactly their texts under the
      module's label. */
  lemma LeafEntriesHas(leaves: seq<Node>, owner: string, e: Entry)
    ensures e in LeafEntries(leaves, owner) <==> exists n :: n in leaves && e == Entry(n.text, owner)
  {
    var r := LeafEntries(leaves, owner);
    if e in r {
      var j :| 0 <= j < |r| && r[j] == e;
      assert leaves[j] in leaves;
    }
    if exists n :: n in leaves && e == Entry(n.text, owner) {
      var n :| n in leaves && e == Entry(n.text, owner);
      var j :| 0 <= j < |leaves| && leaves[j] == n;
      assert r[j] == e;
    }
  }

  /** Both directions for one tag: the entries of modules `0 .. m - 1` are
      exactly their leaves' texts, each labelled with its module's label. */
  lemma {:induction false} TagEntriesExactly(modules: seq<Node>, labels: seq<string>, tag: string, m: nat, e: Entry)
    requires m <= |modules| == |labels|
    ensures e in TagEntries(modules, labels, tag, m) <==> TagLeaf(modules, labels, tag, m, e)
    decreases m
  {
    if m > 0 {
      TagEntriesExactly(modules, labels, tag, m - 1, e);
      var leaves := Iter(modules[m - 1], tag);
      LeafEntriesHas(leaves, labels[m - 1], e);
      assert TagEntries(modules, labels, tag, m) == TagEntries(modules, labels, tag, m - 1) + LeafEntries(leaves, labels[m - 1]);
      if exists n :: n in leaves && e == Entry(n.text, labels[m - 1]) {
        var n :| n in leaves && e == Entry(n.text, labels[m - 1]);
        assert TagLeaf(modules, labels, tag, m, e);
      }
      if TagLeaf(modules, labels, tag, m - 1, e) {
        var i, n :| 0 <= i < m - 1 && n in Iter(modules[i], tag) && e == Entry(n.text, labels[i]);
        assert TagLeaf(modules, labels, tag, m, e);
      }
      if TagLeaf(modules, labels, tag, m, e) {
        var i, n :| 0 <= i < m && n in Iter(modules[i], tag) && e == Entry(n.text, labels[i]);
        if i < m - 1 {
          assert TagLeaf(modules, labels, tag, m - 1, e);
        }
      }
    }
  }

  /** Both directions of `module_resources`: an entry is collected exactly
      when it is a leaf of one of the tags in some module, under that
      module's label. */
  lemma {:induction false} ModuleEntriesExactly(modules: seq<Node>, labels: seq<string>, tags: seq<string>, e: Entry)
    requires |modules| == |labels|
    ensures e in ModuleEntries(modules, labels, tags) <==> ModuleHas(modules, labels, tags, e)
    decreases |tags|
  {
    if |tags| > 0 {
      var init, last := tags[..|tags| - 1], tags[|tags| - 1];
      assert tags == init + [last];
      ModuleEntriesExactly(modules, labels, init, e);
      TagEntriesExactly(modules, labels, last, |modules|, e);
      if TagLeaf(modules, labels, last, |modules|, e) {
        var i, n :| 0 <= i < |modules| && n in Iter(modules[i], last) && e == Entry(n.text, labels[i]);
        assert last in tags && n in Iter(modules[i], last);
        assert ModuleHas(modules, labels, tags, e);
      }
      if ModuleHas(modules, labels, init, e) {
        var i, t, n :| 0 <= i < |modules| && t in init && n in Iter(modules[i], t) && e == Entry(n.text, labels[i]);
        assert t in tags;
      }
      if ModuleHas(modules, labels, tags, e) {
        var i, t, n :| 0 <= i < |modules| && t in tags && n in Iter(modules[i], t) && e == Entry(n.text, labels[i]);
        if t == last {
          assert TagLeaf(modules, labels, last, |modules|, e);
        } else {
          assert t in init;
          assert ModuleHas(modules, labels, init, e);
        }
      }
    }
  }

  /** One entry is reported as a clash exactly when it belongs to a module
      leaf whose text a project leaf carries. */
  lemma ClashAtLeaves(modules: seq<Node>, labels: seq<string>, root: Node, tags: seq<string>, e: Entry)
    requires |modules| == |labels|
    ensures e in Clashes(ModuleEntries(modules, labels, tags), ProjectTexts(root, tags)) <==>
      ModuleHas(modules, labels, tags, e) && ProjectHas(root, tags, e.text)
  {
    ClashesExactly(ModuleEntries(modules, labels, tags), ProjectTexts(root, tags));
    ModuleEntriesExactly(modules, labels, tags, e);
    ProjectTextsHas(root, tags, e.text);
  }

  /** The collision report at the level of the documents: a clash is exactly
      a module leaf's entry whose text some project leaf carries, and there
      is a clash exactly when such a pair of leaves exists. */
  lemma ClashesAtLeaves(modules: seq<Node>, labels: seq<string>, root: Node, tags: seq<string>)
    requires |modules| == |labels|
    ensures forall e :: e in Clashes(ModuleEntries(modules, labels, tags), ProjectTexts(root, tags)) <==>
      ModuleHas(modules, labels, tags, e) && ProjectHas(root, tags, e.text)
    ensures |Clashes(ModuleEntries(modules, labels, tags), ProjectTexts(root, tags))| > 0 <==> LeafCollision(modules, root, tags)
  {
    var c := Clashes(ModuleEntries(modules, labels, tags), ProjectTexts(root, tags));
    forall e ensures e in c <==> ModuleHas(modules, labels, tags, e) && ProjectHas(root, tags, e.text) {
      ClashAtLeaves(modules, labels, root, tags, e);
    }
    if |c| > 0 {
      CollisionOfClash(modules, labels, root, tags, c[0]);
    }
    if LeafCollision(modules, root, tags) {
      ClashOfCollision(modules, labels, root, tags);
    }
  }

  lemma CollisionOfClash(modules: seq<Node>, labels: seq<string>, root: Node, tags: seq<string>, e: Entry)
    requires |modules| == |labels|
    requires e in Clashes(ModuleEntries(modules, labels, tags), ProjectTexts(root, tags))
    ensures LeafCollision(modules, root, tags)
  {
    ClashAtLeaves(modules, labels, root, tags, e);
    var i, t, n :| 0 <= i < |modules| && t in tags && n in Iter(modules[i], t) && e == Entry(n.text, labels[i]);
    assert ProjectHas(root, tags, n.text);
  }

  lemma ClashOfCollision(modules: seq<Node>, labels: seq<string>, root: Node, tags: seq<string>)
    requires |modules| == |labels|
    requires LeafCollision(modules, root, tags)
    ensures |Clashes(ModuleEntries(modules, labels, tags), ProjectTexts(root, tags))| > 0
  {
    var i, t, n :| 0 <= i < |modules| && t in tags && n in Iter(modules[i], t) && ProjectHas(root, tags, n.text);
    var e := Entry(n.text, labels[i]);
    assert ModuleHas(modules, labels, tags, e);
    ClashAtLeaves(modules, labels, root, tags, e);
  }

  /** `gmx_resources.append(resource.text)` for each of `leaves` in turn
      (gmcollage.py:294-295). */
  method AppendTexts(acc: seq<Option<string>>, leaves: seq<Node>) returns (r: seq<Option<string>>)
    ensures r == acc + Texts(leaves)
  {
    r := acc;
    var l := 0;
    while l < |leaves|
      invariant 0 <= l <= |leaves|
      invariant r == acc + Texts(leaves[..l])
    {
      TextsSnoc(leaves, l);
      r := r + [leaves[l].text];
      l := l + 1;
    }
    assert leaves[..l] == leaves;
  }

  lemma TextsSnoc(nodes: seq<Node>, l: nat)
    requires l < |nodes|
    ensures Texts(nodes[..l + 1]) == Texts(nodes[..l]) + [nodes[l].text]
  {
    var a, b := Texts(nodes[..l + 1]), Texts(nodes[..l]) + [nodes[l].text];
    assert forall j :: 0 <= j < |a| ==> a[j] == b[j];
  }

  /** The inner loops of gmcollage.py:296-298 for one tag: the entries of every
      module's leaves with that tag, module after module. */
  method AppendModuleEntries(acc: seq<Entry>, modules: seq<Node>, labels: seq<string>, tag: string)
    returns (r: seq<Entry>)
    requires |modules| == |labels|
    ensures r == acc + TagEntries(modules, labels, tag, |modules|)
  {
    r := acc;
    var m := 0;
    while m < |modules|
      invariant 0 <= m <= |modules|
      invariant r == acc + TagEntries(modules, labels, tag, m)
    {
      r := AppendLeafEntries(r, Iter(modules[m], tag), labels[m]);
      assert TagEntries(modules, labels, tag, m + 1) == TagEntries(modules, labels, tag, m) + LeafEntries(Iter(modules[m], tag), labels[m]);
      m := m + 1;
    }
  }

  /** The innermost loop of gmcollage.py:296-298: one entry per leaf of one
      module, labelled `owner`. */
  method AppendLeafEntries(acc: seq<Entry>, own: seq<Node>, owner: string) returns (r: seq<Entry>)
    ensures r == acc + LeafEntries(own, owner)
  {
    r := acc;
    var k := 0;
    while k < |own|
      invariant 0 <= k <= |own|
      invariant r == acc + LeafEntries(own[..k], owner)
    {
      LeafEntriesSnoc(own, k, owner);
      r := r + [Entry(own[k].text, owner)];
      k := k + 1;
    }
    assert own[..k] == own;
  }

  lemma LeafEntriesSnoc(leaves: seq<Node>, k: nat, owner: string)
    requires k < |leaves|
    ensures LeafEntries(leaves[..k + 1], owner) == LeafEntries(leaves[..k], owner) + [Entry(leaves[k].text, owner)]
  {
    var a, b := LeafEntries(leaves[..k + 1], owner), LeafEntries(leaves[..k], owner) + [Entry(leaves[k].text, owner)];
    assert forall j :: 0 <= j < |a| ==> a[j] == b[j];
  }

  /** The loop of gmcollage.py:302-305: the entries whose text the project
      has, in order. */
  method FindClashes(entries: seq<Entry>, texts: seq<Option<string>>) returns (clashes: seq<Entry>)
    ensures clashes == Clashes(entries, texts)
  {
    clashes := [];
    var e := 0;
    while e < |entries|
      invariant 0 <= e <= |entries|
      invariant clashes == Clashes(entries[..e], texts)
    {
      assert entries[..e + 1][..e] == entries[..e];
      if entries[e].text in texts {
        clashes := clashes + [entries[e]];
      }
      e := e + 1;
    }
    assert entries[..e] == entries;
  }

  /** The collision check of gmcollage.py:289-305, with module `i`'s entries
      labelled `labels[i]`: the project's texts, the modules' entries and the
      entries reported as clashes. */
  method CheckCollisions(root: Node, modules: seq<Node>, labels: seq<string>)
    returns (gmxResources: seq<Option<string>>, moduleResources: seq<Entry>, clashes: seq<Entry>)
    requires |labels| == |modules|
    ensures gmxResources == ProjectTexts(root, CheckedTags)
    ensures moduleResources == ModuleEntries(modules, labels, CheckedTags)
    ensures clashes == Clashes(moduleResources, gmxResources)
  {
    gmxResources := [];
    moduleResources := [];
    var t := 0;
    while t < |CheckedTags|
      invariant 0 <= t <= |CheckedTags|
      invariant gmxResources == ProjectTexts(root, CheckedTags[..t])
      invariant moduleResources == ModuleEntries(modules, labels, CheckedTags[..t])
    {
      var name := CheckedTags[t];
      assert CheckedTags[..t + 1][..t] == CheckedTags[..t];
      gmxResources := AppendTexts(gmxResources, Iter(root, name));
      moduleResources := AppendModuleEntries(moduleResources, modules, labels, name);
      t := t + 1;
    }
    assert CheckedTags[..t] == CheckedTags;
    clashes := FindClashes(moduleResources, gmxResources);
  }

  /** The as-written labels name the first module for every entry, whoever
      owns the leaf; with each module's own name, an entry of module `i`
      names module `i`. */
  lemma {:induction false} TagEntryLabels(modules: seq<Node>, labels: seq<string>, tag: string, m: nat)
    requires m <= |modules| == |labels|
    ensures forall e :: e in TagEntries(modules, labels, tag, m) ==>
      exists i :: 0 <= i < m && e.owner == labels[i] && e in LeafEntries(Iter(modules[i], tag), labels[i])
    decreases m
  {
    if m > 0 {
      TagEntryLabels(modules, labels, tag, m - 1);
      var last := LeafEntries(Iter(modules[m - 1], tag), labels[m - 1]);
      forall e | e in TagEntries(modules, labels, tag, m)
        ensures exists i :: 0 <= i < m && e.owner == labels[i] && e in LeafEntries(Iter(modules[i], tag), labels[i])
      {
        if e in last {
          var j :| 0 <= j < |last| && last[j] == e;
          assert e.owner == labels[m - 1];
        } else {
          assert e in TagEntries(modules, labels, tag, m - 1);
        }
      }
    }
  }

  /** The entries of two modules for one tag. */
  lemma TwoModuleEntries(m0: Node, m1: Node, labels: seq<string>, tag: string)
    requires |labels| == 2
    ensures TagEntries([m0, m1], labels, tag, 2) == LeafEntries(Iter(m0, tag), labels[0]) + LeafEntries(Iter(m1, tag), labels[1])
  {
    assert TagEntries([m0, m1], labels, tag, 1) == [] + LeafEntries(Iter(m0, tag), labels[0]);
  }

  lemma ClashesSingle(e: Entry, texts: seq<Option<string>>)
    requires e.text in texts
    ensures Clashes([e], texts) == [e]
  {
    assert [e][..0] == [];
  }

  /** With two modules where only the second has a leaf of some tag, and the
      project has a leaf of that tag with the same text: as written the clash
      is reported under the first module's name; with each module's own name
      it is reported under the second's. */
  lemma ClashLabelledWithFirstModule(root: Node, m0: Node, m1: Node, names: seq<string>, tag: string)
    requires |names| == 2 && names[0] != names[1]
    requires |Iter(m0, tag)| == 0 && |Iter(m1, tag)| == 1
    requires Iter(m1, tag)[0].text in Texts(Iter(root, tag))
    ensures Clashes(TagEntries([m0, m1], LabelsAsWritten(names, 2), tag, 2), Texts(Iter(root, tag))) ==
      [Entry(Iter(m1, tag)[0].text, names[0])]
    ensures Clashes(TagEntries([m0, m1], names, tag, 2), Texts(Iter(root, tag))) ==
      [Entry(Iter(m1, tag)[0].text, names[1])]
  {
    var leaf := Iter(m1, tag)[0];
    var texts := Texts(Iter(root, tag));
    var w := LabelsAsWritten(names, 2);
    TwoModuleEntries(m0, m1, w, tag);
    TwoModuleEntries(m0, m1, names, tag);
    assert LeafEntries(Iter(m1, tag), w[1]) == [Entry(leaf.text, names[0])];
    assert LeafEntries(Iter(m1, tag), names[1]) == [Entry(leaf.text, names[1])];
    ClashesSingle(Entry(leaf.text, names[0]), texts);
    ClashesSingle(Entry(leaf.text, names[1]), texts);
  }

  /** Which entries clash does not depend on the labels: the run stops for
      the same inputs whatever name the messages show. */
  lemma {:induction false} ClashesIgnoreLabels(es: seq<Entry>, fs: seq<Entry>, texts: seq<Option<string>>)
    requires |es| == |fs| && forall k :: 0 <= k < |es| ==> es[k].text == fs[k].text
    ensures |Clashes(es, texts)| == |Clashes(fs, texts)|
    decreases |es|
  {
    if |es| > 0 {
      ClashesIgnoreLabels(es[..|es| - 1], fs[..|fs| - 1], texts);
    }
  }

  /** Relabelling keeps every entry's text. */
  lemma {:induction false} TagEntriesTexts(modules: seq<Node>, l1: seq<string>, l2: seq<string>, tag: string, m: nat)
    requires m <= |modules| == |l1| == |l2|
    ensures var es, fs := TagEntries(modules, l1, tag, m), TagEntries(modules, l2, tag, m);
      |es| == |fs| && forall k :: 0 <= k < |es| ==> es[k].text == fs[k].text
    decreases m
  {
    if m > 0 {
      TagEntriesTexts(modules, l1, l2, tag, m - 1);
    }
  }

  lemma {:induction false} ModuleEntriesTexts(modules: seq<Node>, l1: seq<string>, l2: seq<string>, tags: seq<string>)
    requires |modules| == |l1| == |l2|
    ensures var es, fs := ModuleEntries(modules, l1, tags), ModuleEntries(modules, l2, tags);
      |es| == |fs| && forall k :: 0 <= k < |es| ==> es[k].text == fs[k].text
    decreases |tags|
  {
    if |tags| > 0 {
      ModuleEntriesTexts(modules, l1, l2, tags[..|tags| - 1]);
      TagEntriesTexts(modules, l1, l2, tags[|tags| - 1], |modules|);
    }
  }

  /** As written every entry is labelled with the first module's name. */
  lemma {:induction false} AsWrittenLabelsNameFirstModule(modules: seq<Node>, names: seq<string>, tags: seq<string>)
    requires |modules| > 0 && |names| > 0
    ensures forall e :: e in ModuleEntries(modules, LabelsAsWritten(names, |modules|), tags) ==> e.owner == names[0]
    decreases |tags|
  {
    if |tags| > 0 {
      AsWrittenLabelsNameFirstModule(modules, names, tags[..|tags| - 1]);
      var w := LabelsAsWritten(names, |modules|);
      TagEntryLabels(modules, w, tags[|tags| - 1], |modules|);
    }
  }

  // ---------------------------------------------------------------------
  // Graft (gmcollage.py:311-328)
  // ---------------------------------------------------------------------

  /** `resource_path.split("/")[:-1]`: the folders above the resource. */
  function ParentSegments(path: string): (r: seq<string>)
    ensures r + [Split(path, '/')[|Split(path, '/')| - 1]] == Split(path, '/')
  {
    var segs := Split(path, '/');
    segs[..|segs| - 1]
  }

  /** The folders the graft walks: none when the joined parent path is empty
      (gmcollage.py:314-319), the parent segments otherwise. */
  function GraftChain(path: string): (r: seq<string>)
    ensures r == [] || r == ParentSegments(path)
  {
    if Join(ParentSegments(path), "/") == "" then [] else ParentSegments(path)
  }

  /** The folder `n` after the walk of gmcollage.py:321-326 over `segs`: each
      segment descends into the first folder named by it, or into a new
      folder of that name appended for it, and the subtree `sub` is appended
      to the last folder reached. */
  function Chain(n: Node, tag: string, segs: seq<string>, sub: Node): (r: Node)
    ensures r.tag == n.tag && r.attrs == n.attrs && r.text == n.text
    decreases |segs|
  {
    if |segs| == 0 then n.(children := n.children + [sub])
    else match FindChild(n.children, tag, Some(segs[0]))
      case Some(i) => n.(children := n.children[i := Chain(n.children[i], tag, segs[1..], sub)])
      case None => n.(children := n.children + [Chain(Folder(tag, segs[0]), tag, segs[1..], sub)])
  }

  /** Grafting one `part` element into the project (gmcollage.py:313-328).
      `None` is the crash: a missing attribute (`find(None)`, `None.split`),
      no root child for the kind (`None.find`, `None.append`) or a part with
      no child element (`append(None)`). */
  function GraftSpec(root: Node, part: Node): Option<Node>
  {
    if "resource_type" !in part.attrs || "resource_path" !in part.attrs || |part.children| == 0 then None
    else
      var rt := part.attrs["resource_type"];
      match FindChild(root.children, rt, None)
      case None => None
      case Some(k) =>
        Some(root.(children := root.children[k := Chain(root.children[k], rt, GraftChain(part.attrs["resource_path"]), part.children[0])]))
  }

  /** The walk of gmcollage.py:313-328. */
  method GraftPart(root: Node, part: Node) returns (r: Option<Node>)
    ensures r == GraftSpec(root, part)
  {
    if "resource_type" !in part.attrs || "resource_path" !in part.attrs || |part.children| == 0 {
      return None;
    }
    var rt := part.attrs["resource_type"];
    var found := FindChild(root.children, rt, None);
    if found.None? {
      return None;
    }
    var k := found.value;
    assert [k][1..] == [];
    var grafted := AppendAlongChain(root, [k], rt, GraftChain(part.attrs["resource_path"]), part.children[0]);
    r := Some(grafted);
  }

  /** The loop of gmcollage.py:321-326 from the folder at `addr`, one address
      step per segment, then the append of gmcollage.py:326. */
  method AppendAlongChain(root: Node, addr: Address, tag: string, segs: seq<string>, sub: Node) returns (r: Node)
    requires ValidAddress(root, addr)
    ensures r == UpdateAt(root, addr, Chain(At(root, addr), tag, segs, sub))
  {
    var cur := root;
    var at: Address := addr;
    var j := 0;
    while j < |segs|
      invariant 0 <= j <= |segs|
      invariant ValidAddress(cur, at)
      invariant UpdateAt(cur, at, Chain(At(cur, at), tag, segs[j..], sub)) == UpdateAt(root, addr, Chain(At(root, addr), tag, segs, sub))
    {
      var folder := At(cur, at);
      assert segs[j..][0] == segs[j] && segs[j..][1..] == segs[j + 1..];
      var subfolder := FindChild(folder.children, tag, Some(segs[j]));
      if subfolder.Some? {
        ChainStepFound(cur, at, tag, segs[j..], sub);
        at := at + [subfolder.value];
      } else {
        ChainStepNew(cur, at, tag, segs[j..], sub);
        cur := AppendAt(cur, at, Folder(tag, segs[j]));
        at := at + [|folder.children|];
      }
      j := j + 1;
    }
    r := AppendAt(cur, at, sub);
  }

  /** One step of the walk that finds the folder: continuing from the child
      is the same as continuing from the folder. */
  lemma ChainStepFound(cur: Node, addr: Address, tag: string, segs: seq<string>, sub: Node)
    requires ValidAddress(cur, addr) && |segs| > 0
    requires FindChild(At(cur, addr).children, tag, Some(segs[0])).Some?
    ensures var i := FindChild(At(cur, addr).children, tag, Some(segs[0])).value;
      ValidAddress(cur, addr + [i]) &&
      UpdateAt(cur, addr + [i], Chain(At(cur, addr + [i]), tag, segs[1..], sub)) ==
      UpdateAt(cur, addr, Chain(At(cur, addr), tag, segs, sub))
  {
    var folder := At(cur, addr);
    var i := FindChild(folder.children, tag, Some(segs[0])).value;
    AtExtend(cur, addr, i);
    UpdateAtChild(cur, addr, i, Chain(folder.children[i], tag, segs[1..], sub));
  }

  /** One step of the walk that creates the folder: continuing from the new
      folder is the same as continuing from its parent. */
  lemma ChainStepNew(cur: Node, addr: Address, tag: string, segs: seq<string>, sub: Node)
    requires ValidAddress(cur, addr) && |segs| > 0
    requires FindChild(At(cur, addr).children, tag, Some(segs[0])).None?
    ensures var next := AppendAt(cur, addr, Folder(tag, segs[0]));
      var n := |At(cur, addr).children|;
      ValidAddress(next, addr + [n]) &&
      UpdateAt(next, addr + [n], Chain(At(next, addr + [n]), tag, segs[1..], sub)) ==
      UpdateAt(cur, addr, Chain(At(cur, addr), tag, segs, sub))
  {
    var folder := At(cur, addr);
    var n := |folder.children|;
    var grown := folder.(children := folder.children + [Folder(tag, segs[0])]);
    var next := AppendAt(cur, addr, Folder(tag, segs[0]));
    assert next == UpdateAt(cur, addr, grown);
    var x := Chain(Folder(tag, segs[0]), tag, segs[1..], sub);
    AtExtend(next, addr, n);
    UpdateAtChild(next, addr, n, x);
    assert grown.(children := grown.children[n := x]) == folder.(children := folder.children + [x]);
    UpdateTwice(cur, addr, grown, folder.(children := folder.children + [x]));
  }

  /** Every `part` element of the module documents, module after module, each
      module's parts in document order. */
  function ModuleParts(modules: seq<Node>): seq<Node>
    decreases |modules|
  {
    if |modules| == 0 then [] else ModuleParts(modules[..|modules| - 1]) + Iter(modules[|modules| - 1], "part")
  }

  /** The project after grafting `parts` in turn; `None` once one crashes. */
  function GraftEach(root: Node, parts: seq<Node>): Option<Node>
    decreases |parts|
  {
    if |parts| == 0 then Some(root)
    else match GraftEach(root, parts[..|parts| - 1])
      case None => None
      case Some(prev) => GraftSpec(prev, parts[|parts| - 1])
  }

  /** Grafting `xs + ys` is grafting `xs`, then `ys` into the result. */
  lemma {:induction false} GraftEachConcat(root: Node, xs: seq<Node>, ys: seq<Node>)
    ensures GraftEach(root, xs + ys) == match GraftEach(root, xs)
      case None => None
      case Some(mid) => GraftEach(mid, ys)
    decreases |ys|
  {
    if |ys| == 0 {
      assert xs + ys == xs;
    } else {
      GraftEachConcat(root, xs, ys[..|ys| - 1]);
      assert (xs + ys)[..|xs + ys| - 1] == xs + ys[..|ys| - 1];
    }
  }

  /** The inner loop of gmcollage.py:313-328: the parts of one module in turn. */
  method GraftParts(root: Node, parts: seq<Node>) returns (r: Option<Node>)
    ensures r == GraftEach(root, parts)
  {
    var cur := root;
    var k := 0;
    while k < |parts|
      invariant 0 <= k <= |parts|
      invariant GraftEach(root, parts[..k]) == Some(cur)
    {
      GraftEachStep(root, parts, k, cur);
      var next := GraftPart(cur, parts[k]);
      if next.None? {
        GraftCrashStops(root, parts, k + 1);
        return None;
      }
      cur := next.value;
      k := k + 1;
    }
    assert parts[..k] == parts;
    r := Some(cur);
  }

  lemma GraftEachStep(root: Node, parts: seq<Node>, k: nat, cur: Node)
    requires k < |parts| && GraftEach(root, parts[..k]) == Some(cur)
    ensures GraftEach(root, parts[..k + 1]) == GraftSpec(cur, parts[k])
  {
    assert parts[..k + 1][..k] == parts[..k];
  }

  /** A crash among the first `k` parts is the outcome of the whole graft. */
  lemma {:induction false} GraftCrashStops(root: Node, parts: seq<Node>, k: nat)
    requires k <= |parts| && GraftEach(root, parts[..k]).None?
    ensures GraftEach(root, parts).None?
    decreases |parts| - k
  {
    if k == |parts| {
      assert parts[..k] == parts;
    } else {
      assert parts[..k + 1][..k] == parts[..k];
      GraftCrashStops(root, parts, k + 1);
    }
  }

  /** The loops of gmcollage.py:311-328 over every module and every part. */
  method GraftModules(root: Node, modules: seq<Node>) returns (r: Option<Node>)
    ensures r == GraftEach(root, ModuleParts(modules))
  {
    var cur := root;
    var m := 0;
    while m < |modules|
      invariant 0 <= m <= |modules|
      invariant GraftEach(root, ModuleParts(modules[..m])) == Some(cur)
    {
      var parts := Iter(modules[m], "part");
      var next := GraftParts(cur, parts);
      ModulePartsStep(modules, m);
      GraftEachConcat(root, ModuleParts(modules[..m]), parts);
      if next.None? {
        CrashInModulePrefix(root, modules, m + 1);
        return None;
      }
      cur := next.value;
      m := m + 1;
    }
    assert modules[..m] == modules;
    r := Some(cur);
  }

  lemma ModulePartsStep(modules: seq<Node>, m: nat)
    requires m < |modules|
    ensures ModuleParts(modules[..m + 1]) == ModuleParts(modules[..m]) + Iter(modules[m], "part")
  {
    assert modules[..m + 1][..m] == modules[..m];
  }

  /** A crash while grafting the first `m` modules is the outcome of the whole
      graft. */
  lemma CrashInModulePrefix(root: Node, modules: seq<Node>, m: nat)
    requires m <= |modules|
    requires GraftEach(root, ModuleParts(modules[..m])).None?
    ensures GraftEach(root, ModuleParts(modules)).None?
  {
    var upTo := ModuleParts(modules[..m]);
    ModulePartsPrefix(modules, m);
    var all := ModuleParts(modules);
    assert all == upTo + all[|upTo|..];
    GraftEachConcat(root, upTo, all[|upTo|..]);
  }

  /** The parts of the first `m` modules are a prefix of all the parts. */
  lemma {:induction false} ModulePartsPrefix(modules: seq<Node>, m: nat)
    requires m <= |modules|
    ensures |ModuleParts(modules[..m])| <= |ModuleParts(modules)|
    ensures ModuleParts(modules)[..|ModuleParts(modules[..m])|] == ModuleParts(modules[..m])
    decreases |modules| - m
  {
    if m == |modules| {
      assert modules[..m] == modules;
    } else {
      ModulePartsPrefix(modules, m + 1);
      assert modules[..m + 1][..m] == modules[..m];
    }
  }

  // ---------------------------------------------------------------------
  // What a graft does
  // ---------------------------------------------------------------------

  /** The walk changes one folder level at a time: below `n` at most one
      child changes, the first folder named by the first segment, and at most
      one is appended, the subtree itself or a folder created for the first
      segment. */
  lemma ChainFrame(n: Node, tag: string, segs: seq<string>, sub: Node)
    ensures var r := Chain(n, tag, segs, sub);
      |n.children| <= |r.children| <= |n.children| + 1 &&
      (forall j :: 0 <= j < |n.children| && r.children[j] != n.children[j] ==>
        |segs| > 0 && FindChild(n.children, tag, Some(segs[0])) == Some(j)) &&
      (|r.children| == |n.children| + 1 <==> |segs| == 0 || FindChild(n.children, tag, Some(segs[0])).None?) &&
      (|segs| == 0 ==> r.children[|n.children|] == sub) &&
      (|segs| > 0 && |r.children| == |n.children| + 1 ==> Matches(r.children[|n.children|], tag, Some(segs[0])))
  {
    if |segs| > 0 && FindChild(n.children, tag, Some(segs[0])).None? {
      var f := Chain(Folder(tag, segs[0]), tag, segs[1..], sub);
      assert f.tag == tag && f.attrs == map["name" := segs[0]];
    }
  }

  /** The segments resolve below `r`, folder by folder, to a folder whose
      last child is `sub`. */
  predicate ResolvesToLastChild(r: Node, tag: string, segs: seq<string>, sub: Node) {
    Descend(r, tag, segs).Some? &&
    var a := Descend(r, tag, segs).value;
    |At(r, a).children| > 0 && At(r, a).children[|At(r, a).children| - 1] == sub
  }

  /** Resolving through the child the first segment finds. */
  lemma ResolvesThrough(r: Node, tag: string, segs: seq<string>, sub: Node, i: nat)
    requires |segs| > 0 && FindChild(r.children, tag, Some(segs[0])) == Some(i)
    requires ResolvesToLastChild(r.children[i], tag, segs[1..], sub)
    ensures ResolvesToLastChild(r, tag, segs, sub)
  {
    DescendCons(r, tag, segs, i);
    AtCons(r, i, Descend(r.children[i], tag, segs[1..]).value);
  }

  /** After the walk the path of segments resolves, folder by folder, to a
      folder whose last child is the grafted subtree. */
  lemma {:induction false} ChainResolves(n: Node, tag: string, segs: seq<string>, sub: Node)
    ensures ResolvesToLastChild(Chain(n, tag, segs, sub), tag, segs, sub)
    decreases |segs|
  {
    var r := Chain(n, tag, segs, sub);
    if |segs| > 0 {
      var s := Some(segs[0]);
      match FindChild(n.children, tag, s)
      case Some(i) =>
        ChainResolves(n.children[i], tag, segs[1..], sub);
        FindChildSameMatches(n.children, r.children, tag, s);
        assert r.children[i] == Chain(n.children[i], tag, segs[1..], sub);
        ResolvesThrough(r, tag, segs, sub, i);
      case None =>
        ChainResolves(Folder(tag, segs[0]), tag, segs[1..], sub);
        var m := |n.children|;
        assert r.children[m] == Chain(Folder(tag, segs[0]), tag, segs[1..], sub);
        assert Matches(r.children[m], tag, s);
        assert FindChild(r.children, tag, s) == Some(m);
        ResolvesThrough(r, tag, segs, sub, m);
    } else {
      assert Descend(r, tag, segs) == Some([]);
    }
  }

  /** When the folders already exist the walk creates none: the path resolves
      to the same folder as before, which has gained the subtree as its last
      child and is otherwise unchanged. */
  lemma {:induction false} ChainReuses(n: Node, tag: string, segs: seq<string>, sub: Node)
    requires Descend(n, tag, segs).Some?
    ensures var r := Chain(n, tag, segs, sub); var a := Descend(n, tag, segs).value;
      Descend(r, tag, segs) == Some(a) && ValidAddress(r, a) &&
      At(r, a) == At(n, a).(children := At(n, a).children + [sub])
    decreases |segs|
  {
    var r := Chain(n, tag, segs, sub);
    if |segs| > 0 {
      var s := Some(segs[0]);
      var i := FindChild(n.children, tag, s).value;
      var a := Descend(n.children[i], tag, segs[1..]).value;
      ChainReuses(n.children[i], tag, segs[1..], sub);
      FindChildSameMatches(n.children, r.children, tag, s);
      assert ([i] + a)[0] == i && ([i] + a)[1..] == a;
    }
  }

  /** A graft that does not crash leaves every root child but the kind's
      folder as it was, and resolves the part's parent path below that folder
      to a folder whose last child is the part's first child. The path is
      walked only when its parent segments join to something non-empty;
      otherwise the subtree goes straight into the kind's folder. */
  lemma GraftPlaces(root: Node, part: Node)
    requires GraftSpec(root, part).Some?
    ensures "resource_type" in part.attrs && "resource_path" in part.attrs && |part.children| > 0
    ensures var r := GraftSpec(root, part).value; var rt := part.attrs["resource_type"];
      FindChild(root.children, rt, None).Some? &&
      var k := FindChild(root.children, rt, None).value;
      var segs := GraftChain(part.attrs["resource_path"]);
      r.tag == root.tag && r.attrs == root.attrs && |r.children| == |root.children| &&
      (forall j :: 0 <= j < |root.children| && j != k ==> r.children[j] == root.children[j]) &&
      r.children[k].tag == root.children[k].tag && r.children[k].attrs == root.children[k].attrs &&
      (segs == [] <==> Join(ParentSegments(part.attrs["resource_path"]), "/") == "") &&
      ResolvesToLastChild(r.children[k], rt, segs, part.children[0])
  {
    var rt := part.attrs["resource_type"];
    var k := FindChild(root.children, rt, None).value;
    var path := part.attrs["resource_path"];
    var c := Chain(root.children[k], rt, GraftChain(path), part.children[0]);
    assert GraftSpec(root, part).value == root.(children := root.children[k := c]);
    ChainResolves(root.children[k], rt, GraftChain(path), part.children[0]);
    if Join(ParentSegments(path), "/") != "" {
      JoinNonEmpty(ParentSegments(path));
    }
  }

  lemma JoinNonEmpty(segs: seq<string>)
    requires Join(segs, "/") != ""
    ensures segs != []
  {
  }

  // ---------------------------------------------------------------------
  // Asset files back into the project (gmcollage.py:336-340)
  // ---------------------------------------------------------------------

  /** The moves for the files `files` listed in `srcDir`: each keeps its name
      and goes to `dstDir`. */
  function FileMoves(srcDir: string, dstDir: string, files: seq<string>): (r: seq<Move>)
    ensures |r| == |files|
    ensures forall i :: 0 <= i < |files| ==> r[i] == Move(srcDir + "/" + files[i], dstDir + "/" + files[i])
  {
    seq(|files|, i requires 0 <= i < |files| => Move(srcDir + "/" + files[i], dstDir + "/" + files[i]))
  }

  /** The moves out of one module directory `dir` for the kinds `kinds` in
      turn, and whether all of them could be listed. `listing` maps a
      directory to its entries as `os.listdir` returns them; a directory it
      lacks makes `os.listdir` raise, which ends the run after the moves made
      so far. */
  function DirMoves(dir: string, listing: map<string, seq<string>>, gmxDir: string, kinds: seq<Kind>): (seq<Move>, bool)
    decreases |kinds|
  {
    if |kinds| == 0 then ([], true)
    else
      var prev := DirMoves(dir, listing, gmxDir, kinds[..|kinds| - 1]);
      var sp := kinds[|kinds| - 1].StoragePath();
      if !prev.1 then prev
      else if dir + "/" + sp !in listing then (prev.0, false)
      else (prev.0 + FileMoves(dir + "/" + sp, gmxDir + "/" + sp, listing[dir + "/" + sp]), true)
  }

  /** gmcollage.py:336-340 AS WRITTEN: only the first module directory is
      emptied (`module_dirs[0]`), and with no module directory at all the
      index raises before any move. */
  function MovesBackAsWritten(dirs: seq<string>, listing: map<string, seq<string>>, gmxDir: string): (seq<Move>, bool) {
    if |dirs| == 0 then ([], false) else DirMoves(dirs[0], listing, gmxDir, AllKinds)
  }

  /** gmcollage.py:336-340 as evidently intended: every module directory in
      turn. */
  function MovesBack(dirs: seq<string>, listing: map<string, seq<string>>, gmxDir: string, kinds: seq<Kind>): (seq<Move>, bool)
    decreases |dirs|
  {
    if |dirs| == 0 then ([], true)
    else
      var prev := MovesBack(dirs[..|dirs| - 1], listing, gmxDir, kinds);
      if !prev.1 then prev
      else
        var last := DirMoves(dirs[|dirs| - 1], listing, gmxDir, kinds);
        (prev.0 + last.0, last.1)
  }

  /** The move loop for one module directory. */
  method MoveDirBack(dir: string, listing: map<string, seq<string>>, gmxDir: string) returns (moves: seq<Move>, complete: bool)
    ensures (moves, complete) == DirMoves(dir, listing, gmxDir, AllKinds)
  {
    moves := [];
    var t := 0;
    while t < |AllKinds|
      invariant 0 <= t <= |AllKinds|
      invariant DirMoves(dir, listing, gmxDir, AllKinds[..t]) == (moves, true)
    {
      var resourcePath := AllKinds[t].StoragePath();
      var here := dir + "/" + resourcePath;
      DirMovesStep(dir, listing, gmxDir, AllKinds, t);
      if here !in listing {
        DirMovesStop(dir, listing, gmxDir, AllKinds, t + 1);
        return moves, false;
      }
      moves := MoveFiles(moves, here, gmxDir + "/" + resourcePath, listing[here]);
      t := t + 1;
    }
    assert AllKinds[..t] == AllKinds;
    complete := true;
  }

  /** One more kind: its directory is listed and its files are moved, or the
      listing fails and the run stops. */
  lemma DirMovesStep(dir: string, listing: map<string, seq<string>>, gmxDir: string, kinds: seq<Kind>, t: nat)
    requires t < |kinds| && DirMoves(dir, listing, gmxDir, kinds[..t]).1
    ensures var sp := kinds[t].StoragePath(); var prev := DirMoves(dir, listing, gmxDir, kinds[..t]).0;
      DirMoves(dir, listing, gmxDir, kinds[..t + 1]) ==
        if dir + "/" + sp in listing then (prev + FileMoves(dir + "/" + sp, gmxDir + "/" + sp, listing[dir + "/" + sp]), true)
        else (prev, false)
  {
    assert kinds[..t + 1][..t] == kinds[..t];
  }

  /** The file loop of gmcollage.py:338-340 for one storage directory. */
  method MoveFiles(acc: seq<Move>, srcDir: string, dstDir: string, files: seq<string>) returns (r: seq<Move>)
    ensures r == acc + FileMoves(srcDir, dstDir, files)
  {
    r := acc;
    var f := 0;
    while f < |files|
      invariant 0 <= f <= |files|
      invariant r == acc + FileMoves(srcDir, dstDir, files[..f])
    {
      FileMovesSnoc(srcDir, dstDir, files, f);
      r := r + [Move(srcDir + "/" + files[f], dstDir + "/" + files[f])];
      f := f + 1;
    }
    assert files[..f] == files;
  }

  lemma FileMovesSnoc(srcDir: string, dstDir: string, files: seq<string>, f: nat)
    requires f < |files|
    ensures FileMoves(srcDir, dstDir, files[..f + 1]) ==
      FileMoves(srcDir, dstDir, files[..f]) + [Move(srcDir + "/" + files[f], dstDir + "/" + files[f])]
  {
    var a := FileMoves(srcDir, dstDir, files[..f + 1]);
    var b := FileMoves(srcDir, dstDir, files[..f]) + [Move(srcDir + "/" + files[f], dstDir + "/" + files[f])];
    assert forall i :: 0 <= i < |a| ==> a[i] == b[i];
  }

  /** A failed listing is final for the rest of the kinds. */
  lemma {:induction false} DirMovesStop(dir: string, listing: map<string, seq<string>>, gmxDir: string, kinds: seq<Kind>, t: nat)
    requires t <= |kinds|
    requires !DirMoves(dir, listing, gmxDir, kinds[..t]).1
    ensures DirMoves(dir, listing, gmxDir, kinds) == DirMoves(dir, listing, gmxDir, kinds[..t])
    decreases |kinds| - t
  {
    if t == |kinds| {
      assert kinds[..t] == kinds;
    } else {
      assert kinds[..t + 1][..t] == kinds[..t];
      DirMovesStop(dir, listing, gmxDir, kinds, t + 1);
    }
  }

  /** The move loops over every module directory. */
  method MoveBack(dirs: seq<string>, listing: map<string, seq<string>>, gmxDir: string) returns (moves: seq<Move>, complete: bool)
    ensures (moves, complete) == MovesBack(dirs, listing, gmxDir, AllKinds)
  {
    moves := [];
    var d := 0;
    while d < |dirs|
      invariant 0 <= d <= |dirs|
      invariant MovesBack(dirs[..d], listing, gmxDir, AllKinds) == (moves, true)
    {
      assert dirs[..d + 1][..d] == dirs[..d];
      var dirMoves, ok := MoveDirBack(dirs[d], listing, gmxDir);
      moves := moves + dirMoves;
      if !ok {
        MovesBackStop(dirs, listing, gmxDir, AllKinds, d + 1);
        return moves, false;
      }
      d := d + 1;
    }
    assert dirs[..d] == dirs;
    complete := true;
  }

  lemma {:induction false} MovesBackStop(dirs: seq<string>, listing: map<string, seq<string>>, gmxDir: string, kinds: seq<Kind>, d: nat)
    requires d <= |dirs|
    requires !MovesBack(dirs[..d], listing, gmxDir, kinds).1
    ensures MovesBack(dirs, listing, gmxDir, kinds) == MovesBack(dirs[..d], listing, gmxDir, kinds)
    decreases |dirs| - d
  {
    if d == |dirs| {
      assert dirs[..d] == dirs;
    } else {
      assert dirs[..d + 1][..d] == dirs[..d];
      MovesBackStop(dirs, listing, gmxDir, kinds, d + 1);
    }
  }

  /** The moves of one listed directory keep each file's path below the
      module directory and the project directory. */
  lemma FileMovesRelocate(dir: string, sp: string, gmxDir: string, files: seq<string>)
    ensures forall mv :: mv in FileMoves(dir + "/" + sp, gmxDir + "/" + sp, files) ==> Relocates(mv, dir + "/", gmxDir + "/")
  {
    var added := FileMoves(dir + "/" + sp, gmxDir + "/" + sp, files);
    forall mv | mv in added ensures Relocates(mv, dir + "/", gmxDir + "/") {
      var i :| 0 <= i < |files| && added[i] == mv;
      assert mv.src == (dir + "/") + (sp + "/" + files[i]);
      assert mv.dst == (gmxDir + "/") + (sp + "/" + files[i]);
    }
  }

  /** Every move takes a file from a directory of `dir` to the directory of
      the same name in the project, under the same relative path. */
  lemma {:induction false} DirMovesRelocate(dir: string, listing: map<string, seq<string>>, gmxDir: string, kinds: seq<Kind>)
    ensures forall mv :: mv in DirMoves(dir, listing, gmxDir, kinds).0 ==> Relocates(mv, dir + "/", gmxDir + "/")
    decreases |kinds|
  {
    if |kinds| > 0 {
      var init := kinds[..|kinds| - 1];
      var sp := kinds[|kinds| - 1].StoragePath();
      DirMovesRelocate(dir, listing, gmxDir, init);
      var prev := DirMoves(dir, listing, gmxDir, init);
      if prev.1 && dir + "/" + sp in listing {
        FileMovesRelocate(dir, sp, gmxDir, listing[dir + "/" + sp]);
      }
    }
  }

  /** Every kind of `kinds` has a listable directory below `dir`. */
  predicate Listable(dir: string, listing: map<string, seq<string>>, kinds: seq<Kind>) {
    forall k :: k in kinds ==> dir + "/" + k.StoragePath() in listing
  }

  /** The run gets through all kinds exactly when every kind's directory can
      be listed. */
  lemma {:induction false} DirMovesComplete(dir: string, listing: map<string, seq<string>>, gmxDir: string, kinds: seq<Kind>)
    ensures DirMoves(dir, listing, gmxDir, kinds).1 <==> Listable(dir, listing, kinds)
    decreases |kinds|
  {
    if |kinds| > 0 {
      var init := kinds[..|kinds| - 1];
      var last := kinds[|kinds| - 1];
      DirMovesComplete(dir, listing, gmxDir, init);
      assert kinds == init + [last];
      if !DirMoves(dir, listing, gmxDir, init).1 {
        var k :| k in init && dir + "/" + k.StoragePath() !in listing;
        assert k in kinds;
      }
    }
  }

  /** When the run gets through, every listed file is moved. */
  lemma {:induction false} DirMovesAll(dir: string, listing: map<string, seq<string>>, gmxDir: string, kinds: seq<Kind>)
    requires DirMoves(dir, listing, gmxDir, kinds).1
    ensures forall k, f :: k in kinds && dir + "/" + k.StoragePath() in listing && f in listing[dir + "/" + k.StoragePath()] ==>
      Move(dir + "/" + k.StoragePath() + "/" + f, gmxDir + "/" + k.StoragePath() + "/" + f) in DirMoves(dir, listing, gmxDir, kinds).0
    decreases |kinds|
  {
    DirMovesComplete(dir, listing, gmxDir, kinds);
    if |kinds| > 0 {
      var init := kinds[..|kinds| - 1];
      var last := kinds[|kinds| - 1];
      var prev := DirMoves(dir, listing, gmxDir, init);
      assert prev.1;
      DirMovesAll(dir, listing, gmxDir, init);
      assert kinds == init + [last];
      var sp := last.StoragePath();
      var files := listing[dir + "/" + sp];
      var added := FileMoves(dir + "/" + sp, gmxDir + "/" + sp, files);
      assert DirMoves(dir, listing, gmxDir, kinds) == (prev.0 + added, true);
      forall k, f | k in kinds && dir + "/" + k.StoragePath() in listing && f in listing[dir + "/" + k.StoragePath()]
        ensures Move(dir + "/" + k.StoragePath() + "/" + f, gmxDir + "/" + k.StoragePath() + "/" + f) in prev.0 + added
      {
        if k != last {
          assert k in init;
        } else {
          var i :| 0 <= i < |files| && files[i] == f;
          assert added[i] == Move(dir + "/" + sp + "/" + f, gmxDir + "/" + sp + "/" + f);
        }
      }
    }
  }

  /** With two module directories, where the second is not inside the first
      and has a sprite file: as written that file is never moved; with every
      directory handled it is. */
  lemma SecondModuleFilesStay(dirs: seq<string>, listing: map<string, seq<string>>, gmxDir: string, f: string)
    requires |dirs| == 2
    requires forall k :: k in AllKinds ==> dirs[0] + "/" + k.StoragePath() in listing && dirs[1] + "/" + k.StoragePath() in listing
    requires dirs[1] + "/sprites" in listing && f in listing[dirs[1] + "/sprites"]
    requires !StartsWith(dirs[1] + "/sprites/" + f, dirs[0] + "/")
    ensures Move(dirs[1] + "/sprites/" + f, gmxDir + "/sprites/" + f) !in MovesBackAsWritten(dirs, listing, gmxDir).0
    ensures MovesBack(dirs, listing, gmxDir, AllKinds).1
    ensures Move(dirs[1] + "/sprites/" + f, gmxDir + "/sprites/" + f) in MovesBack(dirs, listing, gmxDir, AllKinds).0
  {
    var mv := Move(dirs[1] + "/sprites/" + f, gmxDir + "/sprites/" + f);
    DirMovesRelocate(dirs[0], listing, gmxDir, AllKinds);
    DirMovesComplete(dirs[0], listing, gmxDir, AllKinds);
    DirMovesComplete(dirs[1], listing, gmxDir, AllKinds);
    DirMovesAll(dirs[1], listing, gmxDir, AllKinds);
    assert Sprites in AllKinds && Sprites.StoragePath() == "sprites";
    assert dirs[1] + "/" + "sprites" + "/" + f == dirs[1] + "/sprites/" + f;
    assert gmxDir + "/" + "sprites" + "/" + f == gmxDir + "/sprites/" + f;
    assert dirs[..1][..0] == dirs[..0] && |dirs[..0]| == 0 && dirs[..1][0] == dirs[0];
    assert MovesBack(dirs[..0], listing, gmxDir, AllKinds) == ([], true);
    assert MovesBack(dirs[..1], listing, gmxDir, AllKinds).0 == [] + DirMoves(dirs[0], listing, gmxDir, AllKinds).0;
    var second := DirMoves(dirs[1], listing, gmxDir, AllKinds);
    assert dirs[1] + "/" + Sprites.StoragePath() == dirs[1] + "/sprites";
    assert f in listing[dirs[1] + "/" + Sprites.StoragePath()];
    assert mv in second.0;
    assert MovesBack(dirs, listing, gmxDir, AllKinds).0 == MovesBack(dirs[..1], listing, gmxDir, AllKinds).0 + second.0;
  }

  /** `mv` takes a file from below one of the module directories `dirs` to
      the same place below the project directory. */
  predicate FromSomeModule(mv: Move, dirs: seq<string>, gmxDir: string) {
    exists i :: 0 <= i < |dirs| && Relocates(mv, dirs[i] + "/", gmxDir + "/")
  }

  /** Every module directory has a listable directory for every kind. */
  predicate AllListable(dirs: seq<string>, listing: map<string, seq<string>>, kinds: seq<Kind>) {
    forall i :: 0 <= i < |dirs| ==> Listable(dirs[i], listing, kinds)
  }

  /** Every listed file of every module directory is among `moves`. */
  predicate AllMoved(dirs: seq<string>, listing: map<string, seq<string>>, gmxDir: string, kinds: seq<Kind>, moves: seq<Move>)
    requires AllListable(dirs, listing, kinds)
  {
    forall i, k, f :: 0 <= i < |dirs| && k in kinds && f in listing[dirs[i] + "/" + k.StoragePath()] ==>
      Move(dirs[i] + "/" + k.StoragePath() + "/" + f, gmxDir + "/" + k.StoragePath() + "/" + f) in moves
  }

  /** Over all module directories: every move keeps a file's path below its
      module directory and the project directory. */
  lemma {:induction false} MovesBackRelocate(dirs: seq<string>, listing: map<string, seq<string>>, gmxDir: string, kinds: seq<Kind>)
    ensures forall mv :: mv in MovesBack(dirs, listing, gmxDir, kinds).0 ==> FromSomeModule(mv, dirs, gmxDir)
    decreases |dirs|
  {
    if |dirs| > 0 {
      var init := dirs[..|dirs| - 1];
      MovesBackRelocate(init, listing, gmxDir, kinds);
      DirMovesRelocate(dirs[|dirs| - 1], listing, gmxDir, kinds);
      forall mv | mv in MovesBack(dirs, listing, gmxDir, kinds).0 ensures FromSomeModule(mv, dirs, gmxDir) {
        if mv in MovesBack(init, listing, gmxDir, kinds).0 {
          var i :| 0 <= i < |init| && Relocates(mv, init[i] + "/", gmxDir + "/");
          assert init[i] == dirs[i];
        } else {
          assert Relocates(mv, dirs[|dirs| - 1] + "/", gmxDir + "/");
        }
      }
    }
  }

  /** The run gets through exactly when every module has a listable directory
      for every kind. */
  lemma {:induction false} MovesBackComplete(dirs: seq<string>, listing: map<string, seq<string>>, gmxDir: string, kinds: seq<Kind>)
    ensures MovesBack(dirs, listing, gmxDir, kinds).1 <==> AllListable(dirs, listing, kinds)
    decreases |dirs|
  {
    if |dirs| > 0 {
      var init := dirs[..|dirs| - 1];
      var d := dirs[|dirs| - 1];
      MovesBackComplete(init, listing, gmxDir, kinds);
      DirMovesComplete(d, listing, gmxDir, kinds);
      var prev := MovesBack(init, listing, gmxDir, kinds);
      var last := DirMoves(d, listing, gmxDir, kinds);
      if !prev.1 {
        assert MovesBack(dirs, listing, gmxDir, kinds) == prev;
        var i :| 0 <= i < |init| && !Listable(init[i], listing, kinds);
        assert dirs[i] == init[i];
      } else {
        assert MovesBack(dirs, listing, gmxDir, kinds).1 == last.1;
        assert dirs[|dirs| - 1] == d;
        if last.1 {
          forall i | 0 <= i < |dirs| ensures Listable(dirs[i], listing, kinds) {
            if i < |init| {
              assert dirs[i] == init[i];
            }
          }
        }
      }
    }
  }

  /** When the run gets through, every listed file is moved. */
  lemma {:induction false} MovesBackMovesAll(dirs: seq<string>, listing: map<string, seq<string>>, gmxDir: string, kinds: seq<Kind>)
    requires MovesBack(dirs, listing, gmxDir, kinds).1
    ensures AllListable(dirs, listing, kinds)
    ensures AllMoved(dirs, listing, gmxDir, kinds, MovesBack(dirs, listing, gmxDir, kinds).0)
    decreases |dirs|
  {
    MovesBackComplete(dirs, listing, gmxDir, kinds);
    if |dirs| > 0 {
      var init := dirs[..|dirs| - 1];
      var d := dirs[|dirs| - 1];
      var prev := MovesBack(init, listing, gmxDir, kinds);
      assert prev.1;
      MovesBackMovesAll(init, listing, gmxDir, kinds);
      var last := DirMoves(d, listing, gmxDir, kinds);
      DirMovesAll(d, listing, gmxDir, kinds);
      var moves := MovesBack(dirs, listing, gmxDir, kinds).0;
      assert moves == prev.0 + last.0;
      forall i, k, f | 0 <= i < |dirs| && k in kinds && f in listing[dirs[i] + "/" + k.StoragePath()]
        ensures Move(dirs[i] + "/" + k.StoragePath() + "/" + f, gmxDir + "/" + k.StoragePath() + "/" + f) in moves
      {
        if i < |init| {
          assert init[i] == dirs[i];
          assert Move(init[i] + "/" + k.StoragePath() + "/" + f, gmxDir + "/" + k.StoragePath() + "/" + f) in prev.0;
        } else {
          assert dirs[i] == d;
        }
      }
    }
  }

  /** Grafting keeps the project root's children in place, each with its tag
      and attributes; only what lies below a kind's folder changes. */
  lemma {:induction false} GraftEachKeepsRoots(root: Node, parts: seq<Node>)
    requires GraftEach(root, parts).Some?
    ensures var r := GraftEach(root, parts).value;
      r.tag == root.tag && r.attrs == root.attrs && |r.children| == |root.children| &&
      forall j :: 0 <= j < |root.children| ==> r.children[j].tag == root.children[j].tag && r.children[j].attrs == root.children[j].attrs
    decreases |parts|
  {
    if |parts| > 0 {
      var prev := GraftEach(root, parts[..|parts| - 1]);
      GraftEachKeepsRoots(root, parts[..|parts| - 1]);
      GraftPlaces(prev.value, parts[|parts| - 1]);
    }
  }

  /** Hence after the graft every root child a path step finds is still found. */
  lemma KindRootsSurviveGraft(root: Node, parts: seq<Node>, tag: string)
    requires GraftEach(root, parts).Some?
    ensures FindChild(GraftEach(root, parts).value.children, tag, None) == FindChild(root.children, tag, None)
  {
    GraftEachKeepsRoots(root, parts);
    FindChildSameMatches(root.children, GraftEach(root, parts).value.children, tag, None);
  }
}
