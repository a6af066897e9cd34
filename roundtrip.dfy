/** Extraction followed by merge: a folder that the "out" direction takes
    out of the project (gmcollage.py:229-247) and wraps in a `part` element,
    grafted back by the "in" direction (gmcollage.py:311-328), is found again
    under the same path. */
module RoundTrip {
  import opened Wrappers
  import opened PathStrings
  import opened Tree
  import opened Parts
  import opened Extraction
  import opened Merge

  /** The node at `a` is the only child of its parent with tag `tag` and
      name `name`. */
  predicate OnlyMatch(n: Node, a: Address, tag: string, name: string)
  {
    ValidAddress(n, a) && |a| > 0 && ValidAddress(n, a[..|a| - 1]) &&
    var p := At(n, a[..|a| - 1]);
    forall j :: 0 <= j < |p.children| && j != a[|a| - 1] ==> !Matches(p.children[j], tag, Some(name))
  }

  /** Detaching a node keeps the tag, attributes and text of every node
      above it: of the root, and of the node at each proper prefix `a[..t]`. */
  lemma DetachKeepsLabel(n: Node, a: Address, t: nat)
    requires ValidAddress(n, a) && t < |a|
    ensures Detach(n, a).tag == n.tag && Detach(n, a).attrs == n.attrs
    ensures ValidAddress(n, a[..t]) && ValidAddress(Detach(n, a), a[..t])
    ensures var p := At(n, a[..t]); var q := At(Detach(n, a), a[..t]);
      q.tag == p.tag && q.attrs == p.attrs && q.text == p.text
  {
    ParentValid(n, a);
    var p := a[..|a| - 1];
    var i := a[|a| - 1];
    var q := At(n, p);
    assert Detach(n, a) == UpdateAt(n, p, q.(children := q.children[..i] + q.children[i + 1..]));
    if t < |p| {
      UpdateAtFrame(n, p, q.(children := q.children[..i] + q.children[i + 1..]), t);
      assert p[..t] == a[..t];
    } else {
      assert p == a[..t];
    }
  }

  /** Detaching at a top-level position removes that child. */
  lemma DetachTop(n: Node, i: nat)
    requires i < |n.children|
    ensures ValidAddress(n, [i])
    ensures Detach(n, [i]) == n.(children := n.children[..i] + n.children[i + 1..])
  {
    assert [i][1..] == [] && [i][..0] == [];
  }

  /** Detaching deeper down replaces one child of the root by the same child
      with the node detached from it. */
  lemma DetachDeeper(n: Node, a: Address)
    requires ValidAddress(n, a) && |a| > 1
    ensures a[0] < |n.children| && ValidAddress(n.children[a[0]], a[1..])
    ensures Detach(n, a) == n.(children := n.children[a[0] := Detach(n.children[a[0]], a[1..])])
  {
    var p := a[..|a| - 1];
    var b := a[1..];
    assert p[0] == a[0] && p[1..] == b[..|b| - 1] && b[|b| - 1] == a[|a| - 1];
    ParentValid(n, a);
    ParentValid(n.children[a[0]], b);
  }

  /** Uniqueness of a match carries over to the child the address enters. */
  lemma OnlyMatchBelow(n: Node, a: Address, tag: string, name: string)
    requires OnlyMatch(n, a, tag, name) && |a| > 1
    ensures a[0] < |n.children| && OnlyMatch(n.children[a[0]], a[1..], tag, name)
  {
    var b := a[1..];
    var pre := a[..|a| - 1];
    assert pre[0] == a[0] && pre[1..] == b[..|b| - 1];
    assert b[|b| - 1] == a[|a| - 1];
    assert ValidAddress(n.children[a[0]], b[..|b| - 1]);
    assert At(n, pre) == At(n.children[a[0]], b[..|b| - 1]);
  }

  /** Replacing one child by a node with the same tag and attributes does not
      change which child a path step finds. */
  lemma FindChildAfterRelabel(cs: seq<Node>, i: nat, x: Node, tag: string, name: Option<string>)
    requires i < |cs| && x.tag == cs[i].tag && x.attrs == cs[i].attrs
    ensures FindChild(cs[i := x], tag, name) == FindChild(cs, tag, name)
  {
    FindChildSameMatches(cs, cs[i := x], tag, name);
  }

  /** The heart of the round trip, one folder level at a time: after the node
      at `a` is detached and grafted back along `parents`, the walk over
      `parents + [last]` ends at it again. */
  lemma {:induction false} ReGraftChain(n: Node, tag: string, parents: seq<string>, last: string, a: Address)
    requires Descend(n, tag, parents + [last]) == Some(a)
    requires OnlyMatch(n, a, tag, last)
    ensures var r := Chain(Detach(n, a), tag, parents, At(n, a));
      Descend(r, tag, parents + [last]).Some? && At(r, Descend(r, tag, parents + [last]).value) == At(n, a)
    decreases |parents|
  {
    var segs := parents + [last];
    var sub := At(n, a);
    var cs := n.children;
    var i := FindChild(cs, tag, Some(segs[0])).value;
    var a' := Descend(cs[i], tag, segs[1..]).value;
    assert a == [i] + a';
    assert a[0] == i && a[1..] == a';
    if |parents| == 0 {
      assert segs == [last] && a' == [];
      DetachTop(n, i);
      var rest := cs[..i] + cs[i + 1..];
      var r := Chain(Detach(n, a), tag, parents, sub);
      assert r.children == rest + [cs[i]];
      assert a[..|a| - 1] == [] && a[|a| - 1] == i;
      assert Matches(cs[i], tag, Some(last));
      forall j | 0 <= j < |rest| ensures !Matches(r.children[j], tag, Some(last)) {
        if j < i {
          assert r.children[j] == cs[j];
        } else {
          assert r.children[j] == cs[j + 1];
        }
      }
      assert r.children[|rest|] == cs[i] && |r.children| == |rest| + 1;
      assert FindChild(r.children, tag, Some(last)) == Some(|rest|);
      assert Descend(r, tag, segs) == Some([|rest|] + []);
    } else {
      assert segs[0] == parents[0] && segs[1..] == parents[1..] + [last];
      DetachDeeper(n, a);
      var d := Detach(cs[i], a');
      DetachKeepsLabel(cs[i], a', 0);
      var n' := n.(children := cs[i := d]);
      assert Detach(n, a) == n';
      FindChildAfterRelabel(cs, i, d, tag, Some(parents[0]));
      OnlyMatchBelow(n, a, tag, last);
      ReGraftChain(cs[i], tag, parents[1..], last, a');
      var c := Chain(d, tag, parents[1..], sub);
      var r := Chain(n', tag, parents, sub);
      assert r == n'.(children := n'.children[i := c]);
      assert r.children == cs[i := c];
      FindChildAfterRelabel(cs, i, c, tag, Some(parents[0]));
      var b' := Descend(c, tag, parents[1..] + [last]).value;
      assert Descend(r, tag, segs) == Some([i] + b');
      assert ([i] + b')[0] == i && ([i] + b')[1..] == b';
    }
  }

  /** Extract one part's folder and graft its `part` element back: the graft
      succeeds and the part's path resolves again, to the same folder. This
      holds when the folder is the only one of its name among its siblings
      (otherwise the path can resolve to the other one) and the parent path
      is empty or does not join to "" (a path such as "/x" is found through a
      folder named "" but grafted straight under the kind's folder). */
  lemma ExtractThenGraft(root: Node, p: ModulePart, a: Address)
    requires FindPart(root, p.resourceType, p.resourcePath) == Some(a)
    requires OnlyMatch(root, a, p.resourceType, Split(p.resourcePath, '/')[|Split(p.resourcePath, '/')| - 1])
    requires ParentSegments(p.resourcePath) == [] || Join(ParentSegments(p.resourcePath), "/") != ""
    ensures |a| > 0
    ensures var g := GraftSpec(Detach(root, a), Wrap(p, At(root, a)));
      g.Some? && FindPart(g.value, p.resourceType, p.resourcePath).Some? &&
      At(g.value, FindPart(g.value, p.resourceType, p.resourcePath).value) == At(root, a)
  {
    var k, path := p.resourceType, p.resourcePath;
    var segs := Split(path, '/');
    var last := segs[|segs| - 1];
    var parents := ParentSegments(path);
    assert segs == parents + [last];
    var folder := At(root, a);
    var cs := root.children;
    var ki := FindChild(cs, k, None).value;
    var a' := Descend(cs[ki], k, segs).value;
    assert a == [ki] + a';
    assert a[0] == ki && a[1..] == a';
    DetachDeeper(root, a);
    var d := Detach(cs[ki], a');
    DetachKeepsLabel(cs[ki], a', 0);
    var root' := root.(children := cs[ki := d]);
    FindChildAfterRelabel(cs, ki, d, k, None);
    OnlyMatchBelow(root, a, k, last);
    assert GraftChain(path) == parents;
    ReGraftChain(cs[ki], k, parents, last, a');
    var c := Chain(d, k, parents, folder);
    GraftWrapped(root', p, folder, ki);
    var g := root'.(children := root'.children[ki := c]);
    FindChildAfterRelabel(root'.children, ki, c, k, None);
    FindPartThrough(g, k, path, ki);
  }

  /** Grafting a wrapped folder runs the chain walk in the kind's root. */
  lemma GraftWrapped(root: Node, p: ModulePart, folder: Node, ki: nat)
    requires FindChild(root.children, p.resourceType, None) == Some(ki)
    ensures ki < |root.children|
    ensures GraftSpec(root, Wrap(p, folder)) ==
      Some(root.(children := root.children[ki := Chain(root.children[ki], p.resourceType, GraftChain(p.resourcePath), folder)]))
  {
    var w := Wrap(p, folder);
    assert w.attrs["resource_type"] == p.resourceType && w.attrs["resource_path"] == p.resourcePath;
    assert w.children[0] == folder;
  }

  /** A part path is found below the kind's root child when its segments are. */
  lemma FindPartThrough(g: Node, k: string, path: string, ki: nat)
    requires FindChild(g.children, k, None) == Some(ki)
    requires Descend(g.children[ki], k, Split(path, '/')).Some?
    ensures FindPart(g, k, path).Some?
    ensures At(g, FindPart(g, k, path).value) == At(g.children[ki], Descend(g.children[ki], k, Split(path, '/')).value)
  {
    var b := Descend(g.children[ki], k, Split(path, '/')).value;
    assert FindPart(g, k, path) == Some([ki] + b);
    assert ([ki] + b)[0] == ki && ([ki] + b)[1..] == b;
  }
}
