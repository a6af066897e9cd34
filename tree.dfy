/** The project and module documents: ElementTree elements as values. A node
    is named by its address, the sequence of child positions from the root;
    the address without its last position is the node's parent, which is
    what the map `gmx_parents` (gmcollage.py:227) records. */
module Tree {
  import opened Wrappers

  /** An XML element: tag, attributes, text (`None` when the element has
      none) and children in document order. */
  datatype Node = Node(tag: string, attrs: map<string, string>, text: Option<string>, children: seq<Node>)

  type Address = seq<nat>

  /** `ET.Element(tag)`: no attributes, no text, no children. */
  function Element(tag: string): Node {
    Node(tag, map[], None, [])
  }

  /** A folder created while grafting: `ET.SubElement(parent, tag)` followed
      by `set("name", name)` (gmcollage.py:324-325). */
  function Folder(tag: string, name: string): Node {
    Node(tag, map["name" := name], None, [])
  }

  predicate ValidAddress(n: Node, a: Address)
    decreases |a|
  {
    |a| == 0 || (a[0] < |n.children| && ValidAddress(n.children[a[0]], a[1..]))
  }

  /** The node at address `a`. */
  function At(n: Node, a: Address): Node
    requires ValidAddress(n, a)
    decreases |a|
  {
    if |a| == 0 then n else At(n.children[a[0]], a[1..])
  }

  /** `n` with the node at address `a` replaced by `x`. */
  function UpdateAt(n: Node, a: Address, x: Node): (r: Node)
    requires ValidAddress(n, a)
    ensures ValidAddress(r, a) && At(r, a) == x
    ensures |a| > 0 ==> r.tag == n.tag && r.attrs == n.attrs && r.text == n.text
    ensures |a| > 0 ==> |r.children| == |n.children|
    decreases |a|
  {
    if |a| == 0 then x
    else
      var i := a[0];
      var r := n.(children := n.children[i := UpdateAt(n.children[i], a[1..], x)]);
      assert r.children[i] == UpdateAt(n.children[i], a[1..], x);
      assert (a[1..]) == a[1..];
      r
  }

  lemma {:induction false} AtExtend(n: Node, a: Address, i: nat)
    requires ValidAddress(n, a) && i < |At(n, a).children|
    ensures ValidAddress(n, a + [i]) && At(n, a + [i]) == At(n, a).children[i]
    decreases |a|
  {
    if |a| > 0 {
      assert (a + [i])[1..] == a[1..] + [i];
      AtExtend(n.children[a[0]], a[1..], i);
    }
  }

  /** The parent of a valid address is valid and holds the node as its child. */
  lemma {:induction false} ParentValid(n: Node, a: Address)
    requires ValidAddress(n, a) && |a| > 0
    ensures ValidAddress(n, a[..|a| - 1])
    ensures a[|a| - 1] < |At(n, a[..|a| - 1]).children|
    ensures At(n, a) == At(n, a[..|a| - 1]).children[a[|a| - 1]]
    decreases |a|
  {
    if |a| > 1 {
      var b := a[1..];
      ParentValid(n.children[a[0]], b);
      assert a[..|a| - 1][0] == a[0] && a[..|a| - 1][1..] == b[..|b| - 1];
      assert a[|a| - 1] == b[|b| - 1];
    }
  }

  /** Replacing a child of the node at `a` is replacing the node at `a + [i]`. */
  lemma {:induction false} UpdateAtChild(n: Node, a: Address, i: nat, x: Node)
    requires ValidAddress(n, a) && i < |At(n, a).children|
    ensures ValidAddress(n, a + [i])
    ensures UpdateAt(n, a + [i], x) == UpdateAt(n, a, At(n, a).(children := At(n, a).children[i := x]))
    decreases |a|
  {
    AtExtend(n, a, i);
    if |a| > 0 {
      assert (a + [i])[0] == a[0] && (a + [i])[1..] == a[1..] + [i];
      UpdateAtChild(n.children[a[0]], a[1..], i, x);
    }
  }

  /** A second replacement at the same address overrides the first. */
  lemma {:induction false} UpdateTwice(n: Node, a: Address, x: Node, y: Node)
    requires ValidAddress(n, a)
    ensures UpdateAt(UpdateAt(n, a, x), a, y) == UpdateAt(n, a, y)
    decreases |a|
  {
    if |a| > 0 {
      UpdateTwice(n.children[a[0]], a[1..], x, y);
    }
  }

  /** Replacing the node at `a` changes nothing off the path to it: the node
      at each proper prefix `a[..t]` keeps its tag, attributes, text and
      number of children, and every child except the one the path enters. */
  lemma {:induction false} UpdateAtFrame(n: Node, a: Address, x: Node, t: nat)
    requires ValidAddress(n, a) && t < |a|
    ensures ValidAddress(n, a[..t]) && ValidAddress(UpdateAt(n, a, x), a[..t])
    ensures var p := At(n, a[..t]); var q := At(UpdateAt(n, a, x), a[..t]);
      q.tag == p.tag && q.attrs == p.attrs && q.text == p.text && |q.children| == |p.children| &&
      forall j :: 0 <= j < |p.children| && j != a[t] ==> q.children[j] == p.children[j]
    decreases t
  {
    var r := UpdateAt(n, a, x);
    assert r.children == n.children[a[0] := UpdateAt(n.children[a[0]], a[1..], x)];
    if t == 0 {
      assert a[..0] == [];
    } else {
      var b := a[1..];
      UpdateAtFrame(n.children[a[0]], b, x, t - 1);
      assert a[..t][0] == a[0] && a[..t][1..] == b[..t - 1];
      assert b[t - 1] == a[t];
    }
  }

  /** `append(c)` on the node at address `a`. */
  function AppendAt(n: Node, a: Address, c: Node): (r: Node)
    requires ValidAddress(n, a)
    ensures ValidAddress(r, a)
    ensures At(r, a).children == At(n, a).children + [c]
    ensures At(r, a).tag == At(n, a).tag && At(r, a).attrs == At(n, a).attrs
  {
    var p := At(n, a);
    UpdateAt(n, a, p.(children := p.children + [c]))
  }

  /** `parent.remove(child)` for the `i`-th child of the node at address `p`:
      that node loses exactly that child. `UpdateAtFrame` states what stays
      unchanged above it. */
  function RemoveChild(n: Node, p: Address, i: nat): (r: Node)
    requires ValidAddress(n, p) && i < |At(n, p).children|
    ensures ValidAddress(r, p)
    ensures At(r, p) == At(n, p).(children := At(n, p).children[..i] + At(n, p).children[i + 1..])
  {
    var q := At(n, p);
    UpdateAt(n, p, q.(children := q.children[..i] + q.children[i + 1..]))
  }

  /** A child matches an ElementTree path step `tag` (with no name) or
      `tag[@name='name']`. */
  predicate Matches(c: Node, tag: string, name: Option<string>) {
    c.tag == tag && (name.None? || ("name" in c.attrs && c.attrs["name"] == name.value))
  }

  /** `find` with one path step: the first child, from position `k` on, that
      matches. */
  function FindChildFrom(cs: seq<Node>, tag: string, name: Option<string>, k: nat): (r: Option<nat>)
    requires k <= |cs|
    ensures r.Some? ==> k <= r.value < |cs| && Matches(cs[r.value], tag, name)
    ensures r.Some? ==> forall j :: k <= j < r.value ==> !Matches(cs[j], tag, name)
    ensures r.None? ==> forall j :: k <= j < |cs| ==> !Matches(cs[j], tag, name)
    decreases |cs| - k
  {
    if k == |cs| then None
    else if Matches(cs[k], tag, name) then Some(k)
    else FindChildFrom(cs, tag, name, k + 1)
  }

  /** `find` with one path step among the children `cs`. */
  function FindChild(cs: seq<Node>, tag: string, name: Option<string>): (r: Option<nat>)
    ensures r.Some? ==> r.value < |cs| && Matches(cs[r.value], tag, name)
    ensures r.Some? ==> forall j :: 0 <= j < r.value ==> !Matches(cs[j], tag, name)
    ensures r.None? ==> forall j :: 0 <= j < |cs| ==> !Matches(cs[j], tag, name)
  {
    FindChildFrom(cs, tag, name, 0)
  }

  /** The first match is determined by what matches: a child list with the
      same matches at every position gives the same answer. */
  lemma FindChildSameMatches(cs: seq<Node>, ds: seq<Node>, tag: string, name: Option<string>)
    requires |cs| == |ds|
    requires forall j :: 0 <= j < |cs| ==> (Matches(cs[j], tag, name) <==> Matches(ds[j], tag, name))
    ensures FindChild(cs, tag, name) == FindChild(ds, tag, name)
  {
    var r, s := FindChild(cs, tag, name), FindChild(ds, tag, name);
    if r.Some? && s.Some? {
      assert !(r.value < s.value) && !(s.value < r.value);
    }
  }

  /** Follows one folder per path segment below `n`: at each level the first
      child whose tag is `tag` and whose name is the segment. */
  function Descend(n: Node, tag: string, segs: seq<string>): (r: Option<Address>)
    ensures r.Some? ==> ValidAddress(n, r.value) && |r.value| == |segs|
    ensures r.Some? && |segs| > 0 ==> Matches(At(n, r.value), tag, Some(segs[|segs| - 1]))
    decreases |segs|
  {
    if |segs| == 0 then Some([])
    else match FindChild(n.children, tag, Some(segs[0]))
      case None => None
      case Some(i) =>
        match Descend(n.children[i], tag, segs[1..])
        case None => None
        case Some(a) =>
          assert ([i] + a)[0] == i && ([i] + a)[1..] == a;
          assert |segs| > 1 ==> segs[1..][|segs| - 2] == segs[|segs| - 1];
          Some([i] + a)
  }

  /** Entering child `i` first and then following `a`. */
  lemma AtCons(n: Node, i: nat, a: Address)
    requires i < |n.children| && ValidAddress(n.children[i], a)
    ensures ValidAddress(n, [i] + a) && At(n, [i] + a) == At(n.children[i], a)
  {
    assert ([i] + a)[0] == i && ([i] + a)[1..] == a;
  }

  /** The walk takes the first step to child `i` and goes on from there. */
  lemma DescendCons(n: Node, tag: string, segs: seq<string>, i: nat)
    requires |segs| > 0 && FindChild(n.children, tag, Some(segs[0])) == Some(i)
    requires Descend(n.children[i], tag, segs[1..]).Some?
    ensures Descend(n, tag, segs) == Some([i] + Descend(n.children[i], tag, segs[1..]).value)
  {
  }

  /** Position `i` holds the first child of `cs` that matches the step. */
  predicate IsFirstMatch(cs: seq<Node>, tag: string, name: Option<string>, i: nat) {
    i < |cs| && Matches(cs[i], tag, name) && forall j :: 0 <= j < i ==> !Matches(cs[j], tag, name)
  }

  /** `find` with one step answers `i` exactly when `i` is the first match. */
  lemma FindChildIsFirstMatch(cs: seq<Node>, tag: string, name: Option<string>, i: nat)
    ensures FindChild(cs, tag, name) == Some(i) <==> IsFirstMatch(cs, tag, name, i)
  {
    var r := FindChild(cs, tag, name);
    if IsFirstMatch(cs, tag, name, i) && r.Some? {
      assert !(r.value < i) && !(i < r.value);
    }
  }

  /** Step `t` of the walk `a` below `n` enters the first child of the node
      reached so far whose tag is `tag` and whose name is `name`. */
  predicate StepPicksFirst(n: Node, a: Address, t: nat, tag: string, name: string) {
    t < |a| && ValidAddress(n, a[..t]) && IsFirstMatch(At(n, a[..t]).children, tag, Some(name), a[t])
  }

  /** `a` walks below `n` one segment at a time, every step taking the first
      folder of kind `tag` named by its segment. */
  predicate FirstMatchWalk(n: Node, tag: string, segs: seq<string>, a: Address) {
    |a| == |segs| && forall t :: 0 <= t < |segs| ==> StepPicksFirst(n, a, t, tag, segs[t])
  }

  /** A walk that starts with child `i` is that step followed by a walk
      below child `i`. */
  lemma FirstMatchWalkCons(n: Node, tag: string, segs: seq<string>, i: nat, b: Address)
    requires |segs| > 0 && i < |n.children|
    ensures FirstMatchWalk(n, tag, segs, [i] + b) <==>
      IsFirstMatch(n.children, tag, Some(segs[0]), i) && FirstMatchWalk(n.children[i], tag, segs[1..], b)
  {
    var a := [i] + b;
    assert a[..0] == [] && a[0] == i;
    forall t | 1 <= t < |segs| && t < |a|
      ensures StepPicksFirst(n, a, t, tag, segs[t]) <==> StepPicksFirst(n.children[i], b, t - 1, tag, segs[1..][t - 1])
    {
      assert a[..t] == [i] + b[..t - 1] && a[t] == b[t - 1];
      if ValidAddress(n.children[i], b[..t - 1]) {
        AtCons(n, i, b[..t - 1]);
      }
    }
    if FirstMatchWalk(n, tag, segs, a) {
      forall t | 0 <= t < |segs| - 1 ensures StepPicksFirst(n.children[i], b, t, tag, segs[1..][t]) {
        assert StepPicksFirst(n, a, t + 1, tag, segs[t + 1]);
      }
    }
    if IsFirstMatch(n.children, tag, Some(segs[0]), i) && FirstMatchWalk(n.children[i], tag, segs[1..], b) {
      forall t | 0 <= t < |segs| ensures StepPicksFirst(n, a, t, tag, segs[t]) {
        if t > 0 {
          assert StepPicksFirst(n.children[i], b, t - 1, tag, segs[1..][t - 1]);
        }
      }
    }
  }

  /** The walk `Descend` follows is exactly the first-match walk: it returns
      `a` if and only if every step of `a` takes the first folder named by
      its segment. */
  lemma {:induction false} DescendExactly(n: Node, tag: string, segs: seq<string>, a: Address)
    ensures Descend(n, tag, segs) == Some(a) <==> FirstMatchWalk(n, tag, segs, a)
    decreases |segs|
  {
    if |segs| > 0 && |a| == |segs| {
      var i, b := a[0], a[1..];
      assert a == [i] + b;
      FindChildIsFirstMatch(n.children, tag, Some(segs[0]), i);
      if i < |n.children| {
        FirstMatchWalkCons(n, tag, segs, i, b);
        DescendExactly(n.children[i], tag, segs[1..], b);
        if FindChild(n.children, tag, Some(segs[0])) == Some(i) && Descend(n.children[i], tag, segs[1..]) == Some(b) {
          DescendCons(n, tag, segs, i);
        }
      }
    }
  }

  /** `Descend` finds nothing exactly when no first-match walk exists. */
  lemma DescendNoneExactly(n: Node, tag: string, segs: seq<string>)
    ensures Descend(n, tag, segs).None? <==> forall a :: !FirstMatchWalk(n, tag, segs, a)
  {
    if Descend(n, tag, segs).Some? {
      DescendExactly(n, tag, segs, Descend(n, tag, segs).value);
    } else {
      forall a ensures !FirstMatchWalk(n, tag, segs, a) {
        DescendExactly(n, tag, segs, a);
      }
    }
  }

  /** `n.iter(tag)`: the nodes of the subtree of `n` (itself included) whose
      tag is `tag`, in document (pre-)order. */
  function Iter(n: Node, tag: string): (r: seq<Node>)
    ensures forall k :: 0 <= k < |r| ==> r[k].tag == tag
    decreases n, 1
  {
    (if n.tag == tag then [n] else []) + IterSeq(n.children, tag)
  }

  function IterSeq(cs: seq<Node>, tag: string): (r: seq<Node>)
    ensures forall k :: 0 <= k < |r| ==> r[k].tag == tag
    decreases cs, 0
  {
    if |cs| == 0 then [] else Iter(cs[0], tag) + IterSeq(cs[1..], tag)
  }

  /** The texts of a sequence of nodes, `[e.text for e in nodes]`. */
  function Texts(nodes: seq<Node>): (r: seq<Option<string>>)
    ensures |r| == |nodes|
    ensures forall k :: 0 <= k < |nodes| ==> r[k] == nodes[k].text
  {
    if |nodes| == 0 then [] else [nodes[0].text] + Texts(nodes[1..])
  }
}
