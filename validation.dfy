/** Part validation, the nested loop of gmcollage.py:176-192 and the stop it
    leads to (gmcollage.py:194-223). Every part is compared with every other
    part (parts are compared by identity, that is, by position); three lists
    are built: invalid kinds, duplicate targets and nested targets. Any entry
    in any of them stops the run before the project document is read. */
module Validation {
  import opened Catalog
  import opened PathStrings
  import opened Parts

  /** Two parts name the same target: equal kind strings and equal raw path
      strings (no normalisation; gmcollage.py:185). */
  predicate SameTarget(p: ModulePart, q: ModulePart) {
    p.resourcePath == q.resourcePath && p.resourceType == q.resourceType
  }

  /** Path `a` lies strictly inside path `b`: after removing trailing slashes,
      `a` begins with `b` and the next character of `a` is a slash
      (gmcollage.py:189-191). */
  predicate NestedIn(a: string, b: string) {
    var x := RStrip(a, '/');
    var y := RStrip(b, '/');
    StartsWith(x, y) && |x| > |y| && x[|y|] == '/'
  }

  /** The two pairwise checks of the loop. */
  datatype Check = Duplicate | Nesting

  /** Whether the loop records the ordered pair (i, j) for the check `c`. A
      duplicate is recorded only the first time the loop meets the pair, that
      is, with the earlier part first; a nesting is recorded as (descendant,
      ancestor). */
  predicate Flagged(c: Check, parts: seq<ModulePart>, i: nat, j: nat)
    requires i < |parts| && j < |parts|
  {
    match c
    case Duplicate => i < j && SameTarget(parts[i], parts[j])
    case Nesting =>
      i != j && parts[i].resourceType == parts[j].resourceType &&
      NestedIn(parts[i].resourcePath, parts[j].resourcePath)
  }

  /** The check `c` as a test on any two positions of `parts`. */
  function Test(c: Check, parts: seq<ModulePart>): (nat, nat) -> bool {
    (i: nat, j: nat) => i < |parts| && j < |parts| && Flagged(c, parts, i, j)
  }

  /** The pairs (a, b') with b' < b that pass the test `f`, in loop order. */
  function Pairs(f: (nat, nat) -> bool, a: nat, b: nat): seq<(nat, nat)> {
    if b == 0 then [] else Pairs(f, a, b - 1) + (if f(a, b - 1) then [(a, b - 1)] else [])
  }

  /** The pairs (a', b') with a' < a and b' < n that pass `f`, in loop order. */
  function PairsUpTo(f: (nat, nat) -> bool, n: nat, a: nat): seq<(nat, nat)> {
    if a == 0 then [] else PairsUpTo(f, n, a - 1) + Pairs(f, a - 1, n)
  }

  /** The pairs (a, b') with b' < b that the check records, in loop order. */
  function Row(c: Check, parts: seq<ModulePart>, a: nat, b: nat): seq<(nat, nat)>
    requires a < |parts| && b <= |parts|
  {
    Pairs(Test(c, parts), a, b)
  }

  /** The pairs recorded while the outer loop handles the parts before `a`. */
  function Table(c: Check, parts: seq<ModulePart>, a: nat): seq<(nat, nat)>
    requires a <= |parts|
  {
    PairsUpTo(Test(c, parts), |parts|, a)
  }

  /** The positions before `a` whose kind is not in the catalog. */
  function InvalidUpTo(parts: seq<ModulePart>, a: nat): seq<nat>
    requires a <= |parts|
  {
    if a == 0 then []
    else InvalidUpTo(parts, a - 1) + (if parts[a - 1].resourceType in ResourceTypes then [] else [a - 1])
  }

  /** The three lists of gmcollage.py:176-178 after the loop. */
  datatype Report = Report(duplicates: seq<(nat, nat)>, nested: seq<(nat, nat)>, invalid: seq<nat>)

  /** What the loop computes, check by check. */
  function Expected(parts: seq<ModulePart>): Report {
    Report(Table(Duplicate, parts, |parts|), Table(Nesting, parts, |parts|), InvalidUpTo(parts, |parts|))
  }

  /** The run goes on past validation only when all three lists are empty
      (gmcollage.py:196-223). */
  predicate Clean(r: Report) {
    r.duplicates == [] && r.nested == [] && r.invalid == []
  }

  /** The parts pass validation: every kind is in the catalog, no two parts
      name the same folder of the same kind, and no folder lies inside
      another of its kind. */
  predicate Acceptable(parts: seq<ModulePart>) {
    (forall i :: 0 <= i < |parts| ==> parts[i].resourceType in ResourceTypes) &&
    (forall i, j :: 0 <= i < j < |parts| ==> !SameTarget(parts[i], parts[j])) &&
    (forall i, j :: 0 <= i < |parts| && 0 <= j < |parts| && i != j && parts[i].resourceType == parts[j].resourceType ==>
      !NestedIn(parts[i].resourcePath, parts[j].resourcePath))
  }

  /** The run goes past validation exactly for acceptable parts. */
  lemma CleanExactly(parts: seq<ModulePart>)
    ensures Clean(Expected(parts)) <==> Acceptable(parts)
  {
    if Clean(Expected(parts)) {
      CleanKinds(parts);
      CleanTargets(parts);
      CleanNesting(parts);
    } else {
      UncleanUnacceptable(parts);
    }
  }

  lemma CleanKinds(parts: seq<ModulePart>)
    requires Expected(parts).invalid == []
    ensures forall i :: 0 <= i < |parts| ==> parts[i].resourceType in ResourceTypes
  {
    InvalidExactly(parts, |parts|);
    forall i | 0 <= i < |parts| ensures parts[i].resourceType in ResourceTypes {
      assert i !in InvalidUpTo(parts, |parts|);
    }
  }

  lemma CleanTargets(parts: seq<ModulePart>)
    requires Expected(parts).duplicates == []
    ensures forall i, j :: 0 <= i < j < |parts| ==> !SameTarget(parts[i], parts[j])
  {
    forall i, j | 0 <= i < j < |parts| ensures !SameTarget(parts[i], parts[j]) {
      TableMembers(Duplicate, parts, |parts|, i, j);
    }
  }

  lemma CleanNesting(parts: seq<ModulePart>)
    requires Expected(parts).nested == []
    ensures forall i, j :: 0 <= i < |parts| && 0 <= j < |parts| && i != j && parts[i].resourceType == parts[j].resourceType ==>
      !NestedIn(parts[i].resourcePath, parts[j].resourcePath)
  {
    forall i, j | 0 <= i < |parts| && 0 <= j < |parts| && i != j && parts[i].resourceType == parts[j].resourceType
      ensures !NestedIn(parts[i].resourcePath, parts[j].resourcePath)
    {
      TableMembers(Nesting, parts, |parts|, i, j);
    }
  }

  lemma UncleanUnacceptable(parts: seq<ModulePart>)
    requires !Clean(Expected(parts))
    ensures !Acceptable(parts)
  {
    var r := Expected(parts);
    if r.duplicates != [] {
      var x, y := r.duplicates[0].0, r.duplicates[0].1;
      TableMembers(Duplicate, parts, |parts|, x, y);
    } else if r.nested != [] {
      var x, y := r.nested[0].0, r.nested[0].1;
      TableMembers(Nesting, parts, |parts|, x, y);
    } else {
      InvalidExactly(parts, |parts|);
      assert r.invalid[0] in InvalidUpTo(parts, |parts|);
    }
  }

  /** The validation loop of gmcollage.py:179-192. */
  method Validate(parts: seq<ModulePart>) returns (report: Report)
    ensures report == Expected(parts)
  {
    var n := |parts|;
    var duplicates: seq<(nat, nat)> := [];
    var nested: seq<(nat, nat)> := [];
    var invalid: seq<nat> := [];
    var a := 0;
    while a < n
      invariant 0 <= a <= n
      invariant duplicates == Table(Duplicate, parts, a)
      invariant nested == Table(Nesting, parts, a)
      invariant invalid == InvalidUpTo(parts, a)
    {
      var mpA := parts[a];
      if mpA.resourceType !in ResourceTypes {
        invalid := invalid + [a];
      }
      var b := 0;
      while b < n
        invariant 0 <= b <= n
        invariant duplicates == Table(Duplicate, parts, a) + Row(Duplicate, parts, a, b)
        invariant nested == Table(Nesting, parts, a) + Row(Nesting, parts, a, b)
      {
        var mpB := parts[b];
        if a != b {
          DuplicateTest(parts, a, b);
          if mpA.resourcePath == mpB.resourcePath && mpA.resourceType == mpB.resourceType &&
             (a, b) !in duplicates && (b, a) !in duplicates {
            duplicates := duplicates + [(a, b)];
          }
          if mpA.resourceType == mpB.resourceType {
            var x := RStrip(mpA.resourcePath, '/');
            var y := RStrip(mpB.resourcePath, '/');
            if StartsWith(x, y) && |x| > |y| && x[|y|] == '/' {
              nested := nested + [(a, b)];
            }
          }
        }
        b := b + 1;
      }
      a := a + 1;
    }
    report := Report(duplicates, nested, invalid);
  }

  /** The "not yet recorded either way" test of gmcollage.py:186, evaluated
      against the pairs recorded so far, holds exactly when (a, b) is the
      earlier-first orientation of the pair. */
  lemma DuplicateTest(parts: seq<ModulePart>, a: nat, b: nat)
    requires a < |parts| && b < |parts| && a != b
    ensures var sofar := Table(Duplicate, parts, a) + Row(Duplicate, parts, a, b);
      SameTarget(parts[a], parts[b]) ==>
        ((a, b) !in sofar && (b, a) !in sofar <==> Flagged(Duplicate, parts, a, b))
  {
    TableMembers(Duplicate, parts, a, a, b);
    TableMembers(Duplicate, parts, a, b, a);
    RowMembers(Duplicate, parts, a, b, a, b);
    RowMembers(Duplicate, parts, a, b, b, a);
  }

  lemma {:induction false} PairsMembers(f: (nat, nat) -> bool, a: nat, b: nat, x: nat, y: nat)
    ensures (x, y) in Pairs(f, a, b) <==> x == a && y < b && f(x, y)
    decreases b
  {
    if b > 0 {
      var t := Pairs(f, a, b - 1);
      var e: seq<(nat, nat)> := if f(a, b - 1) then [(a, b - 1)] else [];
      PairsMembers(f, a, b - 1, x, y);
      assert Pairs(f, a, b) == t + e;
      assert (x, y) in t + e <==> (x, y) in t || (x, y) in e;
    }
  }

  lemma {:induction false} PairsUpToMembers(f: (nat, nat) -> bool, n: nat, a: nat, x: nat, y: nat)
    ensures (x, y) in PairsUpTo(f, n, a) <==> x < a && y < n && f(x, y)
    decreases a
  {
    if a > 0 {
      var t, r := PairsUpTo(f, n, a - 1), Pairs(f, a - 1, n);
      PairsUpToMembers(f, n, a - 1, x, y);
      PairsMembers(f, a - 1, n, x, y);
      assert PairsUpTo(f, n, a) == t + r;
      if x == a - 1 {
        assert (x, y) !in t;
      } else {
        assert (x, y) !in r;
      }
      assert (x, y) in t + r <==> (x, y) in t || (x, y) in r;
    }
  }

  lemma RowMembers(c: Check, parts: seq<ModulePart>, a: nat, b: nat, x: nat, y: nat)
    requires a < |parts| && b <= |parts|
    ensures (x, y) in Row(c, parts, a, b) <==> x == a && y < b && Flagged(c, parts, x, y)
  {
    PairsMembers(Test(c, parts), a, b, x, y);
  }

  lemma TableMembers(c: Check, parts: seq<ModulePart>, a: nat, x: nat, y: nat)
    requires a <= |parts|
    ensures (x, y) in Table(c, parts, a) <==> x < a && y < |parts| && Flagged(c, parts, x, y)
  {
    PairsUpToMembers(Test(c, parts), |parts|, a, x, y);
  }

  /** Lexicographic order on recorded pairs, the order the loop visits them. */
  predicate LexLess(p: (nat, nat), q: (nat, nat)) {
    p.0 < q.0 || (p.0 == q.0 && p.1 < q.1)
  }

  predicate Increasing(s: seq<(nat, nat)>) {
    forall i, j :: 0 <= i < j < |s| ==> LexLess(s[i], s[j])
  }

  lemma {:induction false} PairsIncreasing(f: (nat, nat) -> bool, a: nat, b: nat)
    ensures Increasing(Pairs(f, a, b))
    ensures forall k :: 0 <= k < |Pairs(f, a, b)| ==> Pairs(f, a, b)[k].0 == a && Pairs(f, a, b)[k].1 < b
    decreases b
  {
    if b > 0 {
      PairsIncreasing(f, a, b - 1);
    }
  }

  lemma {:induction false} PairsUpToIncreasing(f: (nat, nat) -> bool, n: nat, a: nat)
    ensures Increasing(PairsUpTo(f, n, a))
    ensures forall k :: 0 <= k < |PairsUpTo(f, n, a)| ==> PairsUpTo(f, n, a)[k].0 < a
    decreases a
  {
    if a > 0 {
      PairsUpToIncreasing(f, n, a - 1);
      PairsIncreasing(f, a - 1, n);
    }
  }

  /** The check records pairs in increasing order, as the loop visits them. */
  lemma TableIncreasing(c: Check, parts: seq<ModulePart>, a: nat)
    requires a <= |parts|
    ensures Increasing(Table(c, parts, a))
  {
    PairsUpToIncreasing(Test(c, parts), |parts|, a);
  }

  /** An increasing list names no pair twice. */
  lemma IncreasingNoRepeats(s: seq<(nat, nat)>)
    requires Increasing(s)
    ensures forall i, j :: 0 <= i < j < |s| ==> s[i] != s[j]
  {
  }

  /** A part is listed as invalid exactly when its kind string is not an
      entry of RESOURCE_TYPES, and no part is listed twice
      (gmcollage.py:179-181). */
  lemma {:induction false} InvalidExactly(parts: seq<ModulePart>, a: nat)
    requires a <= |parts|
    ensures forall i: nat :: i in InvalidUpTo(parts, a) <==> i < a && parts[i].resourceType !in ResourceTypes
    ensures forall i, j :: 0 <= i < j < |InvalidUpTo(parts, a)| ==> InvalidUpTo(parts, a)[i] < InvalidUpTo(parts, a)[j]
    decreases a
  {
    if a > 0 {
      InvalidExactly(parts, a - 1);
      var prev := InvalidUpTo(parts, a - 1);
      forall k | 0 <= k < |prev| ensures prev[k] < a - 1 {
        assert prev[k] in prev;
      }
    }
  }

  /** Two distinct parts with the same kind and path are recorded as exactly
      one duplicate pair, whichever is declared first, and the list names
      each pair once; parts with different targets are never recorded. This
      covers a line repeated inside one config: its two parts are still two
      objects (gmcollage.py:182-187). */
  lemma DuplicatesOncePerPair(parts: seq<ModulePart>, i: nat, j: nat)
    requires i < |parts| && j < |parts| && i != j
    ensures var d := Expected(parts).duplicates;
      SameTarget(parts[i], parts[j]) ==> ((i, j) in d <==> (j, i) !in d)
    ensures var d := Expected(parts).duplicates;
      !SameTarget(parts[i], parts[j]) ==> (i, j) !in d && (j, i) !in d
    ensures var d := Expected(parts).duplicates;
      forall k, l :: 0 <= k < l < |d| ==> d[k] != d[l]
  {
    var n := |parts|;
    TableMembers(Duplicate, parts, n, i, j);
    TableMembers(Duplicate, parts, n, j, i);
    TableIncreasing(Duplicate, parts, n);
    IncreasingNoRepeats(Table(Duplicate, parts, n));
  }

  /** When all targets are pairwise distinct no duplicate is recorded. */
  lemma DistinctTargetsNoDuplicates(parts: seq<ModulePart>)
    requires forall i, j :: 0 <= i < j < |parts| ==> !SameTarget(parts[i], parts[j])
    ensures Expected(parts).duplicates == []
  {
    var d := Expected(parts).duplicates;
    if d != [] {
      TableMembers(Duplicate, parts, |parts|, d[0].0, d[0].1);
    }
  }

  /** A pair of same-kind parts is recorded as nested exactly when the first
      path lies strictly inside the second; it is recorded as (descendant,
      ancestor) only, never the other way round, and at most once
      (gmcollage.py:188-192). */
  lemma NestedExactly(parts: seq<ModulePart>, i: nat, j: nat)
    requires i < |parts| && j < |parts|
    ensures var d := Expected(parts).nested;
      (i, j) in d <==>
        i != j && parts[i].resourceType == parts[j].resourceType &&
        NestedIn(parts[i].resourcePath, parts[j].resourcePath)
    ensures var d := Expected(parts).nested;
      (i, j) in d ==>
        (j, i) !in d && |RStrip(parts[i].resourcePath, '/')| > |RStrip(parts[j].resourcePath, '/')|
    ensures var d := Expected(parts).nested;
      forall k, l :: 0 <= k < l < |d| ==> d[k] != d[l]
  {
    var n := |parts|;
    TableMembers(Nesting, parts, n, i, j);
    TableMembers(Nesting, parts, n, j, i);
    TableIncreasing(Nesting, parts, n);
    IncreasingNoRepeats(Table(Nesting, parts, n));
  }

  /** Paths that are equal once trailing slashes are removed (in particular,
      identical paths) are never nested in each other. */
  lemma IdenticalNeverNested(a: string, b: string)
    requires RStrip(a, '/') == RStrip(b, '/')
    ensures !NestedIn(a, b) && !NestedIn(b, a)
  {
  }

  /** For paths without a trailing slash, `a` is nested in `b` exactly when
      the segments of `b` are a proper prefix of the segments of `a`: the
      folder `b` names is a strict ancestor of the folder `a` names. */
  lemma NestedMeansAncestor(a: string, b: string)
    requires !EndsWith(a, '/') && !EndsWith(b, '/')
    ensures NestedIn(a, b) <==>
      |Split(b, '/')| < |Split(a, '/')| && Split(a, '/')[..|Split(b, '/')|] == Split(b, '/')
  {
    var sa, sb := Split(a, '/'), Split(b, '/');
    assert RStrip(a, '/') == a && RStrip(b, '/') == b;
    if NestedIn(a, b) {
      var rest := a[|b| + 1..];
      assert a == b + ['/'] + rest;
      SplitConcat(b, rest, '/');
      assert sa == sb + Split(rest, '/');
      assert sa[..|sb|] == sb;
    }
    if |sb| < |sa| && sa[..|sb|] == sb {
      var tail := sa[|sb|..];
      assert sa == sb + tail;
      JoinConcat(sb, tail, "/");
      JoinSplit(a, '/');
      JoinSplit(b, '/');
      assert a == b + "/" + Join(tail, "/");
      assert StartsWith(a, b) && a[|b|] == '/';
    }
  }

  /** The scenario of a folder and a folder inside it declared together
      (for instance sprites "Enemies" and sprites "Enemies/Boss"): exactly one
      nesting is recorded, as (inner, outer), no duplicate, and the run stops. */
  lemma NestedScenario(parts: seq<ModulePart>, outer: string, leaf: string)
    requires |parts| == 2 && parts[0].resourceType == parts[1].resourceType
    requires parts[0].resourcePath == outer && parts[1].resourcePath == outer + "/" + leaf
    requires !EndsWith(outer, '/') && leaf != "" && !EndsWith(leaf, '/')
    ensures Expected(parts).nested == [(1, 0)]
    ensures Expected(parts).duplicates == []
    ensures !Clean(Expected(parts))
  {
    var inner := outer + "/" + leaf;
    assert !EndsWith(inner, '/') by { assert inner[|inner| - 1] == leaf[|leaf| - 1]; }
    assert RStrip(inner, '/') == inner && RStrip(outer, '/') == outer;
    assert inner[..|outer|] == outer && inner[|outer|] == '/';
    assert NestedIn(inner, outer);
    assert !NestedIn(outer, inner);
    assert !SameTarget(parts[0], parts[1]) by { assert |inner| > |outer|; }
    assert !Flagged(Nesting, parts, 0, 1) && Flagged(Nesting, parts, 1, 0);
    assert !Flagged(Duplicate, parts, 0, 1) && !Flagged(Duplicate, parts, 1, 0);
    TableOfTwo(Nesting, parts);
    TableOfTwo(Duplicate, parts);
  }

  /** The table of a two-part list, pair by pair. */
  lemma TableOfTwo(c: Check, parts: seq<ModulePart>)
    requires |parts| == 2
    ensures Table(c, parts, 2) ==
      (if Flagged(c, parts, 0, 1) then [(0, 1)] else []) + (if Flagged(c, parts, 1, 0) then [(1, 0)] else [])
  {
    assert !Flagged(c, parts, 0, 0) && !Flagged(c, parts, 1, 1);
    assert Row(c, parts, 0, 1) == [];
    assert Row(c, parts, 0, 2) == (if Flagged(c, parts, 0, 1) then [(0, 1)] else []);
    assert Row(c, parts, 1, 1) == (if Flagged(c, parts, 1, 0) then [(1, 0)] else []);
    assert Row(c, parts, 1, 2) == Row(c, parts, 1, 1);
    assert Table(c, parts, 1) == Row(c, parts, 0, 2);
  }
}
