/** Module parts and how the "out" run gathers them from the parsed module
    configs (gmcollage.py:7-13, 147-174). A part's identity in the source is
    the Python object; here it is the part's position in the flat list
    `moduleconfig_parts`, where every part object occurs exactly once. */
module Parts {
  import opened PathStrings

  /** One declared (kind, path) of one module (gmcollage.py:7-13). The
      iterator field `module_resources_iterator`, filled in during extraction,
      is kept by the extraction model instead. */
  datatype ModulePart = ModulePart(moduleName: string, modulePath: string, resourceType: string, resourcePath: string)

  /** A module config as parsed from its JSON file: its path and its list of
      [kind, path] pairs. */
  datatype Config = Config(path: string, pairs: seq<(string, string)>)

  /** The part built for one pair of a config (gmcollage.py:172). */
  function MakePart(c: Config, pair: (string, string)): ModulePart {
    ModulePart(ConfigName(c.path), ReplaceChar(c.path, '\\', '/'), pair.0, ReplaceChar(pair.1, '\\', '/'))
  }

  /** The parts of one config, in the order of its pairs. */
  function ConfigParts(c: Config): (r: seq<ModulePart>)
    ensures |r| == |c.pairs|
    ensures forall j :: 0 <= j < |c.pairs| ==> r[j] == MakePart(c, c.pairs[j])
  {
    seq(|c.pairs|, j requires 0 <= j < |c.pairs| => MakePart(c, c.pairs[j]))
  }

  /** `moduleconfig_parts`: the parts of all configs, config after config. */
  function AllParts(configs: seq<Config>): seq<ModulePart>
  {
    if |configs| == 0 then [] else AllParts(configs[..|configs| - 1]) + ConfigParts(configs[|configs| - 1])
  }

  /** The position in `AllParts` of the first part of config `i`. */
  function Offset(configs: seq<Config>, i: nat): nat
    requires i <= |configs|
  {
    |AllParts(configs[..i])|
  }

  /** After the `replace` of gmcollage.py:172 no part path and no module
      path holds a backslash. */
  lemma {:induction false} AllPartsUseSlashes(configs: seq<Config>)
    ensures forall k :: 0 <= k < |AllParts(configs)| ==>
      '\\' !in AllParts(configs)[k].resourcePath && '\\' !in AllParts(configs)[k].modulePath
    decreases |configs|
  {
    if |configs| > 0 {
      var c := configs[|configs| - 1];
      AllPartsUseSlashes(configs[..|configs| - 1]);
      var prev, last := AllParts(configs[..|configs| - 1]), ConfigParts(c);
      ReplaceCharRemovesAll(c.path, '\\', '/');
      forall j | 0 <= j < |last| ensures '\\' !in last[j].resourcePath && '\\' !in last[j].modulePath {
        ReplaceCharRemovesAll(c.pairs[j].1, '\\', '/');
      }
      forall k | 0 <= k < |AllParts(configs)|
        ensures '\\' !in AllParts(configs)[k].resourcePath && '\\' !in AllParts(configs)[k].modulePath
      {
        if k < |prev| {
          assert AllParts(configs)[k] == prev[k];
        } else {
          assert AllParts(configs)[k] == last[k - |prev|];
        }
      }
    }
  }

  /** `moduleconfig_names`: each module is named by its config path up to the
      first dot (gmcollage.py:150). */
  function ConfigNames(configs: seq<Config>): (r: seq<string>)
    ensures |r| == |configs|
    ensures forall i :: 0 <= i < |configs| ==> r[i] == ConfigName(configs[i].path)
  {
    seq(|configs|, i requires 0 <= i < |configs| => ConfigName(configs[i].path))
  }

  /** The part indices `a`, `a + 1`, ..., `b - 1`. */
  function Range(a: nat, b: nat): (r: seq<nat>)
    requires a <= b
    ensures |r| == b - a
    ensures forall k :: 0 <= k < |r| ==> r[k] == a + k
  {
    seq(b - a, k requires 0 <= k < b - a => a + k)
  }

  /** `moduleconfig_parts_grouped` AS WRITTEN: `[[]] * n` makes all n entries
      one and the same list (gmcollage.py:151), so every group receives the
      parts of every config. */
  function GroupsAsWritten(configs: seq<Config>): (r: seq<seq<nat>>)
    ensures |r| == |configs|
    ensures forall i :: 0 <= i < |configs| ==> r[i] == Range(0, |AllParts(configs)|)
  {
    seq(|configs|, i requires 0 <= i < |configs| => Range(0, |AllParts(configs)|))
  }

  /** `moduleconfig_parts_grouped` as evidently intended: group `i` holds the
      parts of config `i`. */
  function GroupsByConfig(configs: seq<Config>): (r: seq<seq<nat>>)
    ensures |r| == |configs|
    ensures forall i :: 0 <= i < |configs| ==>
      r[i] == Range(Offset(configs, i), Offset(configs, i) + |configs[i].pairs|)
  {
    seq(|configs|, i requires 0 <= i < |configs| =>
      OffsetStep(configs, i);
      Range(Offset(configs, i), Offset(configs, i) + |configs[i].pairs|))
  }

  lemma OffsetStep(configs: seq<Config>, i: nat)
    requires i < |configs|
    ensures AllParts(configs[..i + 1]) == AllParts(configs[..i]) + ConfigParts(configs[i])
    ensures Offset(configs, i + 1) == Offset(configs, i) + |configs[i].pairs|
  {
    assert configs[..i + 1][..i] == configs[..i];
  }

  /** Every offset lies within the flat list; the last one is its length. */
  lemma {:induction false} OffsetBounds(configs: seq<Config>, i: nat)
    requires i <= |configs|
    ensures Offset(configs, i) <= Offset(configs, |configs|) == |AllParts(configs)|
    decreases |configs| - i
  {
    assert configs[..|configs|] == configs;
    if i < |configs| {
      OffsetStep(configs, i);
      OffsetBounds(configs, i + 1);
    }
  }

  /** `AllParts(configs[..i])` is a prefix of `AllParts(configs)`. */
  lemma {:induction false} AllPartsPrefix(configs: seq<Config>, i: nat)
    requires i <= |configs|
    ensures Offset(configs, i) <= |AllParts(configs)|
    ensures AllParts(configs)[..Offset(configs, i)] == AllParts(configs[..i])
    decreases |configs| - i
  {
    assert configs[..|configs|] == configs;
    if i < |configs| {
      OffsetStep(configs, i);
      AllPartsPrefix(configs, i + 1);
    }
  }

  /** Config `i`'s pair `j` is the part at position `Offset(i) + j`. */
  lemma PartOfPair(configs: seq<Config>, i: nat, j: nat)
    requires i < |configs| && j < |configs[i].pairs|
    ensures Offset(configs, i) + j < |AllParts(configs)|
    ensures AllParts(configs)[Offset(configs, i) + j] == MakePart(configs[i], configs[i].pairs[j])
  {
    OffsetStep(configs, i);
    AllPartsPrefix(configs, i + 1);
    var all := AllParts(configs);
    var k := Offset(configs, i) + j;
    assert all[..Offset(configs, i + 1)][k] == all[k];
  }

  /** The intended grouping: group `i` lists exactly config `i`'s parts, in
      order. */
  lemma GroupsByConfigLists(configs: seq<Config>, i: nat, j: nat)
    requires i < |configs| && j < |configs[i].pairs|
    ensures var g := GroupsByConfig(configs);
      |g[i]| == |configs[i].pairs| && g[i][j] < |AllParts(configs)| &&
      AllParts(configs)[g[i][j]] == MakePart(configs[i], configs[i].pairs[j])
  {
    PartOfPair(configs, i, j);
  }

  /** The intended grouping puts no part in two groups, nor twice in one. */
  lemma GroupsByConfigDisjoint(configs: seq<Config>, i1: nat, j1: nat, i2: nat, j2: nat)
    requires i1 < |configs| && i2 < |configs|
    requires j1 < |GroupsByConfig(configs)[i1]| && j2 < |GroupsByConfig(configs)[i2]|
    requires GroupsByConfig(configs)[i1][j1] == GroupsByConfig(configs)[i2][j2]
    ensures i1 == i2 && j1 == j2
  {
    OffsetStep(configs, i1);
    OffsetStep(configs, i2);
    if i1 < i2 { OffsetMonotone(configs, i1 + 1, i2); }
    if i2 < i1 { OffsetMonotone(configs, i2 + 1, i1); }
  }

  lemma {:induction false} OffsetMonotone(configs: seq<Config>, i: nat, j: nat)
    requires i <= j <= |configs|
    ensures Offset(configs, i) <= Offset(configs, j)
    decreases j - i
  {
    if i < j {
      OffsetStep(configs, j - 1);
      OffsetMonotone(configs, i, j - 1);
    }
  }

  /** The as-written grouping: with two or more configs, every group is the
      whole part list, so each part is processed once per config. */
  lemma GroupsAsWrittenShareParts(configs: seq<Config>)
    ensures var g := GroupsAsWritten(configs);
      forall i, k :: 0 <= i < |configs| && 0 <= k < |AllParts(configs)| ==> k in g[i]
  {
    var g := GroupsAsWritten(configs);
    forall i, k | 0 <= i < |configs| && 0 <= k < |AllParts(configs)| ensures k in g[i] {
      assert g[i][k] == k;
    }
  }
}
