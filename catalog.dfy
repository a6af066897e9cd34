/** The resource catalog: the closed set of GameMaker resource kinds with, for
    each, the name used in module configs, the storage subdirectory, the XML
    tag of one resource and the file extension of its asset
    (gmcollage.py:15-54, the tables RESOURCE_TYPES, RESOURCE_PATHS,
    RESOURCE_TAG_NAMES and RESOURCE_FILE_EXTENSIONS). */
module Catalog {
  import opened Wrappers

  datatype Kind =
    | Datafiles | Sounds | Sprites | Backgrounds | Paths | Scripts
    | Shaders | Fonts | Objects | Timelines | Rooms
  {
    /** The kind's entry in RESOURCE_TYPES; also the tag of its folders. */
    function Name(): string {
      match this
      case Datafiles => "datafiles"
      case Sounds => "sounds"
      case Sprites => "sprites"
      case Backgrounds => "backgrounds"
      case Paths => "paths"
      case Scripts => "scripts"
      case Shaders => "shaders"
      case Fonts => "fonts"
      case Objects => "objects"
      case Timelines => "timelines"
      case Rooms => "rooms"
    }

    /** RESOURCE_PATHS: the storage subdirectory of the kind's assets. */
    function StoragePath(): string {
      match this
      case Datafiles => "datafiles"
      case Sounds => "sound"
      case Sprites => "sprites"
      case Backgrounds => "background"
      case Paths => "paths"
      case Scripts => "scripts"
      case Shaders => "shaders"
      case Fonts => "fonts"
      case Objects => "objects"
      case Timelines => "timelines"
      case Rooms => "rooms"
    }

    /** RESOURCE_TAG_NAMES: the tag of one resource (a leaf) of this kind. */
    function TagName(): string {
      match this
      case Datafiles => "datafile"
      case Sounds => "sound"
      case Sprites => "sprite"
      case Backgrounds => "background"
      case Paths => "path"
      case Scripts => "script"
      case Shaders => "shader"
      case Fonts => "font"
      case Objects => "object"
      case Timelines => "timeline"
      case Rooms => "room"
    }

    /** RESOURCE_FILE_EXTENSIONS: appended to a leaf's text to name its file. */
    function Extension(): string {
      match this
      case Datafiles => ""
      case Sounds => ".sound.gmx"
      case Sprites => ".sprite.gmx"
      case Backgrounds => ".background.gmx"
      case Paths => ".path.gmx"
      case Scripts => ""
      case Shaders => ""
      case Fonts => ".font.gmx"
      case Objects => ".object.gmx"
      case Timelines => ".timeline.gmx"
      case Rooms => ".room.gmx"
    }
  }

  /** The kinds in the order of RESOURCE_TYPES; the dictionaries are written
      in the same order, so iterating any of them visits this sequence. */
  const AllKinds: seq<Kind> :=
    [Datafiles, Sounds, Sprites, Backgrounds, Paths, Scripts, Shaders, Fonts, Objects, Timelines, Rooms]

  /** RESOURCE_TYPES itself, the list a config's kind string is checked against. */
  const ResourceTypes: seq<string> :=
    ["datafiles", "sounds", "sprites", "backgrounds", "paths", "scripts",
     "shaders", "fonts", "objects", "timelines", "rooms"]

  /** The first of `ks` whose name is `s`. */
  function Lookup(s: string, ks: seq<Kind>): Option<Kind>
  {
    if |ks| == 0 then None
    else if ks[0].Name() == s then Some(ks[0])
    else Lookup(s, ks[1..])
  }

  /** Looks a kind string up in the catalog. */
  function ParseKind(s: string): Option<Kind>
  {
    Lookup(s, AllKinds)
  }

  lemma {:induction false} LookupFinds(s: string, ks: seq<Kind>)
    ensures Lookup(s, ks).Some? <==> exists i :: 0 <= i < |ks| && ks[i].Name() == s
    ensures Lookup(s, ks).Some? ==> Lookup(s, ks).value.Name() == s
    decreases |ks|
  {
    if |ks| > 0 && ks[0].Name() != s {
      LookupFinds(s, ks[1..]);
      if exists i :: 0 <= i < |ks| && ks[i].Name() == s {
        var i :| 0 <= i < |ks| && ks[i].Name() == s;
        assert ks[1..][i - 1] == ks[i];
      }
      if exists i :: 0 <= i < |ks[1..]| && ks[1..][i].Name() == s {
        var i :| 0 <= i < |ks[1..]| && ks[1..][i].Name() == s;
        assert ks[i + 1] == ks[1..][i];
      }
    }
  }

  /** A kind string is accepted exactly when it is an entry of
      RESOURCE_TYPES, and the kind found carries that name. */
  lemma ParseKindExactly(s: string)
    ensures ParseKind(s).Some? <==> s in ResourceTypes
    ensures ParseKind(s).Some? ==> ParseKind(s).value.Name() == s
  {
    LookupFinds(s, AllKinds);
    NamesInOrder();
    if s in ResourceTypes {
      var i :| 0 <= i < |ResourceTypes| && ResourceTypes[i] == s;
      assert AllKinds[i].Name() == s;
    }
  }

  lemma NamesInOrder()
    ensures |AllKinds| == |ResourceTypes|
    ensures forall i :: 0 <= i < |AllKinds| ==> AllKinds[i].Name() == ResourceTypes[i]
  {
  }

  /** The catalog is closed and each kind is listed once, under its own name. */
  lemma CatalogIsClosed(k: Kind)
    ensures k in AllKinds
    ensures |AllKinds| == |ResourceTypes| == 11
    ensures forall i :: 0 <= i < |AllKinds| ==> AllKinds[i].Name() == ResourceTypes[i]
    ensures ParseKind(k.Name()) == Some(k)
  {
    NamesInOrder();
    assert k in AllKinds by {
      match k
      case Datafiles => assert AllKinds[0] == k;
      case Sounds => assert AllKinds[1] == k;
      case Sprites => assert AllKinds[2] == k;
      case Backgrounds => assert AllKinds[3] == k;
      case Paths => assert AllKinds[4] == k;
      case Scripts => assert AllKinds[5] == k;
      case Shaders => assert AllKinds[6] == k;
      case Fonts => assert AllKinds[7] == k;
      case Objects => assert AllKinds[8] == k;
      case Timelines => assert AllKinds[9] == k;
      case Rooms => assert AllKinds[10] == k;
    }
    var i :| 0 <= i < |AllKinds| && AllKinds[i] == k;
    assert ResourceTypes[i] == k.Name();
    ParseKindExactly(k.Name());
    NamesDetermineKind(ParseKind(k.Name()).value, k);
  }

  /** The kind's name, tag name and storage path each determine the kind. */
  lemma NamesDetermineKind(k: Kind, l: Kind)
    ensures k.Name() == l.Name() ==> k == l
    ensures k.TagName() == l.TagName() ==> k == l
    ensures k.StoragePath() == l.StoragePath() ==> k == l
  {
  }
}
