/**
 * The profile registry: each kind of file the archive holds, where it lives
 * below a journal folder and which extension it carries. The scan splits the
 * registry into the source of truth ("images"), the text editions (profiles
 * stored under "texts/") and the standard profiles (everything else).
 */
module Profiles {

  datatype Profile = Profile(name: string, pathParts: seq<string>, extension: string)

  const SOURCE_NAME: string := "images"
  const TEXTS_DIR: string := "texts"

  /** The registry the dashboard ships with, in its declaration order. */
  const PROFILES: seq<Profile> := [
    Profile("images", ["images", "jpg"], ".jpg"),
    Profile("texts-tesseract-v1", ["texts", "tesseract-v1"], ".txt"),
    Profile("texts-ra-ocr", ["texts", "ra-ocr"], ".txt"),
    Profile("xml", ["xml"], ".xml"),
    Profile("altoxml", ["altoxml"], ".alto.xml"),
    Profile("metadata-v1", ["metadata", "v1"], ".yaml")
  ]

  predicate DistinctNames(ps: seq<Profile>)
  {
    forall i, j :: 0 <= i < j < |ps| ==> ps[i].name != ps[j].name
  }

  /**
   * What the scan needs of a registry: it is a dictionary (names are
   * unique), it has an "images" entry, and every profile has a first path
   * part to classify it by.
   */
  predicate ValidRegistry(ps: seq<Profile>)
  {
    && DistinctNames(ps)
    && (exists i :: 0 <= i < |ps| && ps[i].name == SOURCE_NAME)
    && (forall i :: 0 <= i < |ps| ==> |ps[i].pathParts| > 0)
  }

  /** `PROFILES['images']`. */
  function SourceProfile(ps: seq<Profile>): (p: Profile)
    requires ValidRegistry(ps)
    ensures p in ps && p.name == SOURCE_NAME
  {
    if ps[0].name == SOURCE_NAME then ps[0]
    else
      assert ValidRegistry(ps[1..]) by {
        var i :| 0 <= i < |ps| && ps[i].name == SOURCE_NAME;
        assert ps[1..][i - 1].name == SOURCE_NAME;
      }
      SourceProfile(ps[1..])
  }

  predicate IsTextProfile(p: Profile)
    requires |p.pathParts| > 0
  {
    p.pathParts[0] == TEXTS_DIR
  }

  function Names(ps: seq<Profile>): (r: set<string>)
    ensures forall n :: n in r <==> exists p :: p in ps && p.name == n
  {
    set p | p in ps :: p.name
  }

  /** The text editions, in registry order. */
  function TextProfiles(ps: seq<Profile>): (r: seq<Profile>)
    requires forall i :: 0 <= i < |ps| ==> |ps[i].pathParts| > 0
    ensures forall p :: p in r <==> p in ps && IsTextProfile(p)
    ensures DistinctNames(ps) ==> DistinctNames(r)
  {
    if ps == [] then []
    else
      var rest := TextProfiles(ps[1..]);
      assert forall p :: p in rest ==> p in ps[1..];
      assert DistinctNames(ps) ==> forall p :: p in rest ==> p.name != ps[0].name;
      if IsTextProfile(ps[0]) then [ps[0]] + rest else rest
  }

  /** The profiles that are neither the source nor a text edition, by name. */
  function StandardProfiles(ps: seq<Profile>): (r: seq<Profile>)
    requires forall i :: 0 <= i < |ps| ==> |ps[i].pathParts| > 0
  {
    KeepStandard(ps, Names(TextProfiles(ps)))
  }

  function KeepStandard(ps: seq<Profile>, textNames: set<string>): (r: seq<Profile>)
    ensures forall p :: p in r <==> p in ps && p.name != SOURCE_NAME && p.name !in textNames
    ensures DistinctNames(ps) ==> DistinctNames(r)
  {
    if ps == [] then []
    else
      var rest := KeepStandard(ps[1..], textNames);
      assert forall p :: p in rest ==> p in ps[1..];
      if ps[0].name != SOURCE_NAME && ps[0].name !in textNames then [ps[0]] + rest else rest
  }

  /**
   * The three groups partition the registry: every profile is a text
   * edition exactly when its first path part is "texts", a standard profile
   * exactly when it is neither that nor "images", and no profile is both.
   */
  lemma {:induction false} ProfilePartition(ps: seq<Profile>, p: Profile)
    requires ValidRegistry(ps)
    requires p in ps
    ensures p in TextProfiles(ps) <==> IsTextProfile(p)
    ensures p in StandardProfiles(ps) <==> p.name != SOURCE_NAME && !IsTextProfile(p)
    ensures !(p in TextProfiles(ps) && p in StandardProfiles(ps))
    ensures p.name == SOURCE_NAME ==> p == SourceProfile(ps) && p !in StandardProfiles(ps)
  {
    var src := SourceProfile(ps);
    if p.name == SOURCE_NAME {
      var i :| 0 <= i < |ps| && ps[i] == p;
      var k :| 0 <= k < |ps| && ps[k] == src;
      assert i == k;
    }
  }

  /** The shipped registry is a valid one, with "images" first. */
  lemma ShippedRegistryValid()
    ensures ValidRegistry(PROFILES)
    ensures SourceProfile(PROFILES) == PROFILES[0]
  {
    assert PROFILES[0].name == SOURCE_NAME;
  }

  /** The shipped registry has two text editions, in declaration order. */
  lemma ShippedTextProfiles()
    ensures TextProfiles(PROFILES) == [PROFILES[1], PROFILES[2]]
  {
    var ps := PROFILES;
    ShippedTextTail();
    assert ps[2..][1..] == ps[3..];
    assert ps[2].pathParts[0] == TEXTS_DIR;
    assert TextProfiles(ps[2..]) == [ps[2]];
    assert ps[1..][1..] == ps[2..];
    assert ps[1].pathParts[0] == TEXTS_DIR;
    assert TextProfiles(ps[1..]) == [ps[1], ps[2]];
    assert ps[0].pathParts[0] == "images" && |ps[0].pathParts[0]| == 6;
    assert ps[0..][1..] == ps[1..] && ps[0..] == ps;
  }

  /** None of the last three shipped profiles is a text edition. */
  lemma ShippedTextTail()
    ensures TextProfiles(PROFILES[3..]) == []
  {
    var ps := PROFILES;
    assert ps[5..][1..] == [];
    assert ps[5].pathParts[0] == "metadata" && |ps[5].pathParts[0]| == 8;
    assert TextProfiles(ps[5..]) == [];
    assert ps[4..][1..] == ps[5..];
    assert ps[4].pathParts[0] == "altoxml" && |ps[4].pathParts[0]| == 7;
    assert TextProfiles(ps[4..]) == [];
    assert ps[3..][1..] == ps[4..];
    assert ps[3].pathParts[0] == "xml" && |ps[3].pathParts[0]| == 3;
  }

  /** The shipped registry has three standard profiles, in declaration order. */
  lemma ShippedStandardProfiles()
    ensures StandardProfiles(PROFILES) == [PROFILES[3], PROFILES[4], PROFILES[5]]
  {
    ShippedRegistryValid();
    var texts := TextProfiles(PROFILES);
    ShippedTextProfiles();
    TwoNames(texts);
    ShippedKeepStandard(Names(texts));
  }

  lemma TwoNames(t: seq<Profile>)
    requires t == [PROFILES[1], PROFILES[2]]
    ensures Names(t) == {"texts-tesseract-v1", "texts-ra-ocr"}
  {
    assert t[0].name == "texts-tesseract-v1" && t[1].name == "texts-ra-ocr";
    assert t[0] in t && t[1] in t;
  }

  lemma ShippedKeepStandard(textNames: set<string>)
    requires textNames == {"texts-tesseract-v1", "texts-ra-ocr"}
    ensures KeepStandard(PROFILES, textNames) == [PROFILES[3], PROFILES[4], PROFILES[5]]
  {
    var ps := PROFILES;
    KeepShippedTail(textNames);
    assert ps[2..][1..] == ps[3..];
    assert ps[2].name == "texts-ra-ocr";
    assert KeepStandard(ps[2..], textNames) == ps[3..];
    assert ps[1..][1..] == ps[2..];
    assert ps[1].name == "texts-tesseract-v1";
    assert KeepStandard(ps[1..], textNames) == ps[3..];
    assert ps[0].name == SOURCE_NAME;
    assert ps[0..][1..] == ps[1..] && ps[0..] == ps;
  }

  /** The last three shipped profiles are all kept as standard ones. */
  lemma KeepShippedTail(textNames: set<string>)
    requires textNames == {"texts-tesseract-v1", "texts-ra-ocr"}
    ensures KeepStandard(PROFILES[3..], textNames) == PROFILES[3..]
  {
    var ps := PROFILES;
    assert ps[5..][1..] == [];
    assert ps[5].name == "metadata-v1" && |ps[5].name| == 11;
    assert KeepStandard(ps[5..], textNames) == ps[5..];
    assert ps[4..][1..] == ps[5..];
    assert ps[4].name == "altoxml" && |ps[4].name| == 7;
    assert KeepStandard(ps[4..], textNames) == ps[4..];
    assert ps[3..][1..] == ps[4..];
    assert ps[3].name == "xml" && |ps[3].name| == 3;
  }
}
