/**
 * The pure decisions of `corgi/tasks/brew.py`: how `save_component` maps a Cachito or Corgi type name, picks the
 * node type and builds the NEVRA; how `handle_dash_underscore_confusion` picks between the all-dash and
 * all-underscore spellings of a name; the tag update of `slow_update_brew_tags`; and the relations
 * `load_brew_tags` creates. Database queries are given as functions of the query key.
 */
module BrewTasks {
  import opened Wrappers
  import opened Text
  import opened ComponentModel
  import opened BrewCollector
  import Provenance

  /** The values of `Component.Type`. */
  const CorgiTypes: set<string> := {"CARGO", "OCI", "GEM", "GENERIC", "GITHUB", "GOLANG", "MAVEN", "NPM", "RPMMOD", "RPM", "PYPI"}

  /** The type a component is saved with, and the `go_component_type` recorded in its metadata, if any. */
  datatype MappedType = MappedType(ctype: string, goComponentType: Option<string>)

  /**
   * The type mapping of `save_component`: Go package and module names first, then the Cachito mapping (a
   * parameter: `Brew.CACHITO_PKG_TYPE_MAPPING` is not part of this model), then an upper-cased Corgi type.
   */
  function MapComponentType(t: string, cachito: map<string, string>): (r: Result<MappedType>)
    ensures r.Err? <==> t != "go-package" && t != "gomod" && t !in cachito && Upper(t) !in CorgiTypes
    ensures r.Err? ==> r.error.ValueError?
    ensures r.Ok? ==> (r.value.goComponentType.Some? <==> t == "go-package" || t == "gomod")
  {
    if t == "go-package" || t == "gomod" then Ok(MappedType("GOLANG", Some(t)))
    else if t in cachito then Ok(MappedType(cachito[t], None))
    else if Upper(t) in CorgiTypes then Ok(MappedType(Upper(t), None))
    else Err(ValueError("Tried to create component with invalid component_type: " + t))
  }

  predicate NoLowerCase(s: string) { forall i :: 0 <= i < |s| ==> !('a' <= s[i] <= 'z') }

  /** Upper-casing leaves a string without lower-case letters alone, and undoes lower-casing it. */
  lemma UpperKeeps(s: string)
    requires NoLowerCase(s)
    ensures Upper(s) == s && Upper(Lower(s)) == s
  {
    assert forall i :: 0 <= i < |s| ==> UpperChar(LowerChar(s[i])) == s[i];
  }

  lemma CorgiTypesUpper(c: string)
    requires c in CorgiTypes
    ensures NoLowerCase(c)
  {
  }

  /** Whatever is accepted is saved as a Corgi type, provided the Cachito mapping only names Corgi types. */
  lemma MapComponentTypeSound(t: string, cachito: map<string, string>)
    requires forall k :: k in cachito ==> cachito[k] in CorgiTypes
    ensures MapComponentType(t, cachito).Ok? ==> MapComponentType(t, cachito).value.ctype in CorgiTypes
  {
  }

  /** A Corgi type that is not a Cachito key maps to itself. */
  lemma MapComponentTypeKeeps(t: string, cachito: map<string, string>)
    requires t in CorgiTypes && t !in cachito
    ensures MapComponentType(t, cachito) == Ok(MappedType(t, None))
  {
    CorgiTypesUpper(t);
    UpperKeeps(t);
  }

  /** The lower-case spelling of a Corgi type is accepted and upper-cased, unless a Cachito key claims it. */
  lemma MapComponentTypeLower(t: string, cachito: map<string, string>)
    requires t in CorgiTypes && Lower(t) !in cachito && Lower(t) != "gomod" && Lower(t) != "go-package"
    ensures MapComponentType(Lower(t), cachito) == Ok(MappedType(t, None))
  {
    CorgiTypesUpper(t);
    UpperKeeps(t);
  }

  /** `PROVIDES_DEV` exactly for dev dependencies, which only a query that includes dev dependencies sees. */
  function NodeTypeFor(dev: bool): (r: Provenance.NodeType)
    ensures r in Provenance.ProvidesTypes(true)
    ensures r in Provenance.ProvidesTypes(false) <==> !dev
  {
    if dev then Provenance.ProvidesDev else Provenance.Provides
  }

  /** The NEVRA `save_component` builds; the arch is always there and the epoch only when non-zero. */
  function SavedNevra(name: string, epoch: int, version: string, release: string, arch: string): string
  {
    (if epoch != 0 then name + ":" + IntToString(epoch) + "-" + version else name + "-" + version)
    + ReleaseArch(release, arch)
  }

  /** The tail `save_component` appends after the version. */
  function ReleaseArch(release: string, arch: string): string
  {
    if release != "" then "-" + release + "." + arch else "." + arch
  }

  /** It is `Component.get_nevra` of the saved fields whenever the arch is non-empty. */
  lemma SavedNevraIsNevra(name: string, epoch: int, version: string, release: string, arch: string)
    requires arch != ""
    ensures SavedNevra(name, epoch, version, release, arch) == GetNevra(name, IntEpoch(epoch), version, release, arch)
  {
    var ep := EpochPart(IntEpoch(epoch));
    if epoch != 0 {
      assert ep == ":" + IntToString(epoch);
      AppendAssociative(name, ":", IntToString(epoch));
    } else {
      assert name + ep == name;
    }
    assert ReleaseArch(release, arch) == ReleaseSuffix(release) + ArchPart(arch);
    AppendAssociative(name + ep + "-" + version, ReleaseSuffix(release), ArchPart(arch));
  }

  /** The saved NEVRA always ends in `.arch`, and it starts with `name-version` when the epoch is zero. */
  lemma SavedNevraShape(name: string, epoch: int, version: string, release: string, arch: string)
    ensures EndsWith(SavedNevra(name, epoch, version, release, arch), "." + arch)
    ensures epoch == 0 ==> StartsWith(SavedNevra(name, epoch, version, release, arch), name + "-" + version)
  {
    var s := SavedNevra(name, epoch, version, release, arch);
    var tail := ReleaseArch(release, arch);
    var head := if epoch != 0 then name + ":" + IntToString(epoch) + "-" + version else name + "-" + version;
    assert s == head + tail;
    assert tail[|tail| - |"." + arch|..] == "." + arch;
    assert s[|s| - |"." + arch|..] == tail[|tail| - |"." + arch|..];
    if epoch == 0 {
      assert s[..|head|] == head;
    }
  }

  /** The metadata `save_component` pops; an absent arch or epoch is `None`. */
  datatype SaveInput = SaveInput(ctype: string, dev: bool, name: string, version: string, release: string,
                                 arch: Option<string>, epoch: Option<int>, url: string, repositoryUrl: string)

  /** What `save_component` saves before it touches the database. */
  datatype SavedComponent = SavedComponent(mapped: MappedType, nodeType: Provenance.NodeType, nevra: string,
                                           epoch: int, arch: string, relatedUrl: string)

  /** `save_component` up to the database write. */
  function SaveComponentFields(c: SaveInput, cachito: map<string, string>): (r: Result<SavedComponent>)
    ensures r.Err? <==> MapComponentType(c.ctype, cachito).Err?
    ensures r.Ok? ==> r.value.arch == c.arch.GetOr("noarch") && r.value.epoch == c.epoch.GetOr(0)
    ensures r.Ok? ==> EndsWith(r.value.nevra, "." + r.value.arch)
    ensures r.Ok? && r.value.arch != "" ==>
      r.value.nevra == GetNevra(c.name, IntEpoch(r.value.epoch), c.version, c.release, r.value.arch)
    ensures r.Ok? ==> (r.value.nodeType == Provenance.ProvidesDev <==> c.dev)
    ensures r.Ok? ==> r.value.relatedUrl == (if c.url != "" then c.url else c.repositoryUrl)
  {
    match MapComponentType(c.ctype, cachito)
    case Err(e) => Err(e)
    case Ok(mapped) =>
      var arch := c.arch.GetOr("noarch");
      var epoch := c.epoch.GetOr(0);
      SavedNevraShape(c.name, epoch, c.version, c.release, arch);
      assert arch != "" ==> SavedNevra(c.name, epoch, c.version, c.release, arch) == GetNevra(c.name, IntEpoch(epoch), c.version, c.release, arch) by {
        if arch != "" { SavedNevraIsNevra(c.name, epoch, c.version, c.release, arch); }
      }
      var relatedUrl := if c.url != "" then c.url else c.repositoryUrl;
      Ok(SavedComponent(mapped, NodeTypeFor(c.dev), SavedNevra(c.name, epoch, c.version, c.release, arch), epoch, arch, relatedUrl))
  }

  // handle_dash_underscore_confusion

  /** The NEVRA with the first occurrence of the name spelt with dashes only, and with underscores only. */
  function NevraVariants(name: string, nevra: string): (string, string)
    requires |name| > 0
  {
    (ReplaceFirst(nevra, name, SwapChar(name, '_', '-')), ReplaceFirst(nevra, name, SwapChar(name, '-', '_')))
  }

  /**
   * `handle_dash_underscore_confusion`: `count(n)` is the number of components of the type whose NEVRA equals `n`
   * ignoring case. A union of two querysets counts each row once. The result names the variant whose single
   * match is returned.
   */
  function HandleDashUnderscore(name: string, nevra: string, count: string -> nat): (r: Result<string>)
    ensures r.Ok? ==> |name| > 0 && count(r.value) == 1
    ensures r.Ok? ==> r.value == NevraVariants(name, nevra).0 || r.value == NevraVariants(name, nevra).1
    ensures !Contains(name, "-") && !Contains(name, "_") ==> r.Err?
    ensures r.Err? ==> r.error.ValueError?
  {
    var hasDash := Contains(name, "-");
    var hasUnderscore := Contains(name, "_");
    if !hasDash && !hasUnderscore then
      Err(ValueError("no dashes or underscores"))
    else
      var (withDash, withUnderscore) := NevraVariants(name, nevra);
      var dashCount := count(withDash);
      var underscoreCount := count(withUnderscore);
      var found: (nat, string) :=
        if hasDash && hasUnderscore then
          if dashCount > 0 && underscoreCount > 0 then
            (if withDash == withUnderscore then dashCount else dashCount + underscoreCount, withDash)
          else if dashCount == 1 then (1, withDash)
          else if underscoreCount == 1 then (1, withUnderscore)
          else (0, "")
        else if hasDash then (underscoreCount, withUnderscore)
        else (dashCount, withDash);
      if hasDash && hasUnderscore && found.0 == 0 then Err(ValueError("new edge case"))
      else if found.0 != 1 then Err(ValueError("too many matches"))
      else Ok(found.1)
  }

  lemma ReplaceFirstAt(s: string, pat: string, rep: string, k: nat)
    requires |pat| > 0 && Contains(s, pat) && k < |rep|
    ensures var i := IndexOf(s, pat).value; i + k < |ReplaceFirst(s, pat, rep)| && ReplaceFirst(s, pat, rep)[i + k] == rep[k]
  {
  }

  /** When the name occurs in the NEVRA and has both separators, the two variants differ. */
  lemma VariantsDiffer(name: string, nevra: string)
    requires Contains(name, "-") && Contains(name, "_") && Contains(nevra, name)
    ensures NevraVariants(name, nevra).0 != NevraVariants(name, nevra).1
  {
    var k := IndexOf(name, "-").value;
    assert name[k] == '-' by { assert name[k..k + 1] == "-"; }
    var dashName := SwapChar(name, '_', '-');
    var underscoreName := SwapChar(name, '-', '_');
    ReplaceFirstAt(nevra, name, dashName, k);
    ReplaceFirstAt(nevra, name, underscoreName, k);
  }

  /**
   * A name with both separators never resolves when both spellings have matches: the union then holds at
   * least two rows, so only one spelling with exactly one match and none for the other succeeds.
   */
  lemma BothSpellingsFound(name: string, nevra: string, count: string -> nat)
    requires Contains(name, "-") && Contains(name, "_") && Contains(nevra, name)
    requires count(NevraVariants(name, nevra).0) > 0 && count(NevraVariants(name, nevra).1) > 0
    ensures HandleDashUnderscore(name, nevra, count).Err?
  {
    VariantsDiffer(name, nevra);
  }

  /** A name with one kind of separator resolves exactly when the other spelling has one match. */
  lemma OneSeparatorResolves(name: string, nevra: string, count: string -> nat)
    requires Contains(name, "-") != Contains(name, "_")
    ensures var (withDash, withUnderscore) := NevraVariants(name, nevra);
      var other := if Contains(name, "-") then withUnderscore else withDash;
      HandleDashUnderscore(name, nevra, count) == (if count(other) == 1 then Ok(other) else Err(ValueError("too many matches")))
  {
  }

  // slow_update_brew_tags

  /** The outcome messages of `slow_update_brew_tags`. */
  datatype TagUpdate = NotIngested | Updated | RefreshRequested

  /** The tag list `meta_attr["tags"]` of an ingested Brew build and the advisory ids derived from it. */
  class BrewBuild {
    var tags: seq<string>
    var errataTags: set<string>

    constructor (tags: seq<string>)
      ensures this.tags == tags && errataTags == AdvisoryIds(tags)
    {
      this.tags := tags;
      this.errataTags := AdvisoryIds(tags);
    }
  }

  /** `slow_update_brew_tags`; `build` is null when no build with the id was ingested. */
  method UpdateBrewTags(build: BrewBuild?, tagAdded: string, tagRemoved: string) returns (r: Result<TagUpdate>)
    modifies build
    ensures tagAdded == "" && tagRemoved == "" ==> r == Err(ValueError("Must supply one tag to be added or removed"))
    ensures (tagAdded != "" || tagRemoved != "") && build == null ==> r == Ok(NotIngested)
    ensures build != null && tagAdded != "" ==>
      r == Ok(Updated) && build.tags == SortedDistinct(old(build.tags) + [tagAdded]) && build.errataTags == AdvisoryIds(build.tags)
    ensures build != null && tagAdded == "" && tagRemoved != "" && tagRemoved in old(build.tags) ==>
      r == Ok(Updated) && build.tags == RemoveFirst(old(build.tags), tagRemoved) && build.errataTags == AdvisoryIds(build.tags)
    ensures build != null && tagAdded == "" && tagRemoved != "" && tagRemoved !in old(build.tags) ==>
      r == Ok(RefreshRequested) && build.tags == old(build.tags) && build.errataTags == old(build.errataTags)
    ensures build != null && r.Err? ==> build.tags == old(build.tags) && build.errataTags == old(build.errataTags)
  {
    if tagAdded == "" && tagRemoved == "" {
      return Err(ValueError("Must supply one tag to be added or removed"));
    }
    if build == null {
      return Ok(NotIngested);
    }
    if tagAdded != "" {
      build.tags := SortedDistinct(build.tags + [tagAdded]);
    } else {
      if tagRemoved !in build.tags {
        return Ok(RefreshRequested);
      }
      build.tags := RemoveFirst(build.tags, tagRemoved);
    }
    build.errataTags := ExtractAdvisoryIds(build.tags);
    return Ok(Updated);
  }

  /** An added tag leaves the tags sorted, without duplicates, holding the new tag and every old one and no other. */
  lemma AddTagSortedSet(tags: seq<string>, tag: string)
    ensures StrictlySorted(SortedDistinct(tags + [tag]))
    ensures forall t :: t in SortedDistinct(tags + [tag]) <==> t in tags || t == tag
  {
    assert forall t :: t in tags + [tag] <==> t in tags || t == tag;
  }

  /** Adding the same tag again changes nothing, and neither does adding a tag already present. */
  lemma AddTagIdempotent(tags: seq<string>, tag: string)
    ensures SortedDistinct(SortedDistinct(tags + [tag]) + [tag]) == SortedDistinct(tags + [tag])
    ensures StrictlySorted(tags) && tag in tags ==> SortedDistinct(tags + [tag]) == tags
  {
    var once := SortedDistinct(tags + [tag]);
    AddTagSortedSet(tags, tag);
    AddTagSortedSet(once, tag);
    StrictlySortedUnique(SortedDistinct(once + [tag]), once);
    if StrictlySorted(tags) && tag in tags {
      StrictlySortedUnique(once, tags);
    }
  }

  /** Removing a present tag drops exactly one occurrence of it. */
  lemma {:induction false} RemoveTagOnce<T>(tags: seq<T>, tag: T)
    requires tag in tags
    ensures |RemoveFirst(tags, tag)| == |tags| - 1
    ensures multiset(RemoveFirst(tags, tag)) == multiset(tags) - multiset{tag}
  {
    if tags[0] != tag {
      RemoveTagOnce(tags[1..], tag);
      assert tags == [tags[0]] + tags[1..];
    } else {
      assert tags == [tag] + tags[1..];
    }
  }

  // load_brew_tags

  /** The key of a `ProductComponentRelation` row: tag, stream name, build id and build type. */
  datatype Relation = Relation(tag: string, stream: string, buildId: string, buildType: string)

  /** A product stream with non-empty `brew_tags`, by name and tag set. */
  datatype StreamTags = StreamTags(name: string, tags: set<string>)

  /** `_relation_context_for_stream`: the CentOS build type for "openstack-rdo" in community mode. */
  function BuildTypeFor(stream: string, community: bool, defaultType: string): string
  {
    if community && stream == "openstack-rdo" then "CENTOS" else defaultType
  }

  /** The relations of one stream for the given tags. */
  function StreamRelations(tags: set<string>, stream: string, buildId: string, buildType: string): set<Relation>
  {
    set t | t in tags :: Relation(t, stream, buildId, buildType)
  }

  /** The relations `load_brew_tags` wants: one per stream and tag the build and the stream share. */
  function WantedRelations(buildId: string, brewTags: seq<string>, streams: seq<StreamTags>, community: bool,
                           defaultType: string): set<Relation>
  {
    if streams == [] then {}
    else
      var s := streams[|streams| - 1];
      WantedRelations(buildId, brewTags, streams[..|streams| - 1], community, defaultType)
      + StreamRelations(TagSet(brewTags) * s.tags, s.name, buildId, BuildTypeFor(s.name, community, defaultType))
  }

  /** The distinct tags of the build. */
  function TagSet(tags: seq<string>): (r: set<string>)
    ensures forall t :: t in r <==> t in tags
  {
    set t | t in tags
  }

  /** The relations wanted for one more stream are those for the streams before it and its own. */
  lemma WantedSnoc(buildId: string, brewTags: seq<string>, streams: seq<StreamTags>, i: nat, community: bool,
                   defaultType: string)
    requires i < |streams|
    ensures WantedRelations(buildId, brewTags, streams[..i + 1], community, defaultType) ==
            WantedRelations(buildId, brewTags, streams[..i], community, defaultType) +
            StreamRelations(TagSet(brewTags) * streams[i].tags, streams[i].name, buildId,
                            BuildTypeFor(streams[i].name, community, defaultType))
  {
    assert streams[..i + 1][..i] == streams[..i];
  }

  /** Adding a relation counts as a creation exactly when it was not there. */
  lemma AddedCount(relations: set<Relation>, existing: set<Relation>, key: Relation)
    requires existing <= relations
    ensures |(relations + {key}) - existing| == |relations - existing| + (if key in relations then 0 else 1)
  {
    if key !in relations {
      assert (relations + {key}) - existing == (relations - existing) + {key};
    } else {
      assert (relations + {key}) - existing == relations - existing;
    }
  }

  /** One more tag adds its own relation. */
  lemma StreamRelationsAdd(done: set<string>, tag: string, stream: string, buildId: string, buildType: string)
    ensures StreamRelations(done + {tag}, stream, buildId, buildType) ==
            StreamRelations(done, stream, buildId, buildType) + {Relation(tag, stream, buildId, buildType)}
  {
  }

  /** The inner loop of `load_brew_tags`: `update_or_create` for each shared tag of one stream. */
  method AddStreamRelations(shared: set<string>, stream: string, buildId: string, buildType: string,
                            existing: set<Relation>, relations0: set<Relation>, created0: nat)
    returns (relations: set<Relation>, created: nat)
    requires existing <= relations0 && created0 == |relations0 - existing|
    ensures relations == relations0 + StreamRelations(shared, stream, buildId, buildType)
    ensures created == |relations - existing|
  {
    relations, created := relations0, created0;
    var todo := shared;
    while todo != {}
      invariant todo <= shared && existing <= relations
      invariant relations == relations0 + StreamRelations(shared - todo, stream, buildId, buildType)
      invariant created == |relations - existing|
      decreases |todo|
    {
      var tag :| tag in todo;
      relations, created := UpdateOrCreate(Relation(tag, stream, buildId, buildType), existing, relations, created);
      TakeOne(shared, todo, tag);
      StreamRelationsAdd(shared - todo, tag, stream, buildId, buildType);
      todo := todo - {tag};
    }
    assert shared - todo == shared;
  }

  /** Taking one tag from those still to do moves it to those done, and leaves fewer to do. */
  lemma TakeOne(shared: set<string>, todo: set<string>, tag: string)
    requires tag in todo && todo <= shared
    ensures shared - (todo - {tag}) == (shared - todo) + {tag}
    ensures todo - {tag} <= shared && |todo - {tag}| < |todo|
  {
  }

  /** `update_or_create` of one relation, counting it when it did not exist. */
  method UpdateOrCreate(key: Relation, existing: set<Relation>, relations0: set<Relation>, created0: nat)
    returns (relations: set<Relation>, created: nat)
    requires existing <= relations0 && created0 == |relations0 - existing|
    ensures relations == relations0 + {key} && existing <= relations
    ensures created == |relations - existing|
    ensures created == created0 + (if key in relations0 then 0 else 1)
  {
    AddedCount(relations0, existing, key);
    created := created0;
    if key !in relations0 {
      created := created + 1;
    }
    relations := relations0 + {key};
  }

  /** `load_brew_tags`: `update_or_create` for every shared tag, counting the rows that did not exist. */
  method LoadBrewTags(buildId: string, brewTags: seq<string>, streams: seq<StreamTags>, community: bool,
                      defaultType: string, existing: set<Relation>)
    returns (created: nat, relations: set<Relation>)
    ensures relations == existing + WantedRelations(buildId, brewTags, streams, community, defaultType)
    ensures created == |relations - existing|
  {
    relations := existing;
    created := 0;
    var distinctBrewTags := TagSet(brewTags);
    var i := 0;
    while i < |streams|
      invariant 0 <= i <= |streams|
      invariant relations == existing + WantedRelations(buildId, brewTags, streams[..i], community, defaultType)
      invariant created == |relations - existing|
    {
      var stream := streams[i];
      WantedSnoc(buildId, brewTags, streams, i, community, defaultType);
      relations, created := AddStreamRelations(distinctBrewTags * stream.tags, stream.name, buildId,
                                               BuildTypeFor(stream.name, community, defaultType), existing, relations, created);
      i := i + 1;
    }
    assert streams[..|streams|] == streams;
  }

  /** Every relation `load_brew_tags` creates joins the build to a stream through a tag both of them carry. */
  lemma {:induction false} CreatedOnlyForSharedTags(buildId: string, brewTags: seq<string>, streams: seq<StreamTags>, community: bool,
                                 defaultType: string, rel: Relation)
    requires rel in WantedRelations(buildId, brewTags, streams, community, defaultType)
    ensures rel.tag in brewTags && rel.buildId == buildId
    ensures exists s :: s in streams && s.name == rel.stream && rel.tag in s.tags
    decreases |streams|
  {
    var last := streams[|streams| - 1];
    var prefix := streams[..|streams| - 1];
    if rel in WantedRelations(buildId, brewTags, prefix, community, defaultType) {
      CreatedOnlyForSharedTags(buildId, brewTags, prefix, community, defaultType, rel);
      var s :| s in prefix && s.name == rel.stream && rel.tag in s.tags;
      assert s in streams;
    } else {
      assert last in streams;
    }
  }
}
