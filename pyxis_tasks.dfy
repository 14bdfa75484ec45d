// The Pyxis tasks: the reading of one manifest component into the fields it is saved with, the choice between
// a cached repository and a fresh lookup of an image by NVR, the renaming of container components after that
// repository, and the manifest's creation date check. The ORM writes are left out.

module PyxisTasks {
  import opened Wrappers
  import opened Text
  import opened PyxisCollector
  import BrewTasks

  // ---------------------------------------------------------------------------------------------
  // save_component
  // ---------------------------------------------------------------------------------------------

  /** The fields a manifest component is saved with. */
  datatype SavedComponent = SavedComponent(ctype: string, name: string, version: string, release: string,
                                           epoch: int, arch: string, relatedUrl: string)

  /** The component type a purl names: the text between "pkg:" and the first '/', upper-cased. */
  function PurlType(purl: string): string
    requires StartsWith(purl, "pkg:")
  {
    Upper(Split(purl[4..], "/")[0])
  }

  /** The website reference's url, if any reference is a website. */
  function WebsiteUrl(r: Reference): Option<string>
  {
    if r.kind == "website" then Some(r.url) else None
  }

  /** The related url: the first website reference, else the first reference, else "". */
  function RelatedUrl(refs: seq<Reference>): string
  {
    match FirstSome(refs, WebsiteUrl)
    case Some(url) => url
    case None => if refs == [] then "" else refs[0].url
  }

  /** The for-else loop over the references. */
  method FindRelatedUrl(refs: seq<Reference>) returns (relatedUrl: string)
    ensures relatedUrl == RelatedUrl(refs)
  {
    for i := 0 to |refs|
      invariant FirstSome(refs, WebsiteUrl) == FirstSome(refs[i..], WebsiteUrl)
    {
      if refs[i].kind == "website" {
        return refs[i].url;
      }
      assert refs[i..] == [refs[i]] + refs[i + 1..];
    }
    assert FirstSome(refs[|refs|..], WebsiteUrl) == None;
    relatedUrl := if refs == [] then "" else refs[0].url;
  }

  /** A website reference wins over every other; without one the first reference is used. */
  lemma RelatedUrlPrefersWebsite(refs: seq<Reference>)
    ensures (exists i :: 0 <= i < |refs| && refs[i].kind == "website") ==>
      exists i :: 0 <= i < |refs| && refs[i].kind == "website" && RelatedUrl(refs) == refs[i].url &&
        forall j :: 0 <= j < i ==> refs[j].kind != "website"
    ensures (forall i :: 0 <= i < |refs| ==> refs[i].kind != "website") ==>
      RelatedUrl(refs) == if refs == [] then "" else refs[0].url
  {
    if exists i :: 0 <= i < |refs| && refs[i].kind == "website" {
      var i :| 0 <= i < |refs| && refs[i].kind == "website";
      assert WebsiteUrl(refs[i]).Some?;
      var r := FirstSome(refs, WebsiteUrl);
      assert r.Some?;
      var k :| 0 <= k < |refs| && WebsiteUrl(refs[k]) == r && NoneBefore(refs, WebsiteUrl, k);
      assert refs[k].kind == "website" && RelatedUrl(refs) == refs[k].url;
      forall j | 0 <= j < k ensures refs[j].kind != "website" {
        assert WebsiteUrl(refs[j]).None?;
      }
    } else {
      assert forall i :: 0 <= i < |refs| ==> WebsiteUrl(refs[i]).None?;
    }
  }

  /** The value of the last property named `name`, if any. */
  function LastProperty(props: seq<Property>, name: string): Option<string>
  {
    if props == [] then None
    else if props[|props| - 1].name == name then Some(props[|props| - 1].value)
    else LastProperty(props[..|props| - 1], name)
  }

  const ReleaseProperty := "syft:metadata:release"
  const EpochProperty := "syft:metadata:epoch"

  /** The release loop: each matching property overwrites the release. */
  method FindRelease(props: seq<Property>) returns (release: string)
    ensures release == LastProperty(props, ReleaseProperty).GetOr("")
  {
    release := "";
    for i := 0 to |props|
      invariant release == LastProperty(props[..i], ReleaseProperty).GetOr("")
    {
      assert props[..i + 1][..i] == props[..i];
      if props[i].name == ReleaseProperty {
        release := props[i].value;
      }
    }
    assert props[..|props|] == props;
  }

  /** The epoch loop's result: every matching property is parsed with `int()` in turn, the last one counts. */
  function Epoch(props: seq<Property>): Result<int>
  {
    if props == [] then Ok(0)
    else
      match Epoch(props[..|props| - 1])
      case Err(e) => Err(e)
      case Ok(epoch) =>
        var p := props[|props| - 1];
        if p.name == EpochProperty then ParseInt(p.value) else Ok(epoch)
  }

  lemma {:induction false} EpochErrStays(props: seq<Property>, n: nat)
    requires n <= |props| && Epoch(props[..n]).Err?
    ensures Epoch(props) == Epoch(props[..n])
    decreases |props| - n
  {
    if n < |props| {
      assert props[..n + 1][..n] == props[..n];
      EpochErrStays(props, n + 1);
    } else {
      assert props[..n] == props;
    }
  }

  method FindEpoch(props: seq<Property>) returns (r: Result<int>)
    ensures r == Epoch(props)
  {
    var epoch := 0;
    for i := 0 to |props|
      invariant Epoch(props[..i]) == Ok(epoch)
    {
      assert props[..i + 1][..i] == props[..i];
      if props[i].name == EpochProperty {
        var parsed := ParseInt(props[i].value);
        if parsed.Err? {
          EpochErrStays(props, i + 1);
          return parsed;
        }
        epoch := parsed.value;
      }
    }
    assert props[..|props|] == props;
    return Ok(epoch);
  }

  /** The epoch fails iff some epoch property, not only the last, is not an integer. */
  lemma {:induction false} EpochFails(props: seq<Property>)
    ensures Epoch(props).Err? <==>
      exists i :: 0 <= i < |props| && props[i].name == EpochProperty && ParseInt(props[i].value).Err?
  {
    if props != [] {
      var n := |props| - 1;
      var pre := props[..n];
      EpochFails(pre);
      assert forall i :: 0 <= i < n ==> pre[i] == props[i];
      if Epoch(pre).Err? {
        var i :| 0 <= i < n && pre[i].name == EpochProperty && ParseInt(pre[i].value).Err?;
        assert props[i] == pre[i];
      } else if exists i :: 0 <= i < |props| && props[i].name == EpochProperty && ParseInt(props[i].value).Err? {
        var i :| 0 <= i < |props| && props[i].name == EpochProperty && ParseInt(props[i].value).Err?;
        assert i == n;
      }
    }
  }

  /** The epoch is 0 without an epoch property and otherwise the value of the last one. */
  lemma {:induction false} EpochIsLast(props: seq<Property>)
    ensures Epoch(props).Ok? && LastProperty(props, EpochProperty).None? ==> Epoch(props).value == 0
    ensures Epoch(props).Ok? && LastProperty(props, EpochProperty).Some? ==>
      ParseInt(LastProperty(props, EpochProperty).value) == Epoch(props)
  {
    if props != [] {
      EpochIsLast(props[..|props| - 1]);
    }
  }

  /** The release is "" without a release property and otherwise the last one's value. */
  lemma {:induction false} LastPropertyIsLast(props: seq<Property>, name: string)
    ensures LastProperty(props, name).None? <==> forall i :: 0 <= i < |props| ==> props[i].name != name
    ensures LastProperty(props, name).Some? ==>
      exists i :: 0 <= i < |props| && props[i] == Property(name, LastProperty(props, name).value) &&
        forall j :: i < j < |props| ==> props[j].name != name
  {
    if props != [] {
      var n := |props| - 1;
      var pre := props[..n];
      LastPropertyIsLast(pre, name);
      assert forall i :: 0 <= i < n ==> pre[i] == props[i];
      if props[n].name != name && LastProperty(pre, name).Some? {
        var i :| 0 <= i < n && pre[i] == Property(name, LastProperty(pre, name).value) &&
          forall j :: i < j < n ==> pre[j].name != name;
        assert props[i] == pre[i];
      }
    }
  }

  /**
   * The arch: the first "arch" value of the purl's query string, "noarch" without one. `firstArch` stands for
   * `parse_qs(query).get("arch", ...)[0]`.
   */
  function Arch(purl: string, firstArch: string -> Option<string>): string
  {
    if Contains(purl, "?") then
      var parts := Split(purl, "?");
      firstArch(parts[|parts| - 1]).GetOr("noarch")
    else "noarch"
  }

  /**
   * `save_component` up to the ORM write: Ok(None) for a component without a purl (nothing is saved), an error
   * for a purl that is not "pkg:" or names no Corgi type, and otherwise the fields it is saved with.
   */
  function SaveComponent(c: ManifestComponent, firstArch: string -> Option<string>): (r: Result<Option<SavedComponent>>)
    ensures r == Ok(None) <==> c.purl.GetOr("") == ""
    ensures c.purl.GetOr("") != "" && !StartsWith(c.purl.value, "pkg:") ==> r.Err?
    ensures r.Ok? && r.value.Some? ==>
      StartsWith(c.purl.value, "pkg:") && r.value.value.ctype == PurlType(c.purl.value) &&
      r.value.value.ctype in BrewTasks.CorgiTypes && (!Contains(c.purl.value, "?") ==> r.value.value.arch == "noarch")
  {
    var purl := c.purl.GetOr("");
    if purl == "" then Ok(None)
    else if !StartsWith(purl, "pkg:") then Err(ValueError("Encountered unrecognized purl prefix " + purl))
    else if PurlType(purl) !in BrewTasks.CorgiTypes then
      Err(ValueError("Tried to create component with invalid component_type: " + PurlType(purl)))
    else
      var props := c.properties.GetOr([]);
      match Epoch(props)
      case Err(e) => Err(e)
      case Ok(epoch) =>
        Ok(Some(SavedComponent(PurlType(purl), c.name.GetOr(""), c.version.GetOr(""),
                               LastProperty(props, ReleaseProperty).GetOr(""), epoch, Arch(purl, firstArch),
                               RelatedUrl(c.externalReferences.GetOr([])))))
  }

  method SaveManifestComponent(c: ManifestComponent, firstArch: string -> Option<string>)
    returns (r: Result<Option<SavedComponent>>)
    ensures r == SaveComponent(c, firstArch)
  {
    var purl := c.purl.GetOr("");
    if purl == "" {
      return Ok(None);
    }
    if !StartsWith(purl, "pkg:") {
      return Err(ValueError("Encountered unrecognized purl prefix " + purl));
    }
    var componentType := Upper(Split(purl[4..], "/")[0]);
    if componentType !in BrewTasks.CorgiTypes {
      return Err(ValueError("Tried to create component with invalid component_type: " + componentType));
    }
    var relatedUrl := FindRelatedUrl(c.externalReferences.GetOr([]));
    var release := FindRelease(c.properties.GetOr([]));
    var epoch := FindEpoch(c.properties.GetOr([]));
    if epoch.Err? {
      return Err(epoch.error);
    }
    var arch := "noarch";
    if Contains(purl, "?") {
      var parts := Split(purl, "?");
      arch := firstArch(parts[|parts| - 1]).GetOr(arch);
    }
    return Ok(Some(SavedComponent(componentType, c.name.GetOr(""), c.version.GetOr(""), release, epoch.value,
                                  arch, relatedUrl)));
  }

  // ---------------------------------------------------------------------------------------------
  // Image lookup and container renaming
  // ---------------------------------------------------------------------------------------------

  /**
   * `slow_fetch_pyxis_image_by_nvr`: `cached` are the repository names cached for the NVR and `lookup` the answer
   * of a fresh lookup. Without a cached name, or when forced, the lookup decides; two or more cached names fail.
   */
  function ImageRepository(nvr: string, cached: seq<string>, force: bool, lookup: Result<string>): (r: Result<string>)
    ensures cached == [] || force ==> r == lookup
    ensures cached != [] && !force ==> (r.Err? <==> |cached| > 1)
    ensures r.Ok? && cached != [] && !force ==> r.value in cached
  {
    if cached == [] || force then lookup
    else if |cached| > 1 then Err(ValueError("Found more than one repository matching nvr " + nvr))
    else Ok(cached[0])
  }

  const ContainerRepository := "registry.redhat.io"

  /** A container component as the renaming sees it. */
  datatype Container = Container(isImage: bool, nvr: string, name: string, relatedUrl: string, repositoryUrl: string)

  /** The name and url a container of the repository should carry: the last '/' segment and the registry url. */
  function RepositoryName(repoName: string): (r: (string, string))
    ensures EndsWith(repoName, r.0) && Free(r.0, '/')
    ensures |r.0| == |repoName| <==> Free(repoName, '/')
    ensures |r.0| < |repoName| ==> repoName[|repoName| - |r.0| - 1] == '/'
    ensures r.1 == ContainerRepository + "/" + repoName
  {
    (AfterLast(repoName, '/'), ContainerRepository + "/" + repoName)
  }

  /** The name is the second part of `rsplit("/", 1)`, or the whole name when it holds no "/". */
  lemma RepositoryNameIsRSplit(repoName: string)
    ensures RepositoryName(repoName).0 ==
      (if RSplitOnce(repoName, '/').Some? then RSplitOnce(repoName, '/').value.1 else repoName)
  {
    AfterLastRSplit(repoName, '/');
  }

  /** A repository path "namespace/name" gives the name. */
  lemma RepositoryNameOfPath(namespace: string, name: string)
    requires Free(name, '/')
    ensures RepositoryName(namespace + "/" + name).0 == name
  {
    RSplitOnceAt(namespace, '/', name);
    RepositoryNameIsRSplit(namespace + "/" + name);
  }

  /** The containers the renaming looks at: images of the NVR. */
  predicate Selected(c: Container, nvr: string) { c.isImage && c.nvr == nvr }

  /** A selected container whose name or urls differ from the target is renamed and saved. */
  predicate Stale(c: Container, name: string, url: string)
  {
    c.name != name || c.repositoryUrl != url || c.relatedUrl != url
  }

  function Renamed(c: Container, name: string, url: string): Container
  {
    c.(name := name, relatedUrl := url, repositoryUrl := url)
  }

  /**
   * `slow_update_name_for_container_from_pyxis` once the repository name is known: returns whether it was, the
   * containers afterwards and the positions of those saved, in order.
   */
  method UpdateContainerNames(nvr: string, repoName: string, containers: seq<Container>)
    returns (ok: bool, updated: seq<Container>, saved: seq<nat>)
    ensures ok <==> repoName != ""
    ensures !ok ==> updated == containers && saved == []
    ensures |updated| == |containers|
    ensures ok ==> forall i :: 0 <= i < |containers| ==>
      updated[i] == (if Selected(containers[i], nvr) then Renamed(containers[i], RepositoryName(repoName).0, RepositoryName(repoName).1)
                     else containers[i])
    ensures ok ==> forall i :: i in saved <==> (0 <= i < |containers| && Selected(containers[i], nvr) &&
                                                Stale(containers[i], RepositoryName(repoName).0, RepositoryName(repoName).1))
    ensures forall k, l :: 0 <= k < l < |saved| ==> saved[k] < saved[l]
  {
    if repoName == "" {
      return false, containers, [];
    }
    var (name, url) := RepositoryName(repoName);
    updated, saved := RenameContainers(nvr, name, url, containers);
    ok := true;
  }

  /** The loop over the containers with the NVR: each stale one is renamed and its position saved. */
  method RenameContainers(nvr: string, name: string, url: string, containers: seq<Container>)
    returns (updated: seq<Container>, saved: seq<nat>)
    ensures |updated| == |containers|
    ensures forall i :: 0 <= i < |containers| ==>
      updated[i] == (if Selected(containers[i], nvr) then Renamed(containers[i], name, url) else containers[i])
    ensures forall i :: i in saved <==> (0 <= i < |containers| && Selected(containers[i], nvr) &&
                                         Stale(containers[i], name, url))
    ensures forall k, l :: 0 <= k < l < |saved| ==> saved[k] < saved[l]
  {
    updated := containers;
    saved := [];
    for i := 0 to |containers|
      invariant |updated| == |containers|
      invariant forall j :: 0 <= j < i ==>
        updated[j] == (if Selected(containers[j], nvr) then Renamed(containers[j], name, url) else containers[j])
      invariant forall j :: i <= j < |containers| ==> updated[j] == containers[j]
      invariant forall j :: j in saved <==> 0 <= j < i && Selected(containers[j], nvr) && Stale(containers[j], name, url)
      invariant forall k, l :: 0 <= k < l < |saved| ==> saved[k] < saved[l]
      invariant forall k :: 0 <= k < |saved| ==> saved[k] < i
    {
      var c := containers[i];
      if !Selected(c, nvr) {
        continue;
      }
      if Stale(c, name, url) {
        updated := updated[i := Renamed(c, name, url)];
        saved := saved + [i];
      } else {
        assert Renamed(c, name, url) == c;
      }
    }
  }

  /** Renaming twice saves nothing the second time. */
  lemma RenameIdempotent(c: Container, repoName: string)
    ensures !Stale(Renamed(c, RepositoryName(repoName).0, RepositoryName(repoName).1), RepositoryName(repoName).0,
                   RepositoryName(repoName).1)
  {
  }

  // ---------------------------------------------------------------------------------------------
  // The manifest of one repository
  // ---------------------------------------------------------------------------------------------

  /**
   * The completion time of a manifest's build: its creation date up to the first '.', parsed by `parse` (Django's
   * `parse_datetime`, seconds since the epoch). A missing or empty date and an unparsable one both fail.
   */
  function CompletionTime(imageId: string, creationDate: Option<string>, parse: string -> Option<int>): (r: Result<int>)
    ensures creationDate.GetOr("") == "" ==> r == Err(ValueError("No completion_time for build " + imageId))
    ensures r.Ok? ==> creationDate.GetOr("") != "" && parse(Split(creationDate.value, ".")[0]) == Some(r.value)
    ensures creationDate.GetOr("") != "" && parse(Split(creationDate.value, ".")[0]).Some? ==>
      r == Ok(parse(Split(creationDate.value, ".")[0]).value)
    ensures creationDate.GetOr("") != "" && parse(Split(creationDate.value, ".")[0]).None? ==>
      r == Err(ValueError("Could not parse completion_time for build " + imageId))
  {
    var date := creationDate.GetOr("");
    if date == "" then Err(ValueError("No completion_time for build " + imageId))
    else
      match parse(Split(date, ".")[0])
      case None => Err(ValueError("Could not parse completion_time for build " + imageId))
      case Some(t) => Ok(t)
  }

  /** A date with fractional seconds is parsed without them: the text before the first "." decides. */
  lemma CompletionTimeDropsFraction(imageId: string, date: string, fraction: string, parse: string -> Option<int>)
    requires Free(date, '.')
    ensures CompletionTime(imageId, Some(date + "." + fraction), parse) ==
      if parse(date).Some? then Ok(parse(date).value)
      else Err(ValueError("Could not parse completion_time for build " + imageId))
  {
    SplitFirstBefore(date, '.', fraction);
  }

  /** The component name (the repository path's last segment) and the repository url of a manifest's repository. */
  function RepositoryComponent(registry: string, repository: string): (r: (string, string))
    ensures Free(r.0, '/') && EndsWith(repository, r.0)
    ensures |r.0| == |repository| <==> Free(repository, '/')
    ensures |r.0| < |repository| ==> repository[|repository| - |r.0| - 1] == '/'
    ensures r.1 == registry + "/" + repository
  {
    var parts := Split(repository, "/");
    SplitLastIsAfterLast(repository, '/');
    (parts[|parts| - 1], registry + "/" + repository)
  }

  /** `split("/")[-1]` here and `rsplit("/", 1)[-1]` in the renaming give the same name. */
  lemma RepositoryComponentIsRepositoryName(registry: string, repository: string)
    ensures RepositoryComponent(registry, repository).0 == RepositoryName(repository).0
  {
    SplitLastIsAfterLast(repository, '/');
  }
}
