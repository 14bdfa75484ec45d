// The Syft collector: the reading of a Syft scan into typed components, the rewrite of GitHub web URLs for
// cloning, the Quay tag lookup and the one retry of an image scan. Running Syft, git and the Quay API are
// parameters or left out; the scan's JSON arrives already decoded.

module Syft {
  import opened Wrappers
  import opened Text

  // ---------------------------------------------------------------------------------------------
  // parse_components
  // ---------------------------------------------------------------------------------------------

  /** `SYFT_PKG_TYPE_MAPPING`: the Corgi type of a Syft package type, if it has one. */
  function SyftType(t: string): (r: Option<string>)
    ensures r.Some? ==> r.value in {"GOLANG", "NPM", "PYPI", "MAVEN", "RPM", "GEM", "CARGO"}
  {
    if t == "go-module" then Some("GOLANG")
    else if t == "npm" then Some("NPM")
    else if t == "python" then Some("PYPI")
    else if t == "java-archive" then Some("MAVEN")
    else if t == "rpm" then Some("RPM")
    else if t == "gem" then Some("GEM")
    else if t == "rust-crate" then Some("CARGO")
    else None
  }

  /** One artifact of a scan. */
  datatype Artifact = Artifact(kind: string, name: string, version: string, purl: string)

  /** The decoded scan: its descriptor's version (when there is a descriptor), its artifacts and its source. */
  datatype Scan = Scan(descriptor: Option<Option<string>>, artifacts: Option<seq<Artifact>>, source: string)

  /** The type-specific extra metadata of a component. */
  datatype Extra = NoExtra | GroupId(namespace: Option<string>) | GoComponentType(kind: string)

  /** A typed component read from a scan. */
  datatype SyftComponent = SyftComponent(ctype: string, name: string, version: string, purl: string,
                                         source: seq<string>, extra: Extra)

  /** The Syft version the scan names, "" when it names none. */
  function SyftVersion(scan: Scan): string
  {
    match scan.descriptor
    case None => ""
    case Some(v) => v.GetOr("")
  }

  /**
   * The component of an artifact whose type is mapped. `purlNamespace` is the namespace PackageURL parses out of
   * a purl.
   */
  function Convert(a: Artifact, ctype: string, syftVersion: string, purlNamespace: string -> Option<string>)
    : SyftComponent
  {
    var extra := if ctype == "MAVEN" then GroupId(purlNamespace(a.purl))
                 else if ctype == "GOLANG" then GoComponentType("gomod")
                 else NoExtra;
    SyftComponent(ctype, Strip(a.name, WhiteSpace), a.version, a.purl, ["syft-" + syftVersion], extra)
  }

  /** The components of the artifacts in order, skipping those of an unmapped type. */
  function Components(artifacts: seq<Artifact>, syftVersion: string, purlNamespace: string -> Option<string>)
    : seq<SyftComponent>
  {
    if artifacts == [] then []
    else
      var front := Components(artifacts[..|artifacts| - 1], syftVersion, purlNamespace);
      var a := artifacts[|artifacts| - 1];
      match SyftType(a.kind)
      case None => front
      case Some(t) => front + [Convert(a, t, syftVersion, purlNamespace)]
  }

  /** `parse_components`: the components and the scan's source. */
  method ParseComponents(scan: Scan, purlNamespace: string -> Option<string>) returns (components: seq<SyftComponent>, source: string)
    ensures components == (if scan.artifacts.None? then [] else Components(scan.artifacts.value, SyftVersion(scan), purlNamespace))
    ensures source == scan.source
  {
    components := [];
    var syftVersion := "";
    if scan.descriptor.Some? {
      syftVersion := scan.descriptor.value.GetOr("");
    }
    if scan.artifacts.Some? {
      var artifacts := scan.artifacts.value;
      for i := 0 to |artifacts|
        invariant components == Components(artifacts[..i], syftVersion, purlNamespace)
      {
        assert artifacts[..i + 1][..i] == artifacts[..i];
        var artifact := artifacts[i];
        var pkgType := SyftType(artifact.kind);
        if pkgType.None? {
          continue;
        }
        var extra := NoExtra;
        if pkgType.value == "MAVEN" {
          extra := GroupId(purlNamespace(artifact.purl));
        } else if pkgType.value == "GOLANG" {
          extra := GoComponentType("gomod");
        }
        var typed := SyftComponent(pkgType.value, Strip(artifact.name, WhiteSpace), artifact.version, artifact.purl,
                                   ["syft-" + syftVersion], extra);
        components := components + [typed];
      }
      assert artifacts[..|artifacts|] == artifacts;
    }
    source := scan.source;
  }

  /** The positions of the artifacts whose type is mapped, in increasing order. */
  function Kept(artifacts: seq<Artifact>): (idx: seq<nat>)
    ensures forall k :: 0 <= k < |idx| ==> idx[k] < |artifacts| && SyftType(artifacts[idx[k]].kind).Some?
    ensures forall k, l :: 0 <= k < l < |idx| ==> idx[k] < idx[l]
    ensures forall i :: 0 <= i < |artifacts| && SyftType(artifacts[i].kind).Some? ==> i in idx
  {
    if artifacts == [] then []
    else
      var n := |artifacts| - 1;
      var front := Kept(artifacts[..n]);
      if SyftType(artifacts[n].kind).Some? then front + [n] else front
  }

  /**
   * The components are the artifacts of mapped type, in input order and one for one: the `k`-th component is
   * made from the artifact at the `k`-th kept position, with its stripped name, the "syft-" source tag, and
   * "gomod" for Go modules.
   */
  lemma {:induction false} ComponentsAreKept(artifacts: seq<Artifact>, syftVersion: string,
                                             purlNamespace: string -> Option<string>)
    ensures var cs := Components(artifacts, syftVersion, purlNamespace);
      var idx := Kept(artifacts);
      |cs| == |idx| &&
      forall k :: 0 <= k < |cs| ==>
        cs[k] == Convert(artifacts[idx[k]], SyftType(artifacts[idx[k]].kind).value, syftVersion, purlNamespace)
    decreases |artifacts|
  {
    if artifacts != [] {
      var n := |artifacts| - 1;
      ComponentsAreKept(artifacts[..n], syftVersion, purlNamespace);
      assert forall i :: 0 <= i < n ==> artifacts[..n][i] == artifacts[i];
    }
  }

  /** What a component made from an artifact records. */
  lemma ConvertFields(a: Artifact, ctype: string, syftVersion: string, purlNamespace: string -> Option<string>)
    ensures var c := Convert(a, ctype, syftVersion, purlNamespace);
      c.name == Strip(a.name, WhiteSpace) && c.source == ["syft-" + syftVersion] &&
      (ctype == "GOLANG" <==> c.extra == GoComponentType("gomod")) &&
      (ctype == "MAVEN" <==> c.extra.GroupId?)
  {
  }

  /** A scan without a descriptor, or whose descriptor names no version, is tagged "syft-". */
  lemma SyftVersionDefault(scan: Scan)
    ensures scan.descriptor.None? ==> SyftVersion(scan) == ""
    ensures scan.descriptor.Some? && scan.descriptor.value.Some? ==> SyftVersion(scan) == scan.descriptor.value.value
  {
  }

  // ---------------------------------------------------------------------------------------------
  // scan_git_repo: the URL rewrite
  // ---------------------------------------------------------------------------------------------

  const HttpsGithub := "https://github.com/"
  const HttpGithub := "http://github.com/"
  const SshGithub := "git@github.com:"

  /** A GitHub web URL turned into its SSH form for cloning; any other URL as it is. */
  function CloneUrl(url: string): (r: string)
  {
    if StartsWith(url, HttpsGithub) then ReplaceFirst(url, HttpsGithub, SshGithub)
    else if StartsWith(url, HttpGithub) then ReplaceFirst(url, HttpGithub, SshGithub)
    else url
  }

  lemma ReplaceFirstAtStart(url: string, prefix: string, rep: string)
    requires |prefix| > 0 && StartsWith(url, prefix)
    ensures ReplaceFirst(url, prefix, rep) == rep + url[|prefix|..]
  {
    assert OccursAt(url, prefix, 0);
    assert IndexOf(url, prefix) == Some(0);
  }

  lemma NotWebUrl(url: string)
    requires StartsWith(url, SshGithub)
    ensures !StartsWith(url, HttpsGithub) && !StartsWith(url, HttpGithub)
  {
    assert url[0] == 'g';
  }

  /** Only the leading web prefix is rewritten, once; the rest of the URL is kept, and the rewrite is idempotent. */
  lemma CloneUrlRewritesPrefix(url: string)
    ensures StartsWith(url, HttpsGithub) ==> CloneUrl(url) == SshGithub + url[|HttpsGithub|..]
    ensures StartsWith(url, HttpGithub) ==> CloneUrl(url) == SshGithub + url[|HttpGithub|..]
    ensures !StartsWith(url, HttpsGithub) && !StartsWith(url, HttpGithub) ==> CloneUrl(url) == url
    ensures CloneUrl(CloneUrl(url)) == CloneUrl(url)
  {
    if StartsWith(url, HttpsGithub) {
      assert url[4] == 's';
      ReplaceFirstAtStart(url, HttpsGithub, SshGithub);
      NotWebUrl(CloneUrl(url));
    } else if StartsWith(url, HttpGithub) {
      ReplaceFirstAtStart(url, HttpGithub, SshGithub);
      NotWebUrl(CloneUrl(url));
    }
  }

  // ---------------------------------------------------------------------------------------------
  // get_quay_repo_version and scan_repo_image
  // ---------------------------------------------------------------------------------------------

  /**
   * `get_quay_repo_version`: an error status raises; otherwise the first of the repository's tags (the most
   * recently updated), or "latest" when it has none.
   */
  method QuayRepoVersion(status: int, tags: seq<string>) returns (r: Result<string>)
    ensures 400 <= status < 600 ==> r == Err(HttpError(status))
    ensures !(400 <= status < 600) ==> r == Ok(if tags == [] then "latest" else tags[0])
  {
    if 400 <= status < 600 {
      return Err(HttpError(status));
    }
    var version := "latest";
    for i := 0 to |tags|
      invariant i == 0
    {
      version := tags[i];
      break;
    }
    return Ok(version);
  }

  /** The scan target of an image on a registry host. */
  function RegistryTarget(host: string, image: string): string
  {
    "registry:" + host + "/" + image
  }

  /**
   * `scan_repo_image`: `syft` runs a scan of a target and `quayVersion` is the answer of the Quay tag lookup.
   * Returns the scan's output and the targets scanned, in order.
   */
  method ScanRepoImage(image: string, host: string, syft: string -> Result<string>, quayVersion: Result<string>)
    returns (r: Result<string>, targets: seq<string>)
    ensures 1 <= |targets| <= 2 && targets[0] == RegistryTarget(host, image)
    ensures |targets| == 2 <==> syft(targets[0]).Err? && ':' !in image && quayVersion.Ok?
    ensures |targets| == 2 ==> targets[1] == targets[0] + ":" + quayVersion.value && r == syft(targets[1])
    ensures |targets| == 1 ==>
      r == (if syft(targets[0]).Ok? || ':' in image then syft(targets[0]) else Err(quayVersion.error))
  {
    var target := RegistryTarget(host, image);
    targets := [target];
    r := syft(target);
    if r.Ok? || ':' in image {
      return;
    }
    if quayVersion.Err? {
      return Err(quayVersion.error), targets;
    }
    target := target + ":" + quayVersion.value;
    targets := targets + [target];
    r := syft(target);
  }
}
