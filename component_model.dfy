/**
 * Identifiers the catalogue derives from its product and component rows (`corgi/core/models.py`): product
 * ofuris, NVR and NEVRA strings, package-URL fields, licence lists, and the product links a component keeps.
 */
module ComponentModel {
  import opened Wrappers
  import opened Text

  // ---------------------------------------------------------------------------------------------
  // Product ofuris
  // ---------------------------------------------------------------------------------------------

  const OfuriPrefix := "o:redhat:"

  /** `Product.get_ofuri` */
  function ProductOfuri(name: string): (r: string)
    ensures StartsWith(r, OfuriPrefix) && r[|OfuriPrefix|..] == name
  {
    OfuriPrefix + name
  }

  /** `t` matches the regular expression made of `version`: each `.` in it matches any character. */
  predicate MatchesVersion(t: string, version: string)
  {
    |t| == |version| && forall i :: 0 <= i < |t| ==> version[i] == '.' || t[i] == version[i]
  }

  /**
   * `re.sub(r"(-|_|)" + version + "$", "", name)`: the leftmost match ending the name starts at the
   * separator when there is one.
   */
  function TrimVersion(name: string, version: string): (r: string)
    ensures StartsWith(name, r)
  {
    var n, m := |name|, |version|;
    if m + 1 <= n && (name[n - m - 1] == '-' || name[n - m - 1] == '_') && MatchesVersion(name[n - m..], version) then
      name[..n - m - 1]
    else if m <= n && MatchesVersion(name[n - m..], version) then name[..n - m]
    else name
  }

  /** `ProductVersion.get_ofuri` */
  function ProductVersionOfuri(name: string, version: string): (r: string)
    ensures StartsWith(r, OfuriPrefix) && EndsWith(r, ":" + version)
    ensures |OfuriPrefix| <= |r| - |version| - 1 && StartsWith(name, r[|OfuriPrefix|..|r| - |version| - 1])
  {
    OfuriPrefix + TrimVersion(name, version) + ":" + version
  }

  /** `ProductStream.get_ofuri`, the same expression over the stream's name and version. */
  function ProductStreamOfuri(name: string, version: string): (r: string)
    ensures r == ProductVersionOfuri(name, version)
    ensures StartsWith(r, OfuriPrefix) && EndsWith(r, ":" + version)
  {
    ProductVersionOfuri(name, version)
  }

  /** `ProductVariant.get_ofuri`: the stream's ofuri and the lower-cased variant name. */
  function ProductVariantOfuri(streamOfuri: string, name: string): (r: string)
    ensures StartsWith(r, streamOfuri + ":") && r[|streamOfuri| + 1..] == Lower(name)
  {
    streamOfuri + ":" + Lower(name)
  }

  lemma MatchesItself(version: string)
    ensures MatchesVersion(version, version)
  {
  }

  /**
   * A name made of a base, an optional `-` or `_`, and the version loses exactly the separator and the
   * version: ("rhel-8.6.0", "8.6.0") gives "o:redhat:rhel:8.6.0".
   */
  lemma TrimVersionDropsVersion(base: string, sep: string, version: string)
    requires sep == "-" || sep == "_" || sep == ""
    requires sep == "" ==> base == [] || (base[|base| - 1] != '-' && base[|base| - 1] != '_')
    ensures TrimVersion(base + sep + version, version) == base
    ensures ProductVersionOfuri(base + sep + version, version) == OfuriPrefix + base + ":" + version
  {
    var name := base + sep + version;
    assert name[|name| - |version|..] == version;
    MatchesItself(version);
    if sep == "" {
      assert name == base + version;
      if base != [] {
        assert name[|name| - |version| - 1] == base[|base| - 1];
      }
    } else {
      assert name[|name| - |version| - 1] == sep[0];
    }
  }

  /** A name that does not end in the version keeps its whole name. */
  lemma TrimVersionKeepsOtherNames(name: string, version: string)
    requires |version| <= |name| ==> !MatchesVersion(name[|name| - |version|..], version)
    ensures TrimVersion(name, version) == name
  {
  }

  // ---------------------------------------------------------------------------------------------
  // NVR and NEVRA
  // ---------------------------------------------------------------------------------------------

  /** `meta_attr["epoch"]`, which is stored as an int but may hold a string, or be absent (""). */
  datatype EpochAttr = NoEpoch | IntEpoch(n: int) | TextEpoch(s: string)

  /** Python truthiness of the epoch value. */
  predicate Truthy(e: EpochAttr)
  {
    match e
    case NoEpoch => false
    case IntEpoch(n) => n != 0
    case TextEpoch(s) => s != ""
  }

  /** `f"{epoch}"` / `str(epoch)` */
  function EpochText(e: EpochAttr): string
  {
    match e
    case NoEpoch => ""
    case IntEpoch(n) => IntToString(n)
    case TextEpoch(s) => s
  }

  /** `f"-{release}" if release else ""` */
  function ReleaseSuffix(release: string): string
  {
    if release != "" then "-" + release else ""
  }

  /** `Component.get_nvr` */
  function GetNvr(name: string, version: string, release: string): (r: string)
    ensures StartsWith(r, name + "-" + version)
    ensures release == "" <==> |r| == |name| + 1 + |version|
    ensures release != "" ==> r[|name| + 1 + |version|..] == "-" + release
  {
    name + "-" + version + ReleaseSuffix(release)
  }

  /** `f":{epoch}" if epoch else ""` */
  function EpochPart(epoch: EpochAttr): string
  {
    if Truthy(epoch) then ":" + EpochText(epoch) else ""
  }

  /** `f".{arch}" if arch else ""` */
  function ArchPart(arch: string): string
  {
    if arch != "" then "." + arch else ""
  }

  /** `Component.get_nevra` */
  function GetNevra(name: string, epoch: EpochAttr, version: string, release: string, arch: string): (r: string)
    ensures StartsWith(r, name + EpochPart(epoch) + "-" + version)
    ensures EndsWith(r, ReleaseSuffix(release) + ArchPart(arch))
  {
    var head := name + EpochPart(epoch) + "-" + version;
    var tail := ReleaseSuffix(release) + ArchPart(arch);
    assert (head + tail)[..|head|] == head && (head + tail)[|head|..] == tail;
    head + tail
  }

  /**
   * The NEVRA is the NVR with `:epoch` inserted after the name when the epoch is truthy and `.arch` appended when
   * the arch is non-empty; with neither it is the NVR.
   */
  lemma NevraExtendsNvr(name: string, epoch: EpochAttr, version: string, release: string, arch: string)
    ensures GetNevra(name, epoch, version, release, arch)
      == name + EpochPart(epoch) + GetNvr(name, version, release)[|name|..] + ArchPart(arch)
  {
    var e, r, a := EpochPart(epoch), ReleaseSuffix(release), ArchPart(arch);
    var tail := "-" + version + r;
    calc {
      GetNvr(name, version, release);
      name + "-" + version + r;
      { AppendAssociative(name + "-", version, r); AppendAssociative(name, "-", version + r);
        AppendAssociative("-", version, r); }
      name + tail;
    }
    assert (name + tail)[|name|..] == tail;
    calc {
      GetNevra(name, epoch, version, release, arch);
      (name + e + "-" + version) + (r + a);
      { AppendAssociative(name + e + "-" + version, r, a); }
      (name + e + "-" + version + r) + a;
      { AppendAssociative(name + e + "-", version, r); AppendAssociative(name + e, "-", version + r);
        AppendAssociative("-", version, r); }
      (name + e + tail) + a;
    }
  }

  /** Without a truthy epoch the NEVRA is the NVR, followed by `.arch` when the arch is non-empty. */
  lemma NevraWithoutEpoch(name: string, epoch: EpochAttr, version: string, release: string, arch: string)
    requires !Truthy(epoch)
    ensures GetNevra(name, epoch, version, release, arch) == GetNvr(name, version, release) + ArchPart(arch)
    ensures arch == "" ==> GetNevra(name, epoch, version, release, arch) == GetNvr(name, version, release)
  {
    assert EpochPart(epoch) == "";
    assert name + EpochPart(epoch) == name;
  }

  /** `_ensure_epoch`: a falsy epoch becomes "0", any other is rendered as text. */
  function EnsureEpoch(epoch: EpochAttr): (r: string)
    ensures r != ""
    ensures !Truthy(epoch) ==> r == "0"
    ensures Truthy(epoch) ==> r == EpochText(epoch)
  {
    if !Truthy(epoch) then "0" else EpochText(epoch)
  }

  /**
   * The normalised epoch reads back as the epoch's number: 0 for every falsy epoch, and the stored value for a
   * non-negative integer epoch.
   */
  lemma EnsureEpochReadsBack(epoch: EpochAttr)
    ensures !Truthy(epoch) ==> ParseInt(EnsureEpoch(epoch)) == Ok(0)
    ensures epoch.IntEpoch? && epoch.n >= 0 ==> ParseInt(EnsureEpoch(epoch)) == Ok(epoch.n)
    ensures EnsureEpoch(epoch) != ""
  {
    if !Truthy(epoch) {
      assert EnsureEpoch(epoch) == NatToString(0);
      ParseIntRoundTrip(0);
    } else if epoch.IntEpoch? && epoch.n >= 0 {
      ParseIntRoundTrip(epoch.n);
    }
  }

  // ---------------------------------------------------------------------------------------------
  // Licence lists
  // ---------------------------------------------------------------------------------------------

  const Parens: set<char> := {'(', ')'}

  function Flatten(groups: seq<seq<string>>): (r: seq<string>)
    ensures (|groups| > 0 && forall g :: 0 <= g < |groups| ==> |groups[g]| > 0) ==> |r| > 0
  {
    if groups == [] then [] else groups[0] + Flatten(groups[1..])
  }

  /** The " AND " parts of a licence expression, each split on " OR ". */
  function LicenseGroups(expr: string): (groups: seq<seq<string>>)
    ensures |groups| > 0 && forall g :: 0 <= g < |groups| ==> |groups[g]| > 0
  {
    var ands := Split(expr, " AND ");
    seq(|ands|, i requires 0 <= i < |ands| => Split(ands[i], " OR "))
  }

  /** `Component.license_list` */
  function LicenseList(expr: string): (r: seq<string>)
    ensures |r| > 0
  {
    var parts := Flatten(LicenseGroups(expr));
    seq(|parts|, i requires 0 <= i < |parts| => Strip(parts[i], Parens))
  }

  /** An expression with neither operator is one licence, with its parentheses stripped. */
  lemma LicenseListSingle(expr: string)
    requires !Contains(expr, " AND ") && !Contains(expr, " OR ")
    ensures LicenseList(expr) == [Strip(expr, Parens)]
  {
    assert Split(expr, " AND ") == [expr];
    assert Split(expr, " OR ") == [expr];
    assert LicenseGroups(expr) == [[expr]];
    assert Flatten([[expr]]) == [expr] + Flatten([]);
  }

  /** Rejoining the groups with the operators gives back the expression: nothing is lost or reordered. */
  lemma LicenseGroupsRejoin(expr: string)
    ensures var groups := LicenseGroups(expr);
      Join(seq(|groups|, i requires 0 <= i < |groups| => Join(groups[i], " OR ")), " AND ") == expr
  {
    var ands := Split(expr, " AND ");
    var groups := LicenseGroups(expr);
    forall i | 0 <= i < |ands|
      ensures Join(groups[i], " OR ") == ands[i]
    {
      JoinSplit(ands[i], " OR ");
    }
    assert seq(|groups|, i requires 0 <= i < |groups| => Join(groups[i], " OR ")) == ands;
    JoinSplit(expr, " AND ");
  }

  // ---------------------------------------------------------------------------------------------
  // Package URLs
  // ---------------------------------------------------------------------------------------------

  /** The keyword arguments handed to `PackageURL(...)`; qualifiers in insertion order. */
  datatype PurlData = PurlData(
    ptype: string, namespace: Option<string>, name: string, version: Option<string>,
    qualifiers: seq<(string, string)>)

  /** The `meta_attr` entries the purl builders read; `None` is a missing key. */
  datatype MetaAttr = MetaAttr(
    classifier: Option<string>, extension: Option<string>, groupId: Option<string>,
    digests: Option<map<string, string>>, nameFromLabel: Option<string>, repositoryUrl: Option<string>)

  /** The component columns the purl builders read. */
  datatype ComponentFields = ComponentFields(
    ctype: string, namespace: string, name: string, version: string, release: string, arch: string,
    epoch: EpochAttr, meta: MetaAttr)

  predicate Given(v: Option<string>) { v.Some? && v.value != "" }

  const DigestFormats: seq<string> := [
    "application/vnd.docker.distribution.manifest.v2+json",
    "application/vnd.docker.distribution.manifest.list.v2+json"
  ]

  function Lookup(m: map<string, string>, k: string): Option<string>
  {
    if k in m then Some(m[k]) else None
  }

  /** The `for digest_fmt in CONTAINER_DIGEST_FORMATS` loop: the value of the last format looked up. */
  function DigestFrom(digests: map<string, string>, formats: seq<string>): (r: Option<string>)
    requires |formats| > 0
    ensures Given(r) ==> exists k :: 0 <= k < |formats| && r == Lookup(digests, formats[k])
                          && forall j :: 0 <= j < k ==> !Given(Lookup(digests, formats[j]))
    ensures !Given(r) ==> forall k :: 0 <= k < |formats| ==> !Given(Lookup(digests, formats[k]))
  {
    var d := Lookup(digests, formats[0]);
    if Given(d) || |formats| == 1 then d else DigestFrom(digests, formats[1..])
  }

  /** The container digest: "" when there are no digests; else the first given digest, in format order. */
  function ContainerDigest(meta: MetaAttr): Option<string>
  {
    if meta.digests.None? || |meta.digests.value| == 0 then Some("") else DigestFrom(meta.digests.value, DigestFormats)
  }

  function RpmPurl(c: ComponentFields): PurlData
  {
    var epoch := if Truthy(c.epoch) then [("epoch", EpochText(c.epoch))] else [];
    PurlData("", None, c.name, Some(c.version + ReleaseSuffix(c.release)), [("arch", c.arch)] + epoch)
  }

  /** `_build_module_purl`: NSVC, the release split at its first "." into version and context. */
  function ModulePurlVersion(stream: string, release: string): string
  {
    var (version, _, context) := Partition(release, ".");
    stream + ":" + version + ":" + context
  }

  function ModulePurl(c: ComponentFields): PurlData
  {
    PurlData("", None, c.name, Some(ModulePurlVersion(c.version, c.release)), [])
  }

  function ContainerPurl(c: ComponentFields): PurlData
  {
    var name := if Given(c.meta.nameFromLabel) then c.meta.nameFromLabel.value else c.name;
    var tag := [("tag", c.version + ReleaseSuffix(c.release))];
    var arch := if c.arch != "noarch" then [("arch", c.arch)] else [];
    var repo := if Given(c.meta.repositoryUrl) then [("repository_url", c.meta.repositoryUrl.value)] else [];
    PurlData("", None, name, ContainerDigest(c.meta), tag + arch + repo)
  }

  function MavenPurl(c: ComponentFields): PurlData
  {
    var classifier := if Given(c.meta.classifier) then [("classifier", c.meta.classifier.value)] else [];
    var extension := if Given(c.meta.extension) then [("type", c.meta.extension.value)] else [];
    var ns := if Given(c.meta.groupId) then c.meta.groupId else None;
    PurlData("", ns, c.name, Some(c.version), classifier + extension)
  }

  /** `Component.get_purl`, as the arguments of the PackageURL it builds. */
  function GetPurl(c: ComponentFields): (r: PurlData)
    ensures r.ptype == Lower(c.ctype)
    ensures c.namespace == "REDHAT" ==> r.namespace.Some? && StartsWith(r.namespace.value, "redhat/")
  {
    var data :=
      if c.ctype == "RPM" then RpmPurl(c)
      else if c.ctype == "RPMMOD" then ModulePurl(c)
      else if c.ctype == "OCI" then ContainerPurl(c)
      else if c.ctype == "MAVEN" then MavenPurl(c)
      else PurlData("", None, c.name, Some(c.version + ReleaseSuffix(c.release)), []);
    var ns := if c.namespace == "REDHAT" then Some("redhat/" + data.namespace.GetOr("")) else data.namespace;
    data.(ptype := Lower(c.ctype), namespace := ns)
  }

  /**
   * The purl's type is the lower-cased component type. A Red Hat component's namespace is "redhat/" followed by
   * whatever namespace its builder chose (empty unless a Maven group id was given); other namespaces and every
   * other field are the builder's.
   */
  lemma PurlNamespace(c: ComponentFields)
    ensures GetPurl(c).ptype == Lower(c.ctype)
    ensures c.namespace == "REDHAT" && c.ctype != "MAVEN" ==> GetPurl(c).namespace == Some("redhat/")
    ensures c.namespace == "REDHAT" && c.ctype == "MAVEN" ==>
      GetPurl(c).namespace == Some("redhat/" + (if Given(c.meta.groupId) then c.meta.groupId.value else ""))
    ensures c.namespace != "REDHAT" ==>
      GetPurl(c).namespace == (if c.ctype == "MAVEN" && Given(c.meta.groupId) then c.meta.groupId else None)
    ensures c.ctype !in {"RPMMOD", "OCI", "MAVEN"} ==> GetPurl(c).version == Some(c.version + ReleaseSuffix(c.release))
  {
    assert "redhat/" + "" == "redhat/";
  }

  /**
   * The module purl version is "stream:version:context". When none of the three holds ':' and the module version
   * holds no '.', splitting it on ':' gives them back.
   */
  lemma ModulePurlRoundTrip(stream: string, version: string, context: string)
    requires Free(stream, ':') && Free(version, ':') && Free(context, ':') && Free(version, '.')
    ensures ModulePurlVersion(stream, version + "." + context) == stream + ":" + version + ":" + context
    ensures Split(ModulePurlVersion(stream, version + "." + context), ":") == [stream, version, context]
  {
    var release := version + "." + context;
    assert release[..|version|] == version;
    IndexOfChar(release, '.', |version|);
    assert release[|version| + 1..] == context;
    assert Join([context], ":") == context;
    assert [stream, version, context][1..] == [version, context];
    assert [version, context][1..] == [context];
    assert Join([stream, version, context], ":") == stream + ":" + version + ":" + context;
    SplitJoin([stream, version, context], ':');
  }

  /** A release without '.' is the module version; the context is empty. */
  lemma ModulePurlNoContext(stream: string, release: string)
    requires Free(release, '.')
    ensures ModulePurlVersion(stream, release) == stream + ":" + release + ":"
  {
    NotContainsFree(release, ".");
  }

  predicate HasQualifier(qs: seq<(string, string)>, key: string)
  {
    exists i :: 0 <= i < |qs| && qs[i].0 == key
  }

  /**
   * The container purl: name_from_label overrides the name, the tag qualifier comes first and is
   * `version[-release]`, the arch qualifier is there iff the arch is not "noarch", and the version is "" when
   * there are no digests and otherwise the first given digest in format order.
   */
  lemma ContainerPurlShape(c: ComponentFields)
    ensures ContainerPurl(c).name == if Given(c.meta.nameFromLabel) then c.meta.nameFromLabel.value else c.name
    ensures ContainerPurl(c).qualifiers[0] == ("tag", c.version + ReleaseSuffix(c.release))
    ensures HasQualifier(ContainerPurl(c).qualifiers, "arch") <==> c.arch != "noarch"
    ensures HasQualifier(ContainerPurl(c).qualifiers, "repository_url") <==> Given(c.meta.repositoryUrl)
    ensures c.meta.digests.None? || |c.meta.digests.value| == 0 ==> ContainerPurl(c).version == Some("")
    ensures c.meta.digests.Some? && Given(Lookup(c.meta.digests.value, DigestFormats[0])) ==>
      ContainerPurl(c).version == Lookup(c.meta.digests.value, DigestFormats[0])
    ensures c.meta.digests.Some? && !Given(Lookup(c.meta.digests.value, DigestFormats[0])) ==>
      ContainerPurl(c).version == Lookup(c.meta.digests.value, DigestFormats[1]) || |c.meta.digests.value| == 0
  {
    var qs := ContainerPurl(c).qualifiers;
    if c.meta.digests.Some? && |c.meta.digests.value| > 0 && !Given(Lookup(c.meta.digests.value, DigestFormats[0])) {
      var d := c.meta.digests.value;
      assert DigestFormats[1..] == [DigestFormats[1]];
      assert ContainerDigest(c.meta) == DigestFrom(d, [DigestFormats[1]]);
    }
    if c.arch != "noarch" {
      assert qs[1].0 == "arch";
    }
    if Given(c.meta.repositoryUrl) {
      assert qs[|qs| - 1].0 == "repository_url";
    }
  }

  /** The RPM purl: `version[-release]`, the arch qualifier always, the epoch qualifier only when truthy. */
  lemma RpmPurlShape(c: ComponentFields)
    ensures RpmPurl(c).version == Some(c.version + ReleaseSuffix(c.release))
    ensures RpmPurl(c).qualifiers[0] == ("arch", c.arch)
    ensures HasQualifier(RpmPurl(c).qualifiers, "epoch") <==> Truthy(c.epoch)
  {
    var qs := RpmPurl(c).qualifiers;
    if Truthy(c.epoch) {
      assert qs[1].0 == "epoch";
    }
  }

  /** `Component.strip_namespace` on a purl string. */
  function StripNamespace(namespace: string, purl: string): (r: string)
    ensures namespace != "REDHAT" || !Contains(purl, "/redhat/") ==> r == purl
    ensures |r| <= |purl|
  {
    if namespace == "REDHAT" && purl != "" then ReplaceFirst(purl, "/redhat/", "/") else purl
  }

  /** `Component.strip_release` on a purl version. */
  function StripRelease(release: string, purlVersion: string): (r: string)
    ensures release == "" || !Contains(purlVersion, "-" + release) ==> r == purlVersion
    ensures |r| <= |purlVersion|
  {
    if release != "" && purlVersion != "" then ReplaceFirst(purlVersion, "-" + release, "") else purlVersion
  }

  /**
   * Stripping undoes the "redhat/" the purl builder prepends: the first "/redhat/" after a type without '/'
   * becomes "/". Other namespaces are left alone.
   */
  lemma StripNamespaceUndoesRedHat(namespace: string, head: string, rest: string)
    requires Free(head, '/')
    ensures StripNamespace(namespace, head + "/redhat/" + rest)
      == if namespace == "REDHAT" then head + "/" + rest else head + "/redhat/" + rest
  {
    var purl := head + "/redhat/" + rest;
    if namespace == "REDHAT" {
      assert purl[..|head|] == head;
      assert OccursAt(purl, "/redhat/", |head|) by { assert purl[|head|..|head| + 8] == "/redhat/"; }
      IndexOfAt(purl, "/redhat/", |head|);
      assert purl[|head| + 8..] == rest;
    }
  }

  /**
   * Stripping undoes the release the purl builder appends: `version-release` gives back the version when the
   * version holds no '-'.
   */
  lemma StripReleaseUndoesSuffix(version: string, release: string)
    requires Free(version, '-')
    ensures StripRelease(release, version + ReleaseSuffix(release)) == version
  {
    if release != "" {
      var suffix := "-" + release;
      assert suffix[0] == '-';
      ReplaceSuffix(version, suffix, "");
      assert version + "" == version;
    }
  }

  // ---------------------------------------------------------------------------------------------
  // Product links of a component
  // ---------------------------------------------------------------------------------------------

  /** The refusal of a call without the build's taxonomy ids. */
  const DirectSaveError :=
    "Call SoftwareBuild.save_product_taxonomy(),instead of Component.save_product_taxonomy() directly"

  /** The keys `save_product_taxonomy` reads, in the order it reads them. */
  const TaxonomyKeys: seq<string> := ["products", "productversions", "productstreams", "productvariants", "channels"]

  /** How many of the taxonomy keys, from the first, the mapping holds before the first missing one. */
  function KeysPresent(d: map<string, set<string>>): (n: nat)
    ensures n <= |TaxonomyKeys|
    ensures forall k :: 0 <= k < n ==> TaxonomyKeys[k] in d
    ensures n < |TaxonomyKeys| ==> TaxonomyKeys[n] !in d
  {
    var keys := TaxonomyKeys;
    if keys[0] !in d then 0
    else if keys[1] !in d then 1
    else if keys[2] !in d then 2
    else if keys[3] !in d then 3
    else if keys[4] !in d then 4
    else 5
  }

  /** What the k-th relation gains: its key's ids if the call reached that key, else nothing. */
  function Gain(d: map<string, set<string>>, k: nat): set<string>
    requires k < |TaxonomyKeys|
  {
    if k < KeysPresent(d) then d[TaxonomyKeys[k]] else {}
  }

  /** The five many-to-many relations of a `Component` to the product taxonomy, as sets of ids. */
  class ComponentLinks {
    var products: set<string>
    var productversions: set<string>
    var productstreams: set<string>
    var productvariants: set<string>
    var channels: set<string>

    constructor ()
      ensures products == {} && productversions == {} && productstreams == {}
      ensures productvariants == {} && channels == {}
    {
      products, productversions, productstreams, productvariants, channels := {}, {}, {}, {}, {};
    }

    /**
     * `Component.save_product_taxonomy`: a missing or empty mapping raises ValueError and changes nothing;
     * otherwise each relation in turn gains its key's ids, and a missing key raises KeyError after the
     * relations before it were extended.
     */
    method SaveProductTaxonomy(pks: Option<map<string, set<string>>>) returns (r: Result<()>)
      modifies this
      ensures pks.None? || |pks.value| == 0 ==> r.Err? && r.error.ValueError? && unchanged(this)
      ensures pks.Some? && |pks.value| > 0 ==>
        && products == old(products) + Gain(pks.value, 0)
        && productversions == old(productversions) + Gain(pks.value, 1)
        && productstreams == old(productstreams) + Gain(pks.value, 2)
        && productvariants == old(productvariants) + Gain(pks.value, 3)
        && channels == old(channels) + Gain(pks.value, 4)
        && (r.Ok? <==> KeysPresent(pks.value) == 5)
        && (r.Err? ==> r.error == KeyError(TaxonomyKeys[KeysPresent(pks.value)]))
      ensures old(products) <= products && old(productversions) <= productversions
      ensures old(productstreams) <= productstreams && old(productvariants) <= productvariants
      ensures old(channels) <= channels
    {
      if pks.None? || |pks.value| == 0 {
        return Err(ValueError(DirectSaveError));
      }
      var d := pks.value;
      var keys := TaxonomyKeys;
      if keys[0] !in d {
        return Err(KeyError(keys[0]));
      }
      products := products + d[keys[0]];
      if keys[1] !in d {
        return Err(KeyError(keys[1]));
      }
      productversions := productversions + d[keys[1]];
      if keys[2] !in d {
        return Err(KeyError(keys[2]));
      }
      productstreams := productstreams + d[keys[2]];
      if keys[3] !in d {
        return Err(KeyError(keys[3]));
      }
      productvariants := productvariants + d[keys[3]];
      if keys[4] !in d {
        return Err(KeyError(keys[4]));
      }
      channels := channels + d[keys[4]];
      return Ok(());
    }
  }
}
