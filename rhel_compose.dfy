// The RHEL compose collector: the module records kept from earlier compose reads, the compose metadata URL, the
// source RPMs, container images and modules of the requested variants of one compose.

module RhelCompose {
  import opened Wrappers
  import opened Text
  import opened ComponentModel
  import opened BrewCollector

  // ---------------------------------------------------------------------------------------------
  // fetch_rhel_module
  // ---------------------------------------------------------------------------------------------

  /** One RPM recorded for a compose module: its NVRA and the Brew build of its source RPM. */
  datatype ComposeRpm = ComposeRpm(nvra: string, srpmBuildId: int)

  /** A module recorded from a compose, with the RPMs recorded for it in their stored order. */
  datatype StoredModule = StoredModule(nvr: string, rpms: seq<ComposeRpm>)

  /** The "meta" of one RPM component, with the build of its source RPM. */
  datatype RpmComponent = RpmComponent(name: string, version: string, release: string, arch: string,
                                       brewBuildId: int)

  /** The module component: its NVR parts, its RPM components and the builds nested under it. */
  datatype ModuleComponent = ModuleComponent(name: string, version: string, release: string,
                                             components: seq<RpmComponent>, nestedBuilds: set<int>)

  /**
   * One pass of the loop over a module's RPMs, given the arch the previous pass left behind: a release with a
   * '.' ends in the arch; a release without one keeps the previous arch, and on the first RPM the arch is not
   * bound yet. The new arch is returned with the component.
   */
  function RpmStep(arch: Option<string>, rpm: ComposeRpm): Result<(RpmComponent, string)>
  {
    match SplitNvr(rpm.nvra)
    case Err(e) => Err(e)
    case Ok((name, version, release)) =>
      match RSplitOnce(release, '.')
      case Some((rest, a)) => Ok((RpmComponent(name, version, rest, a, rpm.srpmBuildId), a))
      case None =>
        if arch.None? then Err(UnboundLocalError("arch"))
        else Ok((RpmComponent(name, version, release, arch.value, rpm.srpmBuildId), arch.value))
  }

  /** The components so far taken one RPM further; an error stays. */
  function Extend(acc: Result<(seq<RpmComponent>, Option<string>)>, rpm: ComposeRpm)
    : Result<(seq<RpmComponent>, Option<string>)>
  {
    match acc
    case Err(e) => Err(e)
    case Ok((cs, arch)) =>
      match RpmStep(arch, rpm)
      case Err(e) => Err(e)
      case Ok((c, a)) => Ok((cs + [c], Some(a)))
  }

  /** The components of the RPMs in order, with the arch bound after the last one. */
  function Components(rpms: seq<ComposeRpm>): Result<(seq<RpmComponent>, Option<string>)>
  {
    if rpms == [] then Ok(([], None)) else Extend(Components(rpms[..|rpms| - 1]), rpms[|rpms| - 1])
  }

  lemma ComponentsSnoc(rpms: seq<ComposeRpm>, rpm: ComposeRpm)
    ensures Components(rpms + [rpm]) == Extend(Components(rpms), rpm)
  {
    assert (rpms + [rpm])[..|rpms|] == rpms;
  }

  /** The source-RPM builds of the RPMs, as a set. */
  function NestedBuilds(rpms: seq<ComposeRpm>): set<int>
  {
    set i | 0 <= i < |rpms| :: rpms[i].srpmBuildId
  }

  /** The component built for a module recorded under some build; `None` stands for the empty dict. */
  function RhelModule(modules: map<int, StoredModule>, buildId: int): Result<Option<ModuleComponent>>
  {
    if buildId !in modules then Ok(None)
    else
      var m := modules[buildId];
      match SplitNvr(m.nvr)
      case Err(e) => Err(e)
      case Ok((name, version, release)) =>
        match Components(m.rpms)
        case Err(e) => Err(e)
        case Ok((cs, _)) => Ok(Some(ModuleComponent(name, version, release, cs, NestedBuilds(m.rpms))))
  }

  /** `fetch_rhel_module`: `modules` holds the stored compose modules by build id. */
  method FetchRhelModule(modules: map<int, StoredModule>, buildId: int) returns (r: Result<Option<ModuleComponent>>)
    ensures r == RhelModule(modules, buildId)
  {
    if buildId !in modules {
      return Ok(None);
    }
    var m := modules[buildId];
    var nvr := SplitNvr(m.nvr);
    if nvr.Err? {
      return Err(nvr.error);
    }
    var nestedBuilds: set<int> := {};
    var components: seq<RpmComponent> := [];
    var arch: Option<string> := None;
    for i := 0 to |m.rpms|
      invariant Components(m.rpms[..i]) == Ok((components, arch))
      invariant nestedBuilds == NestedBuilds(m.rpms[..i])
    {
      var rpm := m.rpms[i];
      NestedBuildsSnoc(m.rpms[..i], rpm);
      TakeSnoc(m.rpms, i);
      nestedBuilds := nestedBuilds + {rpm.srpmBuildId};
      ComponentsSnoc(m.rpms[..i], rpm);
      var step := RpmStep(arch, rpm);
      if step.Err? {
        ComponentsErrStays(m.rpms, i + 1);
        return Err(step.error);
      }
      components := components + [step.value.0];
      arch := Some(step.value.1);
    }
    assert m.rpms[..|m.rpms|] == m.rpms;
    var (name, version, release) := nvr.value;
    return Ok(Some(ModuleComponent(name, version, release, components, nestedBuilds)));
  }

  lemma NestedBuildsSnoc(rpms: seq<ComposeRpm>, rpm: ComposeRpm)
    ensures NestedBuilds(rpms + [rpm]) == NestedBuilds(rpms) + {rpm.srpmBuildId}
  {
    var s := rpms + [rpm];
    assert s[|rpms|] == rpm;
    assert forall i :: 0 <= i < |rpms| ==> s[i] == rpms[i];
  }

  /** The nested builds are exactly the source-RPM builds of the module's RPMs. */
  lemma NestedBuildsAreSources(rpms: seq<ComposeRpm>, b: int)
    ensures b in NestedBuilds(rpms) <==> exists rpm :: rpm in rpms && rpm.srpmBuildId == b
  {
    if exists rpm :: rpm in rpms && rpm.srpmBuildId == b {
      var rpm :| rpm in rpms && rpm.srpmBuildId == b;
      var i :| 0 <= i < |rpms| && rpms[i] == rpm;
      assert rpms[i].srpmBuildId == b;
    }
  }

  /** The release of an NVRA, when the NVRA splits. */
  function NvraRelease(rpm: ComposeRpm): string
    requires SplitNvr(rpm.nvra).Ok?
  {
    SplitNvr(rpm.nvra).value.2
  }

  /**
   * A component describes its RPM: name and version from the NVRA, the source build, and either a release that
   * is the component's release and arch joined by the last '.', or a release without '.' that the component
   * keeps whole, with the arch `prev` of the component before it.
   */
  predicate Describes(rpm: ComposeRpm, c: RpmComponent, prev: Option<string>)
  {
    SplitNvr(rpm.nvra).Ok? &&
    var (name, version, release) := SplitNvr(rpm.nvra).value;
    c.name == name && c.version == version && c.brewBuildId == rpm.srpmBuildId &&
    ((release == c.release + "." + c.arch && Free(c.arch, '.')) ||
     (Free(release, '.') && c.release == release && prev == Some(c.arch)))
  }

  /** One pass of the loop, read back: a component that `RpmStep` builds describes its RPM. */
  lemma RpmStepDescribes(arch: Option<string>, rpm: ComposeRpm)
    requires RpmStep(arch, rpm).Ok?
    ensures Describes(rpm, RpmStep(arch, rpm).value.0, arch)
    ensures RpmStep(arch, rpm).value.1 == RpmStep(arch, rpm).value.0.arch
  {
    var (name, version, release) := SplitNvr(rpm.nvra).value;
    var c := RpmStep(arch, rpm).value.0;
    match RSplitOnce(release, '.')
    case Some((rest, a)) =>
      assert rest + "." + a == rest + ['.'] + a;
    case None =>
  }

  /** The arch of the component before the `i`-th, if any. */
  function PrevArch(cs: seq<RpmComponent>, i: nat): Option<string>
    requires i <= |cs|
  {
    if i == 0 then None else Some(cs[i - 1].arch)
  }

  /** Each component describes its RPM, the arch before it being that of the component before. */
  predicate AllDescribe(rpms: seq<ComposeRpm>, cs: seq<RpmComponent>)
  {
    |cs| == |rpms| && forall i {:trigger rpms[i]} :: 0 <= i < |rpms| ==> Describes(rpms[i], cs[i], PrevArch(cs, i))
  }

  lemma AllDescribeSnoc(rpms: seq<ComposeRpm>, cs: seq<RpmComponent>, rpm: ComposeRpm, c: RpmComponent)
    requires AllDescribe(rpms, cs)
    requires Describes(rpm, c, PrevArch(cs, |cs|))
    ensures AllDescribe(rpms + [rpm], cs + [c])
  {
    var rs := rpms + [rpm];
    var ds := cs + [c];
    forall i | 0 <= i < |rs|
      ensures Describes(rs[i], ds[i], PrevArch(ds, i))
    {
      if i < |rpms| {
        DescribesKept(rpms, cs, rpm, c, i);
      } else {
        assert rs[i] == rpm && ds[i] == c && PrevArch(ds, i) == PrevArch(cs, |cs|);
      }
    }
  }

  /** Appending to both sequences leaves what the `i`-th component describes as it was. */
  lemma DescribesKept(rpms: seq<ComposeRpm>, cs: seq<RpmComponent>, rpm: ComposeRpm, c: RpmComponent, i: nat)
    requires i < |rpms| && |rpms| == |cs| && Describes(rpms[i], cs[i], PrevArch(cs, i))
    ensures Describes((rpms + [rpm])[i], (cs + [c])[i], PrevArch(cs + [c], i))
  {
    assert (rpms + [rpm])[i] == rpms[i] && (cs + [c])[i] == cs[i];
    assert PrevArch(cs + [c], i) == PrevArch(cs, i);
  }

  /**
   * Every RPM gets one component that describes it; the arch a release without '.' falls back on is the arch of
   * the component before, and the arch bound at the end is that of the last component.
   */
  lemma {:induction false} ComponentsDescribe(rpms: seq<ComposeRpm>)
    requires Components(rpms).Ok?
    ensures AllDescribe(rpms, Components(rpms).value.0)
    ensures Components(rpms).value.1 == PrevArch(Components(rpms).value.0, |rpms|)
    decreases |rpms|
  {
    if rpms != [] {
      var prefix := rpms[..|rpms| - 1];
      var last := rpms[|rpms| - 1];
      LastSnoc(rpms);
      ComponentsSnoc(prefix, last);
      ComponentsDescribe(prefix);
      var (cs, arch) := Components(prefix).value;
      RpmStepDescribes(arch, last);
      var (c, a) := RpmStep(arch, last).value;
      assert Components(rpms).value == (cs + [c], Some(a));
      AllDescribeSnoc(prefix, cs, last, c);
    }
  }

  /** Some NVRA does not split. */
  predicate BadNvra(rpms: seq<ComposeRpm>)
  {
    exists i :: 0 <= i < |rpms| && SplitNvr(rpms[i].nvra).Err?
  }

  /** The first RPM's NVRA splits into a release with no '.', so no arch can be bound for it. */
  predicate ArchlessFirst(rpms: seq<ComposeRpm>)
  {
    rpms != [] && SplitNvr(rpms[0].nvra).Ok? && Free(NvraRelease(rpms[0]), '.')
  }

  lemma BadNvraSnoc(rpms: seq<ComposeRpm>, rpm: ComposeRpm)
    ensures BadNvra(rpms + [rpm]) <==> BadNvra(rpms) || SplitNvr(rpm.nvra).Err?
  {
    var s := rpms + [rpm];
    assert forall i :: 0 <= i < |rpms| ==> s[i] == rpms[i];
    assert s[|rpms|] == rpm;
  }

  /** One pass fails exactly when the NVRA does not split, or its release has no '.' and no arch is bound. */
  lemma RpmStepErr(arch: Option<string>, rpm: ComposeRpm)
    ensures RpmStep(arch, rpm).Err? <==> SplitNvr(rpm.nvra).Err? || (Free(NvraRelease(rpm), '.') && arch.None?)
  {
    if SplitNvr(rpm.nvra).Ok? {
      var release := NvraRelease(rpm);
      match RSplitOnce(release, '.')
      case Some((p, q)) =>
        assert release == p + ['.'] + q;
        assert release[|p|] == '.';
      case None =>
    }
  }

  lemma ArchlessFirstSnoc(rpms: seq<ComposeRpm>, rpm: ComposeRpm)
    ensures ArchlessFirst(rpms + [rpm]) <==>
      if rpms == [] then SplitNvr(rpm.nvra).Ok? && Free(NvraRelease(rpm), '.') else ArchlessFirst(rpms)
  {
    assert (rpms + [rpm])[0] == if rpms == [] then rpm else rpms[0];
  }

  /** Taken one RPM further, the components fail exactly when they had failed or the new pass fails. */
  lemma ExtendErr(acc: Result<(seq<RpmComponent>, Option<string>)>, rpm: ComposeRpm)
    ensures Extend(acc, rpm).Err? <==> acc.Err? || RpmStep(acc.value.1, rpm).Err?
  {
  }

  /**
   * The components fail exactly when an NVRA does not split, or when the first RPM's release has no '.' so that
   * no arch is bound yet.
   */
  lemma {:induction false} ComponentsErr(rpms: seq<ComposeRpm>)
    ensures Components(rpms).Err? <==> BadNvra(rpms) || ArchlessFirst(rpms)
    decreases |rpms|
  {
    if rpms != [] {
      var prefix := rpms[..|rpms| - 1];
      var last := rpms[|rpms| - 1];
      LastSnoc(rpms);
      ComponentsSnoc(prefix, last);
      ComponentsErr(prefix);
      BadNvraSnoc(prefix, last);
      ArchlessFirstSnoc(prefix, last);
      ExtendErr(Components(prefix), last);
      if Components(prefix).Ok? {
        RpmStepErr(Components(prefix).value.1, last);
        ComponentsDescribe(prefix);
      }
    }
  }

  lemma {:induction false} ComponentsErrStays(rpms: seq<ComposeRpm>, n: nat)
    requires n <= |rpms| && Components(rpms[..n]).Err?
    ensures Components(rpms) == Components(rpms[..n])
    decreases |rpms| - n
  {
    if n < |rpms| {
      assert rpms[..n + 1] == rpms[..n] + [rpms[n]];
      ComponentsSnoc(rpms[..n], rpms[n]);
      ComponentsErrStays(rpms, n + 1);
    } else {
      assert rpms[..n] == rpms;
    }
  }

  /** A release that carries its arch after a '.' comes apart into the component's release and arch. */
  lemma ReleaseWithArch(name: string, version: string, release: string, arch: string, buildId: int, prev: Option<string>)
    requires Free(version, '-') && Free(release, '-') && Free(arch, '-') && Free(arch, '.')
    ensures RpmStep(prev, ComposeRpm(GetNvr(name, version, release + "." + arch), buildId)) ==
            Ok((RpmComponent(name, version, release, arch, buildId), arch))
  {
    var full := release + "." + arch;
    assert full == release + ['.'] + arch;
    assert Free(full, '-') by {
      assert forall i :: 0 <= i < |full| ==> full[i] == (if i < |release| then release[i] else if i == |release| then '.' else arch[i - |release| - 1]);
    }
    SplitNvrRoundTrip(name, version, full);
    RSplitOnceAt(release, '.', arch);
  }

  // ---------------------------------------------------------------------------------------------
  // fetch_compose_data: the metadata URL and the container images
  // ---------------------------------------------------------------------------------------------

  /** The compose's metadata directory: trailing slashes dropped, then "/metadata/" appended. */
  function MetadataUrl(composeUrl: string): (r: string)
    ensures EndsWith(r, "/metadata/")
    ensures var base := r[..|r| - |"/metadata/"|];
      StartsWith(composeUrl, base) && (base == [] || base[|base| - 1] != '/') &&
      forall i :: |base| <= i < |composeUrl| ==> composeUrl[i] == '/'
  {
    var base := RStrip(composeUrl, {'/'});
    assert (base + "/metadata/")[..|base|] == base;
    base + "/metadata/"
  }

  /** A compose URL given with or without its trailing slash names the same metadata directory. */
  lemma MetadataUrlTrailingSlash(composeUrl: string)
    ensures MetadataUrl(composeUrl + "/") == MetadataUrl(composeUrl)
  {
    assert (composeUrl + "/")[..|composeUrl|] == composeUrl;
  }

  /** A container image as listed in osbs.json. */
  datatype Image = Image(name: string, version: string, release: string)

  /** The images one variant lists, arch by arch. */
  datatype VariantImages = VariantImages(variant: string, byArch: seq<seq<Image>>)

  /** The NVR built for an image from its three fields. */
  function ImageNvr(image: Image): (r: string)
    ensures r == image.name + "-" + image.version + "-" + image.release
  {
    image.name + "-" + image.version + "-" + image.release
  }

  /** The set of image NVRs of one variant, over all its arches. */
  function ImageSet(v: VariantImages): set<string>
  {
    set a, image | 0 <= a < |v.byArch| && image in v.byArch[a] :: ImageNvr(image)
  }

  /** The container images kept after reading the variants in order: each requested variant replaces the last. */
  function ContainerImages(osbs: seq<VariantImages>, variants: seq<string>): set<string>
  {
    if osbs == [] then {}
    else
      var v := osbs[|osbs| - 1];
      if v.variant in variants then ImageSet(v) else ContainerImages(osbs[..|osbs| - 1], variants)
  }

  /** The loop over osbs.json; a response that is not ok leaves the images empty. */
  method FetchContainerImages(ok: bool, osbs: seq<VariantImages>, variants: seq<string>) returns (images: set<string>)
    ensures images == if ok then ContainerImages(osbs, variants) else {}
  {
    images := {};
    if !ok {
      return;
    }
    for i := 0 to |osbs|
      invariant images == ContainerImages(osbs[..i], variants)
    {
      assert osbs[..i + 1][..i] == osbs[..i];
      if osbs[i].variant in variants {
        var containerImages: set<string> := {};
        var byArch := osbs[i].byArch;
        for a := 0 to |byArch|
          invariant containerImages == set b, image | 0 <= b < a && image in byArch[b] :: ImageNvr(image)
        {
          containerImages := containerImages + set image | image in byArch[a] :: ImageNvr(image);
        }
        images := containerImages;
      }
    }
    assert osbs[..|osbs|] == osbs;
  }

  /** No variant after the `j`-th is a requested one. */
  predicate LastRequested(osbs: seq<VariantImages>, variants: seq<string>, j: nat)
  {
    forall k :: j < k < |osbs| ==> osbs[k].variant !in variants
  }

  /** With no requested variant the images are empty. */
  lemma {:induction false} ContainerImagesNone(osbs: seq<VariantImages>, variants: seq<string>)
    requires forall j :: 0 <= j < |osbs| ==> osbs[j].variant !in variants
    ensures ContainerImages(osbs, variants) == {}
    decreases |osbs|
  {
    if osbs != [] {
      var prefix := osbs[..|osbs| - 1];
      assert forall j :: 0 <= j < |prefix| ==> prefix[j] == osbs[j];
      ContainerImagesNone(prefix, variants);
    }
  }

  /** Only the last requested variant counts: its images are the result. */
  lemma {:induction false} ContainerImagesOfLastVariant(osbs: seq<VariantImages>, variants: seq<string>, j: nat)
    requires j < |osbs| && osbs[j].variant in variants && LastRequested(osbs, variants, j)
    ensures ContainerImages(osbs, variants) == ImageSet(osbs[j])
    decreases |osbs|
  {
    if j < |osbs| - 1 {
      var prefix := osbs[..|osbs| - 1];
      assert osbs[|osbs| - 1].variant !in variants;
      assert LastRequested(prefix, variants, j) by {
        assert forall k :: j < k < |prefix| ==> prefix[k] == osbs[k];
      }
      ContainerImagesOfLastVariant(prefix, variants, j);
    }
  }

  /** Every image of every arch of a variant is in its set, and nothing else is. */
  lemma ImageSetMembers(v: VariantImages, nvr: string)
    ensures nvr in ImageSet(v) <==> exists a, image :: 0 <= a < |v.byArch| && image in v.byArch[a] && ImageNvr(image) == nvr
  {
  }

  // ---------------------------------------------------------------------------------------------
  // _fetch_rpm_data
  // ---------------------------------------------------------------------------------------------

  /** One RPM detail of rpms.json, read in order: the variant and arch it is listed under, the RPM, its path. */
  datatype RpmRow = RpmRow(variant: string, arch: string, rpm: string, path: string)

  /** The key a row is grouped under: the RPM name without ".src" and without epoch. */
  function SrpmKey(row: RpmRow): Result<string>
  {
    SansEpoch(RemoveSuffix(row.rpm, ".src"))
  }

  /** `os.path.basename`: what follows the last '/'. */
  function Basename(path: string): (r: string)
    ensures Free(r, '/') && EndsWith(path, r)
    ensures |r| == |path| <==> Free(path, '/')
    ensures |r| < |path| ==> path[|path| - |r| - 1] == '/'
  {
    AfterLast(path, '/')
  }

  /** The base name of "dir/file" is the file name, whatever the directory. */
  lemma BasenameOfPath(dir: string, file: string)
    requires Free(file, '/')
    ensures Basename(dir + "/" + file) == file
  {
    var path := dir + "/" + file;
    assert path[|path| - |file|..] == file;
    assert path[|path| - |file| - 1] == '/';
    AfterLastUnique(path, '/', file);
  }

  /** `rpm_filenames_by_srpm` after the rows in order; the first key that fails to split is the error. */
  function GroupSrpms(rows: seq<RpmRow>, variants: seq<string>): Result<map<string, seq<string>>>
  {
    if rows == [] then Ok(map[])
    else
      match GroupSrpms(rows[..|rows| - 1], variants)
      case Err(e) => Err(e)
      case Ok(m) =>
        var row := rows[|rows| - 1];
        if row.variant !in variants then Ok(m)
        else
          match SrpmKey(row)
          case Err(e) => Err(e)
          case Ok(k) => Ok(m[k := (if k in m then m[k] else []) + [Basename(row.path)]])
  }

  /** The reference for one group: the base names of the requested rows whose key is `k`, in order. */
  function FilesOf(rows: seq<RpmRow>, variants: seq<string>, k: string): (files: seq<string>)
    ensures |files| <= |rows|
  {
    if rows == [] then []
    else
      var row := rows[|rows| - 1];
      FilesOf(rows[..|rows| - 1], variants, k) +
        (if row.variant in variants && SrpmKey(row) == Ok(k) then [Basename(row.path)] else [])
  }

  /** The loop over the rows of rpms.json; a response that is not ok groups nothing. */
  method GroupRpmFilenames(ok: bool, rows: seq<RpmRow>, variants: seq<string>) returns (r: Result<map<string, seq<string>>>)
    ensures r == if ok then GroupSrpms(rows, variants) else Ok(map[])
  {
    if !ok {
      return Ok(map[]);
    }
    var bySrpm: map<string, seq<string>> := map[];
    for i := 0 to |rows|
      invariant GroupSrpms(rows[..i], variants) == Ok(bySrpm)
    {
      assert rows[..i + 1][..i] == rows[..i];
      var row := rows[i];
      if row.variant in variants {
        var srpm := SansEpoch(RemoveSuffix(row.rpm, ".src"));
        if srpm.Err? {
          GroupSrpmsErrStays(rows, variants, i + 1);
          return Err(srpm.error);
        }
        var files := if srpm.value in bySrpm then bySrpm[srpm.value] else [];
        bySrpm := bySrpm[srpm.value := files + [Basename(row.path)]];
      }
    }
    assert rows[..|rows|] == rows;
    return Ok(bySrpm);
  }

  /** Once a prefix of the rows fails, so do all the rows. */
  lemma {:induction false} GroupSrpmsErrStays(rows: seq<RpmRow>, variants: seq<string>, n: nat)
    requires n <= |rows| && GroupSrpms(rows[..n], variants).Err?
    ensures GroupSrpms(rows, variants) == GroupSrpms(rows[..n], variants)
    decreases |rows| - n
  {
    if n < |rows| {
      assert rows[..n + 1][..n] == rows[..n];
      GroupSrpmsErrStays(rows, variants, n + 1);
    } else {
      assert rows[..n] == rows;
    }
  }

  /**
   * The grouping fails exactly when a requested row's key does not split; otherwise it holds a key exactly for
   * the keys of the requested rows, and under each the base names of those rows' paths in the order they came.
   */
  lemma {:induction false} GroupSrpmsIsFiles(rows: seq<RpmRow>, variants: seq<string>, k: string)
    ensures GroupSrpms(rows, variants).Err? <==> exists row :: row in rows && row.variant in variants && SrpmKey(row).Err?
    ensures GroupSrpms(rows, variants).Ok? ==>
      (k in GroupSrpms(rows, variants).value <==> exists row :: row in rows && row.variant in variants && SrpmKey(row) == Ok(k))
    ensures GroupSrpms(rows, variants).Ok? && k in GroupSrpms(rows, variants).value ==>
      GroupSrpms(rows, variants).value[k] == FilesOf(rows, variants, k)
    ensures GroupSrpms(rows, variants).Ok? && k !in GroupSrpms(rows, variants).value ==> FilesOf(rows, variants, k) == []
  {
    GroupSrpmsFails(rows, variants);
    GroupSrpmsGroups(rows, variants, k);
  }

  lemma {:induction false} GroupSrpmsFails(rows: seq<RpmRow>, variants: seq<string>)
    ensures GroupSrpms(rows, variants).Err? <==> exists row :: row in rows && row.variant in variants && SrpmKey(row).Err?
    decreases |rows|
  {
    if rows != [] {
      var prefix := rows[..|rows| - 1];
      GroupSrpmsFails(prefix, variants);
      LastRow(rows);
    }
  }

  lemma {:induction false} GroupSrpmsGroups(rows: seq<RpmRow>, variants: seq<string>, k: string)
    ensures GroupSrpms(rows, variants).Ok? ==>
      (k in GroupSrpms(rows, variants).value <==> exists row :: row in rows && row.variant in variants && SrpmKey(row) == Ok(k))
    ensures GroupSrpms(rows, variants).Ok? && k in GroupSrpms(rows, variants).value ==>
      GroupSrpms(rows, variants).value[k] == FilesOf(rows, variants, k)
    ensures GroupSrpms(rows, variants).Ok? && k !in GroupSrpms(rows, variants).value ==> FilesOf(rows, variants, k) == []
    decreases |rows|
  {
    if rows != [] {
      var prefix := rows[..|rows| - 1];
      var row := rows[|rows| - 1];
      GroupSrpmsGroups(prefix, variants, k);
      LastRow(rows);
      if GroupSrpms(rows, variants).Ok? {
        var m := GroupSrpms(prefix, variants).value;
        if row.variant in variants {
          var key := SrpmKey(row).value;
          assert GroupSrpms(rows, variants).value == m[key := (if key in m then m[key] else []) + [Basename(row.path)]];
        } else {
          assert GroupSrpms(rows, variants).value == m;
        }
      }
    }
  }

  lemma LastRow<T>(rows: seq<T>)
    requires rows != []
    ensures forall row :: row in rows <==> row in rows[..|rows| - 1] || row == rows[|rows| - 1]
  {
    assert rows == rows[..|rows| - 1] + [rows[|rows| - 1]];
  }

  /** A build id Python treats as false: none found, or 0. */
  predicate Falsy(buildId: Option<int>) { buildId.None? || buildId.value == 0 }

  /**
   * The build yielded for one source RPM: the build the NVR lookup found, or else the build of the first of its
   * files Brew knows as an RPM, or else the lookup's own (false) answer.
   */
  function SrpmBuild(found: Option<int>, files: seq<string>, getRpm: string -> Option<int>): (r: Option<int>)
    ensures !Falsy(found) ==> r == found
    ensures Falsy(found) && FirstSome(files, getRpm).Some? ==> r == FirstSome(files, getRpm)
    ensures Falsy(found) && FirstSome(files, getRpm).None? ==> r == found
  {
    if !Falsy(found) then found
    else
      match FirstSome(files, getRpm)
      case Some(b) => Some(b)
      case None => found
  }

  /** The fallback loop over one source RPM's file names, stopping at the first file Brew knows. */
  method FindBuildId(found: Option<int>, files: seq<string>, getRpm: string -> Option<int>) returns (buildId: Option<int>)
    ensures buildId == SrpmBuild(found, files, getRpm)
  {
    buildId := found;
    if !Falsy(buildId) {
      return;
    }
    var i := 0;
    while i < |files|
      invariant i <= |files| && buildId == found
      invariant FirstSome(files, getRpm) == FirstSome(files[i..], getRpm)
    {
      var rpmData := getRpm(files[i]);
      if rpmData.None? {
        assert files[i..][1..] == files[i + 1..];
        i := i + 1;
        continue;
      }
      buildId := rpmData;
      break;
    }
  }

  /**
   * `_fetch_rpm_data` from the grouped file names on: the build found for each source RPM, by its key;
   * `srpmLookup` is Brew's NVR lookup and `getRpm` its RPM lookup.
   */
  function SrpmBuilds(bySrpm: map<string, seq<string>>, srpmLookup: string -> Option<int>, getRpm: string -> Option<int>)
    : (r: map<string, Option<int>>)
    ensures r.Keys == bySrpm.Keys
    ensures forall k :: k in r && !Falsy(srpmLookup(k)) ==> r[k] == srpmLookup(k)
    ensures forall k :: k in r && Falsy(srpmLookup(k)) ==>
      r[k] == if FirstSome(bySrpm[k], getRpm).Some? then FirstSome(bySrpm[k], getRpm) else srpmLookup(k)
  {
    map k | k in bySrpm :: SrpmBuild(srpmLookup(k), bySrpm[k], getRpm)
  }

  // ---------------------------------------------------------------------------------------------
  // _fetch_module_data
  // ---------------------------------------------------------------------------------------------

  /** One module of modules.json, read in order: the variant and arch it is listed under, its key and RPMs. */
  datatype ModuleRow = ModuleRow(variant: string, arch: string, key: string, rpms: seq<string>)

  /** The module's RPMs without epochs; the first that fails to split is the error. */
  function RpmsSansEpoch(rpms: seq<string>): Result<seq<string>>
  {
    MapAll(SansEpoch, rpms)
  }

  /** The list comprehension over a module's RPMs. */
  method SansEpochAll(rpms: seq<string>) returns (r: Result<seq<string>>)
    ensures r == RpmsSansEpoch(rpms)
  {
    var out: seq<string> := [];
    for j := 0 to |rpms|
      invariant RpmsSansEpoch(rpms[..j]) == Ok(out)
    {
      assert rpms[..j + 1][..j] == rpms[..j];
      var rpm := SansEpoch(rpms[j]);
      if rpm.Err? {
        MapAllErrStays(SansEpoch, rpms, j + 1);
        return Err(rpm.error);
      }
      out := out + [rpm.value];
    }
    assert rpms[..|rpms|] == rpms;
    return Ok(out);
  }

  /** `rhel_modules` after the rows in order: a later module with the same NVR replaces an earlier one. */
  function RhelModules(rows: seq<ModuleRow>, variants: seq<string>): Result<map<string, seq<string>>>
  {
    if rows == [] then Ok(map[]) else ModuleStep(RhelModules(rows[..|rows| - 1], variants), rows[|rows| - 1], variants)
  }

  /** One row of modules.json read into the modules found so far. */
  function ModuleStep(found: Result<map<string, seq<string>>>, row: ModuleRow, variants: seq<string>)
    : Result<map<string, seq<string>>>
  {
    match found
    case Err(e) => Err(e)
    case Ok(m) =>
      if row.variant !in variants then Ok(m)
      else
        match RpmsSansEpoch(row.rpms)
        case Err(e) => Err(e)
        case Ok(rpms) =>
          match ModuleKeyToNvr(row.key)
          case Err(e) => Err(e)
          case Ok(nvr) => Ok(m[nvr := rpms])
  }

  lemma RhelModulesSnoc(rows: seq<ModuleRow>, variants: seq<string>, i: nat)
    requires i < |rows|
    ensures RhelModules(rows[..i + 1], variants) == ModuleStep(RhelModules(rows[..i], variants), rows[i], variants)
  {
    assert rows[..i + 1][..i] == rows[..i];
  }

  /** The loop over the rows of modules.json; a response that is not ok finds no modules. */
  method FetchModuleRpms(ok: bool, rows: seq<ModuleRow>, variants: seq<string>) returns (r: Result<map<string, seq<string>>>)
    ensures r == if ok then RhelModules(rows, variants) else Ok(map[])
  {
    var rhelModules: map<string, seq<string>> := map[];
    if !ok {
      return Ok(rhelModules);
    }
    for i := 0 to |rows|
      invariant RhelModules(rows[..i], variants) == Ok(rhelModules)
    {
      RhelModulesSnoc(rows, variants, i);
      var row := rows[i];
      if row.variant in variants {
        var rpms := SansEpochAll(row.rpms);
        if rpms.Err? {
          RhelModulesErrStays(rows, variants, i + 1);
          return Err(rpms.error);
        }
        var nvr := ModuleKeyToNvr(row.key);
        if nvr.Err? {
          RhelModulesErrStays(rows, variants, i + 1);
          return Err(nvr.error);
        }
        rhelModules := rhelModules[nvr.value := rpms.value];
      }
    }
    assert rows[..|rows|] == rows;
    return Ok(rhelModules);
  }

  lemma {:induction false} RhelModulesErrStays(rows: seq<ModuleRow>, variants: seq<string>, n: nat)
    requires n <= |rows| && RhelModules(rows[..n], variants).Err?
    ensures RhelModules(rows, variants) == RhelModules(rows[..n], variants)
    decreases |rows| - n
  {
    if n < |rows| {
      assert rows[..n + 1][..n] == rows[..n];
      RhelModulesErrStays(rows, variants, n + 1);
    } else {
      assert rows[..n] == rows;
    }
  }

  /**
   * Modules read without error are kept under their NVRs: a module NVR is present exactly when some requested
   * row's key turns into it, and it holds the RPMs, without epochs, of the last such row.
   */
  lemma {:induction false} RhelModulesLastWins(rows: seq<ModuleRow>, variants: seq<string>, j: nat)
    requires RhelModules(rows, variants).Ok?
    requires j < |rows| && rows[j].variant in variants
    requires forall k :: j < k < |rows| && rows[k].variant in variants ==> ModuleKeyToNvr(rows[k].key) != ModuleKeyToNvr(rows[j].key)
    ensures ModuleKeyToNvr(rows[j].key).Ok? && RpmsSansEpoch(rows[j].rpms).Ok?
    ensures ModuleKeyToNvr(rows[j].key).value in RhelModules(rows, variants).value
    ensures RhelModules(rows, variants).value[ModuleKeyToNvr(rows[j].key).value] == RpmsSansEpoch(rows[j].rpms).value
    decreases |rows|
  {
    var prefix := rows[..|rows| - 1];
    if j < |rows| - 1 {
      assert forall k :: j < k < |prefix| ==> prefix[k] == rows[k];
      RhelModulesLastWins(prefix, variants, j);
    }
  }

  /** A key present after the rows comes from some requested row. */
  lemma {:induction false} RhelModulesKeys(rows: seq<ModuleRow>, variants: seq<string>, nvr: string)
    requires RhelModules(rows, variants).Ok?
    ensures nvr in RhelModules(rows, variants).value <==>
      exists row :: row in rows && row.variant in variants && ModuleKeyToNvr(row.key) == Ok(nvr)
    decreases |rows|
  {
    if rows != [] {
      var prefix := rows[..|rows| - 1];
      RhelModulesKeys(prefix, variants, nvr);
      assert forall row :: row in rows <==> row in prefix || row == rows[|rows| - 1];
    }
  }
}
