/**
 * The Errata Tool collector (`corgi/collectors/errata_tool.py`): brew tags without their "-candidate" suffix,
 * paged API reads, the type and status of an erratum, the components of an erratum indexed by variant, and the
 * rows stored for releases and variants. The REST session is a parameter: a page read is a function from the
 * page number to the page's data or the error the request raised.
 */
module ErrataTool {
  import opened Wrappers
  import opened Text

  /** `BREW_TAG_CANDIDATE_SUFFIX` */
  const CandidateSuffix: string := "-candidate"

  // ---------------------------------------------------------------------------------------------
  // strip_brew_tag_candidate_suffixes
  // ---------------------------------------------------------------------------------------------

  /** `strip_brew_tag_candidate_suffixes`: each tag with one trailing "-candidate" removed, in order. */
  function StripCandidateSuffixes(brewTags: seq<string>): (r: seq<string>)
    ensures |r| == |brewTags|
    ensures forall i :: 0 <= i < |r| ==>
      brewTags[i] == r[i] + (if EndsWith(brewTags[i], CandidateSuffix) then CandidateSuffix else "")
  {
    seq(|brewTags|, i requires 0 <= i < |brewTags| => RemoveSuffix(brewTags[i], CandidateSuffix))
  }

  /** Only one suffix goes: a tag ending in the suffix twice keeps one, and a tag without it is kept. */
  lemma StripRemovesOneSuffix(tag: string)
    ensures StripCandidateSuffixes([tag + CandidateSuffix + CandidateSuffix]) == [tag + CandidateSuffix]
    ensures !EndsWith(tag, CandidateSuffix) ==> StripCandidateSuffixes([tag]) == [tag]
  {
    var t := tag + CandidateSuffix + CandidateSuffix;
    assert t[|t| - |CandidateSuffix|..] == CandidateSuffix;
    assert t[..|t| - |CandidateSuffix|] == tag + CandidateSuffix;
  }

  /** The release tags of the collector's test: "other-tag-candidate" loses its suffix, "some-tag" is kept. */
  lemma StripExample()
    ensures StripCandidateSuffixes(["some-tag", "other-tag-candidate"]) == ["some-tag", "other-tag"]
  {
    var r := StripCandidateSuffixes(["some-tag", "other-tag-candidate"]);
    assert !EndsWith("some-tag", CandidateSuffix);
    assert "other-tag-candidate"[..9] == "other-tag";
  }

  // ---------------------------------------------------------------------------------------------
  // get_paged
  // ---------------------------------------------------------------------------------------------

  /** A page read that ends the paging: an error, or a page without data. */
  predicate EndsPaging<T>(page: Result<seq<T>>)
  {
    page.Err? || page.value == []
  }

  /** The data of the pages from `page` on, up to the first empty one; `last` is a page known to end the paging. */
  ghost function PagedFrom<T>(get: nat -> Result<seq<T>>, page: nat, last: nat): Result<seq<T>>
    requires page <= last && EndsPaging(get(last))
    decreases last - page
  {
    match get(page)
    case Err(e) => Err(e)
    case Ok(data) => if data == [] then Ok([]) else Prepend(data, PagedFrom(get, page + 1, last))
  }

  /** The first page from `page` on that ends the paging: the last page requested. */
  ghost function FirstEmptyPage<T>(get: nat -> Result<seq<T>>, page: nat, last: nat): (p: nat)
    requires page <= last && EndsPaging(get(last))
    ensures page <= p <= last && EndsPaging(get(p))
    ensures forall q :: page <= q < p ==> !EndsPaging(get(q))
    decreases last - page
  {
    if EndsPaging(get(page)) then page else FirstEmptyPage(get, page + 1, last)
  }

  /** The data of pages `from` up to (not including) `to`, each read successfully. */
  ghost function Concat<T>(get: nat -> Result<seq<T>>, from: nat, to: nat): seq<T>
    requires forall q :: from <= q < to ==> !EndsPaging(get(q))
    decreases if from <= to then to - from else 0
  {
    if from >= to then [] else assert !EndsPaging(get(from)); get(from).value + Concat(get, from + 1, to)
  }

  /**
   * The result of the paging is the error of the first page that fails, or the data of all pages before the first
   * empty page concatenated in page order; which page is known to end the paging does not matter.
   */
  lemma {:induction false} PagedIsConcat<T>(get: nat -> Result<seq<T>>, page: nat, last: nat)
    requires page <= last && EndsPaging(get(last))
    ensures var p := FirstEmptyPage(get, page, last);
      PagedFrom(get, page, last) == (if get(p).Err? then Err(get(p).error) else Ok(Concat(get, page, p)))
    decreases last - page
  {
    if !EndsPaging(get(page)) {
      PagedIsConcat(get, page + 1, last);
    }
  }

  /** `get_paged` for the page reads `get`; `last` is a page known to end the paging. */
  method GetPaged<T>(get: nat -> Result<seq<T>>, ghost last: nat) returns (r: Result<seq<T>>)
    requires 1 <= last && EndsPaging(get(last))
    ensures r == PagedFrom(get, 1, last)
  {
    var page := 1;
    var data: seq<T> := [];
    PrependNothing(PagedFrom(get, 1, last));
    while true
      invariant 1 <= page <= last
      invariant PagedFrom(get, 1, last) == Prepend(data, PagedFrom(get, page, last))
      decreases last - page
    {
      var pageData := get(page);
      if pageData.Err? {
        return Err(pageData.error);
      }
      if pageData.value != [] {
        PrependAppend(data, pageData.value, PagedFrom(get, page + 1, last));
        data := data + pageData.value;
        page := page + 1;
      } else {
        assert data + [] == data;
        return Ok(data);
      }
    }
  }

  // ---------------------------------------------------------------------------------------------
  // get_errata_key_details
  // ---------------------------------------------------------------------------------------------

  /** The details under one errata type key (RHSA, RHBA, ...). */
  datatype ErratumType = ErratumType(id: int, status: string)

  /** `get_errata_key_details` on the values of the erratum's "errata" object. */
  function ErrataKeyDetails(errataTypes: seq<ErratumType>): (r: Result<(int, bool)>)
    ensures r.Err? <==> |errataTypes| != 1
    ensures r.Err? ==> r.error.ValueError?
    ensures r.Ok? ==> r.value.0 == errataTypes[0].id && (r.value.1 <==> errataTypes[0].status == "SHIPPED_LIVE")
  {
    if |errataTypes| != 1 then Err(ValueError("Erratum has more than one type key"))
    else Ok((errataTypes[0].id, errataTypes[0].status == "SHIPPED_LIVE"))
  }

  // ---------------------------------------------------------------------------------------------
  // get_erratum_components and _parse_module
  // ---------------------------------------------------------------------------------------------

  /** The files of one arch of a variant. */
  datatype ArchFiles = ArchFiles(arch: string, files: seq<string>)

  /** One variant of a build: its files by arch. */
  datatype VariantFiles = VariantFiles(variant: string, byArch: seq<ArchFiles>)

  /** One build of `builds_list.json`, by its NVR, with its Brew id, module flag and files by variant and arch. */
  datatype ErrataBuild = ErrataBuild(nvr: string, id: int, isModule: bool, variantArch: seq<VariantFiles>)

  /** One `{build_id: components}` entry of a variant's list. */
  datatype Entry = Entry(buildId: int, components: seq<string>)

  /** The files of all arches concatenated in order. */
  function AllFiles(byArch: seq<ArchFiles>): (r: seq<string>)
    ensures forall f :: f in r <==> exists a :: a in byArch && f in a.files
  {
    if byArch == [] then []
    else
      var prefix := byArch[..|byArch| - 1];
      var r := AllFiles(prefix) + byArch[|byArch| - 1].files;
      assert forall a :: a in byArch <==> a in prefix || a == byArch[|byArch| - 1];
      r
  }

  /** `[rpm[:-4] for rpm in components if rpm.endswith(".rpm")]` */
  function StripRpms(files: seq<string>): (r: seq<string>)
    ensures forall x :: x in r <==> exists f :: f in files && EndsWith(f, ".rpm") && x == f[..|f| - 4]
  {
    if files == [] then []
    else
      var prefix := files[..|files| - 1];
      var f := files[|files| - 1];
      var r := StripRpms(prefix) + (if EndsWith(f, ".rpm") then [f[..|f| - 4]] else []);
      assert forall g :: g in files <==> g in prefix || g == f;
      r
  }

  /** The modular RPMs of a variant: the stripped ".rpm" files of every arch but "SRPMS", in order. */
  function ModularRpms(byArch: seq<ArchFiles>): seq<string>
  {
    if byArch == [] then []
    else
      var a := byArch[|byArch| - 1];
      ModularRpms(byArch[..|byArch| - 1]) + (if a.arch == "SRPMS" then [] else StripRpms(a.files))
  }

  /** A modular RPM is exactly a ".rpm" file, suffix removed, of some arch other than "SRPMS". */
  lemma {:induction false} ModularRpmsFrom(byArch: seq<ArchFiles>, x: string)
    ensures x in ModularRpms(byArch) <==>
      exists a, f :: a in byArch && a.arch != "SRPMS" && f in a.files && EndsWith(f, ".rpm") && x == f[..|f| - 4]
    decreases |byArch|
  {
    if byArch != [] {
      var prefix := byArch[..|byArch| - 1];
      ModularRpmsFrom(prefix, x);
      assert forall a :: a in byArch <==> a in prefix || a == byArch[|byArch| - 1];
    }
  }

  /**
   * The entries one variant of a build adds: for a normal build one entry of its id and all its files; for a
   * module one entry per build id that persisting the module's RPMs returns, each with all the RPMs.
   * `persist` stands for `Brew.persist_modules`.
   */
  function VariantEntries(b: ErrataBuild, vf: VariantFiles, persist: (string, seq<string>) -> seq<int>): (es: seq<Entry>)
    ensures !b.isModule ==> es == [Entry(b.id, AllFiles(vf.byArch))]
    ensures b.isModule ==> |es| == |persist(b.nvr, ModularRpms(vf.byArch))|
    ensures b.isModule ==> forall e :: e in es ==> e.components == ModularRpms(vf.byArch)
    ensures b.isModule ==> forall k :: 0 <= k < |es| ==> es[k].buildId == persist(b.nvr, ModularRpms(vf.byArch))[k]
  {
    if b.isModule then
      var rpms := ModularRpms(vf.byArch);
      seq(|persist(b.nvr, rpms)|, k requires 0 <= k < |persist(b.nvr, rpms)| => Entry(persist(b.nvr, rpms)[k], rpms))
    else [Entry(b.id, AllFiles(vf.byArch))]
  }

  /** Appending entries to a variant's list; the defaultdict only gains the key when something is appended. */
  function AddEntries(m: map<string, seq<Entry>>, variant: string, es: seq<Entry>): map<string, seq<Entry>>
  {
    if es == [] then m else m[variant := (if variant in m then m[variant] else []) + es]
  }

  /** The map after the first variants of one build. */
  function AddVariants(m: map<string, seq<Entry>>, b: ErrataBuild, variants: seq<VariantFiles>,
                       persist: (string, seq<string>) -> seq<int>): map<string, seq<Entry>>
  {
    if variants == [] then m
    else
      var vf := variants[|variants| - 1];
      AddEntries(AddVariants(m, b, variants[..|variants| - 1], persist), vf.variant, VariantEntries(b, vf, persist))
  }

  /** `variant_to_component_map` after the given builds. */
  function VariantMap(builds: seq<ErrataBuild>, persist: (string, seq<string>) -> seq<int>): map<string, seq<Entry>>
  {
    if builds == [] then map[]
    else
      var b := builds[|builds| - 1];
      AddVariants(VariantMap(builds[..|builds| - 1], persist), b, b.variantArch, persist)
  }

  /** The entries the given variants of a build add for variant `v`, in order: the reference for one variant. */
  function EntriesOfVariants(b: ErrataBuild, variants: seq<VariantFiles>, v: string,
                             persist: (string, seq<string>) -> seq<int>): seq<Entry>
  {
    if variants == [] then []
    else
      var vf := variants[|variants| - 1];
      EntriesOfVariants(b, variants[..|variants| - 1], v, persist) + (if vf.variant == v then VariantEntries(b, vf, persist) else [])
  }

  /** The entries the given builds add for variant `v`, in order. */
  function EntriesFor(builds: seq<ErrataBuild>, v: string, persist: (string, seq<string>) -> seq<int>): seq<Entry>
  {
    if builds == [] then []
    else
      var b := builds[|builds| - 1];
      EntriesFor(builds[..|builds| - 1], v, persist) + EntriesOfVariants(b, b.variantArch, v, persist)
  }

  /** Appending to one variant's list changes no other list. */
  lemma AddEntriesAt(m: map<string, seq<Entry>>, variant: string, es: seq<Entry>, v: string)
    ensures var r := AddEntries(m, variant, es);
      var add := if variant == v then es else [];
      (v in r <==> v in m || add != [])
      && (v in r ==> r[v] == (if v in m then m[v] else []) + add)
  {
    if variant != v || es == [] {
      var before := if v in m then m[v] else [];
      assert before + [] == before;
    }
  }

  /** The variants of one build extend each list by that variant's entries. */
  lemma {:induction false} AddVariantsEntries(m: map<string, seq<Entry>>, b: ErrataBuild, variants: seq<VariantFiles>,
                                              v: string, persist: (string, seq<string>) -> seq<int>)
    ensures v in AddVariants(m, b, variants, persist) <==> v in m || EntriesOfVariants(b, variants, v, persist) != []
    ensures v in AddVariants(m, b, variants, persist) ==>
      AddVariants(m, b, variants, persist)[v] == (if v in m then m[v] else []) + EntriesOfVariants(b, variants, v, persist)
    decreases |variants|
  {
    if variants != [] {
      var prefix := variants[..|variants| - 1];
      var vf := variants[|variants| - 1];
      AddVariantsEntries(m, b, prefix, v, persist);
      var mid := AddVariants(m, b, prefix, persist);
      var es := EntriesOfVariants(b, prefix, v, persist);
      var add := if vf.variant == v then VariantEntries(b, vf, persist) else [];
      AddVariantsLast(m, b, variants, v, persist);
      AddEntriesAt(mid, vf.variant, VariantEntries(b, vf, persist), v);
      var before := if v in m then m[v] else [];
      assert before + es + add == before + (es + add);
    }
  }

  lemma AddVariantsLast(m: map<string, seq<Entry>>, b: ErrataBuild, variants: seq<VariantFiles>, v: string,
                        persist: (string, seq<string>) -> seq<int>)
    requires variants != []
    ensures var vf := variants[|variants| - 1];
      AddVariants(m, b, variants, persist) ==
        AddEntries(AddVariants(m, b, variants[..|variants| - 1], persist), vf.variant, VariantEntries(b, vf, persist))
      && EntriesOfVariants(b, variants, v, persist) ==
        EntriesOfVariants(b, variants[..|variants| - 1], v, persist) + (if vf.variant == v then VariantEntries(b, vf, persist) else [])
  {
  }

  /**
   * The components of an erratum by variant: a variant is a key exactly when some build adds an entry for it, and
   * its list holds those entries in build order.
   */
  lemma {:induction false} VariantMapEntries(builds: seq<ErrataBuild>, v: string, persist: (string, seq<string>) -> seq<int>)
    ensures v in VariantMap(builds, persist) <==> EntriesFor(builds, v, persist) != []
    ensures v in VariantMap(builds, persist) ==> VariantMap(builds, persist)[v] == EntriesFor(builds, v, persist)
    decreases |builds|
  {
    if builds != [] {
      var prefix := builds[..|builds| - 1];
      var b := builds[|builds| - 1];
      VariantMapEntries(prefix, v, persist);
      AddVariantsEntries(VariantMap(prefix, persist), b, b.variantArch, v, persist);
      if v !in VariantMap(prefix, persist) {
        assert [] + EntriesOfVariants(b, b.variantArch, v, persist) == EntriesOfVariants(b, b.variantArch, v, persist);
      }
    }
  }

  /** The inner loop over the arches of a normal build's variant. */
  method CollectVariantFiles(byArch: seq<ArchFiles>) returns (variantComponents: seq<string>)
    ensures variantComponents == AllFiles(byArch)
  {
    variantComponents := [];
    for i := 0 to |byArch|
      invariant variantComponents == AllFiles(byArch[..i])
    {
      assert byArch[..i + 1][..i] == byArch[..i];
      variantComponents := variantComponents + byArch[i].files;
    }
    assert byArch[..|byArch|] == byArch;
  }

  /** The loop over the arches in `_parse_module`: "SRPMS" is skipped, the rest stripped of ".rpm". */
  method CollectModularRpms(byArch: seq<ArchFiles>) returns (modularRpms: seq<string>)
    ensures modularRpms == ModularRpms(byArch)
  {
    modularRpms := [];
    for i := 0 to |byArch|
      invariant modularRpms == ModularRpms(byArch[..i])
    {
      assert byArch[..i + 1][..i] == byArch[..i];
      if byArch[i].arch == "SRPMS" {
        continue;
      }
      modularRpms := modularRpms + StripRpms(byArch[i].files);
    }
    assert byArch[..|byArch|] == byArch;
  }

  /** Appends the entries one by one, as the loops do. */
  method AppendEntries(m: map<string, seq<Entry>>, variant: string, es: seq<Entry>) returns (r: map<string, seq<Entry>>)
    ensures r == AddEntries(m, variant, es)
  {
    r := m;
    for k := 0 to |es|
      invariant r == AddEntries(m, variant, es[..k])
    {
      var before := if variant in m then m[variant] else [];
      assert before + es[..k + 1] == before + es[..k] + [es[k]];
      if k == 0 {
        assert es[..1] == [es[0]];
      } else {
        assert r == m[variant := before + es[..k]];
      }
      r := r[variant := (if variant in r then r[variant] else []) + [es[k]]];
    }
    assert es[..|es|] == es;
  }

  lemma AddVariantsStep(m: map<string, seq<Entry>>, b: ErrataBuild, variants: seq<VariantFiles>, i: nat,
                        persist: (string, seq<string>) -> seq<int>)
    requires i < |variants|
    ensures AddVariants(m, b, variants[..i + 1], persist) ==
      AddEntries(AddVariants(m, b, variants[..i], persist), variants[i].variant, VariantEntries(b, variants[i], persist))
  {
    assert variants[..i + 1][..i] == variants[..i];
  }

  /** `_parse_module`: for each variant the modular RPMs are persisted and recorded for every returned build id. */
  method ParseModule(b: ErrataBuild, persist: (string, seq<string>) -> seq<int>, m: map<string, seq<Entry>>)
    returns (r: map<string, seq<Entry>>)
    requires b.isModule
    ensures r == AddVariants(m, b, b.variantArch, persist)
  {
    r := m;
    var variants := b.variantArch;
    for i := 0 to |variants|
      invariant r == AddVariants(m, b, variants[..i], persist)
    {
      AddVariantsStep(m, b, variants, i, persist);
      var modularRpms := CollectModularRpms(variants[i].byArch);
      var buildIds := persist(b.nvr, modularRpms);
      var es := seq(|buildIds|, k requires 0 <= k < |buildIds| => Entry(buildIds[k], modularRpms));
      assert es == VariantEntries(b, variants[i], persist);
      r := AppendEntries(r, variants[i].variant, es);
    }
    assert variants[..|variants|] == variants;
  }

  /** The loop over the variants of a normal build: one entry of its id and all its files per variant. */
  method AddBuildComponents(b: ErrataBuild, persist: (string, seq<string>) -> seq<int>, m: map<string, seq<Entry>>)
    returns (r: map<string, seq<Entry>>)
    requires !b.isModule
    ensures r == AddVariants(m, b, b.variantArch, persist)
  {
    r := m;
    var variants := b.variantArch;
    for i := 0 to |variants|
      invariant r == AddVariants(m, b, variants[..i], persist)
    {
      AddVariantsStep(m, b, variants, i, persist);
      var variantComponents := CollectVariantFiles(variants[i].byArch);
      var v := variants[i].variant;
      r := r[v := (if v in r then r[v] else []) + [Entry(b.id, variantComponents)]];
    }
    assert variants[..|variants|] == variants;
  }

  /** `get_erratum_components` over the builds of all product versions, in the order the lists give them. */
  method GetErratumComponents(builds: seq<ErrataBuild>, persist: (string, seq<string>) -> seq<int>)
    returns (variantToComponentMap: map<string, seq<Entry>>)
    ensures variantToComponentMap == VariantMap(builds, persist)
  {
    variantToComponentMap := map[];
    for i := 0 to |builds|
      invariant variantToComponentMap == VariantMap(builds[..i], persist)
    {
      assert builds[..i + 1][..i] == builds[..i];
      if builds[i].isModule {
        variantToComponentMap := ParseModule(builds[i], persist, variantToComponentMap);
        continue;
      }
      variantToComponentMap := AddBuildComponents(builds[i], persist, variantToComponentMap);
    }
    assert builds[..|builds|] == builds;
  }

  // ---------------------------------------------------------------------------------------------
  // load_releases and load_variants
  // ---------------------------------------------------------------------------------------------

  /** A release of `api/v1/releases`. */
  datatype EtRelease = EtRelease(id: int, name: string, isActive: bool, enabled: bool, brewTagNames: seq<string>,
                                 productVersionNames: seq<string>)

  /** The `CollectorErrataRelease` row and the product versions it is linked to. */
  datatype ReleaseRow = ReleaseRow(etId: int, name: string, isActive: bool, enabled: bool, brewTags: seq<string>,
                                   productVersions: set<string>)

  /** `load_releases` for one release: its tags stripped, linked only to the product versions that exist. */
  function LoadRelease(release: EtRelease, existingVersions: set<string>): (row: ReleaseRow)
    ensures row.productVersions <= existingVersions
    ensures forall n :: n in row.productVersions <==> n in release.productVersionNames && n in existingVersions
    ensures row.brewTags == StripCandidateSuffixes(release.brewTagNames)
    ensures row.etId == release.id && row.name == release.name
  {
    ReleaseRow(release.id, release.name, release.isActive, release.enabled,
               StripCandidateSuffixes(release.brewTagNames),
               set n | n in release.productVersionNames && n in existingVersions)
  }

  /** The "cpe" attribute of a variant: missing, null, or a string. */
  datatype CpeAttr = Missing | Null | Cpe(value: string)

  /** A variant of `api/v1/variants`. */
  datatype EtVariant = EtVariant(id: int, name: string, cpe: CpeAttr, productVersionName: string)

  /** The `CollectorErrataProductVariant` row. */
  datatype VariantRow = VariantRow(etId: int, name: string, cpe: string, productVersion: Option<string>)

  /** The stored CPE: a missing, null or empty cpe becomes "". */
  function StoredCpe(cpe: CpeAttr): (r: string)
    ensures r == "" <==> !cpe.Cpe? || cpe.value == ""
    ensures cpe.Cpe? ==> r == cpe.value
  {
    match cpe
    case Cpe(s) => if s == "" then "" else s
    case _ => ""
  }

  /** `load_variants`: one row per variant, in order, linked to its product version when that one exists. */
  method LoadVariants(variants: seq<EtVariant>, existingVersions: set<string>) returns (rows: seq<VariantRow>)
    ensures |rows| == |variants|
    ensures forall i :: 0 <= i < |rows| ==>
      rows[i].etId == variants[i].id && rows[i].name == variants[i].name && rows[i].cpe == StoredCpe(variants[i].cpe)
    ensures forall i :: 0 <= i < |rows| ==>
      (rows[i].productVersion.Some? <==> variants[i].productVersionName in existingVersions)
      && (rows[i].productVersion.Some? ==> rows[i].productVersion.value == variants[i].productVersionName)
  {
    rows := [];
    for i := 0 to |variants|
      invariant |rows| == i
      invariant forall j :: 0 <= j < i ==>
        rows[j].etId == variants[j].id && rows[j].name == variants[j].name && rows[j].cpe == StoredCpe(variants[j].cpe)
      invariant forall j :: 0 <= j < i ==>
        (rows[j].productVersion.Some? <==> variants[j].productVersionName in existingVersions)
        && (rows[j].productVersion.Some? ==> rows[j].productVersion.value == variants[j].productVersionName)
    {
      var variant := variants[i];
      var productVersionName := variant.productVersionName;
      var etProductVersion := if productVersionName in existingVersions then Some(productVersionName) else None;
      // a missing or null cpe is stored as ""
      var cpe := match variant.cpe case Cpe(s) => s case _ => "";
      rows := rows + [VariantRow(variant.id, variant.name, cpe, etProductVersion)];
    }
  }
}
