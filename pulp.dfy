/**
 * The Pulp collector (`corgi/collectors/pulp.py`): the repositories with shipped content, the modules of a
 * repository keyed by their build NVR, and the binary RPMs of a repository grouped by source RPM, read page by
 * page. The HTTP session is a parameter: a response is a status code and the decoded list of units.
 */
module Pulp {
  import opened Wrappers
  import opened Text

  /** `PAGE_SIZE` */
  const PageSize: nat := 500

  /** The part of a unit search that a request chooses: which page of RPMs to skip to. */
  datatype Criteria = Criteria(fields: seq<string>, typeIds: seq<string>, limit: nat, skip: nat)

  /** `RPM_CRITERIA`, the shared template of every RPM search. */
  const RpmCriteria: Criteria := Criteria(["filename", "sourcerpm"], ["rpm"], PageSize, 0)

  /** A response of `session.post`: the status code and the decoded list of units. */
  datatype Response<T> = Response(status: int, units: seq<T>)

  /** One repository of the repositories search: its id and the content set in its notes, if any. */
  datatype PulpRepo = PulpRepo(id: string, contentSet: Option<string>)

  /** The metadata of one modulemd unit. */
  datatype ModuleUnit = ModuleUnit(name: string, stream: string, version: string, context: string,
                                   artifacts: seq<string>)

  /** The metadata of one RPM unit. */
  datatype RpmUnit = RpmUnit(filename: string, sourcerpm: string)

  // ---------------------------------------------------------------------------------------------
  // get_active_repositories
  // ---------------------------------------------------------------------------------------------

  /** The content set stored for a repository: its notes' `content_set`, or "". */
  function ContentSet(repo: PulpRepo): string
  {
    repo.contentSet.GetOr("")
  }

  /** The ids of the repositories. */
  function Ids(repos: seq<PulpRepo>): set<string>
  {
    if repos == [] then {} else Ids(repos[..|repos| - 1]) + {repos[|repos| - 1].id}
  }

  /** The repository table after `update_or_create` for each repository, in order. */
  function StoredRepos(existing: map<string, string>, repos: seq<PulpRepo>): map<string, string>
  {
    if repos == [] then existing
    else
      var last := repos[|repos| - 1];
      StoredRepos(existing, repos[..|repos| - 1])[last.id := ContentSet(last)]
  }

  /**
   * `get_active_repositories` on a successful response: each repository is created or updated with its content
   * set, and the count of created rows is returned.
   */
  method GetActiveRepositories(existing: map<string, string>, response: Response<PulpRepo>)
    returns (r: Result<(map<string, string>, nat)>)
    ensures 400 <= response.status < 600 ==> r == Err(HttpError(response.status))
    ensures !(400 <= response.status < 600) ==>
      r == Ok((StoredRepos(existing, response.units), CreatedCount(existing, response.units)))
  {
    if 400 <= response.status < 600 {
      return Err(HttpError(response.status));
    }
    var store, created := StoreRepos(existing, response.units);
    return Ok((store, created));
  }

  /** The loop of `get_active_repositories`: `update_or_create` per repository, counting the created rows. */
  method StoreRepos(existing: map<string, string>, repos: seq<PulpRepo>) returns (store: map<string, string>, created: nat)
    ensures store == StoredRepos(existing, repos)
    ensures created == CreatedCount(existing, repos)
  {
    store := existing;
    created := 0;
    var i := 0;
    while i < |repos|
      invariant 0 <= i <= |repos|
      invariant store == StoredRepos(existing, repos[..i])
      invariant created == CreatedCount(existing, repos[..i])
    {
      var repo := repos[i];
      assert repos[..i + 1][..i] == repos[..i];
      if repo.id !in store {
        created := created + 1;
      }
      store := store[repo.id := ContentSet(repo)];
      i := i + 1;
    }
    assert repos[..|repos|] == repos;
  }

  /** The number of rows `update_or_create` creates: one per repository whose id is not yet stored. */
  function CreatedCount(existing: map<string, string>, repos: seq<PulpRepo>): nat
  {
    if repos == [] then 0
    else
      var prefix := repos[..|repos| - 1];
      CreatedCount(existing, prefix) + (if repos[|repos| - 1].id in StoredRepos(existing, prefix) then 0 else 1)
  }

  lemma NewIdsStep(ids: set<string>, stored: set<string>, id: string)
    ensures |(ids + {id}) - stored| == |ids - stored| + (if id in stored + ids then 0 else 1)
  {
    if id in stored + ids {
      assert (ids + {id}) - stored == ids - stored;
    } else {
      assert (ids + {id}) - stored == (ids - stored) + {id};
    }
  }

  /** The created count is the number of distinct repository ids the table did not hold before. */
  lemma {:induction false} CreatedCountIsNewIds(existing: map<string, string>, repos: seq<PulpRepo>)
    ensures CreatedCount(existing, repos) == |Ids(repos) - existing.Keys|
    decreases |repos|
  {
    if repos != [] {
      var prefix := repos[..|repos| - 1];
      var id := repos[|repos| - 1].id;
      CreatedCountIsNewIds(existing, prefix);
      StoredReposKeys(existing, prefix);
      assert Ids(repos) == Ids(prefix) + {id};
      NewIdsStep(Ids(prefix), existing.Keys, id);
    }
  }

  /** Every repository ends up stored with the content set of its last occurrence in the response. */
  lemma {:induction false} StoredReposLastWins(existing: map<string, string>, repos: seq<PulpRepo>, j: nat)
    requires j < |repos| && forall k :: j < k < |repos| ==> repos[k].id != repos[j].id
    ensures repos[j].id in StoredRepos(existing, repos)
    ensures StoredRepos(existing, repos)[repos[j].id] == ContentSet(repos[j])
    decreases |repos|
  {
    if j < |repos| - 1 {
      var prefix := repos[..|repos| - 1];
      assert forall k :: j < k < |prefix| ==> prefix[k] == repos[k];
      StoredReposLastWins(existing, prefix, j);
    }
  }

  /** The table afterwards holds the rows it held and one per repository id; the created count is of the new ids. */
  lemma {:induction false} StoredReposKeys(existing: map<string, string>, repos: seq<PulpRepo>)
    ensures StoredRepos(existing, repos).Keys == existing.Keys + Ids(repos)
    ensures StoredRepos(existing, repos).Keys - existing.Keys == Ids(repos) - existing.Keys
    decreases |repos|
  {
    if repos != [] {
      var prefix := repos[..|repos| - 1];
      StoredReposKeys(existing, prefix);
    }
  }

  // ---------------------------------------------------------------------------------------------
  // _get_unit_data
  // ---------------------------------------------------------------------------------------------

  /** `_get_unit_data`: a 404 means no units; any other error status raises; otherwise the decoded units. */
  function UnitData<T>(response: Response<T>): (r: Result<seq<T>>)
    ensures response.status == 404 ==> r == Ok([])
    ensures r.Err? <==> response.status != 404 && 400 <= response.status < 600
    ensures r.Err? ==> r.error == HttpError(response.status)
    ensures r.Ok? && response.status != 404 ==> r.value == response.units
  {
    if response.status == 404 then Ok([])
    else if 400 <= response.status < 600 then Err(HttpError(response.status))
    else Ok(response.units)
  }

  // ---------------------------------------------------------------------------------------------
  // _get_module_data
  // ---------------------------------------------------------------------------------------------

  /** The module key: name, stream with every '-' made '_', version and context. */
  function ModuleKey(m: ModuleUnit): string
  {
    m.name + "-" + SwapChar(m.stream, '-', '_') + "-" + m.version + "." + m.context
  }

  /** The stream part of the key holds no '-', so a key is split at the dash after the stream. */
  lemma ModuleKeyStream(m: ModuleUnit)
    ensures var s := SwapChar(m.stream, '-', '_');
      (|s| == |m.stream| && Free(s, '-') && ModuleKey(m)[..|m.name| + 1 + |s| + 1] == m.name + "-" + s + "-")
  {
  }

  /** Two streams that differ only in '-' against '_' give the same key. */
  lemma ModuleKeyConflatesSeparators(m: ModuleUnit, stream: string)
    requires |stream| == |m.stream|
    requires forall i :: 0 <= i < |stream| ==> stream[i] == m.stream[i] || {stream[i], m.stream[i]} == {'-', '_'}
    ensures ModuleKey(m.(stream := stream)) == ModuleKey(m)
  {
    assert SwapChar(stream, '-', '_') == SwapChar(m.stream, '-', '_');
  }

  /** `rpms_by_module` after the loop over the first entries: each key maps to its entry's artifacts. */
  function ModuleData(entries: seq<ModuleUnit>): (r: map<string, seq<string>>)
    ensures r.Keys == set m | m in entries :: ModuleKey(m)
  {
    if entries == [] then map[]
    else
      var last := entries[|entries| - 1];
      var r := ModuleData(entries[..|entries| - 1])[ModuleKey(last) := last.artifacts];
      assert forall m :: m in entries ==> m in entries[..|entries| - 1] || m == last;
      r
  }

  /** `_get_module_data` */
  method GetModuleData(response: Response<ModuleUnit>) returns (r: Result<map<string, seq<string>>>)
    ensures r == (match UnitData(response) case Err(e) => Err(e) case Ok(entries) => Ok(ModuleData(entries)))
  {
    var data := UnitData(response);
    if data.Err? {
      return Err(data.error);
    }
    var entries := data.value;
    var rpmsByModule: map<string, seq<string>> := map[];
    for i := 0 to |entries|
      invariant rpmsByModule == ModuleData(entries[..i])
    {
      assert entries[..i + 1][..i] == entries[..i];
      var entry := entries[i];
      var stream := SwapChar(entry.stream, '-', '_');
      var moduleKey := entry.name + "-" + stream + "-" + entry.version + "." + entry.context;
      rpmsByModule := rpmsByModule[moduleKey := entry.artifacts];
    }
    assert entries[..|entries|] == entries;
    return Ok(rpmsByModule);
  }

  /** A key holds the artifacts of the last entry with that key: later entries overwrite earlier ones. */
  lemma {:induction false} ModuleDataLastWins(entries: seq<ModuleUnit>, j: nat)
    requires j < |entries| && forall k :: j < k < |entries| ==> ModuleKey(entries[k]) != ModuleKey(entries[j])
    ensures ModuleData(entries)[ModuleKey(entries[j])] == entries[j].artifacts
    decreases |entries|
  {
    if j < |entries| - 1 {
      var prefix := entries[..|entries| - 1];
      assert forall k :: j < k < |prefix| ==> prefix[k] == entries[k];
      ModuleDataLastWins(prefix, j);
    }
  }

  // ---------------------------------------------------------------------------------------------
  // _get_rpm_data
  // ---------------------------------------------------------------------------------------------

  /** A source RPM's file name ends in ".src": those units are skipped. */
  predicate IsSourceRpm(u: RpmUnit) { EndsWith(u.filename, ".src") }

  /** The source RPM a binary RPM is grouped under. */
  function SourceName(u: RpmUnit): string { RemoveSuffix(u.sourcerpm, ".src.rpm") }

  /** One pass of the loop over a page's entries: skip a source RPM, else append its file name to its group. */
  function AddRpm(m: map<string, seq<string>>, u: RpmUnit): map<string, seq<string>>
  {
    if IsSourceRpm(u) then m
    else m[SourceName(u) := (if SourceName(u) in m then m[SourceName(u)] else []) + [u.filename]]
  }

  /** `rpms_by_srpm` after appending the given units in order. */
  function GroupRpms(units: seq<RpmUnit>): (m: map<string, seq<string>>)
  {
    if units == [] then map[] else AddRpm(GroupRpms(units[..|units| - 1]), units[|units| - 1])
  }

  /** The file names of the binary RPMs built from source `k`, in order: the reference for one group. */
  function FilesFrom(units: seq<RpmUnit>, k: string): (files: seq<string>)
    ensures |files| <= |units|
  {
    if units == [] then []
    else
      var u := units[|units| - 1];
      FilesFrom(units[..|units| - 1], k) + (if !IsSourceRpm(u) && SourceName(u) == k then [u.filename] else [])
  }

  /** One appended unit takes the grouping one step. */
  lemma GroupRpmsSnoc(units: seq<RpmUnit>, u: RpmUnit)
    ensures GroupRpms(units + [u]) == AddRpm(GroupRpms(units), u)
  {
    assert (units + [u])[..|units|] == units;
  }

  /**
   * The grouping holds a key exactly for the sources of the binary RPMs, and under each key the file names of
   * that source's binary RPMs in the order they came.
   */
  lemma {:induction false} GroupRpmsIsFiles(units: seq<RpmUnit>, k: string)
    ensures k in GroupRpms(units) <==> exists u :: u in units && !IsSourceRpm(u) && SourceName(u) == k
    ensures k in GroupRpms(units) ==> GroupRpms(units)[k] == FilesFrom(units, k)
    ensures k !in GroupRpms(units) ==> FilesFrom(units, k) == []
    decreases |units|
  {
    if units != [] {
      var prefix := units[..|units| - 1];
      var u := units[|units| - 1];
      GroupRpmsIsFiles(prefix, k);
      assert forall v :: v in units <==> v in prefix || v == u;
    }
  }

  /** The search for page `page`: the template with only the skip changed. */
  function PageCriteria(page: nat): (c: Criteria)
    ensures c.fields == RpmCriteria.fields && c.typeIds == RpmCriteria.typeIds && c.limit == PageSize
    ensures c.skip == PageSize * page
  {
    RpmCriteria.(skip := PageSize * page)
  }

  /** A response that ends the paging: an error, or fewer units than a page holds (a 404 among them). */
  predicate LastPage(response: Response<RpmUnit>)
  {
    var data := UnitData(response);
    data.Err? || |data.value| < PageSize
  }

  /**
   * The units read from page `page` on, up to and including the first page that ends the paging; `last` is a
   * page known to end it.
   */
  ghost function UnitsFrom(fetch: Criteria -> Response<RpmUnit>, page: nat, last: nat): Result<seq<RpmUnit>>
    requires page <= last && LastPage(fetch(PageCriteria(last)))
    decreases last - page
  {
    var response := fetch(PageCriteria(page));
    match UnitData(response)
    case Err(e) => Err(e)
    case Ok(units) =>
      if |units| < PageSize then Ok(units)
      else
        match UnitsFrom(fetch, page + 1, last)
        case Err(e) => Err(e)
        case Ok(rest) => Ok(units + rest)
  }

  /** Which page is known to end the paging does not change what is read. */
  lemma {:induction false} UnitsFromAnyLast(fetch: Criteria -> Response<RpmUnit>, page: nat, last1: nat, last2: nat)
    requires page <= last1 && LastPage(fetch(PageCriteria(last1)))
    requires page <= last2 && LastPage(fetch(PageCriteria(last2)))
    ensures UnitsFrom(fetch, page, last1) == UnitsFrom(fetch, page, last2)
    decreases last1 - page
  {
    var data := UnitData(fetch(PageCriteria(page)));
    if data.Ok? && |data.value| >= PageSize {
      UnitsFromAnyLast(fetch, page + 1, last1, last2);
    }
  }

  /** Every full page is followed by the next one: only the final page read can be short. */
  lemma {:induction false} UnitsFromFullPages(fetch: Criteria -> Response<RpmUnit>, page: nat, last: nat)
    requires page <= last && LastPage(fetch(PageCriteria(last)))
    ensures var r := UnitsFrom(fetch, page, last);
      r.Ok? ==> |r.value| >= PageSize * (FirstLastPage(fetch, page, last) - page)
    decreases last - page
  {
    var data := UnitData(fetch(PageCriteria(page)));
    if data.Ok? && |data.value| >= PageSize {
      UnitsFromFullPages(fetch, page + 1, last);
    }
  }

  /** The first page from `page` on that ends the paging: the last page requested. */
  ghost function FirstLastPage(fetch: Criteria -> Response<RpmUnit>, page: nat, last: nat): (p: nat)
    requires page <= last && LastPage(fetch(PageCriteria(last)))
    ensures page <= p <= last && LastPage(fetch(PageCriteria(p)))
    ensures forall q :: page <= q < p ==> !LastPage(fetch(PageCriteria(q)))
    decreases last - page
  {
    if LastPage(fetch(PageCriteria(page))) then page else FirstLastPage(fetch, page + 1, last)
  }

  /** The RPMs of the repository grouped by source RPM, or the error that stopped the paging. */
  ghost function RpmData(fetch: Criteria -> Response<RpmUnit>, last: nat): Result<map<string, seq<string>>>
    requires LastPage(fetch(PageCriteria(last)))
  {
    match UnitsFrom(fetch, 0, last)
    case Err(e) => Err(e)
    case Ok(units) => Ok(GroupRpms(units))
  }

  /** Appends one page's units to the grouping. */
  method AppendPage(rpmsBySrpm: map<string, seq<string>>, ghost before: seq<RpmUnit>, units: seq<RpmUnit>)
    returns (grouped: map<string, seq<string>>)
    requires rpmsBySrpm == GroupRpms(before)
    ensures grouped == GroupRpms(before + units)
  {
    grouped := rpmsBySrpm;
    assert before + units[..0] == before;
    for i := 0 to |units|
      invariant grouped == GroupRpms(before + units[..i])
    {
      var entry := units[i];
      GroupRpmsSnoc(before + units[..i], entry);
      assert before + units[..i + 1] == before + units[..i] + [entry];
      if EndsWith(entry.filename, ".src") {
        continue;
      }
      var sourceRpm := RemoveSuffix(entry.sourcerpm, ".src.rpm");
      var files := if sourceRpm in grouped then grouped[sourceRpm] else [];
      grouped := grouped[sourceRpm := files + [entry.filename]];
    }
    assert units[..|units|] == units;
  }

  /**
   * `_get_rpm_data`: page `page` skips 500 * `page` units; the pages are read until the first short one and their
   * RPMs grouped by source. `fetch` is the unit search of the repository; `last` is a page that ends the paging.
   */
  method GetRpmData(fetch: Criteria -> Response<RpmUnit>, ghost last: nat) returns (r: Result<map<string, seq<string>>>)
    requires LastPage(fetch(PageCriteria(last)))
    ensures r == RpmData(fetch, last)
  {
    var rpmsBySrpm: map<string, seq<string>> := map[];
    ghost var read: seq<RpmUnit> := [];
    var page: nat := 0;
    var rpmCriteria := RpmCriteria;
    PrependNothing(UnitsFrom(fetch, 0, last));
    while true
      invariant page <= last
      invariant rpmsBySrpm == GroupRpms(read)
      invariant rpmCriteria.fields == RpmCriteria.fields && rpmCriteria.typeIds == RpmCriteria.typeIds
      invariant rpmCriteria.limit == PageSize
      invariant UnitsFrom(fetch, 0, last) == Prepend(read, UnitsFrom(fetch, page, last))
      decreases last - page
    {
      rpmCriteria := rpmCriteria.(skip := PageSize * page);
      assert rpmCriteria == PageCriteria(page);
      var rpmData := UnitData(fetch(rpmCriteria));
      if rpmData.Err? {
        return Err(rpmData.error);
      }
      ghost var prev := read;
      rpmsBySrpm := AppendPage(rpmsBySrpm, read, rpmData.value);
      read := read + rpmData.value;
      if |rpmData.value| < PageSize {
        return Ok(rpmsBySrpm);
      }
      PrependAppend(prev, rpmData.value, UnitsFrom(fetch, page + 1, last));
      page := page + 1;
    }
  }
}
