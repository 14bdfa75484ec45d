/**
 * `get_latest_component`, the stored function installed by migration 0091 and replaced by migration 0099:
 * select the candidate component rows linked to one product-model row, then fold them, keeping a running
 * latest under `rpmvercmp_epoch`. The join tables are sequences of rows in the order the query returns them.
 */
module LatestComponent {
  import opened Wrappers
  import opened RpmVersion
  import opened RpmVersionOrder

  /** The columns of `core_component` the function reads. */
  datatype ComponentRow = ComponentRow(
    uuid: string, name: string, namespace: string, ctype: string, arch: string,
    epoch: Option<int>, version: string, release: string)

  /** One row of a component joined through a link table to a product-model row. */
  datatype Linked = Linked(comp: ComponentRow, ofuri: string, streamActive: bool)

  /** The four joins, `core_component_productvariants` … `core_component_productstreams`. */
  datatype Links = Links(variants: seq<Linked>, versions: seq<Linked>, products: seq<Linked>, streams: seq<Linked>)

  function EvrOf(c: ComponentRow): Evr
  {
    Evr(c.epoch, Some(c.version), Some(c.release))
  }

  // ---------------------------------------------------------------------------------------------
  // The running-latest fold
  // ---------------------------------------------------------------------------------------------

  /** `latest_uuid`, `latest_epoch`, `latest_version`, `latest_release`. */
  datatype Latest = Latest(uuid: Option<string>, evr: Evr)

  const Initial := Latest(None, NullEvr)

  /** One loop iteration: the candidate replaces the latest when `rpmvercmp_epoch(candidate, latest) >= 0`. */
  function Accept(s: Latest, c: ComponentRow): Latest
  {
    if RpmVerCmpEpoch(EvrOf(c), s.evr) >= 0 then Latest(Some(c.uuid), EvrOf(c)) else s
  }

  /** The state after fetching every row of `rows`, in order. */
  function LatestAfter(rows: seq<ComponentRow>): Latest
  {
    if rows == [] then Initial else Accept(LatestAfter(rows[..|rows| - 1]), rows[|rows| - 1])
  }

  /** Which row the latest state was taken from (`None` while nothing was accepted). */
  function LatestIndex(rows: seq<ComponentRow>): (r: Option<nat>)
    ensures r.Some? ==> r.value < |rows|
    ensures LatestAfter(rows) == (if r.None? then Initial else Latest(Some(rows[r.value].uuid), EvrOf(rows[r.value])))
  {
    if rows == [] then None
    else
      var prefix := rows[..|rows| - 1];
      var before := LatestIndex(prefix);
      var last := rows[|rows| - 1];
      assert LatestAfter(rows) == Accept(LatestAfter(prefix), last);
      assert before.Some? ==> prefix[before.value] == rows[before.value];
      if RpmVerCmpEpoch(EvrOf(last), LatestAfter(prefix).evr) >= 0 then Some(|rows| - 1) else before
  }

  /** The FOR/FETCH loop over the candidate rows. */
  method FoldLatest(rows: seq<ComponentRow>) returns (latestUuid: Option<string>)
    ensures latestUuid == LatestAfter(rows).uuid
  {
    latestUuid := None;
    var latestEpoch: Option<int> := None;
    var latestVersion: Option<string> := None;
    var latestRelease: Option<string> := None;
    var i := 0;
    while i < |rows|
      invariant 0 <= i <= |rows|
      invariant Latest(latestUuid, Evr(latestEpoch, latestVersion, latestRelease)) == LatestAfter(rows[..i])
    {
      var c := rows[i];
      assert rows[..i + 1][..i] == rows[..i];
      if RpmVerCmpEpoch(EvrOf(c), Evr(latestEpoch, latestVersion, latestRelease)) >= 0 {
        latestUuid := Some(c.uuid);
        latestEpoch := c.epoch;
        latestVersion := Some(c.version);
        latestRelease := Some(c.release);
      }
      i := i + 1;
    }
    assert rows[..|rows|] == rows;
  }

  /** The result is NULL exactly when every fetched row has a negative epoch (in particular when none is fetched). */
  lemma {:induction false} LatestNullIff(rows: seq<ComponentRow>)
    ensures LatestAfter(rows).uuid.None? <==> forall k :: 0 <= k < |rows| ==> Coalesce(rows[k].epoch) < 0
    ensures LatestAfter(rows).uuid.None? ==> LatestAfter(rows) == Initial
  {
    if rows != [] {
      var prefix := rows[..|rows| - 1];
      LatestNullIff(prefix);
      assert forall k :: 0 <= k < |prefix| ==> prefix[k] == rows[k];
      FirstCandidateAccepted(EvrOf(rows[|rows| - 1]));
    }
  }

  /** A non-NULL result is the uuid of a fetched row. */
  lemma LatestIsFetched(rows: seq<ComponentRow>)
    ensures LatestAfter(rows).uuid.Some? ==> exists k :: 0 <= k < |rows| && LatestAfter(rows).uuid == Some(rows[k].uuid)
  {
    var r := LatestIndex(rows);
  }

  /** Every version and release of the row has at least one segment, so the installed comparator is exact. */
  predicate Comparable(c: ComponentRow)
  {
    |Segments(c.version)| > 0 && |Segments(c.release)| > 0 && Coalesce(c.epoch) >= 0
  }

  /** `rpmvercmp_epoch` on two rows. */
  function Cmp(a: ComponentRow, b: ComponentRow): int
  {
    RpmVerCmpEpoch(EvrOf(a), EvrOf(b))
  }

  /** Row `i` is not exceeded by any row, and every later row is strictly below it. */
  predicate LastMaximalAt(rows: seq<ComponentRow>, i: nat)
  {
    i < |rows| && (forall k :: 0 <= k < |rows| ==> Cmp(rows[k], rows[i]) <= 0)
    && (forall k :: i < k < |rows| ==> Cmp(rows[k], rows[i]) < 0)
  }

  lemma CmpReflexive(x: ComponentRow)
    requires Comparable(x)
    ensures Cmp(x, x) == 0
  {
    EpochAsWrittenAgrees(EvrOf(x), EvrOf(x));
    FixedZeroIffSameTokens(x.version, x.version);
    FixedZeroIffSameTokens(x.release, x.release);
  }

  /** A row below the current latest is below a row that is at least the latest. */
  lemma BelowNewLatest(a: ComponentRow, cur: ComponentRow, x: ComponentRow)
    requires Comparable(a) && Comparable(cur) && Comparable(x)
    requires Cmp(a, cur) <= 0 && Cmp(x, cur) >= 0
    ensures Cmp(a, x) <= 0
  {
    EpochAsWrittenAgrees(EvrOf(x), EvrOf(cur));
    EpochFixedAntisymmetric(EvrOf(x), EvrOf(cur));
    EpochAsWrittenAgrees(EvrOf(a), EvrOf(x));
    EpochAsWrittenAgrees(EvrOf(a), EvrOf(cur));
    EpochAsWrittenAgrees(EvrOf(cur), EvrOf(x));
    EpochFixedTransitive(EvrOf(a), EvrOf(cur), EvrOf(x));
  }

  /** One more fetched row keeps the latest last-maximal, whether or not it replaces it. */
  lemma AcceptKeepsLastMaximal(rows: seq<ComponentRow>, i: nat)
    requires |rows| > 0 && forall k :: 0 <= k < |rows| ==> Comparable(rows[k])
    requires LastMaximalAt(rows[..|rows| - 1], i)
    ensures Cmp(rows[|rows| - 1], rows[i]) >= 0 ==> LastMaximalAt(rows, |rows| - 1)
    ensures Cmp(rows[|rows| - 1], rows[i]) < 0 ==> LastMaximalAt(rows, i)
  {
    var n := |rows| - 1;
    var prefix := rows[..n];
    var x, cur := rows[n], prefix[i];
    if Cmp(x, cur) >= 0 {
      forall k | 0 <= k < |rows|
        ensures Cmp(rows[k], x) <= 0
      {
        if k < n {
          assert prefix[k] == rows[k];
          BelowNewLatest(rows[k], cur, x);
        } else {
          CmpReflexive(x);
        }
      }
    } else {
      forall k | 0 <= k < |rows|
        ensures Cmp(rows[k], cur) <= 0 && (i < k ==> Cmp(rows[k], cur) < 0)
      {
        if k < n {
          assert prefix[k] == rows[k];
        }
      }
    }
  }

  /**
   * The fold keeps a latest that no fetched row exceeds, and no row fetched after it ties with it: among
   * equal versions the last fetched wins.
   */
  lemma {:induction false} LatestIsLastMaximal(rows: seq<ComponentRow>)
    requires forall k :: 0 <= k < |rows| ==> Comparable(rows[k])
    ensures |rows| > 0 <==> LatestIndex(rows).Some?
    ensures LatestIndex(rows).Some? ==> LastMaximalAt(rows, LatestIndex(rows).value)
  {
    LatestNullIff(rows);
    if rows != [] {
      var n := |rows| - 1;
      var prefix := rows[..n];
      forall k | 0 <= k < |prefix|
        ensures Comparable(prefix[k])
      {
        assert prefix[k] == rows[k];
      }
      LatestIsLastMaximal(prefix);
      if LatestIndex(prefix).Some? {
        AcceptKeepsLastMaximal(rows, LatestIndex(prefix).value);
      } else {
        FirstCandidateAccepted(EvrOf(rows[n]));
        CmpReflexive(rows[n]);
      }
    }
  }

  // ---------------------------------------------------------------------------------------------
  // Candidate selection
  // ---------------------------------------------------------------------------------------------

  /** The component rows of the joined rows that satisfy `p`, in query order. */
  function Where(ls: seq<Linked>, p: Linked -> bool): (rows: seq<ComponentRow>)
    ensures |rows| <= |ls|
    ensures forall c :: c in rows <==> exists l :: l in ls && p(l) && l.comp == c
  {
    if ls == [] then []
    else (if p(ls[0]) then [ls[0].comp] else []) + Where(ls[1..], p)
  }

  lemma {:induction false} WhereNothing(ls: seq<Linked>, p: Linked -> bool)
    requires forall l :: l in ls ==> !p(l)
    ensures Where(ls, p) == []
  {
    if ls != [] {
      WhereNothing(ls[1..], p);
    }
  }

  /** `ps_ofuri IS NOT NULL AND <model>.ofuri = ps_ofuri` */
  predicate OfuriMatches(l: Linked, psOfuri: Option<string>)
  {
    psOfuri.Some? && l.ofuri == psOfuri.value
  }

  /** The root-component kinds of migration 0091. */
  predicate RootKind0091(c: ComponentRow)
  {
    (c.ctype == "RPM" && c.arch == "src") || c.ctype == "RPMMOD" || (c.ctype == "OCI" && c.arch == "noarch")
    || (c.arch == "noarch" && c.ctype == "GITHUB")
  }

  /** The root-component kinds of migration 0099: GitHub repositories only in the REDHAT namespace. */
  predicate RootKind0099(c: ComponentRow)
  {
    (c.ctype == "RPM" && c.arch == "src") || c.ctype == "RPMMOD" || (c.ctype == "OCI" && c.arch == "noarch")
    || (c.arch == "noarch" && c.namespace == "REDHAT" && c.ctype == "GITHUB")
  }

  /** The WHERE clause of the variant, version and product loops of migration 0091. */
  predicate Admits0091(l: Linked, psOfuri: Option<string>, ns: string, name: string)
  {
    l.comp.name == name && l.comp.namespace == ns && OfuriMatches(l, psOfuri) && RootKind0091(l.comp)
  }

  /** The WHERE clause of the stream loop of migration 0091, with its `not(include_inactive_streams)` term. */
  predicate AdmitsStream0091(l: Linked, psOfuri: Option<string>, ns: string, name: string, includeInactive: bool)
  {
    l.comp.name == name && l.comp.namespace == ns && (!includeInactive && l.streamActive)
    && OfuriMatches(l, psOfuri) && RootKind0091(l.comp)
  }

  /** The rows the 0091 function loops over for `model_type`. */
  function Candidates0091(db: Links, modelType: string, psOfuri: Option<string>, ns: string, name: string,
                          includeInactive: bool): seq<ComponentRow>
  {
    if modelType == "ProductVariant" then Where(db.variants, l => Admits0091(l, psOfuri, ns, name))
    else if modelType == "ProductVersion" then Where(db.versions, l => Admits0091(l, psOfuri, ns, name))
    else if modelType == "Product" then Where(db.products, l => Admits0091(l, psOfuri, ns, name))
    else Where(db.streams, l => AdmitsStream0091(l, psOfuri, ns, name, includeInactive))
  }

  /** `get_latest_component(model_type, ps_ofuri, component_ns, component_name, include_inactive_streams)` of 0091. */
  method GetLatestComponent0091(db: Links, modelType: string, psOfuri: Option<string>, ns: string, name: string,
                                includeInactive: bool) returns (r: Option<string>)
    ensures r == LatestAfter(Candidates0091(db, modelType, psOfuri, ns, name, includeInactive)).uuid
  {
    r := FoldLatest(Candidates0091(db, modelType, psOfuri, ns, name, includeInactive));
  }

  /** With include_inactive_streams true the 0091 stream loop admits no row at all, so the result is NULL. */
  lemma Stream0091IgnoresInactiveFlag(db: Links, modelType: string, psOfuri: Option<string>, ns: string, name: string)
    requires modelType !in {"ProductVariant", "ProductVersion", "Product"}
    ensures Candidates0091(db, modelType, psOfuri, ns, name, true) == []
    ensures LatestAfter(Candidates0091(db, modelType, psOfuri, ns, name, true)).uuid.None?
  {
    WhereNothing(db.streams, l => AdmitsStream0091(l, psOfuri, ns, name, true));
  }

  /** The stream cursor of migration 0099. */
  predicate AdmitsStream0099(l: Linked, psOfuri: Option<string>, ctype: string, ns: string, name: string, arch: string,
                             includeInactive: bool)
  {
    l.comp.name == name && l.comp.namespace == ns && l.comp.ctype == ctype && l.comp.arch == arch
    && (includeInactive || l.streamActive) && OfuriMatches(l, psOfuri) && RootKind0099(l.comp)
  }

  function StreamCandidates0099(db: Links, psOfuri: Option<string>, ctype: string, ns: string, name: string,
                                arch: string, includeInactive: bool): seq<ComponentRow>
  {
    Where(db.streams, l => AdmitsStream0099(l, psOfuri, ctype, ns, name, arch, includeInactive))
  }

  /** The stream cursor admits exactly the stream links with the requested identity, ofuri, root kind and activity. */
  lemma StreamCursor0099(db: Links, psOfuri: Option<string>, ctype: string, ns: string, name: string, arch: string,
                         includeInactive: bool, l: Linked)
    requires l in db.streams
    ensures l.comp in StreamCandidates0099(db, psOfuri, ctype, ns, name, arch, includeInactive) <==
      (l.comp.name == name && l.comp.namespace == ns && l.comp.ctype == ctype && l.comp.arch == arch
       && psOfuri == Some(l.ofuri) && RootKind0099(l.comp) && (includeInactive || l.streamActive))
    ensures forall c :: c in StreamCandidates0099(db, psOfuri, ctype, ns, name, arch, includeInactive) ==>
      c.name == name && c.namespace == ns && c.ctype == ctype && c.arch == arch && RootKind0099(c)
      && psOfuri.Some?
  {
  }

  /** Inactive streams contribute rows only when include_inactive_streams is set. */
  lemma InactiveOnlyWhenIncluded(db: Links, psOfuri: Option<string>, ctype: string, ns: string, name: string,
                                 arch: string, c: ComponentRow)
    requires c in StreamCandidates0099(db, psOfuri, ctype, ns, name, arch, false)
    ensures exists l :: l in db.streams && l.comp == c && l.streamActive
  {
  }

  /**
   * `get_latest_component(model_type, ps_ofuri, component_type, component_ns, component_name, component_arch,
   * include_inactive_streams)` of 0099. The product, version and variant cursors name `core_productstream`
   * without joining it, so opening them fails.
   */
  method GetLatestComponent0099(db: Links, modelType: string, psOfuri: Option<string>, ctype: string, ns: string,
                                name: string, arch: string, includeInactive: bool) returns (r: Result<Option<string>>)
    ensures modelType in {"ProductVariant", "ProductVersion", "Product"} ==> r.Err?
    ensures modelType !in {"ProductVariant", "ProductVersion", "Product"} ==>
      r == Ok(LatestAfter(StreamCandidates0099(db, psOfuri, ctype, ns, name, arch, includeInactive)).uuid)
  {
    if modelType == "ProductVariant" || modelType == "ProductVersion" || modelType == "Product" {
      return Err(QueryError("missing FROM-clause entry for table \"core_productstream\""));
    }
    var latest := FoldLatest(StreamCandidates0099(db, psOfuri, ctype, ns, name, arch, includeInactive));
    r := Ok(latest);
  }
}
