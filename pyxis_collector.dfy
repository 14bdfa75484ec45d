// The Pyxis collector: a content manifest is read page by page until a page holds fewer components than a
// page may, and the result is the last page's manifest with the components of all pages in order. The GraphQL
// request is a parameter from page number to the decoded manifest or the HTTP error.

module PyxisCollector {
  import opened Wrappers

  /** One component of a manifest, as the Pyxis tasks read it. */
  datatype ManifestComponent = ManifestComponent(purl: Option<string>, name: Option<string>, version: Option<string>,
                                                 externalReferences: Option<seq<Reference>>,
                                                 properties: Option<seq<Property>>)

  datatype Reference = Reference(kind: string, url: string)
  datatype Property = Property(name: string, value: string)

  /** A manifest page: its components (null when the page has none) and the rest of its fields. */
  datatype Manifest = Manifest(components: Option<seq<ManifestComponent>>, attrs: map<string, string>)

  /** `manifest["edges"]["components"]["data"] or ()` */
  function Batch(m: Manifest): seq<ManifestComponent>
  {
    m.components.GetOr([])
  }

  /** A response that ends the paging: an error, or a batch whose length is not the page size. */
  predicate LastPage(pageSize: nat, response: Result<Manifest>)
  {
    response.Err? || |Batch(response.value)| != pageSize
  }

  /** Components read so far put before a result of the remaining pages. */
  function Before(read: seq<ManifestComponent>, r: Result<(seq<ManifestComponent>, Manifest)>)
    : Result<(seq<ManifestComponent>, Manifest)>
  {
    match r
    case Err(e) => Err(e)
    case Ok((rest, m)) => Ok((read + rest, m))
  }

  lemma BeforeNothing(r: Result<(seq<ManifestComponent>, Manifest)>)
    ensures Before([], r) == r
  {
    if r.Ok? {
      assert [] + r.value.0 == r.value.0;
    }
  }

  lemma BeforeAppend(a: seq<ManifestComponent>, b: seq<ManifestComponent>, r: Result<(seq<ManifestComponent>, Manifest)>)
    ensures Before(a, Before(b, r)) == Before(a + b, r)
  {
    if r.Ok? {
      assert a + (b + r.value.0) == (a + b) + r.value.0;
    }
  }

  /**
   * The components of pages `page` on, up to and including the first page that ends the paging, with that last
   * page's manifest; `last` is a page known to end the paging.
   */
  ghost function PagesFrom(fetch: nat -> Result<Manifest>, pageSize: nat, page: nat, last: nat)
    : Result<(seq<ManifestComponent>, Manifest)>
    requires page <= last && LastPage(pageSize, fetch(last))
    decreases last - page
  {
    match fetch(page)
    case Err(e) => Err(e)
    case Ok(m) =>
      if |Batch(m)| != pageSize then Ok((Batch(m), m))
      else Before(Batch(m), PagesFrom(fetch, pageSize, page + 1, last))
  }

  /** The first page from `page` on that ends the paging: the last page requested. */
  ghost function FinalPage(fetch: nat -> Result<Manifest>, pageSize: nat, page: nat, last: nat): (p: nat)
    requires page <= last && LastPage(pageSize, fetch(last))
    ensures page <= p <= last && LastPage(pageSize, fetch(p))
    ensures forall q :: page <= q < p ==> !LastPage(pageSize, fetch(q))
    decreases last - page
  {
    if LastPage(pageSize, fetch(page)) then page else FinalPage(fetch, pageSize, page + 1, last)
  }

  /** The pages `0 .. n - 1`. */
  function PagesUpTo(n: nat): (r: seq<nat>)
    ensures |r| == n && forall i :: 0 <= i < n ==> r[i] == i
  {
    seq(n, i requires 0 <= i < n => i)
  }

  /** The settings the collector needs: the GraphQL url, the client certificate and its key ("" when unset). */
  datatype Settings = Settings(url: string, cert: string, key: string)

  /** The error a missing setting raises, checked before any request. */
  function SettingsError(s: Settings): Option<Error>
  {
    if s.url == "" then Some(ValueError("Set CORGI_PYXIS_GRAPHQL_URL to get manifests from pyxis"))
    else if s.cert == "" || s.key == "" then Some(ValueError("Set CORGI_PYXIS_CERT and CORGI_PYXIS_KEY to get manifests from pyxis"))
    else None
  }

  /** `get_manifest_data`'s result: the last page's manifest holding all pages' components. */
  ghost function ManifestData(fetch: nat -> Result<Manifest>, pageSize: nat, last: nat): Result<Manifest>
    requires LastPage(pageSize, fetch(last))
  {
    match PagesFrom(fetch, pageSize, 0, last)
    case Err(e) => Err(e)
    case Ok((components, m)) => Ok(m.(components := Some(components)))
  }

  /**
   * `get_manifest_data`: checks the settings, then requests pages 0, 1, ... while the last batch was full.
   * Returns the result and the pages requested, in order.
   */
  method GetManifestData(s: Settings, pageSize: nat, fetch: nat -> Result<Manifest>, ghost last: nat)
    returns (r: Result<Manifest>, requested: seq<nat>)
    requires LastPage(pageSize, fetch(last))
    ensures SettingsError(s).Some? ==> r == Err(SettingsError(s).value) && requested == []
    ensures SettingsError(s).None? ==> r == ManifestData(fetch, pageSize, last)
    ensures SettingsError(s).None? ==> requested == PagesUpTo(FinalPage(fetch, pageSize, 0, last) + 1)
  {
    var missing := SettingsError(s);
    if missing.Some? {
      return Err(missing.value), [];
    }
    r, requested := ReadPages(pageSize, fetch, last);
  }

  /** The paging loop of `get_manifest_data`: pages 0, 1, ... while the last batch was full. */
  method ReadPages(pageSize: nat, fetch: nat -> Result<Manifest>, ghost last: nat)
    returns (r: Result<Manifest>, requested: seq<nat>)
    requires LastPage(pageSize, fetch(last))
    ensures r == ManifestData(fetch, pageSize, last)
    ensures requested == PagesUpTo(FinalPage(fetch, pageSize, 0, last) + 1)
  {
    requested := [];
    var hasMore := true;
    var page: nat := 0;
    var components: seq<ManifestComponent> := [];
    var manifest := Manifest(None, map[]);
    BeforeNothing(PagesFrom(fetch, pageSize, 0, last));
    while hasMore
      invariant page <= last + 1
      invariant hasMore ==> page <= last
      invariant hasMore ==> PagesFrom(fetch, pageSize, 0, last) == Before(components, PagesFrom(fetch, pageSize, page, last))
      invariant hasMore ==> FinalPage(fetch, pageSize, 0, last) == FinalPage(fetch, pageSize, page, last)
      invariant hasMore ==> requested == PagesUpTo(page)
      invariant !hasMore ==> PagesFrom(fetch, pageSize, 0, last) == Ok((components, manifest))
      invariant !hasMore ==> requested == PagesUpTo(FinalPage(fetch, pageSize, 0, last) + 1)
      decreases last + 1 - page
    {
      requested := requested + [page];
      var response := fetch(page);
      if response.Err? {
        return Err(response.error), requested;
      }
      manifest := response.value;
      var batch := Batch(manifest);
      ghost var prev := components;
      components := components + batch;
      hasMore := |batch| == pageSize;
      if hasMore {
        BeforeAppend(prev, batch, PagesFrom(fetch, pageSize, page + 1, last));
      } else {
        assert requested == PagesUpTo(page + 1);
      }
      page := page + 1;
    }
    return Ok(manifest.(components := Some(components))), requested;
  }

  /** The result holds the components of every page requested, each page's in order, and nothing else. */
  lemma {:induction false} PagesFromConcatenates(fetch: nat -> Result<Manifest>, pageSize: nat, page: nat, last: nat)
    requires page <= last && LastPage(pageSize, fetch(last))
    requires PagesFrom(fetch, pageSize, page, last).Ok?
    ensures var p := FinalPage(fetch, pageSize, page, last);
      fetch(p).Ok? && PagesFrom(fetch, pageSize, page, last).value.1 == fetch(p).value &&
      PagesFrom(fetch, pageSize, page, last).value.0 == Concat(fetch, page, p)
    decreases last - page
  {
    if !LastPage(pageSize, fetch(page)) {
      PagesFromConcatenates(fetch, pageSize, page + 1, last);
    }
  }

  /** The batches of pages `from .. to`, concatenated; every one of them must have been answered. */
  ghost function Concat(fetch: nat -> Result<Manifest>, from: nat, to: nat): seq<ManifestComponent>
    decreases to - from
  {
    if to < from || fetch(from).Err? then []
    else if from == to then Batch(fetch(from).value)
    else Batch(fetch(from).value) + Concat(fetch, from + 1, to)
  }

  /** Every page before the last requested was full: the result holds at least that many components per page. */
  lemma {:induction false} FullPagesBeforeLast(fetch: nat -> Result<Manifest>, pageSize: nat, page: nat, last: nat)
    requires page <= last && LastPage(pageSize, fetch(last))
    requires PagesFrom(fetch, pageSize, page, last).Ok?
    ensures |PagesFrom(fetch, pageSize, page, last).value.0| >= pageSize * (FinalPage(fetch, pageSize, page, last) - page)
    decreases last - page
  {
    if !LastPage(pageSize, fetch(page)) {
      FullPagesBeforeLast(fetch, pageSize, page + 1, last);
      assert pageSize * (FinalPage(fetch, pageSize, page, last) - page) ==
        pageSize + pageSize * (FinalPage(fetch, pageSize, page + 1, last) - (page + 1));
    }
  }
}
