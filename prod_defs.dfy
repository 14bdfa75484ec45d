// Product definitions: the collector that filters products by business unit and shapes the product ->
// version -> stream tree with each stream's active flag, and the task's reading of a shaped stream (its
// version-like suffix, its brew tag and compose tables, its Errata Tool product versions). Fetching the
// definitions and the ORM writes are left out; the decoded documents are the input.

module ProdDefs {
  import opened Wrappers
  import opened Text

  // ---------------------------------------------------------------------------------------------
  // The collector
  // ---------------------------------------------------------------------------------------------

  /** A "ps_products" entry: its business unit, its "ps_modules" and the rest of its attributes. */
  datatype PsProduct = PsProduct(businessUnit: string, psModules: seq<string>, attrs: map<string, string>)

  /** A "ps_modules" entry: its active and all its "ps_update_streams", and the rest of its attributes. */
  datatype PsModule = PsModule(activeStreams: seq<string>, streams: seq<string>, attrs: map<string, string>)

  /** A "ps_update_streams" entry, as the stream builder reads it. */
  datatype PsStream = PsStream(brewTags: seq<BrewTag>, composes: seq<Compose>, errataInfo: seq<EtProduct>,
                               yumRepositories: seq<string>)

  datatype BrewTag = BrewTag(tag: string, inherit: bool)
  datatype Compose = Compose(url: string, variants: seq<string>)
  datatype EtProductVersion = EtProductVersion(name: string, variants: seq<string>)
  datatype EtProduct = EtProduct(productName: string, productVersions: seq<EtProductVersion>)

  /** The product definitions document; "ps_products" keeps its keys in document order. */
  datatype Definitions = Definitions(products: seq<(string, PsProduct)>, modules: map<string, PsModule>,
                                     streams: map<string, PsStream>)

  /** A stream of the shaped tree: its id, its entry and whether it is one of its module's active streams. */
  datatype Stream = Stream(id: string, stream: PsStream, active: bool)

  /** A version of the shaped tree: its id, its entry and its streams in "ps_update_streams" order. */
  datatype Version = Version(id: string, psModule: PsModule, productStreams: seq<Stream>)

  /** A product of the shaped tree: its id, its entry and its versions in "ps_modules" order. */
  datatype Product = Product(id: string, product: PsProduct, productVersions: seq<Version>)

  /** Community mode keeps only Community products; enterprise mode keeps every other product. */
  predicate Wanted(community: bool, p: PsProduct)
  {
    if community then p.businessUnit == "Community" else p.businessUnit != "Community"
  }

  /** `load_products`: the wanted products in document order, with their ids. */
  function Products(community: bool, ps: seq<(string, PsProduct)>): (r: seq<(string, PsProduct)>)
    ensures |r| <= |ps|
  {
    if ps == [] then []
    else
      var front := Products(community, ps[..|ps| - 1]);
      var p := ps[|ps| - 1];
      if Wanted(community, p.1) then front + [p] else front
  }

  method LoadProducts(community: bool, ps: seq<(string, PsProduct)>) returns (products: seq<(string, PsProduct)>)
    ensures products == Products(community, ps)
  {
    products := [];
    for i := 0 to |ps|
      invariant products == Products(community, ps[..i])
    {
      assert ps[..i + 1][..i] == ps[..i];
      var (id, product) := ps[i];
      if community {
        if product.businessUnit != "Community" {
          continue;
        }
      } else {
        if product.businessUnit == "Community" {
          continue;
        }
      }
      products := products + [(id, product)];
    }
    assert ps[..|ps|] == ps;
  }

  /** The products kept are exactly the wanted ones of the document, each once. */
  lemma {:induction false} ProductsMembers(community: bool, ps: seq<(string, PsProduct)>)
    ensures forall p :: p in Products(community, ps) <==> p in ps && Wanted(community, p.1)
    ensures |Products(community, ps)| <= |ps|
  {
    if ps != [] {
      var n := |ps| - 1;
      ProductsMembers(community, ps[..n]);
      assert ps == ps[..n] + [ps[n]];
    }
  }

  /** The community and the enterprise selections split the document: every product is in exactly one. */
  lemma {:induction false} ProductsPartition(ps: seq<(string, PsProduct)>)
    ensures |Products(true, ps)| + |Products(false, ps)| == |ps|
  {
    if ps != [] {
      ProductsPartition(ps[..|ps| - 1]);
    }
  }

  /** One stream of a module: a stream id missing from the document raises KeyError. */
  function StreamOf(d: Definitions, m: PsModule, id: string): Result<Stream>
  {
    if id !in d.streams then Err(KeyError(id))
    else Ok(Stream(id, d.streams[id], id in m.activeStreams))
  }

  /** One version of a product: a module id missing from the document raises KeyError, as does a missing stream. */
  function VersionOf(d: Definitions, id: string): Result<Version>
  {
    if id !in d.modules then Err(KeyError(id))
    else
      var m := d.modules[id];
      match MapAll((s: string) => StreamOf(d, m, s), m.streams)
      case Err(e) => Err(e)
      case Ok(streams) => Ok(Version(id, m, streams))
  }

  function ProductOf(d: Definitions, p: (string, PsProduct)): Result<Product>
  {
    match MapAll((v: string) => VersionOf(d, v), p.1.psModules)
    case Err(e) => Err(e)
    case Ok(versions) => Ok(Product(p.0, p.1, versions))
  }

  /**
   * The tree the loops build, with each stream carrying the flag its own visit writes: whether the module being
   * visited lists it as active.
   */
  function RawShape(community: bool, d: Definitions): Result<seq<Product>>
  {
    MapAll((p: (string, PsProduct)) => ProductOf(d, p), Products(community, d.products))
  }

  // The stream entries are shared dicts: every module that lists a stream appends the same dict, and each visit
  // overwrites its "active" key. The table below holds those keys, updated in place by the loops.

  /** The flags after one module's visit has written its streams `ids`, each active iff the module lists it so. */
  function StreamWrites(active: map<string, bool>, m: PsModule, ids: seq<string>): map<string, bool>
  {
    if ids == [] then active
    else
      var id := ids[|ids| - 1];
      StreamWrites(active, m, ids[..|ids| - 1])[id := id in m.activeStreams]
  }

  lemma {:induction false} StreamWritesAt(active: map<string, bool>, m: PsModule, ids: seq<string>)
    ensures forall id :: id in StreamWrites(active, m, ids) <==> id in active || id in ids
    ensures forall id :: id in ids ==> StreamWrites(active, m, ids)[id] == (id in m.activeStreams)
    ensures forall id :: id !in ids && id in active ==> StreamWrites(active, m, ids)[id] == active[id]
  {
    if ids != [] {
      var n := |ids| - 1;
      StreamWritesAt(active, m, ids[..n]);
      assert ids == ids[..n] + [ids[n]];
    }
  }

  /** The flags after the visits of the modules `ms`, in order. */
  function ModuleWrites(active: map<string, bool>, ms: seq<PsModule>): map<string, bool>
  {
    if ms == [] then active
    else
      var m := ms[|ms| - 1];
      StreamWrites(ModuleWrites(active, ms[..|ms| - 1]), m, m.streams)
  }

  lemma {:induction false} ModuleWritesAppend(active: map<string, bool>, xs: seq<PsModule>, ys: seq<PsModule>)
    ensures ModuleWrites(active, xs + ys) == ModuleWrites(ModuleWrites(active, xs), ys)
  {
    if ys == [] {
      assert xs + ys == xs;
    } else {
      var n := |ys| - 1;
      assert (xs + ys)[..|xs + ys| - 1] == xs + ys[..n];
      ModuleWritesAppend(active, xs, ys[..n]);
    }
  }

  /** The modules the loops visit for the module ids `ids`, in order; a missing one stops the load anyway. */
  function VisitedModules(d: Definitions, ids: seq<string>): seq<PsModule>
  {
    if ids == [] then []
    else
      var id := ids[|ids| - 1];
      VisitedModules(d, ids[..|ids| - 1]) + (if id in d.modules then [d.modules[id]] else [])
  }

  lemma {:induction false} VisitedAppend(d: Definitions, xs: seq<string>, ys: seq<string>)
    ensures VisitedModules(d, xs + ys) == VisitedModules(d, xs) + VisitedModules(d, ys)
  {
    if ys == [] {
      assert xs + ys == xs;
    } else {
      var n := |ys| - 1;
      assert (xs + ys)[..|xs + ys| - 1] == xs + ys[..n];
      VisitedAppend(d, xs, ys[..n]);
    }
  }

  lemma {:induction false} VisitedMember(d: Definitions, ids: seq<string>, id: string)
    requires id in ids && id in d.modules
    ensures d.modules[id] in VisitedModules(d, ids)
  {
    var n := |ids| - 1;
    if ids[n] != id {
      assert id in ids[..n];
      VisitedMember(d, ids[..n], id);
    }
  }

  /** The module ids of the products, product by product, in order. */
  function ModuleIds(products: seq<(string, PsProduct)>): seq<string>
  {
    if products == [] then [] else ModuleIds(products[..|products| - 1]) + products[|products| - 1].1.psModules
  }

  lemma {:induction false} ModuleIdsMember(products: seq<(string, PsProduct)>, i: nat, j: nat)
    requires i < |products| && j < |products[i].1.psModules|
    ensures products[i].1.psModules[j] in ModuleIds(products)
  {
    var n := |products| - 1;
    if i < n {
      ModuleIdsMember(products[..n], i, j);
    }
  }

  /** The flags of the shared stream dicts once the load has visited every module of the wanted products. */
  function FinalFlags(community: bool, d: Definitions): map<string, bool>
  {
    ModuleWrites(map[], VisitedModules(d, ModuleIds(Products(community, d.products))))
  }

  /** The position of the last module of `ms` that lists the stream `id`, if any. */
  function LastListing(ms: seq<PsModule>, id: string): (r: Option<nat>)
    ensures r.Some? ==> r.value < |ms| && id in ms[r.value].streams
    ensures r.Some? ==> forall k :: r.value < k < |ms| ==> id !in ms[k].streams
    ensures r.None? <==> forall k :: 0 <= k < |ms| ==> id !in ms[k].streams
  {
    if ms == [] then None
    else if id in ms[|ms| - 1].streams then Some(|ms| - 1)
    else LastListing(ms[..|ms| - 1], id)
  }

  /** After the visits of `ms`, a stream has a flag iff some module lists it, and the last such module set it. */
  lemma {:induction false} ModuleWritesLast(ms: seq<PsModule>, id: string)
    ensures id in ModuleWrites(map[], ms) <==> LastListing(ms, id).Some?
    ensures LastListing(ms, id).Some? ==>
              ModuleWrites(map[], ms)[id] == (id in ms[LastListing(ms, id).value].activeStreams)
  {
    if ms != [] {
      var n := |ms| - 1;
      ModuleWritesLast(ms[..n], id);
      StreamWritesAt(ModuleWrites(map[], ms[..n]), ms[n], ms[n].streams);
    }
  }

  /** A stream of the returned tree reads the flag its shared dict holds when the load returns. */
  function ResolveStream(s: Stream, active: map<string, bool>): Stream
  {
    Stream(s.id, s.stream, if s.id in active then active[s.id] else s.active)
  }

  function ResolveVersion(v: Version, active: map<string, bool>): Version
  {
    Version(v.id, v.psModule, seq(|v.productStreams|, k requires 0 <= k < |v.productStreams| =>
                                    ResolveStream(v.productStreams[k], active)))
  }

  function ResolveProduct(p: Product, active: map<string, bool>): Product
  {
    Product(p.id, p.product, seq(|p.productVersions|, j requires 0 <= j < |p.productVersions| =>
                                   ResolveVersion(p.productVersions[j], active)))
  }

  function Resolve(tree: seq<Product>, active: map<string, bool>): seq<Product>
  {
    seq(|tree|, i requires 0 <= i < |tree| => ResolveProduct(tree[i], active))
  }

  /**
   * `load_product_definitions` once the document is at hand: the wanted products, shaped, with every stream
   * showing the flag the last visit of its shared dict wrote.
   */
  function Shape(community: bool, d: Definitions): Result<seq<Product>>
  {
    match RawShape(community, d)
    case Err(e) => Err(e)
    case Ok(tree) => Ok(Resolve(tree, FinalFlags(community, d)))
  }

  /**
   * The streams of one module, as the innermost loop builds them. `active` holds the "active" keys of the shared
   * stream dicts; the loop overwrites the key of each stream it visits.
   */
  method ShapeStreams(d: Definitions, m: PsModule, active: map<string, bool>)
    returns (r: Result<seq<Stream>>, active': map<string, bool>)
    ensures r == MapAll((s: string) => StreamOf(d, m, s), m.streams)
    ensures r.Ok? ==> active' == StreamWrites(active, m, m.streams)
  {
    var f := (s: string) => StreamOf(d, m, s);
    var streams: seq<Stream> := [];
    active' := active;
    for i := 0 to |m.streams|
      invariant MapAll(f, m.streams[..i]) == Ok(streams)
      invariant active' == StreamWrites(active, m, m.streams[..i])
    {
      MapAllSnoc(f, m.streams, i);
      StreamWritesSnoc(active, m, i);
      var id := m.streams[i];
      if id !in d.streams {
        assert f(id) == Err(KeyError(id));
        MapAllErrStays(f, m.streams, i + 1);
        return Err(KeyError(id)), active';
      }
      if id in m.activeStreams {
        active' := active'[id := true];
      } else {
        active' := active'[id := false];
      }
      assert f(id) == Ok(Stream(id, d.streams[id], id in m.activeStreams));
      streams := streams + [Stream(id, d.streams[id], id in m.activeStreams)];
    }
    assert m.streams[..|m.streams|] == m.streams;
    return Ok(streams), active';
  }

  /** One more visited stream writes its own flag over the writes before it. */
  lemma StreamWritesSnoc(active: map<string, bool>, m: PsModule, i: nat)
    requires i < |m.streams|
    ensures StreamWrites(active, m, m.streams[..i + 1]) ==
      StreamWrites(active, m, m.streams[..i])[m.streams[i] := m.streams[i] in m.activeStreams]
  {
    assert m.streams[..i + 1][..i] == m.streams[..i];
  }

  /** The versions of one product, as the middle loop builds them, with the flags their streams' visits write. */
  method ShapeVersions(d: Definitions, p: PsProduct, active: map<string, bool>)
    returns (r: Result<seq<Version>>, active': map<string, bool>)
    ensures r == MapAll((v: string) => VersionOf(d, v), p.psModules)
    ensures r.Ok? ==> active' == ModuleWrites(active, VisitedModules(d, p.psModules))
  {
    var f := (v: string) => VersionOf(d, v);
    var versions: seq<Version> := [];
    active' := active;
    for i := 0 to |p.psModules|
      invariant MapAll(f, p.psModules[..i]) == Ok(versions)
      invariant active' == ModuleWrites(active, VisitedModules(d, p.psModules[..i]))
    {
      MapAllSnoc(f, p.psModules, i);
      var id := p.psModules[i];
      if id !in d.modules {
        MapAllErrStays(f, p.psModules, i + 1);
        return Err(KeyError(id)), active';
      }
      var streams;
      ghost var mid := active';
      streams, active' := ShapeStreams(d, d.modules[id], active');
      if streams.Err? {
        MapAllErrStays(f, p.psModules, i + 1);
        return Err(streams.error), active';
      }
      ModuleStep(d, p.psModules, i, active, mid);
      versions := versions + [Version(id, d.modules[id], streams.value)];
    }
    assert p.psModules[..|p.psModules|] == p.psModules;
    return Ok(versions), active';
  }

  /**
   * The document `load_product_definitions` goes on with, as written: the `except ConnectionError` clause names
   * Python's built-in class, so only that error falls back to the community file, and only in community mode.
   * A request that cannot connect raises requests' own ConnectionError, which that clause does not catch.
   */
  function SourceDocument(community: bool, fetched: Result<Definitions>, bundled: Definitions): (r: Result<Definitions>)
    ensures fetched.Ok? ==> r == fetched
    ensures r.Err? <==> fetched.Err? && !(community && fetched.error == ConnectionError)
    ensures r.Err? ==> r.error == fetched.error
    ensures fetched.Err? && r.Ok? ==> r.value == bundled
  {
    if fetched.Ok? then fetched
    else if community && fetched.error == ConnectionError then Ok(bundled)
    else Err(fetched.error)
  }

  /** A failure to connect, whether raised by the socket layer or by requests. */
  predicate IsConnectionFailure(e: Error) { e == ConnectionError || e == RequestsConnectionError }

  /** The evidently intended fallback: any connection failure falls back to the community file in community mode. */
  function SourceDocumentFixed(community: bool, fetched: Result<Definitions>, bundled: Definitions): Result<Definitions>
  {
    if fetched.Ok? then fetched
    else if community && IsConnectionFailure(fetched.error) then Ok(bundled)
    else Err(fetched.error)
  }

  /** An unreachable service in community mode: the code as written raises, the intended fallback reads the file. */
  lemma RequestsFailureNotCaught(bundled: Definitions)
    ensures SourceDocument(true, Err(RequestsConnectionError), bundled) == Err(RequestsConnectionError)
    ensures SourceDocumentFixed(true, Err(RequestsConnectionError), bundled) == Ok(bundled)
  {
  }

  /**
   * The corrected fallback: in community mode every connection failure reads the file, every other error is
   * raised, and enterprise mode raises every error; wherever the code as written already succeeds, it agrees.
   */
  lemma FixedDocumentFallsBack(community: bool, fetched: Result<Definitions>, bundled: Definitions)
    ensures SourceDocumentFixed(community, fetched, bundled).Err? <==>
      fetched.Err? && !(community && IsConnectionFailure(fetched.error))
    ensures fetched.Err? && community && IsConnectionFailure(fetched.error) ==>
      SourceDocumentFixed(community, fetched, bundled) == Ok(bundled)
    ensures SourceDocumentFixed(community, fetched, bundled).Err? ==>
      SourceDocumentFixed(community, fetched, bundled).error == fetched.error
    ensures SourceDocument(community, fetched, bundled).Ok? ==>
      SourceDocumentFixed(community, fetched, bundled) == SourceDocument(community, fetched, bundled)
  {
  }

  /**
   * `load_product_definitions`: `fetched` is the answer of the product definitions service (or the exception its
   * request raised) and `bundled` the community file; the document is the one `SourceDocument` picks. The
   * returned dicts are the document's own: each stream shows the flag the last visit of its dict wrote.
   */
  method LoadProductDefinitions(community: bool, fetched: Result<Definitions>, bundled: Definitions)
    returns (r: Result<seq<Product>>)
    ensures SourceDocument(community, fetched, bundled).Err? ==> r == Err(fetched.error)
    ensures SourceDocument(community, fetched, bundled).Ok? ==> r == Shape(community, SourceDocument(community, fetched, bundled).value)
    ensures fetched.Ok? ==> r == Shape(community, fetched.value)
    ensures fetched.Err? && fetched.error == ConnectionError && community ==> r == Shape(community, bundled)
    ensures fetched.Err? && !(fetched.error == ConnectionError && community) ==> r == Err(fetched.error)
  {
    var d: Definitions;
    if fetched.Err? {
      if fetched.error == ConnectionError && community {
        d := bundled;
      } else {
        return Err(fetched.error);
      }
    } else {
      d := fetched.value;
    }
    var products := LoadProducts(community, d.products);
    var active;
    r, active := ShapeProducts(d, products, map[]);
    if r.Ok? {
      r := Ok(Resolve(r.value, active));
    }
  }

  /** The products, as the outer loop builds them, with the flags their streams' visits write. */
  method ShapeProducts(d: Definitions, products: seq<(string, PsProduct)>, active: map<string, bool>)
    returns (r: Result<seq<Product>>, active': map<string, bool>)
    ensures r == MapAll((p: (string, PsProduct)) => ProductOf(d, p), products)
    ensures r.Ok? ==> active' == ModuleWrites(active, VisitedModules(d, ModuleIds(products)))
  {
    var f := (p: (string, PsProduct)) => ProductOf(d, p);
    var shaped: seq<Product> := [];
    active' := active;
    for i := 0 to |products|
      invariant MapAll(f, products[..i]) == Ok(shaped)
      invariant active' == ModuleWrites(active, VisitedModules(d, ModuleIds(products[..i])))
    {
      MapAllSnoc(f, products, i);
      ghost var before := VisitedModules(d, ModuleIds(products[..i]));
      ghost var mid := active';
      var versions;
      versions, active' := ShapeVersions(d, products[i].1, active');
      if versions.Err? {
        MapAllErrStays(f, products, i + 1);
        return Err(versions.error), active';
      }
      ProductStep(d, products, i, active, mid);
      shaped := shaped + [Product(products[i].0, products[i].1, versions.value)];
    }
    assert products[..|products|] == products;
    return Ok(shaped), active';
  }

  /** One more module's visit continues the writes of the modules before it. */
  lemma ModuleStep(d: Definitions, ids: seq<string>, i: nat, active: map<string, bool>, mid: map<string, bool>)
    requires i < |ids| && ids[i] in d.modules
    requires mid == ModuleWrites(active, VisitedModules(d, ids[..i]))
    ensures StreamWrites(mid, d.modules[ids[i]], d.modules[ids[i]].streams) ==
            ModuleWrites(active, VisitedModules(d, ids[..i + 1]))
  {
    var before := VisitedModules(d, ids[..i]);
    assert ids[..i + 1][..i] == ids[..i];
    assert VisitedModules(d, ids[..i + 1]) == before + [d.modules[ids[i]]];
    assert (before + [d.modules[ids[i]]])[..|before|] == before;
  }

  /** One more product's visits continue the writes of the products before it. */
  lemma ProductStep(d: Definitions, products: seq<(string, PsProduct)>, i: nat, active: map<string, bool>,
                    mid: map<string, bool>)
    requires i < |products|
    requires mid == ModuleWrites(active, VisitedModules(d, ModuleIds(products[..i])))
    ensures ModuleWrites(mid, VisitedModules(d, products[i].1.psModules)) ==
            ModuleWrites(active, VisitedModules(d, ModuleIds(products[..i + 1])))
  {
    assert products[..i + 1][..i] == products[..i];
    assert ModuleIds(products[..i + 1]) == ModuleIds(products[..i]) + products[i].1.psModules;
    VisitedAppend(d, ModuleIds(products[..i]), products[i].1.psModules);
    ModuleWritesAppend(active, VisitedModules(d, ModuleIds(products[..i])), VisitedModules(d, products[i].1.psModules));
  }

  /**
   * The shaped tree follows the document: versions in "ps_modules" order and streams in "ps_update_streams"
   * order, each with its own entry; a stream is active iff the last module visited (products in order, then
   * their modules in order) that lists it has it among its active streams.
   */
  lemma ShapedTree(community: bool, d: Definitions, i: nat, j: nat, k: nat)
    requires Shape(community, d).Ok? && i < |Shape(community, d).value|
    requires j < |Shape(community, d).value[i].productVersions|
    requires k < |Shape(community, d).value[i].productVersions[j].productStreams|
    ensures var p := Shape(community, d).value[i];
      var v := p.productVersions[j];
      var s := v.productStreams[k];
      var visited := VisitedModules(d, ModuleIds(Products(community, d.products)));
      Wanted(community, p.product) && (p.id, p.product) in d.products &&
      |p.productVersions| == |p.product.psModules| && v.id == p.product.psModules[j] &&
      v.id in d.modules && v.psModule == d.modules[v.id] &&
      |v.productStreams| == |v.psModule.streams| && s.id == v.psModule.streams[k] &&
      s.id in d.streams && s.stream == d.streams[s.id] &&
      LastListing(visited, s.id).Some? &&
      (s.active <==> s.id in visited[LastListing(visited, s.id).value].activeStreams)
  {
    var raw := RawShape(community, d).value;
    RawShapedTree(community, d, i, j, k);
    var rs := raw[i].productVersions[j].productStreams[k];
    assert Shape(community, d).value[i].productVersions[j].productStreams[k] ==
           ResolveStream(rs, FinalFlags(community, d));
    var ps := Products(community, d.products);
    var visited := VisitedModules(d, ModuleIds(ps));
    var v := raw[i].productVersions[j];
    ModuleIdsMember(ps, i, j);
    VisitedMember(d, ModuleIds(ps), v.id);
    var n :| 0 <= n < |visited| && visited[n] == d.modules[v.id];
    assert rs.id in visited[n].streams;
    ModuleWritesLast(visited, rs.id);
  }

  /** The tree the loops build before the shared flags are read: the document's shape and each visit's flag. */
  lemma RawShapedTree(community: bool, d: Definitions, i: nat, j: nat, k: nat)
    requires RawShape(community, d).Ok? && i < |RawShape(community, d).value|
    requires j < |RawShape(community, d).value[i].productVersions|
    requires k < |RawShape(community, d).value[i].productVersions[j].productStreams|
    ensures var ps := Products(community, d.products);
      var p := RawShape(community, d).value[i];
      var v := p.productVersions[j];
      var s := v.productStreams[k];
      i < |ps| && p.id == ps[i].0 && p.product == ps[i].1 &&
      Wanted(community, p.product) && (p.id, p.product) in d.products &&
      |p.productVersions| == |p.product.psModules| && v.id == p.product.psModules[j] &&
      v.id in d.modules && v.psModule == d.modules[v.id] &&
      |v.productStreams| == |v.psModule.streams| && s.id == v.psModule.streams[k] &&
      s.id in d.streams && s.stream == d.streams[s.id] && (s.active <==> s.id in v.psModule.activeStreams)
  {
    var ps := Products(community, d.products);
    ProductsMembers(community, d.products);
    var fp := (p: (string, PsProduct)) => ProductOf(d, p);
    assert fp(ps[i]).Ok?;
    var fv := (v: string) => VersionOf(d, v);
    assert fv(ps[i].1.psModules[j]).Ok?;
  }

  /**
   * A stream listed by two modules of a product takes the flag of the later one everywhere: here "s" is active
   * in "m1" and not in "m2", and shows inactive under both.
   */
  lemma SharedStreamTakesLastFlag()
    ensures var d := SharedStreamDocument();
      Shape(false, d).Ok? &&
      |Shape(false, d).value| == 1 && |Shape(false, d).value[0].productVersions| == 2 &&
      Shape(false, d).value[0].productVersions[0].productStreams == [Stream("s", EmptyStream, false)] &&
      Shape(false, d).value[0].productVersions[1].productStreams == [Stream("s", EmptyStream, false)]
  {
    var d := SharedStreamDocument();
    SharedStreamShape(d);
    SharedStreamVisits(d);
    SharedStreamModules(d);
    RawVersionStreams(d, 0);
    RawVersionStreams(d, 1);
    ResolveKeepsCounts(false, d, 0, 0);
    ResolveKeepsCounts(false, d, 0, 1);
    SharedStreamVersion(d, 0);
    SharedStreamVersion(d, 1);
  }

  lemma SharedStreamShape(d: Definitions)
    requires d == SharedStreamDocument()
    ensures RawShape(false, d).Ok? && |RawShape(false, d).value| == 1
    ensures |RawShape(false, d).value[0].productVersions| == 2
    ensures Shape(false, d).Ok? && |Shape(false, d).value| == 1 && |Shape(false, d).value[0].productVersions| == 2
  {
    var p := ("p", PsProduct("Cloud", ["m1", "m2"], map[]));
    assert Products(false, d.products) == [p];
    ShapeFails(false, d);
    var fp := (p: (string, PsProduct)) => ProductOf(d, p);
    assert RawShape(false, d).value[0] == fp(p).value;
    ResolveKeepsCounts(false, d, 0, 0);
  }

  lemma SharedStreamModules(d: Definitions)
    requires d == SharedStreamDocument()
    ensures forall id :: id in d.modules ==> d.modules[id].streams == ["s"]
  {
  }

  lemma SharedStreamVisits(d: Definitions)
    requires d == SharedStreamDocument()
    ensures VisitedModules(d, ModuleIds(Products(false, d.products))) == [d.modules["m1"], d.modules["m2"]]
    ensures LastListing(VisitedModules(d, ModuleIds(Products(false, d.products))), "s") == Some(1)
  {
    var p := ("p", PsProduct("Cloud", ["m1", "m2"], map[]));
    assert Products(false, d.products) == [p];
    assert ModuleIds([p]) == ["m1", "m2"];
    var m1, m2 := d.modules["m1"], d.modules["m2"];
    assert VisitedModules(d, ["m1", "m2"]) == [m1, m2];
  }

  /** Resolving the flags keeps the tree's shape. */
  lemma ResolveKeepsCounts(community: bool, d: Definitions, i: nat, j: nat)
    requires RawShape(community, d).Ok? && i < |RawShape(community, d).value|
    requires j < |RawShape(community, d).value[i].productVersions|
    ensures var raw := RawShape(community, d).value; var sh := Shape(community, d);
      sh.Ok? && |sh.value| == |raw| && |sh.value[i].productVersions| == |raw[i].productVersions| &&
      |sh.value[i].productVersions[j].productStreams| == |raw[i].productVersions[j].productStreams|
  {
  }

  /** One version of the example, from the facts about its document that the tree depends on. */
  lemma SharedStreamVersion(d: Definitions, j: nat)
    requires Shape(false, d).Ok? && |Shape(false, d).value| == 1
    requires j < |Shape(false, d).value[0].productVersions|
    requires |Shape(false, d).value[0].productVersions[j].productStreams| == 1
    requires forall id :: id in d.modules ==> d.modules[id].streams == ["s"]
    requires "s" in d.streams && d.streams["s"] == EmptyStream
    requires var visited := VisitedModules(d, ModuleIds(Products(false, d.products)));
      LastListing(visited, "s") == Some(1) && "s" !in visited[1].activeStreams
    ensures Shape(false, d).value[0].productVersions[j].productStreams == [Stream("s", EmptyStream, false)]
  {
    ShapedTree(false, d, 0, j, 0);
    var st := Shape(false, d).value[0].productVersions[j].productStreams[0];
    assert st.id == "s" && st.stream == EmptyStream && !st.active;
  }

  lemma RawVersionStreams(d: Definitions, j: nat)
    requires d == SharedStreamDocument() && j < 2
    requires RawShape(false, d).Ok? && |RawShape(false, d).value| == 1
    requires |RawShape(false, d).value[0].productVersions| == 2
    ensures |RawShape(false, d).value[0].productVersions[j].productStreams| == 1
    ensures RawShape(false, d).value[0].productVersions[j].id == ["m1", "m2"][j]
  {
    assert Products(false, d.products) == [("p", PsProduct("Cloud", ["m1", "m2"], map[]))];
    var fp := (p: (string, PsProduct)) => ProductOf(d, p);
    var fv := (v: string) => VersionOf(d, v);
    var id := ["m1", "m2"][j];
    assert fv(id).Ok?;
  }

  const EmptyStream := PsStream([], [], [], [])

  function SharedStreamDocument(): Definitions
  {
    Definitions([("p", PsProduct("Cloud", ["m1", "m2"], map[]))],
                map["m1" := PsModule(["s"], ["s"], map[]), "m2" := PsModule([], ["s"], map[])],
                map["s" := EmptyStream])
  }

  /** A module id the document lacks, or a module that names a stream the document lacks. */
  predicate MissingReference(d: Definitions, v: string)
  {
    v !in d.modules || exists s :: s in d.modules[v].streams && s !in d.streams
  }

  lemma VersionOfFails(d: Definitions, v: string)
    ensures VersionOf(d, v).Err? <==> MissingReference(d, v)
  {
    if v in d.modules {
      var m := d.modules[v];
      var fs := (s: string) => StreamOf(d, m, s);
      if MapAll(fs, m.streams).Err? {
        var k :| 0 <= k < |m.streams| && fs(m.streams[k]).Err?;
        assert m.streams[k] in m.streams;
      } else {
        forall s | s in m.streams
          ensures s in d.streams
        {
          var k :| 0 <= k < |m.streams| && m.streams[k] == s;
          assert fs(m.streams[k]).Ok?;
        }
      }
    }
  }

  lemma ProductOfFails(d: Definitions, p: (string, PsProduct))
    ensures ProductOf(d, p).Err? <==> exists v :: v in p.1.psModules && MissingReference(d, v)
  {
    var fv := (v: string) => VersionOf(d, v);
    var vs := p.1.psModules;
    if MapAll(fv, vs).Err? {
      var j :| 0 <= j < |vs| && fv(vs[j]).Err?;
      VersionOfFails(d, vs[j]);
      assert vs[j] in vs;
    } else {
      forall v | v in vs
        ensures !MissingReference(d, v)
      {
        var j :| 0 <= j < |vs| && vs[j] == v;
        assert fv(vs[j]).Ok?;
        VersionOfFails(d, v);
      }
    }
  }

  /** The tree fails exactly when a wanted product names a missing module or a module names a missing stream. */
  lemma ShapeFails(community: bool, d: Definitions)
    ensures Shape(community, d).Err? <==>
      exists p, v :: p in Products(community, d.products) && v in p.1.psModules && MissingReference(d, v)
  {
    var ps := Products(community, d.products);
    var fp := (p: (string, PsProduct)) => ProductOf(d, p);
    if Shape(community, d).Err? {
      var i :| 0 <= i < |ps| && fp(ps[i]).Err?;
      ProductOfFails(d, ps[i]);
      var v :| v in ps[i].1.psModules && MissingReference(d, v);
      assert ps[i] in ps;
    } else {
      forall p, v | p in ps && v in p.1.psModules
        ensures !MissingReference(d, v)
      {
        var i :| 0 <= i < |ps| && ps[i] == p;
        assert fp(ps[i]).Ok?;
        ProductOfFails(d, p);
      }
    }
  }

  // ---------------------------------------------------------------------------------------------
  // The task: reading a shaped stream
  // ---------------------------------------------------------------------------------------------

  /** A character the tail of a version-like string may hold: `[\dz.-]`. */
  predicate VersionChar(c: char) { IsDigit(c) || c == 'z' || c == '.' || c == '-' }

  /** `\d[\dz.-]*$` matches at `p`: a digit, then version characters up to the end. */
  predicate VersionAt(s: string, p: nat)
  {
    p < |s| && IsDigit(s[p]) && forall q :: p < q < |s| ==> VersionChar(s[q])
  }

  /** The leftmost position at or after `p` where the version pattern matches, if any. */
  function VersionStart(s: string, p: nat): (r: Option<nat>)
    ensures r.Some? ==> p <= r.value && VersionAt(s, r.value)
    ensures r.Some? ==> forall q :: p <= q < r.value ==> !VersionAt(s, q)
    ensures r.None? ==> forall q :: p <= q ==> !VersionAt(s, q)
    decreases |s| - p
  {
    if p >= |s| then None
    else if VersionAt(s, p) then Some(p)
    else VersionStart(s, p + 1)
  }

  /**
   * `RE_VERSION_LIKE_STRING.search(name).group()`: the suffix from the leftmost digit after which only digits,
   * `z`, `.` and `-` follow; otherwise the alternative `$` matches the empty string at the end.
   */
  function VersionLike(s: string): (r: string)
    ensures EndsWith(s, r)
  {
    match VersionStart(s, 0)
    case None => ""
    case Some(p) => s[p..]
  }

  /** The version is "" or a suffix of the name made of a digit and version characters, and no longer suffix is. */
  lemma VersionLikeIsLongestSuffix(s: string)
    ensures VersionLike(s) == "" <==> forall p :: !VersionAt(s, p)
    ensures VersionLike(s) != "" ==>
      EndsWith(s, VersionLike(s)) && IsDigit(VersionLike(s)[0]) &&
      (forall q :: 0 < q < |VersionLike(s)| ==> VersionChar(VersionLike(s)[q])) &&
      forall p :: 0 <= p < |s| - |VersionLike(s)| ==> !VersionAt(s, p)
  {
    match VersionStart(s, 0)
    case None =>
    case Some(p) =>
      assert VersionAt(s, p);
      var r := s[p..];
      assert |r| == |s| - p;
      forall q | 0 < q < |r| ensures VersionChar(r[q]) {
        assert r[q] == s[p + q];
      }
  }

  lemma VersionLikeExamples()
    ensures VersionLike("rhel-8.6.0") == "8.6.0"
    ensures VersionLike("openshift-4.10.z") == "4.10.z"
    ensures VersionLike("rhel-br-8") == "8"
    ensures VersionLike("rhacm") == ""
  {
    RhelVersion();
    OpenShiftVersion();
    BranchVersion();
    NoVersion();
  }

  lemma NoVersion()
    ensures VersionLike("rhacm") == ""
  {
    var s := "rhacm";
    assert s[0] == 'r' && s[1] == 'h' && s[2] == 'a' && s[3] == 'c' && s[4] == 'm';
    NoDigitNoVersion(s);
  }

  lemma RhelVersion()
    ensures VersionLike("rhel-8.6.0") == "8.6.0"
  {
    VersionLikeAfter("rhel-", "8.6.0");
    assert "rhel-" + "8.6.0" == "rhel-8.6.0";
  }

  lemma OpenShiftVersion()
    ensures VersionLike("openshift-4.10.z") == "4.10.z"
  {
    VersionLikeAfter("openshift-", "4.10.z");
    assert "openshift-" + "4.10.z" == "openshift-4.10.z";
  }

  lemma BranchVersion()
    ensures VersionLike("rhel-br-8") == "8"
  {
    VersionLikeAfter("rhel-br-", "8");
    assert "rhel-br-" + "8" == "rhel-br-8";
  }

  /** A name made of a digit-free prefix and a version: the version is found. */
  lemma VersionLikeAfter(prefix: string, v: string)
    requires forall q :: 0 <= q < |prefix| ==> !IsDigit(prefix[q])
    requires v != [] && IsDigit(v[0]) && forall q :: 0 < q < |v| ==> VersionChar(v[q])
    ensures VersionLike(prefix + v) == v
  {
    var s := prefix + v;
    forall q | |prefix| < q < |s|
      ensures VersionChar(s[q])
    {
      assert s[q] == v[q - |prefix|];
    }
    assert VersionAt(s, |prefix|);
    forall q | 0 <= q < |prefix|
      ensures !VersionAt(s, q)
    {
      assert s[q] == prefix[q];
    }
    assert s[|prefix|..] == v;
  }

  /** A name without digits has no version. */
  lemma NoDigitNoVersion(s: string)
    requires forall q :: 0 <= q < |s| ==> !IsDigit(s[q])
    ensures VersionLike(s) == ""
  {
  }

  /** `brew_tags_dict`: each tag to its inherit flag; a later entry for a tag overwrites an earlier one. */
  function BrewTagsDict(tags: seq<BrewTag>): map<string, bool>
  {
    if tags == [] then map[]
    else
      var t := tags[|tags| - 1];
      BrewTagsDict(tags[..|tags| - 1])[t.tag := t.inherit]
  }

  /** `composes_dict`: each compose url to its variants; a later entry for a url overwrites an earlier one. */
  function ComposesDict(composes: seq<Compose>): map<string, seq<string>>
  {
    if composes == [] then map[]
    else
      var c := composes[|composes| - 1];
      ComposesDict(composes[..|composes| - 1])[c.url := c.variants]
  }

  /** The tags are the keys, and each holds the flag of its last entry. */
  lemma {:induction false} BrewTagsDictLastWins(tags: seq<BrewTag>, i: nat)
    requires i < |tags| && forall j :: i < j < |tags| ==> tags[j].tag != tags[i].tag
    ensures tags[i].tag in BrewTagsDict(tags) && BrewTagsDict(tags)[tags[i].tag] == tags[i].inherit
  {
    var n := |tags| - 1;
    if i < n {
      BrewTagsDictLastWins(tags[..n], i);
    }
  }

  lemma {:induction false} BrewTagsDictKeys(tags: seq<BrewTag>)
    ensures forall k :: k in BrewTagsDict(tags) <==> exists i :: 0 <= i < |tags| && tags[i].tag == k
  {
    if tags != [] {
      var n := |tags| - 1;
      BrewTagsDictKeys(tags[..n]);
      assert forall i :: 0 <= i < n ==> tags[..n][i] == tags[i];
    }
  }

  /** The urls are the keys, and each holds the variants of its last entry. */
  lemma {:induction false} ComposesDictLastWins(composes: seq<Compose>, i: nat)
    requires i < |composes| && forall j :: i < j < |composes| ==> composes[j].url != composes[i].url
    ensures composes[i].url in ComposesDict(composes) && ComposesDict(composes)[composes[i].url] == composes[i].variants
  {
    var n := |composes| - 1;
    if i < n {
      ComposesDictLastWins(composes[..n], i);
    }
  }

  lemma {:induction false} ComposesDictKeys(composes: seq<Compose>)
    ensures forall k :: k in ComposesDict(composes) <==> exists i :: 0 <= i < |composes| && composes[i].url == k
  {
    if composes != [] {
      var n := |composes| - 1;
      ComposesDictKeys(composes[..n]);
      assert forall i :: 0 <= i < n ==> composes[..n][i] == composes[i];
    }
  }

  /** The names of the Errata Tool product versions of one product, in order. */
  function PvNames(pvs: seq<EtProductVersion>): (r: seq<string>)
    ensures |r| == |pvs| && forall i :: 0 <= i < |pvs| ==> r[i] == pvs[i].name
  {
    seq(|pvs|, i requires 0 <= i < |pvs| => pvs[i].name)
  }

  /** `et_product_versions`: one name per product version of each errata product, in order. */
  function EtProductVersions(info: seq<EtProduct>): seq<string>
  {
    if info == [] then [] else EtProductVersions(info[..|info| - 1]) + PvNames(info[|info| - 1].productVersions)
  }

  /** The list gains exactly one entry per product version. */
  lemma {:induction false} EtProductVersionsCount(info: seq<EtProduct>, extra: EtProduct)
    ensures EtProductVersions(info + [extra]) == EtProductVersions(info) + PvNames(extra.productVersions)
    ensures |EtProductVersions(info + [extra])| == |EtProductVersions(info)| + |extra.productVersions|
  {
    assert (info + [extra])[..|info|] == info;
  }

  /** The Errata Tool match of a brew tag: the tag with one trailing "-released" removed. */
  function EtMatchTag(tag: string): (r: string)
  {
    RemoveSuffix(tag, "-released")
  }

  lemma EtMatchTagTrims(tag: string)
    ensures EndsWith(tag, "-released") ==> EtMatchTag(tag) + "-released" == tag
    ensures !EndsWith(tag, "-released") ==> EtMatchTag(tag) == tag
  {
  }

  /** What the task stores for one stream of the shaped tree. */
  datatype StreamRecord = StreamRecord(name: string, version: string, active: bool, brewTags: map<string, bool>,
                                       composes: map<string, seq<string>>, yumRepositories: seq<string>,
                                       etProductVersions: seq<string>)

  /**
   * What the task saves for a stream whose row holds `stored` as its Errata Tool product versions (`[]` for a new
   * row): `update_or_create` sets the other fields from the stream and leaves that list as stored, and the loop
   * appends this run's names to it before saving.
   */
  function SavedStreamRecord(s: Stream, stored: seq<string>): (rec: StreamRecord)
    ensures |rec.etProductVersions| == |stored| + |EtProductVersions(s.stream.errataInfo)|
    ensures rec.etProductVersions[..|stored|] == stored
    ensures rec.etProductVersions[|stored|..] == EtProductVersions(s.stream.errataInfo)
  {
    var rec := StreamRecord(s.id, VersionLike(s.id), s.active, BrewTagsDict(s.stream.brewTags),
                            ComposesDict(s.stream.composes), s.stream.yumRepositories,
                            stored + EtProductVersions(s.stream.errataInfo));
    assert rec.etProductVersions[..|stored|] == stored;
    rec
  }

  /** Every run appends its names again: after two runs on a new row, each name is there twice. */
  lemma RerunDuplicates(s: Stream, stored: seq<string>)
    ensures var once := SavedStreamRecord(s, stored).etProductVersions;
      SavedStreamRecord(s, once).etProductVersions ==
      stored + EtProductVersions(s.stream.errataInfo) + EtProductVersions(s.stream.errataInfo)
    ensures |SavedStreamRecord(s, SavedStreamRecord(s, stored).etProductVersions).etProductVersions| ==
            |stored| + 2 * |EtProductVersions(s.stream.errataInfo)|
  {
    var e := EtProductVersions(s.stream.errataInfo);
    var once := SavedStreamRecord(s, stored).etProductVersions;
    assert once == once[..|stored|] + once[|stored|..];
    var twice := SavedStreamRecord(s, once).etProductVersions;
    assert twice == twice[..|once|] + twice[|once|..];
  }

  /** A stream stored with ["RHEL-8"] whose errata info lists RHEL-8 again is saved with ["RHEL-8", "RHEL-8"]. */
  lemma RerunDuplicatesExample()
    ensures var s := Stream("rhel-8.8.0", PsStream([], [], RhelErrataInfo, []), true);
      SavedStreamRecord(s, ["RHEL-8"]).etProductVersions == ["RHEL-8", "RHEL-8"]
  {
    RhelProductVersions();
  }

  const RhelErrataInfo := [EtProduct("RHEL", [EtProductVersion("RHEL-8", [])])]

  lemma RhelProductVersions()
    ensures EtProductVersions(RhelErrataInfo) == ["RHEL-8"]
  {
    var info := RhelErrataInfo;
    assert info[..0] == [];
    assert PvNames(info[0].productVersions) == ["RHEL-8"];
  }

  /**
   * The record as the task evidently means it: the product versions named by this run's errata info, whatever
   * the row held. Saving it again with the same stream changes nothing.
   */
  function FixedStreamRecord(s: Stream, stored: seq<string>): (rec: StreamRecord)
    ensures rec == SavedStreamRecord(s, stored).(etProductVersions := EtProductVersions(s.stream.errataInfo))
  {
    SavedStreamRecord(s, [])
  }

  lemma FixedRerunStable(s: Stream, stored: seq<string>)
    ensures FixedStreamRecord(s, FixedStreamRecord(s, stored).etProductVersions) == FixedStreamRecord(s, stored)
  {
  }

  /** The stream's record, with its brew tag and compose tables and its Errata Tool product versions built in loops. */
  method StreamRecordOf(s: Stream, stored: seq<string>) returns (rec: StreamRecord)
    ensures rec == SavedStreamRecord(s, stored)
  {
    var tags := s.stream.brewTags;
    var brewTags := map[];
    for i := 0 to |tags|
      invariant brewTags == BrewTagsDict(tags[..i])
    {
      assert tags[..i + 1][..i] == tags[..i];
      brewTags := brewTags[tags[i].tag := tags[i].inherit];
    }
    assert tags[..|tags|] == tags;
    var composes := s.stream.composes;
    var composesDict := map[];
    for i := 0 to |composes|
      invariant composesDict == ComposesDict(composes[..i])
    {
      assert composes[..i + 1][..i] == composes[..i];
      composesDict := composesDict[composes[i].url := composes[i].variants];
    }
    assert composes[..|composes|] == composes;
    var info := s.stream.errataInfo;
    var pvs: seq<string> := stored;
    for i := 0 to |info|
      invariant pvs == stored + EtProductVersions(info[..i])
    {
      assert info[..i + 1][..i] == info[..i];
      var versions := info[i].productVersions;
      ghost var before := pvs;
      for j := 0 to |versions|
        invariant pvs == before + PvNames(versions[..j])
      {
        assert PvNames(versions[..j + 1]) == PvNames(versions[..j]) + [versions[j].name];
        pvs := pvs + [versions[j].name];
      }
      assert versions[..|versions|] == versions;
    }
    assert info[..|info|] == info;
    rec := StreamRecord(s.id, VersionLike(s.id), s.active, brewTags, composesDict, s.stream.yumRepositories, pvs);
  }
}
