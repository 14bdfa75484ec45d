// The REST serializers' request-independent logic: the parsing of include/exclude field lists into this level's
// fields and the next level's, the visibility rule a serializer applies to each declared field, and the links
// the API hands out. The API's base URL and the build-system hosts are parameters; lookups of product rows by
// ofuri are a parameter function.

module Serializers {
  import opened Wrappers
  import opened Text
  import ComponentModel

  // ---------------------------------------------------------------------------------------------
  // parse_fields
  // ---------------------------------------------------------------------------------------------

  /** Fields named at this level, and for each related field the dotted remainders named below it. */
  datatype Levels = Levels(current: set<string>, next: map<string, set<string>>)

  /** One field added to the levels: a dotted field is split at its first dot. */
  function AddField(p: Levels, field: string): Levels
  {
    var (related, found, rest) := Partition(field, ".");
    if !found then p.(current := p.current + {field})
    else p.(next := p.next[related := (if related in p.next then p.next[related] else {}) + {rest}])
  }

  /** The levels of a list of fields, added in order. */
  function Levelled(fields: seq<string>): Levels
  {
    if fields == [] then Levels({}, map[])
    else AddField(Levelled(fields[..|fields| - 1]), fields[|fields| - 1])
  }

  /** `parse_fields` */
  method ParseFields(fields: seq<string>) returns (current: set<string>, next: map<string, set<string>>)
    ensures Levels(current, next) == Levelled(fields)
  {
    current := {};
    next := map[];
    for i := 0 to |fields|
      invariant Levels(current, next) == Levelled(fields[..i])
    {
      assert fields[..i + 1][..i] == fields[..i];
      var field := fields[i];
      var (related, found, rest) := Partition(field, ".");
      if found {
        var below := if related in next then next[related] else {};
        next := next[related := below + {rest}];
      } else {
        current := current + {field};
      }
    }
    assert fields[..|fields|] == fields;
  }

  /** A field whose first part is dot-free is split just after that part. */
  lemma PartitionAtFirstDot(a: string, r: string)
    requires !Contains(a, ".")
    ensures Partition(a + "." + r, ".") == (a, true, r)
  {
    var s := a + "." + r;
    FreeNotContains(a, '.');
    assert s[..|a|] == a;
    assert OccursAt(s, ".", |a|) by { assert s[|a|..|a| + 1] == "."; }
    IndexOfAt(s, ".", |a|);
    assert s[|a| + 1..] == r;
  }

  /** A field is named at this level exactly when it is listed and has no dot. */
  lemma {:induction false} LevelledCurrent(fields: seq<string>, f: string)
    ensures f in Levelled(fields).current <==> f in fields && !Contains(f, ".")
    decreases |fields|
  {
    if fields != [] {
      var n := |fields| - 1;
      LevelledCurrent(fields[..n], f);
      assert fields == fields[..n] + [fields[n]];
      var (related, found, rest) := Partition(fields[n], ".");
      if found {
        assert fields[n] == related + "." + rest;
        assert Contains(fields[n], ".") by { assert OccursAt(fields[n], ".", |related|); }
      }
    }
  }

  /**
   * `r` is named below the related field `a` exactly when `a.r` is listed; every related field has at least
   * one remainder and no dot of its own.
   */
  lemma {:induction false} LevelledNext(fields: seq<string>, a: string, r: string)
    requires !Contains(a, ".")
    ensures (a in Levelled(fields).next && r in Levelled(fields).next[a]) <==> a + "." + r in fields
    ensures forall k :: k in Levelled(fields).next ==> Levelled(fields).next[k] != {} && !Contains(k, ".")
    decreases |fields|
  {
    if fields != [] {
      var n := |fields| - 1;
      LevelledNext(fields[..n], a, r);
      assert fields == fields[..n] + [fields[n]];
      var (related, found, rest) := Partition(fields[n], ".");
      if fields[n] == a + "." + r {
        PartitionAtFirstDot(a, r);
      }
      if found && related == a {
        assert fields[n] == a + "." + rest;
      }
    }
  }

  /**
   * The shape of `parse_fields`' own example, `[uuid, affects, affects.uuid, affects.trackers.uuid]`: plain
   * fields stay at this level and dotted ones are grouped under their first part.
   */
  lemma ParseFieldsExample(x: string, a: string, r1: string, r2: string)
    requires !Contains(x, ".") && !Contains(a, ".")
    ensures Levelled([x, a, a + "." + r1, a + "." + r2]) == Levels({x, a}, map[a := {r1, r2}])
  {
    var f := [x, a, a + "." + r1, a + "." + r2];
    assert Levelled(f[..1]) == Levels({x}, map[]) by {
      assert f[..1][..0] == [];
      FreeNotContains(x, '.');
      NoDot(x);
    }
    assert Levelled(f[..2]) == Levels({x, a}, map[]) by {
      assert f[..2][..1] == f[..1];
      FreeNotContains(a, '.');
      NoDot(a);
    }
    assert Levelled(f[..3]) == Levels({x, a}, map[a := {r1}]) by {
      assert f[..3][..2] == f[..2];
      PartitionAtFirstDot(a, r1);
      var none: map<string, set<string>> := map[];
      var empty: set<string> := {};
      assert empty + {r1} == {r1};
      assert none[a := {r1}] == map[a := {r1}];
    }
    assert f[..3] == f[..|f| - 1];
    PartitionAtFirstDot(a, r2);
    assert {r1} + {r2} == {r1, r2};
    assert map[a := {r1}][a := {r1, r2}] == map[a := {r1, r2}];
  }

  /** A string free of dots is not split. */
  lemma NoDot(s: string)
    requires Free(s, '.')
    ensures Partition(s, ".") == (s, false, "")
  {
    IndexOfFree(s, '.');
  }

  // ---------------------------------------------------------------------------------------------
  // IncludeExcludeFieldsSerializer
  // ---------------------------------------------------------------------------------------------

  /**
   * `_is_field_visible`: a field needed below is kept; current-level includes keep only themselves and beat
   * excludes; nested includes alone hide every other field; otherwise only excluded fields are hidden.
   */
  function IsFieldVisible(includes: Levels, excludes: Levels, field: string): (visible: bool)
    ensures field in includes.next ==> visible
    ensures includes.current != {} ==> (visible <==> field in includes.current || field in includes.next)
    ensures includes.current == {} && includes.next != map[] ==> (visible <==> field in includes.next)
    ensures includes.current == {} && includes.next == map[] ==> (visible <==> field !in excludes.current)
  {
    if field in includes.next then true
    else if includes.current != {} && field !in includes.current then false
    else if field in excludes.current && field !in includes.current then false
    else if includes.current == {} && includes.next != map[] then false
    else true
  }

  /** Where a serializer's include and exclude lists come from: the request's query, or its parent's context. */
  datatype FieldSource =
    | Request(includeParam: Option<string>, excludeParam: Option<string>)
    | Context(includeFields: seq<string>, excludeFields: seq<string>)

  /** A query parameter's comma-separated fields; none when the parameter is missing or empty. */
  function ParamFields(p: Option<string>): (fields: seq<string>)
    ensures p.None? || p.value == "" ==> fields == []
    ensures p.Some? && p.value != "" ==>
      Join(fields, ",") == p.value && forall k :: 0 <= k < |fields| ==> !Contains(fields[k], ",")
  {
    if p.None? || p.value == "" then []
    else
      JoinSplit(p.value, ",");
      SplitPartsFree(p.value, ",");
      Split(p.value, ",")
  }

  function IncludeFields(source: FieldSource): seq<string>
  {
    match source
    case Request(inc, _) => ParamFields(inc)
    case Context(inc, _) => inc
  }

  function ExcludeFields(source: FieldSource): seq<string>
  {
    match source
    case Request(_, exc) => ParamFields(exc)
    case Context(_, exc) => exc
  }

  /** The declared fields that stay visible, in declaration order. */
  function Visible(declared: seq<string>, includes: Levels, excludes: Levels): (shown: seq<string>)
    ensures forall f :: f in shown <==> f in declared && IsFieldVisible(includes, excludes, f)
    ensures |shown| <= |declared|
  {
    if declared == [] then []
    else
      var n := |declared| - 1;
      assert declared == declared[..n] + [declared[n]];
      var front := Visible(declared[..n], includes, excludes);
      if IsFieldVisible(includes, excludes, declared[n]) then front + [declared[n]] else front
  }

  /** A serializer's include/exclude state and the fields it shows. */
  class IncludeExcludeSerializer {
    var includes: Levels
    var excludes: Levels
    var fields: seq<string>

    /** `__init__`: parses both lists, then drops every declared field that is not visible. */
    constructor (declared: seq<string>, source: FieldSource)
      ensures includes == Levelled(IncludeFields(source))
      ensures excludes == Levelled(ExcludeFields(source))
      ensures fields == Visible(declared, includes, excludes)
    {
      var inc, incNext := ParseFields(IncludeFields(source));
      var exc, excNext := ParseFields(ExcludeFields(source));
      var kept := [];
      for i := 0 to |declared|
        invariant kept == Visible(declared[..i], Levels(inc, incNext), Levels(exc, excNext))
      {
        assert declared[..i + 1][..i] == declared[..i];
        if IsFieldVisible(Levels(inc, incNext), Levels(exc, excNext), declared[i]) {
          kept := kept + [declared[i]];
        }
      }
      assert declared[..|declared|] == declared;
      includes := Levels(inc, incNext);
      excludes := Levels(exc, excNext);
      fields := kept;
    }
  }

  /**
   * Including only a nested field, as in `include_fields=software_build.source`, shows just the field it is
   * nested in, whatever is excluded.
   */
  lemma NestedIncludeOnly(declared: seq<string>, a: string, r: string, excluded: seq<string>)
    requires !Contains(a, ".")
    ensures forall f :: f in Visible(declared, Levelled([a + "." + r]), Levelled(excluded)) <==> f in declared && f == a
  {
    var fields := [a + "." + r];
    assert fields[..0] == [];
    PartitionAtFirstDot(a, r);
    assert AddField(Levels({}, map[]), a + "." + r) == Levels({}, map[a := {r}]) by {
      var none: map<string, set<string>> := map[];
      var empty: set<string> := {};
      assert empty + {r} == {r};
      assert none[a := {r}] == map[a := {r}];
    }
    assert Levelled(fields) == Levels({}, map[a := {r}]);
  }

  // ---------------------------------------------------------------------------------------------
  // Links
  // ---------------------------------------------------------------------------------------------

  /** Python's truth value of an optional string. */
  predicate Given(v: Option<string>)
  {
    v.Some? && v.value != ""
  }

  /** The query parameters of an ofuri link, in order: the ofuri, then each given filter. */
  function OfuriQuery(ofuri: string, relatedType: Option<string>, relatedNamespace: Option<string>,
                      view: Option<string>): seq<string>
  {
    ["ofuri" + "=" + ofuri] + Param("type", relatedType) + Param("namespace", relatedNamespace) + Param("view", view)
  }

  /** The `key=value` parameter of a given value; nothing otherwise. */
  function Param(key: string, v: Option<string>): seq<string>
  {
    if Given(v) then [key + "=" + v.value] else []
  }

  /** `link += f"&{key}={value}"` when the value is given. */
  function AddParam(link: string, key: string, v: Option<string>): string
  {
    if Given(v) then link + "&" + (key + "=" + v.value) else link
  }

  /** `get_model_ofuri_link`: the model's list URL filtered by ofuri, with each given filter appended. */
  function OfuriLink(apiUrl: string, modelName: string, ofuri: string, relatedType: Option<string>,
                     relatedNamespace: Option<string>, view: Option<string>): (link: string)
    ensures link == apiUrl + "/" + modelName + "?" + Join(OfuriQuery(ofuri, relatedType, relatedNamespace, view), "&")
  {
    var base := apiUrl + "/" + modelName + "?";
    var q0 := ["ofuri" + "=" + ofuri];
    var q1 := q0 + Param("type", relatedType);
    var q2 := q1 + Param("namespace", relatedNamespace);
    var link := base + "ofuri=" + ofuri;
    var link1 := AddParam(link, "type", relatedType);
    var link2 := AddParam(link1, "namespace", relatedNamespace);
    var link3 := AddParam(link2, "view", view);
    assert link == base + Join(q0, "&");
    ParamJoin(base, q0, "type", relatedType);
    ParamJoin(base, q1, "namespace", relatedNamespace);
    ParamJoin(base, q2, "view", view);
    link3
  }

  /** Appending a given parameter to a link is joining one more part to its query. */
  lemma ParamJoin(base: string, parts: seq<string>, key: string, v: Option<string>)
    requires |parts| >= 1
    ensures AddParam(base + Join(parts, "&"), key, v) == base + Join(parts + Param(key, v), "&")
  {
    if Given(v) {
      var x := key + "=" + v.value;
      var joined := Join(parts, "&");
      calc {
        AddParam(base + joined, key, v);
        base + joined + "&" + x;
        { SeqAssoc(base, joined, "&" + x); }
        base + (joined + "&" + x);
        { JoinAppend(parts, x, "&"); }
        base + Join(parts + [x], "&");
      }
    } else {
      assert parts + [] == parts;
    }
  }

  lemma SeqAssoc(a: string, b: string, c: string)
    ensures a + b + c == a + (b + c)
  {
  }

  lemma {:induction false} JoinAppend(parts: seq<string>, x: string, sep: string)
    requires |parts| >= 1
    ensures Join(parts + [x], sep) == Join(parts, sep) + sep + x
    decreases |parts|
  {
    if |parts| > 1 {
      assert (parts + [x])[1..] == parts[1..] + [x];
      JoinAppend(parts[1..], x, sep);
    }
  }

  /**
   * Read back, an ofuri link's query splits at "&" into exactly the parameters given, in order, when no value
   * holds an "&" of its own.
   */
  lemma OfuriLinkQuery(apiUrl: string, modelName: string, ofuri: string, relatedType: Option<string>,
                       relatedNamespace: Option<string>, view: Option<string>)
    requires Free(ofuri, '&')
    requires Given(relatedType) ==> Free(relatedType.value, '&')
    requires Given(relatedNamespace) ==> Free(relatedNamespace.value, '&')
    requires Given(view) ==> Free(view.value, '&')
    ensures var link := OfuriLink(apiUrl, modelName, ofuri, relatedType, relatedNamespace, view);
      var base := apiUrl + "/" + modelName + "?";
      StartsWith(link, base) &&
      Split(link[|base|..], "&") == OfuriQuery(ofuri, relatedType, relatedNamespace, view)
  {
    var q := OfuriQuery(ofuri, relatedType, relatedNamespace, view);
    var base := apiUrl + "/" + modelName + "?";
    var link := OfuriLink(apiUrl, modelName, ofuri, relatedType, relatedNamespace, view);
    assert link == base + Join(q, "&");
    assert link[|base|..] == Join(q, "&");
    assert link[..|base|] == base;
    QueryKeysFree();
    FreeConcat("ofuri" + "=", ofuri, '&');
    ParamFree("type", relatedType);
    ParamFree("namespace", relatedNamespace);
    ParamFree("view", view);
    SplitJoin(q, '&');
  }

  lemma QueryKeysFree()
    ensures Free("ofuri" + "=", '&') && Free("type" + "=", '&')
    ensures Free("namespace" + "=", '&') && Free("view" + "=", '&')
  {
    FreeConcat("ofuri", "=", '&');
    FreeConcat("type", "=", '&');
    FreeConcat("namespace", "=", '&');
    FreeConcat("view", "=", '&');
  }

  lemma FreeConcat(a: string, b: string, c: char)
    requires Free(a, c) && Free(b, c)
    ensures Free(a + b, c)
  {
  }

  lemma ParamFree(key: string, v: Option<string>)
    requires Free(key + "=", '&') && (Given(v) ==> Free(v.value, '&'))
    ensures forall x :: x in Param(key, v) ==> Free(x, '&')
  {
    if Given(v) {
      FreeConcat(key + "=", v.value, '&');
    }
  }

  /** The last part of the URL of a manifest. */
  const ManifestPart := "manifest?format=json"

  /** `get_model_id_link`: the URL of one row, or of its manifest. */
  function IdLink(apiUrl: string, modelName: string, id: string, manifest: bool): (link: string)
    ensures StartsWith(link, apiUrl + "/")
    ensures Free(modelName, '/') && Free(id, '/') ==>
      Split(link[|apiUrl| + 1..], "/") == [modelName, id] + (if manifest then [ManifestPart] else [])
  {
    var link := apiUrl + "/" + modelName + "/" + id;
    var link := if manifest then link + "/" + ManifestPart else link;
    IdLinkPath(apiUrl, modelName, id, manifest);
    link
  }

  lemma IdLinkPath(apiUrl: string, modelName: string, id: string, manifest: bool)
    ensures var link := apiUrl + "/" + modelName + "/" + id;
      var link := if manifest then link + "/" + ManifestPart else link;
      StartsWith(link, apiUrl + "/") &&
      (Free(modelName, '/') && Free(id, '/') ==>
        Split(link[|apiUrl| + 1..], "/") == [modelName, id] + (if manifest then [ManifestPart] else []))
  {
    var m := ManifestPart;
    var row := apiUrl + "/" + modelName + "/" + id;
    var link := if manifest then row + "/" + ManifestPart else row;
    var path := [modelName, id] + (if manifest then [m] else []);
    assert link == apiUrl + "/" + Join(path, "/") by {
      IdLinkJoin(apiUrl, modelName, id, manifest);
    }
    assert link[..|apiUrl| + 1] == apiUrl + "/";
    assert link[|apiUrl| + 1..] == Join(path, "/");
    if Free(modelName, '/') && Free(id, '/') {
      assert Free(m, '/');
      SplitJoin(path, '/');
    }
  }

  lemma IdLinkJoin(apiUrl: string, modelName: string, id: string, manifest: bool)
    ensures var row := apiUrl + "/" + modelName + "/" + id;
      (if manifest then row + "/" + ManifestPart else row) ==
      apiUrl + "/" + Join([modelName, id] + (if manifest then [ManifestPart] else []), "/")
  {
    var m := ManifestPart;
    assert Join([id], "/") == id;
    assert Join([modelName, id], "/") == modelName + "/" + id;
    if manifest {
      JoinAppend([modelName, id], m, "/");
      assert [modelName, id] + [m] == [modelName, id, m];
    } else {
      assert [modelName, id] + [] == [modelName, id];
    }
  }

  /** The build systems a build comes from. */
  datatype BuildType = Brew | Koji | Centos | AppInterface

  /** The web roots of the build systems, from the settings. */
  datatype BuildHosts = BuildHosts(brewWeb: string, brewDownload: string, centosDownload: string)

  /** `get_web_url`: a build's page on its build system; "" for a build without one. */
  function WebUrl(hosts: BuildHosts, buildType: BuildType, buildId: string): (url: string)
    ensures url == "" <==> buildType == AppInterface
    ensures url != "" ==> EndsWith(url, "buildinfo?buildID=" + buildId)
    ensures buildType == Brew ==> StartsWith(url, hosts.brewWeb + "/brew/")
    ensures buildType == Koji ==> StartsWith(url, hosts.brewDownload + "/koji/")
    ensures buildType == Centos ==> StartsWith(url, hosts.centosDownload + "/koji/")
  {
    var page := "buildinfo?buildID=" + buildId;
    match buildType
    case Brew => Glued(hosts.brewWeb + "/brew/", page)
    case Koji => Glued(hosts.brewDownload + "/koji/", page)
    case Centos => Glued(hosts.centosDownload + "/koji/", page)
    case AppInterface => ""
  }

  /** A root and a page on it, glued together. */
  function Glued(root: string, page: string): (url: string)
    ensures StartsWith(url, root) && EndsWith(url, page) && |url| == |root| + |page|
  {
    var url := root + page;
    assert url[..|root|] == root && url[|root|..] == page;
    url
  }

  // ---------------------------------------------------------------------------------------------
  // get_model_ofuri_type
  // ---------------------------------------------------------------------------------------------

  /** The product models that have an ofuri. */
  datatype ProductKind = Product | ProductVersion | ProductStream | ProductVariant

  /**
   * `get_model_ofuri_type`: the row of the model an ofuri's number of parts designates, and that model's name.
   * `lookup(kind, ofuri)` is the first row of that model with that ofuri. Four parts name a stream or a
   * version; a stream is preferred when both match.
   */
  function OfuriType(ofuri: string, lookup: (ProductKind, string) -> Option<string>): (r: (Option<string>, string))
    ensures r.1 == "" ==> r.0 == None
    ensures r.1 == "Product" <==> CountChar(ofuri, ':') == 2
    ensures r.1 == "ProductVariant" <==> CountChar(ofuri, ':') == 4
    ensures r.1 == "Product" ==> r.0 == lookup(Product, ofuri)
    ensures r.1 == "ProductVariant" ==> r.0 == lookup(ProductVariant, ofuri)
    ensures r.1 == "ProductStream" <==> CountChar(ofuri, ':') == 3 && lookup(ProductStream, ofuri).Some?
    ensures r.1 == "ProductStream" ==> r.0 == lookup(ProductStream, ofuri)
    ensures r.1 == "ProductVersion" <==>
      CountChar(ofuri, ':') == 3 && lookup(ProductStream, ofuri).None? && lookup(ProductVersion, ofuri).Some?
    ensures r.1 == "ProductVersion" ==> r.0 == lookup(ProductVersion, ofuri)
    ensures r.1 == "" || r.1 == "Product" || r.1 == "ProductVariant" || r.1 == "ProductStream" || r.1 == "ProductVersion"
  {
    if ofuri == "" then (None, "")
    else
      SplitCount(ofuri, ':');
      var n := |Split(ofuri, ":")|;
      if n == 3 then (lookup(Product, ofuri), "Product")
      else if n == 5 then (lookup(ProductVariant, ofuri), "ProductVariant")
      else if n != 4 then (None, "")
      else if lookup(ProductStream, ofuri).Some? then (lookup(ProductStream, ofuri), "ProductStream")
      else if lookup(ProductVersion, ofuri).Some? then (lookup(ProductVersion, ofuri), "ProductVersion")
      else (None, "")
  }

  /**
   * An ofuri of four parts, as streams and versions have, names the stream that matches it, else the version,
   * else nothing.
   */
  lemma OfuriTypeFourParts(a: string, b: string, c: string, d: string, lookup: (ProductKind, string) -> Option<string>)
    requires Free(a, ':') && Free(b, ':') && Free(c, ':') && Free(d, ':')
    ensures var ofuri := a + ":" + b + ":" + c + ":" + d;
      OfuriType(ofuri, lookup) ==
        if lookup(ProductStream, ofuri).Some? then (lookup(ProductStream, ofuri), "ProductStream")
        else if lookup(ProductVersion, ofuri).Some? then (lookup(ProductVersion, ofuri), "ProductVersion")
        else (None, "")
  {
    var ofuri := a + ":" + b + ":" + c + ":" + d;
    assert CountChar(":", ':') == 1;
    CountCharFree(a, ':');
    CountCharFree(b, ':');
    CountCharFree(c, ':');
    CountCharFree(d, ':');
    CountCharAppend(a, ":", ':');
    CountCharAppend(a + ":", b, ':');
    CountCharAppend(a + ":" + b, ":", ':');
    CountCharAppend(a + ":" + b + ":", c, ':');
    CountCharAppend(a + ":" + b + ":" + c, ":", ':');
    CountCharAppend(a + ":" + b + ":" + c + ":", d, ':');
  }

  /** A prefix of a string free of a character is free of it too. */
  lemma PrefixFree(s: string, p: string, c: char)
    requires Free(s, c) && StartsWith(s, p)
    ensures Free(p, c)
  {
    forall i | 0 <= i < |p| ensures p[i] != c { assert p[i] == s[..|p|][i]; }
  }

  /**
   * The ofuris the product models build have the part counts `get_model_ofuri_type` relies on when the names
   * hold no ':': a product's has two ':', a version's or stream's three, and a variant's four, so each is
   * looked up in its own model (a version-shaped ofuri in the streams first).
   */
  lemma {:induction false} OfuriBuildersKinds(name: string, version: string, variant: string,
                                              lookup: (ProductKind, string) -> Option<string>)
    requires Free(name, ':') && Free(version, ':') && Free(variant, ':')
    ensures var o := ComponentModel.ProductOfuri(name);
      CountChar(o, ':') == 2 && OfuriType(o, lookup) == (lookup(Product, o), "Product")
    ensures var o := ComponentModel.ProductVersionOfuri(name, version);
      CountChar(o, ':') == 3 &&
      OfuriType(o, lookup).1 == (if lookup(ProductStream, o).Some? then "ProductStream"
                                 else if lookup(ProductVersion, o).Some? then "ProductVersion" else "")
    ensures var o := ComponentModel.ProductStreamOfuri(name, version);
      CountChar(o, ':') == 3 &&
      OfuriType(o, lookup).1 == (if lookup(ProductStream, o).Some? then "ProductStream"
                                 else if lookup(ProductVersion, o).Some? then "ProductVersion" else "")
    ensures var o := ComponentModel.ProductVariantOfuri(ComponentModel.ProductStreamOfuri(name, version), variant);
      CountChar(o, ':') == 4 && OfuriType(o, lookup) == (lookup(ProductVariant, o), "ProductVariant")
  {
    PrefixColons();
    CountCharFree(name, ':');
    CountCharAppend(ComponentModel.OfuriPrefix, name, ':');
    VersionOfuriColons(name, version);
    VariantOfuriColons(ComponentModel.ProductStreamOfuri(name, version), variant);
  }

  lemma PrefixColons()
    ensures CountChar(ComponentModel.OfuriPrefix, ':') == 2
  {
    var pre := ComponentModel.OfuriPrefix;
    assert pre[1..] == ":redhat:" && pre[2..] == "redhat:" && pre[8..] == ":";
    assert CountChar("redhat:", ':') == CountChar(":", ':') by {
      var t := "redhat:";
      assert t[1..] == "edhat:" && t[2..] == "dhat:" && t[3..] == "hat:" && t[4..] == "at:" && t[5..] == "t:";
      assert t[6..] == ":";
    }
  }

  lemma VersionOfuriColons(name: string, version: string)
    requires Free(name, ':') && Free(version, ':')
    ensures CountChar(ComponentModel.ProductVersionOfuri(name, version), ':') == 3
  {
    var pre := ComponentModel.OfuriPrefix;
    PrefixColons();
    var trimmed := ComponentModel.TrimVersion(name, version);
    PrefixFree(name, trimmed, ':');
    CountCharFree(trimmed, ':');
    CountCharFree(version, ':');
    CountCharAppend(pre, trimmed, ':');
    CountCharAppend(pre + trimmed, ":", ':');
    CountCharAppend(pre + trimmed + ":", version, ':');
  }

  lemma VariantOfuriColons(stream: string, variant: string)
    requires Free(variant, ':')
    ensures CountChar(ComponentModel.ProductVariantOfuri(stream, variant), ':') == CountChar(stream, ':') + 1
  {
    var lowered := Lower(variant);
    assert Free(lowered, ':');
    CountCharFree(lowered, ':');
    CountCharAppend(stream, ":", ':');
    CountCharAppend(stream + ":", lowered, ':');
  }
}
