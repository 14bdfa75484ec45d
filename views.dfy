// The REST views' own logic: the component and product trees turned into nested dictionaries, the list views that
// redirect to the one object an ofuri or a purl names, and the OpenLCS upload of scan results. Database lookups
// are parameters from the looked-up key to the object's uuid, when there is one.

module Views {
  import opened Wrappers
  import Serializers

  /** The REST API version every redirect names. */
  const ApiVersion: string := "v1"

  /** A node of a component tree: its type, its purl, its component's description, and its children in order. */
  datatype ComponentNode = ComponentNode(ntype: string, purl: string, description: string,
                                         children: seq<ComponentNode>)

  /** The fields shown for a node of a listed type. */
  datatype NodeFields = NodeFields(purl: string, nodeType: string, link: string, description: string)

  /** The dictionary of one node: its fields when shown, and its "deps", a key present only when non-empty. */
  datatype ComponentDict = ComponentDict(fields: Option<NodeFields>, deps: seq<ComponentDict>)

  /**
   * `recursive_component_node_to_dict`: a node shows its fields only when its type is one of `types`, but its
   * children are visited whatever its type; `link` is `get_component_purl_link`.
   */
  function ComponentNodeToDict(node: ComponentNode, types: set<string>, link: string -> string): (d: ComponentDict)
    ensures d.fields.Some? <==> node.ntype in types
    ensures d.fields.Some? ==> d.fields.value == NodeFields(node.purl, node.ntype, link(node.purl), node.description)
    ensures |d.deps| == |node.children|
    decreases node
  {
    var fields := if node.ntype in types then Some(NodeFields(node.purl, node.ntype, link(node.purl), node.description))
                  else None;
    var children := seq(|node.children|, i requires 0 <= i < |node.children| =>
                          ComponentNodeToDict(node.children[i], types, link));
    ComponentDict(fields, children)
  }

  /** Each entry of "deps" is the dictionary of the child at the same position. */
  lemma DepsAreChildren(node: ComponentNode, types: set<string>, link: string -> string, i: int)
    requires 0 <= i < |node.children|
    ensures ComponentNodeToDict(node, types, link).deps[i] == ComponentNodeToDict(node.children[i], types, link)
  {
  }

  /** The nodes of a tree whose type is one of `types`. */
  function Listed(node: ComponentNode, types: set<string>): nat
    decreases node, 1
  {
    (if node.ntype in types then 1 else 0) + ListedAll(node.children, types)
  }

  function ListedAll(nodes: seq<ComponentNode>, types: set<string>): nat
    decreases nodes, 0
  {
    if nodes == [] then 0 else Listed(nodes[0], types) + ListedAll(nodes[1..], types)
  }

  /** The dictionaries of a nested result that show fields. */
  function Shown(d: ComponentDict): nat
    decreases d, 1
  {
    (if d.fields.Some? then 1 else 0) + ShownAll(d.deps)
  }

  function ShownAll(ds: seq<ComponentDict>): nat
    decreases ds, 0
  {
    if ds == [] then 0 else Shown(ds[0]) + ShownAll(ds[1..])
  }

  /** Every node of a listed type appears exactly once in the nested result, however deep it sits. */
  lemma {:induction false} ShownIsListed(node: ComponentNode, types: set<string>, link: string -> string)
    ensures Shown(ComponentNodeToDict(node, types, link)) == Listed(node, types)
    decreases node, 1
  {
    var d := ComponentNodeToDict(node, types, link);
    ShownAllIsListedAll(node.children, d.deps, types, link);
  }

  lemma {:induction false} ShownAllIsListedAll(nodes: seq<ComponentNode>, ds: seq<ComponentDict>, types: set<string>,
                                               link: string -> string)
    requires |ds| == |nodes|
    requires forall i :: 0 <= i < |nodes| ==> ds[i] == ComponentNodeToDict(nodes[i], types, link)
    ensures ShownAll(ds) == ListedAll(nodes, types)
    decreases nodes, 0
  {
    if nodes != [] {
      ShownIsListed(nodes[0], types, link);
      ShownAllIsListedAll(nodes[1..], ds[1..], types, link);
    }
  }

  /** A node of a product tree: its depth (0 for a product), its ofuri and name, and its children in order. */
  datatype ProductNode = ProductNode(level: nat, ofuri: string, name: string, children: seq<ProductNode>)

  /** The dictionary of one product node, with its children under `childKey`, a key present only when non-empty. */
  datatype ProductDict = ProductDict(link: string, ofuri: string, name: string, childKey: string,
                                     children: seq<ProductDict>)

  /** The model name of the objects at each depth of the taxonomy; "" below the channels. */
  function ProductType(level: nat): (t: string)
    ensures level <= 4 <==> t != ""
  {
    if level == 0 then "products"
    else if level == 1 then "product_versions"
    else if level == 2 then "product_streams"
    else if level == 3 then "product_variants"
    else if level == 4 then "channels"
    else ""
  }

  /** The key children are listed under: the next depth's model name, and "" for a channel's children. */
  function ChildProductType(level: nat): (t: string)
    ensures level <= 3 ==> t == ProductType(level + 1)
    ensures level >= 4 ==> t == ""
  {
    if level == 0 then "product_versions"
    else if level == 1 then "product_streams"
    else if level == 2 then "product_variants"
    else if level == 3 then "channels"
    else ""
  }

  /** `recursive_product_node_to_dict`; `apiUrl` is the API root `get_model_ofuri_link` starts from. */
  function ProductNodeToDict(node: ProductNode, apiUrl: string): (d: ProductDict)
    ensures d.ofuri == node.ofuri && d.name == node.name
    ensures d.link == Serializers.OfuriLink(apiUrl, ProductType(node.level), node.ofuri, None, None, None)
    ensures |d.children| == |node.children|
    ensures forall i :: 0 <= i < |node.children| ==> d.children[i].ofuri == node.children[i].ofuri
    decreases node
  {
    var children := seq(|node.children|, i requires 0 <= i < |node.children| =>
                          ProductNodeToDict(node.children[i], apiUrl));
    ProductDict(Serializers.OfuriLink(apiUrl, ProductType(node.level), node.ofuri, None, None, None),
                node.ofuri, node.name, ChildProductType(node.level),
                children)
  }

  /** A taxonomy whose every child sits one level below its parent, and whose deepest nodes are channels. */
  predicate WellLevelled(node: ProductNode)
    decreases node
  {
    node.level <= 4 &&
    forall i :: 0 <= i < |node.children| ==>
      node.children[i].level == node.level + 1 && WellLevelled(node.children[i])
  }

  /**
   * In a well-levelled taxonomy, children are listed under the model name of their own kind, and each child's
   * link points at that same model's list.
   */
  lemma ChildrenUnderTheirKind(node: ProductNode, apiUrl: string, i: int)
    requires WellLevelled(node) && 0 <= i < |node.children|
    ensures var d := ProductNodeToDict(node, apiUrl);
      d.childKey == ProductType(node.children[i].level) && d.childKey != "" &&
      d.children[i].link == Serializers.OfuriLink(apiUrl, d.childKey, node.children[i].ofuri, None, None, None)
  {
  }

  /** What a list view answers. */
  datatype ListResponse = Listing | NotFound | Found(location: string)

  /** The status code of a list response. */
  function Status(r: ListResponse): int
  {
    match r
    case Listing => 200
    case NotFound => 404
    case Found(_) => 302
  }

  /** The location of one object of a model. */
  function ObjectLocation(modelName: string, uuid: string): string
  {
    "/api/" + ApiVersion + "/" + modelName + "/" + uuid
  }

  /** A query parameter Python treats as true: present and not "". */
  predicate Truthy(v: Option<string>)
  {
    v.Some? && v.value != ""
  }

  /**
   * The `list` of the product, product version, product stream and product variant views: without an ofuri the
   * normal list, else a redirect to the first object with that ofuri, or 404 when there is none.
   */
  function OfuriList(modelName: string, ofuri: Option<string>, firstWithOfuri: string -> Option<string>)
    : (r: ListResponse)
    ensures r.Listing? <==> !Truthy(ofuri)
    ensures r.NotFound? <==> Truthy(ofuri) && firstWithOfuri(ofuri.value).None?
    ensures r.Found? ==> Truthy(ofuri) && firstWithOfuri(ofuri.value).Some? &&
                         r.location == ObjectLocation(modelName, firstWithOfuri(ofuri.value).value)
  {
    if !Truthy(ofuri) then Listing
    else match firstWithOfuri(ofuri.value)
      case None => NotFound
      case Some(uuid) => Found(ObjectLocation(modelName, uuid))
  }

  /** The object a redirect names is the one the lookup found, in the model the view serves. */
  lemma OfuriListRedirectsToObject(modelName: string, ofuri: string, firstWithOfuri: string -> Option<string>,
                                   uuid: string)
    requires ofuri != "" && firstWithOfuri(ofuri) == Some(uuid)
    ensures OfuriList(modelName, Some(ofuri), firstWithOfuri).Found?
    ensures var loc := OfuriList(modelName, Some(ofuri), firstWithOfuri).location;
      Serializers.Text.StartsWith(loc, "/api/v1/" + modelName + "/") &&
      loc[|"/api/v1/" + modelName + "/"|..] == uuid
  {
    var prefix := "/api/v1/" + modelName + "/";
    assert ObjectLocation(modelName, uuid) == prefix + uuid;
  }

  /**
   * The component view's `list`: the summary view and a request without a purl list components; otherwise the
   * purl is re-encoded the way purls are stored (`encode`) and the first component with it is redirected to.
   */
  function ComponentList(view: Option<string>, purl: Option<string>, encode: string -> string,
                         firstWithPurl: string -> Option<string>): (r: ListResponse)
    ensures r.Listing? <==> view == Some("summary") || !Truthy(purl)
    ensures r.NotFound? <==> view != Some("summary") && Truthy(purl) && firstWithPurl(encode(purl.value)).None?
    ensures r.Found? ==> r.location == ObjectLocation("components", firstWithPurl(encode(purl.value)).value)
  {
    if view == Some("summary") then Listing
    else if !Truthy(purl) then Listing
    else match firstWithPurl(encode(purl.value))
      case None => NotFound
      case Some(uuid) => Found(ObjectLocation("components", uuid))
  }

  /** Two spellings of a purl that encode alike lead to the same answer. */
  lemma ComponentListByEncoding(view: Option<string>, p1: string, p2: string, encode: string -> string,
                                firstWithPurl: string -> Option<string>)
    requires p1 != "" && p2 != "" && encode(p1) == encode(p2)
    ensures ComponentList(view, Some(p1), encode, firstWithPurl) == ComponentList(view, Some(p2), encode, firstWithPurl)
  {
  }

  /** The scan results of a component that OpenLCS may upload. */
  class ScanResults {
    var copyrightText: string
    var licenseConcludedRaw: string
    var openlcsScanUrl: string
    var openlcsScanVersion: string

    constructor(copyrightText: string, licenseConcludedRaw: string, openlcsScanUrl: string,
                openlcsScanVersion: string)
      ensures this.copyrightText == copyrightText && this.licenseConcludedRaw == licenseConcludedRaw
      ensures this.openlcsScanUrl == openlcsScanUrl && this.openlcsScanVersion == openlcsScanVersion
    {
      this.copyrightText := copyrightText;
      this.licenseConcludedRaw := licenseConcludedRaw;
      this.openlcsScanUrl := openlcsScanUrl;
      this.openlcsScanVersion := openlcsScanVersion;
    }

    /** The four values, in the order the request names them. */
    function Values(): (v: ScanValues)
      reads this
    {
      ScanValues(copyrightText, licenseConcludedRaw, openlcsScanUrl, openlcsScanVersion)
    }
  }

  datatype ScanValues = ScanValues(copyrightText: string, licenseConcluded: string, scanUrl: string,
                                   scanVersion: string)

  /** An upload: each value is absent (None) or given, possibly as "" to empty the stored value. */
  datatype ScanUpload = ScanUpload(copyrightText: Option<string>, licenseConcluded: Option<string>,
                                   scanUrl: Option<string>, scanVersion: Option<string>)

  /** An upload is refused unless at least one of its values is given and not "". */
  predicate Acceptable(u: ScanUpload)
  {
    Truthy(u.copyrightText) || Truthy(u.licenseConcluded) || Truthy(u.scanUrl) || Truthy(u.scanVersion)
  }

  /** The stored values after an upload: every given value replaces the stored one, and the rest stay. */
  function Uploaded(v: ScanValues, u: ScanUpload): (r: ScanValues)
    ensures u.copyrightText.Some? ==> r.copyrightText == u.copyrightText.value
    ensures u.copyrightText.None? ==> r.copyrightText == v.copyrightText
    ensures u.licenseConcluded.Some? ==> r.licenseConcluded == u.licenseConcluded.value
    ensures u.licenseConcluded.None? ==> r.licenseConcluded == v.licenseConcluded
    ensures u.scanUrl.Some? ==> r.scanUrl == u.scanUrl.value
    ensures u.scanUrl.None? ==> r.scanUrl == v.scanUrl
    ensures u.scanVersion.Some? ==> r.scanVersion == u.scanVersion.value
    ensures u.scanVersion.None? ==> r.scanVersion == v.scanVersion
  {
    ScanValues(u.copyrightText.GetOr(v.copyrightText), u.licenseConcluded.GetOr(v.licenseConcluded),
               u.scanUrl.GetOr(v.scanUrl), u.scanVersion.GetOr(v.scanVersion))
  }

  /** Uploading the same values twice stores what uploading them once does. */
  lemma UploadIdempotent(v: ScanValues, u: ScanUpload)
    ensures Uploaded(Uploaded(v, u), u) == Uploaded(v, u)
  {
  }

  /** An upload that names every value stores exactly those values, whatever was stored before. */
  lemma FullUploadReplaces(v: ScanValues, w: ScanValues, u: ScanUpload)
    requires u.copyrightText.Some? && u.licenseConcluded.Some? && u.scanUrl.Some? && u.scanVersion.Some?
    ensures Uploaded(v, u) == Uploaded(w, u)
  {
  }

  /**
   * `olcs_test`: refused with 403 in production and 404 for an unknown component; 400 unless some value is given
   * and not empty; otherwise the given values are stored and the answer redirects to the component.
   */
  method OlcsTest(runningProd: bool, component: ScanResults?, uuid: string, u: ScanUpload)
    returns (status: int, location: Option<string>)
    modifies component
    ensures status == 403 <==> runningProd
    ensures status == 404 <==> !runningProd && component == null
    ensures status == 400 <==> !runningProd && component != null && !Acceptable(u)
    ensures status == 302 <==> location.Some?
    ensures status == 302 ==> component != null && location.value == ObjectLocation("components", uuid)
    ensures status == 302 ==> component.Values() == Uploaded(old(component.Values()), u)
    ensures status != 302 && component != null ==> component.Values() == old(component.Values())
  {
    if runningProd {
      return 403, None;
    }
    if component == null {
      return 404, None;
    }
    if !Truthy(u.copyrightText) && !Truthy(u.licenseConcluded) && !Truthy(u.scanUrl) && !Truthy(u.scanVersion) {
      return 400, None;
    }
    if u.copyrightText.Some? {
      component.copyrightText := u.copyrightText.value;
    }
    if u.licenseConcluded.Some? {
      component.licenseConcludedRaw := u.licenseConcluded.value;
    }
    if u.scanUrl.Some? {
      component.openlcsScanUrl := u.scanUrl.value;
    }
    if u.scanVersion.Some? {
      component.openlcsScanVersion := u.scanVersion.value;
    }
    return 302, Some(ObjectLocation("components", uuid));
  }

  /** An accepted upload may still empty a value, as long as another value it gives is not empty. */
  lemma UploadMayClear(v: ScanValues, u: ScanUpload)
    requires Acceptable(u) && u.scanVersion == Some("")
    ensures Uploaded(v, u).scanVersion == ""
    ensures Truthy(u.copyrightText) || Truthy(u.licenseConcluded) || Truthy(u.scanUrl)
  {
  }
}
