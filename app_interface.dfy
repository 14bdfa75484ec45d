// The app-interface collector: the merge of an app's Quay repositories and code components into one list of
// subcomponents keyed by name, and the expansion of a managed service's components into the subcomponents of
// the apps they name. The GraphQL request is left out; its decoded answer is the input.

module AppInterface {
  import opened Wrappers

  /** A Quay organisation of an app: its name, its instance's url and the names of its repositories. */
  datatype QuayOrg = QuayOrg(name: string, instanceUrl: string, items: seq<string>)

  /** A code component of an app: a name and a Git url. */
  datatype CodeComponent = CodeComponent(name: string, url: string)

  /** An app of app-interface; a missing or null list of repositories or components is read as empty. */
  datatype App = App(name: string, quayRepos: seq<QuayOrg>, codeComponents: seq<CodeComponent>)

  /** What is known of a subcomponent: its "quay_repo_name" and its "git_repo_url", when set. */
  datatype Fields = Fields(quayRepoName: Option<string>, gitRepoUrl: Option<string>)

  /** One entry `{"name": k, **fields}` of an app's subcomponent list. */
  datatype Subcomponent = Subcomponent(name: string, fields: Fields)

  /** One assignment into the subcomponent table. */
  datatype Update = SetQuay(key: string, value: string) | SetGit(key: string, value: string)

  /** A `defaultdict(dict)` keyed by subcomponent name, with its keys in insertion order. */
  datatype Table = Table(keys: seq<string>, values: map<string, Fields>)

  ghost predicate ValidTable(t: Table)
  {
    (forall i, j :: 0 <= i < j < |t.keys| ==> t.keys[i] != t.keys[j]) &&
    (forall k :: k in t.values <==> k in t.keys)
  }

  const NoFields := Fields(None, None)

  /** `subcomponent_data[key][field] = value`: a new key is appended with no fields set. */
  function Assign(t: Table, u: Update): Table
  {
    var prev := if u.key in t.values then t.values[u.key] else NoFields;
    var keys := if u.key in t.values then t.keys else t.keys + [u.key];
    var f := match u
      case SetQuay(_, v) => prev.(quayRepoName := Some(v))
      case SetGit(_, v) => prev.(gitRepoUrl := Some(v));
    Table(keys, t.values[u.key := f])
  }

  /** The table left by a sequence of assignments into `t`. */
  function ApplyTo(t: Table, us: seq<Update>): (r: Table)
    requires ValidTable(t)
    ensures ValidTable(r)
  {
    if us == [] then t else Assign(ApplyTo(t, us[..|us| - 1]), us[|us| - 1])
  }

  const Empty := Table([], map[])

  /** The table left by a sequence of assignments into an empty one. */
  function Apply(us: seq<Update>): (t: Table)
    ensures ValidTable(t)
  {
    ApplyTo(Empty, us)
  }

  lemma ApplyToSnoc(t: Table, us: seq<Update>, j: nat)
    requires ValidTable(t) && j < |us|
    ensures ApplyTo(t, us[..j + 1]) == Assign(ApplyTo(t, us[..j]), us[j])
  {
    assert us[..j + 1][..j] == us[..j];
  }

  /** Assigning `a` and then `b` is assigning `a + b`. */
  lemma {:induction false} ApplyToAppend(t: Table, a: seq<Update>, b: seq<Update>)
    requires ValidTable(t)
    ensures ApplyTo(t, a + b) == ApplyTo(ApplyTo(t, a), b)
    decreases |b|
  {
    if b == [] {
      assert a + b == a;
    } else {
      var n := |b| - 1;
      var ab := a + b;
      calc {
        ApplyTo(t, ab);
        Assign(ApplyTo(t, ab[..|ab| - 1]), ab[|ab| - 1]);
        { assert ab[..|ab| - 1] == a + b[..n]; ApplyToAppend(t, a, b[..n]); }
        Assign(ApplyTo(ApplyTo(t, a), b[..n]), b[n]);
      }
    }
  }

  /** The assignments of a Quay organisation: "org/item" under each item's name. */
  function OrgUpdates(org: QuayOrg): (us: seq<Update>)
    ensures |us| == |org.items|
  {
    seq(|org.items|, k requires 0 <= k < |org.items| => SetQuay(org.items[k], org.name + "/" + org.items[k]))
  }

  /** The assignments of an app's Quay organisations, skipping those not on quay.io. */
  function QuayUpdates(orgs: seq<QuayOrg>): seq<Update>
  {
    if orgs == [] then []
    else
      var org := orgs[|orgs| - 1];
      QuayUpdates(orgs[..|orgs| - 1]) + if org.instanceUrl != "quay.io" then [] else OrgUpdates(org)
  }

  /** The assignments of an app's code components: the url under each component's name. */
  function CodeUpdates(cs: seq<CodeComponent>): (us: seq<Update>)
    ensures |us| == |cs|
  {
    seq(|cs|, k requires 0 <= k < |cs| => SetGit(cs[k].name, cs[k].url))
  }

  /** All assignments for an app: its Quay repositories first, then its code components. */
  function Updates(app: App): seq<Update>
  {
    QuayUpdates(app.quayRepos) + CodeUpdates(app.codeComponents)
  }

  /** `[{"name": k, **v} for k, v in subcomponent_data.items()]` */
  function Subcomponents(t: Table): (subs: seq<Subcomponent>)
    requires ValidTable(t)
    ensures |subs| == |t.keys|
  {
    seq(|t.keys|, i requires 0 <= i < |t.keys| => Subcomponent(t.keys[i], t.values[t.keys[i]]))
  }

  lemma AppendTakeSnoc<T>(p: seq<T>, xs: seq<T>, j: nat)
    requires j < |xs|
    ensures p + xs[..j + 1] == (p + xs[..j]) + [xs[j]]
  {
    assert xs[..j + 1] == xs[..j] + [xs[j]];
  }

  lemma QuayUpdatesSnoc(orgs: seq<QuayOrg>, i: nat)
    requires i < |orgs|
    ensures orgs[i].instanceUrl != "quay.io" ==> QuayUpdates(orgs[..i + 1]) == QuayUpdates(orgs[..i])
    ensures orgs[i].instanceUrl == "quay.io" ==> QuayUpdates(orgs[..i + 1]) == QuayUpdates(orgs[..i]) + OrgUpdates(orgs[i])
  {
    assert orgs[..i + 1][..i] == orgs[..i];
    assert QuayUpdates(orgs[..i]) + [] == QuayUpdates(orgs[..i]);
  }

  /** The inner loop over one quay.io organisation's items. */
  method AssignOrgItems(t0: Table, org: QuayOrg) returns (t: Table)
    requires ValidTable(t0)
    ensures t == ApplyTo(t0, OrgUpdates(org))
  {
    t := t0;
    for j := 0 to |org.items|
      invariant t == ApplyTo(t0, OrgUpdates(org)[..j])
    {
      var repoName := org.name + "/" + org.items[j];
      ApplyToSnoc(t0, OrgUpdates(org), j);
      t := Assign(t, SetQuay(org.items[j], repoName));
    }
    assert OrgUpdates(org)[..|org.items|] == OrgUpdates(org);
  }

  /** The subcomponent list of one app, built as the collector builds it. */
  method AppSubcomponents(app: App) returns (subs: seq<Subcomponent>)
    ensures subs == Subcomponents(Apply(Updates(app)))
  {
    var t := Empty;
    var orgs := app.quayRepos;
    for i := 0 to |orgs|
      invariant t == Apply(QuayUpdates(orgs[..i]))
    {
      var org := orgs[i];
      QuayUpdatesSnoc(orgs, i);
      if org.instanceUrl != "quay.io" {
        continue;
      }
      ApplyToAppend(Empty, QuayUpdates(orgs[..i]), OrgUpdates(org));
      t := AssignOrgItems(t, org);
    }
    assert orgs[..|orgs|] == orgs;
    ghost var quay := QuayUpdates(orgs);
    var t1 := t;
    var codes := app.codeComponents;
    for j := 0 to |codes|
      invariant t == ApplyTo(t1, CodeUpdates(codes)[..j])
    {
      ApplyToSnoc(t1, CodeUpdates(codes), j);
      t := Assign(t, SetGit(codes[j].name, codes[j].url));
    }
    assert CodeUpdates(codes)[..|codes|] == CodeUpdates(codes);
    ApplyToAppend(Empty, quay, CodeUpdates(codes));
    subs := Subcomponents(t);
  }

  // ---------------------------------------------------------------------------------------------
  // What the table holds
  // ---------------------------------------------------------------------------------------------

  /** The value of the last Quay assignment to `k`, if any. */
  function LastQuay(us: seq<Update>, k: string): Option<string>
  {
    if us == [] then None
    else
      var u := us[|us| - 1];
      if u.SetQuay? && u.key == k then Some(u.value) else LastQuay(us[..|us| - 1], k)
  }

  /** The value of the last Git assignment to `k`, if any. */
  function LastGit(us: seq<Update>, k: string): Option<string>
  {
    if us == [] then None
    else
      var u := us[|us| - 1];
      if u.SetGit? && u.key == k then Some(u.value) else LastGit(us[..|us| - 1], k)
  }

  ghost predicate Assigned(us: seq<Update>, k: string)
  {
    exists i :: 0 <= i < |us| && us[i].key == k
  }

  /**
   * A name is in the table iff something was assigned to it; each field holds the last value assigned to it,
   * so a later assignment overwrites an earlier one and a Quay and a Git assignment to one name merge.
   */
  lemma {:induction false} ApplyHoldsLast(us: seq<Update>, k: string)
    ensures k in Apply(us).values <==> Assigned(us, k)
    ensures k in Apply(us).values ==> Apply(us).values[k] == Fields(LastQuay(us, k), LastGit(us, k))
  {
    if us != [] {
      var front := us[..|us| - 1];
      ApplyHoldsLast(front, k);
      assert forall i :: 0 <= i < |front| ==> front[i] == us[i];
      if Assigned(us, k) && us[|us| - 1].key != k {
        var i :| 0 <= i < |us| && us[i].key == k;
        assert front[i].key == k;
      }
      if !(k in Apply(front).values) {
        assert LastQuay(front, k) == None by { LastNoneIfUnassigned(front, k); }
        assert LastGit(front, k) == None by { LastNoneIfUnassigned(front, k); }
      }
    }
  }

  lemma {:induction false} LastNoneIfUnassigned(us: seq<Update>, k: string)
    requires !Assigned(us, k)
    ensures LastQuay(us, k) == None && LastGit(us, k) == None
  {
    if us != [] {
      var front := us[..|us| - 1];
      assert forall i :: 0 <= i < |front| ==> front[i] == us[i];
      LastNoneIfUnassigned(front, k);
    }
  }

  /** A Quay value comes from a Quay assignment to that name, and a Git value from a Git assignment. */
  lemma {:induction false} LastComesFrom(us: seq<Update>, k: string)
    ensures LastQuay(us, k).Some? ==> SetQuay(k, LastQuay(us, k).value) in us
    ensures LastGit(us, k).Some? ==> SetGit(k, LastGit(us, k).value) in us
    ensures LastQuay(us, k).None? ==> forall v :: SetQuay(k, v) !in us
    ensures LastGit(us, k).None? ==> forall v :: SetGit(k, v) !in us
  {
    if us != [] {
      var front := us[..|us| - 1];
      LastComesFrom(front, k);
      assert us == front + [us[|us| - 1]];
    }
  }

  /** The Quay assignments of an app are exactly "org/item" for the items of its quay.io organisations. */
  lemma {:induction false} QuayUpdatesFromQuayIo(orgs: seq<QuayOrg>, u: Update)
    ensures u in QuayUpdates(orgs) <==>
      exists i, j :: 0 <= i < |orgs| && orgs[i].instanceUrl == "quay.io" && 0 <= j < |orgs[i].items| &&
        u == SetQuay(orgs[i].items[j], orgs[i].name + "/" + orgs[i].items[j])
  {
    if orgs != [] {
      var n := |orgs| - 1;
      var front := orgs[..n];
      QuayUpdatesFromQuayIo(front, u);
      assert forall i :: 0 <= i < n ==> front[i] == orgs[i];
      if orgs[n].instanceUrl == "quay.io" && u in OrgUpdates(orgs[n]) {
        var j :| 0 <= j < |OrgUpdates(orgs[n])| && OrgUpdates(orgs[n])[j] == u;
        assert u == SetQuay(orgs[n].items[j], orgs[n].name + "/" + orgs[n].items[j]);
      }
      if exists i, j :: 0 <= i < |orgs| && orgs[i].instanceUrl == "quay.io" && 0 <= j < |orgs[i].items| &&
          u == SetQuay(orgs[i].items[j], orgs[i].name + "/" + orgs[i].items[j]) {
        var i, j :| 0 <= i < |orgs| && orgs[i].instanceUrl == "quay.io" && 0 <= j < |orgs[i].items| &&
          u == SetQuay(orgs[i].items[j], orgs[i].name + "/" + orgs[i].items[j]);
        if i == n {
          assert OrgUpdates(orgs[n])[j] == u;
        }
      }
    }
  }

  /**
   * The subcomponents of an app have distinct names; a "quay_repo_name" is always "org/name" for a quay.io
   * organisation listing that name, and a "git_repo_url" is the url of a code component of that name.
   */
  lemma SubcomponentsSound(app: App, k: nat)
    requires k < |Subcomponents(Apply(Updates(app)))|
    ensures var s := Subcomponents(Apply(Updates(app)))[k];
      (forall l :: 0 <= l < |Subcomponents(Apply(Updates(app)))| && l != k ==>
         Subcomponents(Apply(Updates(app)))[l].name != s.name) &&
      (s.fields.quayRepoName.Some? ==>
         exists i, j :: 0 <= i < |app.quayRepos| && app.quayRepos[i].instanceUrl == "quay.io" &&
           0 <= j < |app.quayRepos[i].items| && app.quayRepos[i].items[j] == s.name &&
           s.fields.quayRepoName.value == app.quayRepos[i].name + "/" + s.name) &&
      (s.fields.gitRepoUrl.Some? ==>
         exists i :: 0 <= i < |app.codeComponents| && app.codeComponents[i] == CodeComponent(s.name, s.fields.gitRepoUrl.value))
  {
    var us := Updates(app);
    var t := Apply(us);
    var s := Subcomponents(t)[k];
    ApplyHoldsLast(us, s.name);
    LastComesFrom(us, s.name);
    if s.fields.quayRepoName.Some? {
      var u := SetQuay(s.name, s.fields.quayRepoName.value);
      assert u !in CodeUpdates(app.codeComponents);
      QuayUpdatesFromQuayIo(app.quayRepos, u);
    }
    if s.fields.gitRepoUrl.Some? {
      var u := SetGit(s.name, s.fields.gitRepoUrl.value);
      assert u in CodeUpdates(app.codeComponents) by {
        if u in QuayUpdates(app.quayRepos) {
          QuayUpdatesFromQuayIo(app.quayRepos, u);
        }
      }
      var j :| 0 <= j < |app.codeComponents| && CodeUpdates(app.codeComponents)[j] == u;
    }
  }

  /** Every item of a quay.io organisation and every code component names a subcomponent. */
  lemma SubcomponentsComplete(app: App, name: string)
    requires (exists i, j :: 0 <= i < |app.quayRepos| && app.quayRepos[i].instanceUrl == "quay.io" &&
                0 <= j < |app.quayRepos[i].items| && app.quayRepos[i].items[j] == name) ||
             (exists i :: 0 <= i < |app.codeComponents| && app.codeComponents[i].name == name)
    ensures exists k :: 0 <= k < |Subcomponents(Apply(Updates(app)))| && Subcomponents(Apply(Updates(app)))[k].name == name
  {
    var us := Updates(app);
    var q := QuayUpdates(app.quayRepos);
    if exists i, j :: 0 <= i < |app.quayRepos| && app.quayRepos[i].instanceUrl == "quay.io" &&
         0 <= j < |app.quayRepos[i].items| && app.quayRepos[i].items[j] == name {
      var i, j :| 0 <= i < |app.quayRepos| && app.quayRepos[i].instanceUrl == "quay.io" &&
        0 <= j < |app.quayRepos[i].items| && app.quayRepos[i].items[j] == name;
      var u := SetQuay(name, app.quayRepos[i].name + "/" + name);
      QuayUpdatesFromQuayIo(app.quayRepos, u);
      var p :| 0 <= p < |q| && q[p] == u;
      assert us[p] == u;
    } else {
      var i :| 0 <= i < |app.codeComponents| && app.codeComponents[i].name == name;
      assert us[|q| + i] == CodeUpdates(app.codeComponents)[i];
    }
    ApplyHoldsLast(us, name);
    var t := Apply(us);
    var k :| 0 <= k < |t.keys| && t.keys[k] == name;
    assert Subcomponents(t)[k].name == name;
  }

  // ---------------------------------------------------------------------------------------------
  // The service expansion
  // ---------------------------------------------------------------------------------------------

  /** `service_component_map`: each app's name to its subcomponent list; a later app of the same name wins. */
  function ComponentMap(apps: seq<App>): (m: map<string, seq<Subcomponent>>)
  {
    if apps == [] then map[]
    else
      var app := apps[|apps| - 1];
      ComponentMap(apps[..|apps| - 1])[app.name := Subcomponents(Apply(Updates(app)))]
  }

  /** The subcomponent lists of all apps, as the collector's first loop builds them. */
  method FetchComponentMap(apps: seq<App>) returns (m: map<string, seq<Subcomponent>>)
    ensures m == ComponentMap(apps)
  {
    m := map[];
    for i := 0 to |apps|
      invariant m == ComponentMap(apps[..i])
    {
      assert apps[..i + 1][..i] == apps[..i];
      var subs := AppSubcomponents(apps[i]);
      m := m[apps[i].name := subs];
    }
    assert apps[..|apps|] == apps;
  }

  /** An app is in the map iff some app has its name, and the map holds the last such app's subcomponents. */
  lemma {:induction false} ComponentMapLastWins(apps: seq<App>, i: nat)
    requires i < |apps| && forall j :: i < j < |apps| ==> apps[j].name != apps[i].name
    ensures apps[i].name in ComponentMap(apps)
    ensures ComponentMap(apps)[apps[i].name] == Subcomponents(Apply(Updates(apps[i])))
  {
    var n := |apps| - 1;
    if i < n {
      ComponentMapLastWins(apps[..n], i);
    }
  }

  /** A component of a managed service, with the app it names, if any ("" names none). */
  datatype ServiceComponent = ServiceComponent(appInterfaceName: Option<string>, attrs: map<string, string>)

  /** A component of a service's expansion: one kept as defined, or a subcomponent of a named app. */
  datatype Entry = AsDefined(component: ServiceComponent) | FromApp(sub: Subcomponent)

  predicate NamesApp(c: ServiceComponent)
  {
    c.appInterfaceName.Some? && c.appInterfaceName.value != ""
  }

  function FromApps(subs: seq<Subcomponent>): (es: seq<Entry>)
    ensures |es| == |subs|
  {
    seq(|subs|, k requires 0 <= k < |subs| => FromApp(subs[k]))
  }

  /** What one service component expands to: itself, the subcomponents of its app, or nothing for an unknown app. */
  function ExpandOne(c: ServiceComponent, m: map<string, seq<Subcomponent>>): seq<Entry>
  {
    if !NamesApp(c) then [AsDefined(c)]
    else if c.appInterfaceName.value !in m then []
    else FromApps(m[c.appInterfaceName.value])
  }

  /** A service's component list expanded in order. */
  function Expand(cs: seq<ServiceComponent>, m: map<string, seq<Subcomponent>>): seq<Entry>
  {
    if cs == [] then [] else Expand(cs[..|cs| - 1], m) + ExpandOne(cs[|cs| - 1], m)
  }

  /** The expansion distributes over concatenation of component lists. */
  lemma {:induction false} ExpandAppend(a: seq<ServiceComponent>, b: seq<ServiceComponent>, m: map<string, seq<Subcomponent>>)
    ensures Expand(a + b, m) == Expand(a, m) + Expand(b, m)
    decreases |b|
  {
    if b == [] {
      assert a + b == a;
    } else {
      var n := |b| - 1;
      assert (a + b)[..|a + b| - 1] == a + b[..n];
      ExpandAppend(a, b[..n], m);
    }
  }

  /** Components naming no app pass through unchanged; a list of them is its own expansion. */
  lemma {:induction false} ExpandNoApps(cs: seq<ServiceComponent>, m: map<string, seq<Subcomponent>>)
    requires forall i :: 0 <= i < |cs| ==> !NamesApp(cs[i])
    ensures Expand(cs, m) == seq(|cs|, i requires 0 <= i < |cs| => AsDefined(cs[i]))
  {
    if cs != [] {
      ExpandNoApps(cs[..|cs| - 1], m);
    }
  }

  /** The inner loop over one service's components. */
  method ExpandComponents(cs: seq<ServiceComponent>, m: map<string, seq<Subcomponent>>) returns (components: seq<Entry>)
    ensures components == Expand(cs, m)
  {
    components := [];
    for k := 0 to |cs|
      invariant components == Expand(cs[..k], m)
    {
      assert cs[..k + 1][..k] == cs[..k];
      var c := cs[k];
      if NamesApp(c) {
        if c.appInterfaceName.value !in m {
          continue;
        }
        components := components + FromApps(m[c.appInterfaceName.value]);
      } else {
        components := components + [AsDefined(c)];
      }
    }
    assert cs[..|cs|] == cs;
  }

  /** A managed service with the components its product definition lists. */
  datatype Service = Service(id: int, components: seq<ServiceComponent>)

  /** `service_metadata`: each service to its expanded component list. */
  function ServiceMetadata(services: seq<Service>, m: map<string, seq<Subcomponent>>): map<int, seq<Entry>>
  {
    if services == [] then map[]
    else
      var s := services[|services| - 1];
      ServiceMetadata(services[..|services| - 1], m)[s.id := Expand(s.components, m)]
  }

  /** `fetch_service_metadata` over the decoded apps and the services to expand. */
  method FetchServiceMetadata(apps: seq<App>, services: seq<Service>) returns (metadata: map<int, seq<Entry>>)
    ensures metadata == ServiceMetadata(services, ComponentMap(apps))
  {
    var m := FetchComponentMap(apps);
    metadata := map[];
    for i := 0 to |services|
      invariant metadata == ServiceMetadata(services[..i], m)
    {
      assert services[..i + 1][..i] == services[..i];
      var components := ExpandComponents(services[i].components, m);
      metadata := metadata[services[i].id := components];
    }
    assert services[..|services|] == services;
  }

  /** Each service is in the result under its own expansion (services are distinct objects: no later one shares its id). */
  lemma {:induction false} ServiceMetadataHoldsEach(services: seq<Service>, m: map<string, seq<Subcomponent>>, i: nat)
    requires i < |services| && forall j :: i < j < |services| ==> services[j].id != services[i].id
    ensures services[i].id in ServiceMetadata(services, m)
    ensures ServiceMetadata(services, m)[services[i].id] == Expand(services[i].components, m)
  {
    var n := |services| - 1;
    if i < n {
      ServiceMetadataHoldsEach(services[..n], m, i);
    }
  }

  /** The result holds the services and nothing else. */
  lemma {:induction false} ServiceMetadataKeys(services: seq<Service>, m: map<string, seq<Subcomponent>>)
    ensures forall id :: id in ServiceMetadata(services, m) <==> exists i :: 0 <= i < |services| && services[i].id == id
  {
    if services != [] {
      var n := |services| - 1;
      ServiceMetadataKeys(services[..n], m);
      assert forall i :: 0 <= i < n ==> services[..n][i] == services[i];
    }
  }
}
