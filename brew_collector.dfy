/**
 * The parsing helpers of the Brew (koji) collector, `corgi/collectors/brew.py`: NVR splitting, bundled-provides
 * classification, Go module nesting, advisory-id extraction and image-component construction. The koji calls
 * that fetch the data are not modelled; their results are the inputs here.
 */
module BrewCollector {
  import opened Wrappers
  import opened Text
  import opened ComponentModel

  // ---------------------------------------------------------------------------------------------
  // NVR helpers
  // ---------------------------------------------------------------------------------------------

  /** `Brew.split_nvr`: `nvr.rsplit("-", maxsplit=2)`, which must give three parts. */
  function SplitNvr(nvr: string): (r: Result<(string, string, string)>)
    ensures r.Ok? ==> GetNvr(r.value.0, r.value.1, "") + "-" + r.value.2 == nvr
    ensures r.Ok? ==> Free(r.value.1, '-') && Free(r.value.2, '-')
    ensures r.Err? ==> r.error.ValueError?
  {
    match RSplitOnce(nvr, '-')
    case None => Err(ValueError("NVR had invalid length after splitting"))
    case Some((head, release)) =>
      match RSplitOnce(head, '-')
      case None => Err(ValueError("NVR had invalid length after splitting"))
      case Some((name, version)) => Ok((name, version, release))
  }

  /** Splitting an NVR gives back its parts when the version and release hold no '-' (the name may). */
  lemma SplitNvrRoundTrip(name: string, version: string, release: string)
    requires Free(version, '-') && Free(release, '-') && release != ""
    ensures SplitNvr(GetNvr(name, version, release)) == Ok((name, version, release))
  {
    var head := name + "-" + version;
    assert GetNvr(name, version, release) == head + "-" + release;
    RSplitOnceAt(head, '-', release);
    RSplitOnceAt(name, '-', version);
  }

  /** A string with fewer than two '-' is not an NVR. */
  lemma SplitNvrNeedsTwoDashes(p: string, q: string)
    requires Free(p, '-') && Free(q, '-')
    ensures SplitNvr(p).Err?
    ensures SplitNvr(p + "-" + q).Err?
  {
    RSplitOnceAt(p, '-', q);
  }

  /** `Brew.sans_epoch`: drop an `E:` from the version part of an NVR. */
  function SansEpoch(rpm: string): (r: Result<string>)
    ensures r.Err? <==> SplitNvr(rpm).Err?
    ensures r.Err? ==> r.error.ValueError?
    ensures r.Ok? && CountChar(SplitNvr(rpm).value.1, ':') == 0 ==> r.value == rpm
  {
    match SplitNvr(rpm)
    case Err(e) => Err(e)
    case Ok((name, version, release)) =>
      SplitCount(version, ':');
      var parts := Split(version, ":");
      if |parts| > 1 then Ok(name + "-" + parts[1] + "-" + release) else Ok(rpm)
  }

  /** `name-E:V-R` loses its epoch, and an NVR without one is unchanged. */
  lemma SansEpochDropsEpoch(name: string, epoch: string, version: string, release: string)
    requires Free(epoch, '-') && Free(epoch, ':') && Free(version, '-') && Free(version, ':')
    requires Free(release, '-') && release != ""
    ensures SansEpoch(GetNvr(name, epoch + ":" + version, release)) == Ok(GetNvr(name, version, release))
    ensures SansEpoch(GetNvr(name, version, release)) == Ok(GetNvr(name, version, release))
  {
    var ev := epoch + ":" + version;
    assert Free(ev, '-');
    SplitNvrRoundTrip(name, ev, release);
    EpochSplits(epoch, version);
    assert GetNvr(name, version, release) == name + "-" + version + ("-" + release);
    AppendAssociative(name + "-" + version, "-", release);
    SansEpochKeeps(name, version, release);
  }

  lemma EpochSplits(epoch: string, version: string)
    requires Free(epoch, ':') && Free(version, ':')
    ensures Split(epoch + ":" + version, ":") == [epoch, version]
  {
    assert Join([epoch, version], ":") == epoch + ":" + version by { assert [epoch, version][1..] == [version]; }
    SplitJoin([epoch, version], ':');
  }

  lemma SansEpochKeeps(name: string, version: string, release: string)
    requires Free(version, '-') && Free(version, ':') && Free(release, '-') && release != ""
    ensures SansEpoch(GetNvr(name, version, release)) == Ok(GetNvr(name, version, release))
  {
    SplitNvrRoundTrip(name, version, release);
    IndexOfFree(version, ':');
  }

  /** `module_key_to_nvr`: "n:s:v:c" becomes "n-s-v.c"; fewer than four parts raise IndexError. */
  function ModuleKeyToNvr(key: string): (r: Result<string>)
    ensures r.Err? <==> CountChar(key, ':') < 3
    ensures r.Err? ==> r.error == IndexError
  {
    SplitCount(key, ':');
    var parts := Split(key, ":");
    if |parts| < 4 then Err(IndexError)
    else Ok(parts[0] + "-" + parts[1] + "-" + parts[2] + "." + parts[3])
  }

  lemma ModuleKeyToNvrParts(n: string, s: string, v: string, c: string)
    requires Free(n, ':') && Free(s, ':') && Free(v, ':') && Free(c, ':')
    ensures ModuleKeyToNvr(n + ":" + s + ":" + v + ":" + c) == Ok(n + "-" + s + "-" + v + "." + c)
  {
    var parts := [n, s, v, c];
    assert parts[1..] == [s, v, c] && [s, v, c][1..] == [v, c] && [v, c][1..] == [c];
    assert Join([c], ":") == c;
    assert Join([v, c], ":") == v + ":" + c;
    assert Join([s, v, c], ":") == s + ":" + v + ":" + c;
    assert Join(parts, ":") == n + ":" + s + ":" + v + ":" + c;
    SplitJoin(parts, ':');
  }

  // ---------------------------------------------------------------------------------------------
  // Bundled provides
  // ---------------------------------------------------------------------------------------------

  /** `Brew.EXTERNAL_PKG_TYPE_MAPPING` */
  function ExternalType(t: string): Option<string>
  {
    if t == "python" || t == "pip" then Some("PYPI")
    else if t == "ruby" then Some("GEM")
    else if t == "npm" || t == "yarn" || t == "nodejs" || t == "js" then Some("NPM")
    else if t == "golang" then Some("GOLANG")
    else if t == "crate" then Some("CARGO")
    else None
  }

  const GoArchNames: set<string> := {"aarch-64", "ppc-64", "s390-64", "x86-64"}

  /** The prefix of a provide that marks it as bundled, with what it leaves (`None`: not bundled). */
  function Unbundle(component: string): Option<string>
  {
    if StartsWith(component, "bundled(") then Some(component[8..])
    else if StartsWith(component, "golang(") then Some(component)
    else None
  }

  /** Classify a cleaned bundled name: the type, and the component name. `None` drops a Go arch name. */
  function Classify(cleaned: string): Option<(string, string)>
  {
    match FirstOf(cleaned, {'(', '-'})
    case None => Some(("GENERIC", cleaned))
    case Some(i) =>
      var ctype, sep, rest := cleaned[..i], cleaned[i], cleaned[i + 1..];
      if StartsWith(ctype, "python") then Some(("PYPI", rest))
      else if StartsWith(ctype, "ruby") then Some(("GEM", rest))
      else if ctype == "golang" then (if rest in GoArchNames then None else Some(("GOLANG", rest)))
      else if ExternalType(ctype).Some? then Some((ExternalType(ctype).value, rest))
      else Some(("GENERIC", if sep == '-' then ctype + "-" + rest else rest))
  }

  /** One entry of `_extract_bundled_provides`: (type, name, version), or `None` when it is skipped. */
  function BundledEntry(component: string, version: string): Option<(string, string, string)>
  {
    match Unbundle(component)
    case None => None
    case Some(c) =>
      match Classify(DropChar(c, ')'))
      case None => None
      case Some((t, n)) => Some((t, n, version))
  }

  /** The entries kept from `provided`, in order. */
  function BundledOf(provided: seq<(string, string)>): (r: seq<(string, string, string)>)
    ensures |r| <= |provided|
  {
    if provided == [] then []
    else
      var last := provided[|provided| - 1];
      var e := BundledEntry(last.0, last.1);
      BundledOf(provided[..|provided| - 1]) + (if e.Some? then [e.value] else [])
  }

  /** `Brew._extract_bundled_provides` */
  method ExtractBundledProvides(provided: seq<(string, string)>) returns (bundled: seq<(string, string, string)>)
    ensures bundled == BundledOf(provided)
  {
    bundled := [];
    var i := 0;
    while i < |provided|
      invariant 0 <= i <= |provided|
      invariant bundled == BundledOf(provided[..i])
    {
      assert provided[..i + 1][..i] == provided[..i];
      var (component, version) := provided[i];
      var e := BundledEntry(component, version);
      if e.Some? {
        bundled := bundled + [e.value];
      }
      i := i + 1;
    }
    assert provided[..|provided|] == provided;
  }

  /** `e` carries the version of some provide marked `bundled(` or `golang(`. */
  predicate FromBundled(provided: seq<(string, string)>, e: (string, string, string))
  {
    exists j :: 0 <= j < |provided| && Unbundle(provided[j].0).Some? && e.2 == provided[j].1
  }

  /**
   * Every kept entry comes from a provide marked `bundled(` or `golang(`, with its version unchanged; provides
   * without either mark contribute nothing.
   */
  lemma {:induction false} BundledOfOrigins(provided: seq<(string, string)>)
    ensures forall k :: 0 <= k < |BundledOf(provided)| ==> FromBundled(provided, BundledOf(provided)[k])
    ensures (forall j :: 0 <= j < |provided| ==> Unbundle(provided[j].0).None?) ==> BundledOf(provided) == []
    decreases |provided|
  {
    if provided != [] {
      var n := |provided| - 1;
      var prefix := provided[..n];
      BundledOfOrigins(prefix);
      assert forall j :: 0 <= j < |prefix| ==> prefix[j] == provided[j];
      var e := BundledEntry(provided[n].0, provided[n].1);
      var r := BundledOf(provided);
      assert r == BundledOf(prefix) + (if e.Some? then [e.value] else []);
      forall k | 0 <= k < |r|
        ensures FromBundled(provided, r[k])
      {
        if k < |BundledOf(prefix)| {
          assert r[k] == BundledOf(prefix)[k];
          assert FromBundled(prefix, r[k]);
          var j :| 0 <= j < |prefix| && Unbundle(prefix[j].0).Some? && r[k].2 == prefix[j].1;
          assert provided[j] == prefix[j];
        } else {
          assert r[k] == e.value;
          assert Unbundle(provided[n].0).Some? && e.value.2 == provided[n].1;
        }
      }
    }
  }

  /** A bundled name whose first separator is '-' after an unknown prefix keeps its whole name, as GENERIC. */
  lemma UnknownPrefixKeepsName(name: string, version: string, i: nat)
    requires Free(name, ')') && i < |name| && name[i] == '-' && forall j :: 0 <= j < i ==> name[j] != '(' && name[j] != '-'
    requires !StartsWith(name[..i], "python") && !StartsWith(name[..i], "ruby") && ExternalType(name[..i]).None?
    ensures BundledEntry("bundled(" + name + ")", version) == Some(("GENERIC", name, version))
  {
    BundledUnbundled(name);
    DropSuffixChar(name, ')');
    UnknownPrefixClassified(name, i);
  }

  lemma UnknownPrefixClassified(name: string, i: nat)
    requires i < |name| && name[i] == '-' && forall j :: 0 <= j < i ==> name[j] != '(' && name[j] != '-'
    requires !StartsWith(name[..i], "python") && !StartsWith(name[..i], "ruby") && ExternalType(name[..i]).None?
    ensures Classify(name) == Some(("GENERIC", name))
  {
    FirstOfAt(name, {'(', '-'}, i);
    assert name[..i] + "-" + name[i + 1..] == name;
  }

  lemma BundledUnbundled(name: string)
    ensures Unbundle("bundled(" + name + ")") == Some(name + ")")
  {
    var c := "bundled(" + name + ")";
    assert c[..8] == "bundled(";
    assert c[8..] == name + ")";
  }

  /** `golang(x)` is a GOLANG component `x` unless `x` names an architecture. */
  lemma GolangProvide(name: string, version: string)
    requires Free(name, ')') && Free(name, '(')
    ensures BundledEntry("golang(" + name + ")", version)
      == if name in GoArchNames then None else Some(("GOLANG", name, version))
  {
    GolangUnbundled(name);
    DropSuffixChar("golang(" + name, ')');
    assert "golang(" + name + ")" == ("golang(" + name) + ")";
    GolangClassified(name);
  }

  lemma GolangUnbundled(name: string)
    ensures Unbundle("golang(" + name + ")") == Some("golang(" + name + ")")
  {
    var c := "golang(" + name + ")";
    assert c[..7] == "golang(";
    assert !StartsWith(c, "bundled(") by { assert c[6] == '('; }
  }

  lemma GolangClassified(name: string)
    ensures Classify("golang(" + name) == if name in GoArchNames then None else Some(("GOLANG", name))
  {
    var d := "golang(" + name;
    assert FirstOf(d, {'(', '-'}) == Some(6) by {
      assert d[6] == '(';
      assert d[..6] == "golang";
    }
    assert d[..6] == "golang" && d[7..] == name;
  }

  lemma DropSuffixChar(s: string, c: char)
    requires Free(s, c)
    ensures DropChar(s + [c], c) == s
  {
    DropCharAppend(s, [c], c);
    assert DropChar([c], c) == [] + DropChar([], c);
  }

  // ---------------------------------------------------------------------------------------------
  // Remote-source dependencies
  // ---------------------------------------------------------------------------------------------

  /** A Cachito dependency: its type ("gomod", "go-package", "npm", …), name and version. */
  datatype Dep = Dep(dtype: string, name: string, version: string)

  /** The dependencies whose type is `t` (`keep`) or is not (`!keep`), in order. */
  function OfType(deps: seq<Dep>, t: string, keep: bool): (r: seq<Dep>)
    ensures |r| <= |deps|
  {
    if deps == [] then []
    else
      var prefix := OfType(deps[..|deps| - 1], t, keep);
      var d := deps[|deps| - 1];
      if (d.dtype == t) == keep then prefix + [d] else prefix
  }

  lemma {:induction false} OfTypeMembers(deps: seq<Dep>, t: string, keep: bool)
    ensures forall d :: d in OfType(deps, t, keep) <==> d in deps && (d.dtype == t) == keep
    decreases |deps|
  {
    if deps != [] {
      var prefix := deps[..|deps| - 1];
      OfTypeMembers(prefix, t, keep);
      assert deps == prefix + [deps[|deps| - 1]];
    }
  }

  lemma OfTypeStep(deps: seq<Dep>, t: string, keep: bool, i: nat)
    requires i < |deps|
    ensures OfType(deps[..i + 1], t, keep)
      == OfType(deps[..i], t, keep) + (if (deps[i].dtype == t) == keep then [deps[i]] else [])
  {
    assert deps[..i + 1][..i] == deps[..i];
  }

  /** Removing the first occurrence of `d` from `s`, as `list.remove` does. */
  function RemoveFirst<T(==)>(s: seq<T>, d: T): seq<T>
  {
    if s == [] then []
    else if s[0] == d then s[1..]
    else [s[0]] + RemoveFirst(s[1..], d)
  }

  lemma RemoveFirstHead<T>(front: seq<T>, d: T, back: seq<T>)
    requires d !in front
    ensures RemoveFirst(front + [d] + back, d) == front + back
  {
    if front != [] {
      assert (front + [d] + back)[1..] == front[1..] + [d] + back;
      RemoveFirstHead(front[1..], d, back);
      assert [front[0]] + (front[1..] + back) == front + back;
    } else {
      assert front + [d] + back == [d] + back;
    }
  }

  lemma FilterRemoveStep(deps: seq<Dep>, t: string, i: nat)
    requires i < |deps| && deps[i].dtype == t
    ensures RemoveFirst(OfType(deps[..i], t, false) + deps[i..], deps[i])
      == OfType(deps[..i + 1], t, false) + deps[i + 1..]
  {
    var front := OfType(deps[..i], t, false);
    OfTypeStep(deps, t, false, i);
    OfTypeMembers(deps[..i], t, false);
    assert deps[i] !in front;
    assert front + deps[i..] == front + [deps[i]] + deps[i + 1..];
    RemoveFirstHead(front, deps[i], deps[i + 1..]);
  }

  lemma FilterKeepStep(deps: seq<Dep>, t: string, i: nat)
    requires i < |deps| && deps[i].dtype != t
    ensures OfType(deps[..i], t, false) + deps[i..] == OfType(deps[..i + 1], t, false) + deps[i + 1..]
  {
    OfTypeStep(deps, t, false, i);
    assert deps[i..] == [deps[i]] + deps[i + 1..];
  }

  /**
   * `Brew._filter_by_type`: the dependencies of type `t` and a copy of the list with each of them removed.
   * Both keep input order, so together they are a split of the input.
   */
  method FilterByType(deps: seq<Dep>, t: string) returns (filtered: seq<Dep>, remaining: seq<Dep>)
    ensures filtered == OfType(deps, t, true)
    ensures remaining == OfType(deps, t, false)
  {
    filtered := [];
    remaining := deps;
    var i := 0;
    while i < |deps|
      invariant 0 <= i <= |deps|
      invariant filtered == OfType(deps[..i], t, true)
      invariant remaining == OfType(deps[..i], t, false) + deps[i..]
    {
      var d := deps[i];
      OfTypeStep(deps, t, true, i);
      if d.dtype == t {
        filtered := filtered + [d];
        FilterRemoveStep(deps, t, i);
        remaining := RemoveFirst(remaining, d);
      } else {
        FilterKeepStep(deps, t, i);
      }
      i := i + 1;
    }
    assert deps[..|deps|] == deps;
  }

  function Count(s: seq<Dep>, d: Dep): nat
  {
    if s == [] then 0 else Count(s[..|s| - 1], d) + (if s[|s| - 1] == d then 1 else 0)
  }

  /** The two halves of a filter together hold each dependency as often as the input does. */
  lemma {:induction false} FilterIsSplit(deps: seq<Dep>, t: string, d: Dep)
    ensures Count(OfType(deps, t, true), d) + Count(OfType(deps, t, false), d) == Count(deps, d)
    decreases |deps|
  {
    if deps != [] {
      var prefix := deps[..|deps| - 1];
      FilterIsSplit(prefix, t, d);
      var last := deps[|deps| - 1];
      assert deps == prefix + [last];
      CountSnoc(prefix, last, d);
      var kept, dropped := OfType(prefix, t, true), OfType(prefix, t, false);
      if last.dtype == t {
        assert OfType(deps, t, true) == kept + [last] && OfType(deps, t, false) == dropped;
        CountSnoc(kept, last, d);
      } else {
        assert OfType(deps, t, false) == dropped + [last] && OfType(deps, t, true) == kept;
        CountSnoc(dropped, last, d);
      }
    }
  }

  lemma CountSnoc(s: seq<Dep>, x: Dep, d: Dep)
    ensures Count(s + [x], d) == Count(s, d) + (if x == d then 1 else 0)
  {
    assert (s + [x])[..|s|] == s;
  }

  /** One entry `_extract_golang` returns: a package (no components) or a module with its nested packages. */
  datatype GoProvide = GoProvide(goType: string, name: string, version: string, components: Option<seq<(string, string)>>)

  /** The first module whose name is a prefix of the package name. */
  function ModuleFor(modules: seq<Dep>, pkgName: string): (r: Option<nat>)
    ensures r.Some? ==> r.value < |modules| && StartsWith(pkgName, modules[r.value].name)
    ensures r.Some? ==> forall k :: 0 <= k < r.value ==> !StartsWith(pkgName, modules[k].name)
    ensures r.None? ==> forall k :: 0 <= k < |modules| ==> !StartsWith(pkgName, modules[k].name)
  {
    if modules == [] then None
    else if StartsWith(pkgName, modules[0].name) then Some(0)
    else match ModuleFor(modules[1..], pkgName)
      case None => None
      case Some(k) => Some(k + 1)
  }

  function PkgName(p: Dep): string { RemovePrefix(p.name, "vendor/") }

  function PkgVersion(p: Dep, stdlib: string): string { if p.version == "" then stdlib else p.version }

  function Key(d: Dep): (string, string) { (d.name, d.version) }

  /** The packages that nest under no module, in order, as direct dependants. */
  function DirectPackages(modules: seq<Dep>, packages: seq<Dep>, stdlib: string): seq<GoProvide>
  {
    if packages == [] then []
    else
      var p := packages[|packages| - 1];
      DirectPackages(modules, packages[..|packages| - 1], stdlib)
      + (if ModuleFor(modules, PkgName(p)).None? then [GoProvide("go-package", p.name, PkgVersion(p, stdlib), None)] else [])
  }

  /** The (name, version) of the packages nesting under a module with the given key, in order. */
  function NestedUnder(modules: seq<Dep>, packages: seq<Dep>, stdlib: string, key: (string, string)): seq<(string, string)>
  {
    if packages == [] then []
    else
      var p := packages[|packages| - 1];
      var m := ModuleFor(modules, PkgName(p));
      NestedUnder(modules, packages[..|packages| - 1], stdlib, key)
      + (if m.Some? && Key(modules[m.value]) == key then [(PkgName(p), PkgVersion(p, stdlib))] else [])
  }

  /** The distinct (name, version) module keys in first-occurrence order: the dict's insertion order. */
  function ModuleKeys(modules: seq<Dep>): (keys: seq<(string, string)>)
    ensures forall k :: k in keys <==> exists j :: 0 <= j < |modules| && Key(modules[j]) == k
    ensures forall a, b :: 0 <= a < b < |keys| ==> keys[a] != keys[b]
  {
    if modules == [] then []
    else
      var prefix := ModuleKeys(modules[..|modules| - 1]);
      var k := Key(modules[|modules| - 1]);
      assert forall j :: 0 <= j < |modules| - 1 ==> modules[..|modules| - 1][j] == modules[j];
      if k in prefix then prefix else prefix + [k]
  }

  function ModuleEntries(modules: seq<Dep>, packages: seq<Dep>, stdlib: string, keys: seq<(string, string)>): seq<GoProvide>
  {
    if keys == [] then []
    else
      var k := keys[|keys| - 1];
      var nested := NestedUnder(modules, packages, stdlib, k);
      ModuleEntries(modules, packages, stdlib, keys[..|keys| - 1])
      + [GoProvide("gomod", k.0, k.1, if |nested| > 0 then Some(nested) else None)]
  }

  /** What `_extract_golang` returns for the dependencies. */
  function GolangOf(deps: seq<Dep>, stdlib: string): seq<GoProvide>
  {
    var modules := OfType(deps, "gomod", true);
    var packages := OfType(OfType(deps, "gomod", false), "go-package", true);
    DirectPackages(modules, packages, stdlib) + ModuleEntries(modules, packages, stdlib, ModuleKeys(modules))
  }

  /** The inner `for module in modules` loop with its `break`. */
  method FindModule(modules: seq<Dep>, pkgName: string) returns (found: Option<nat>)
    ensures found == ModuleFor(modules, pkgName)
  {
    var k := 0;
    while k < |modules|
      invariant 0 <= k <= |modules|
      invariant forall j :: 0 <= j < k ==> !StartsWith(pkgName, modules[j].name)
    {
      if StartsWith(pkgName, modules[k].name) {
        return Some(k);
      }
      k := k + 1;
    }
    return None;
  }

  /** An empty package list per key. */
  function NoPackages(keys: seq<(string, string)>): (m: map<(string, string), seq<(string, string)>>)
    ensures forall k :: k in m <==> k in keys
  {
    map k | k in keys :: []
  }

  /** The first loop of `_extract_golang`: an empty package list per distinct module key. */
  method CollectModuleKeys(modules: seq<Dep>) returns (keys: seq<(string, string)>, nested: map<(string, string), seq<(string, string)>>)
    ensures keys == ModuleKeys(modules)
    ensures nested == NoPackages(keys) && forall k :: k in nested ==> nested[k] == []
  {
    keys := [];
    nested := map[];
    var i := 0;
    while i < |modules|
      invariant 0 <= i <= |modules|
      invariant keys == ModuleKeys(modules[..i])
      invariant nested == NoPackages(keys)
    {
      assert modules[..i + 1][..i] == modules[..i];
      var key := Key(modules[i]);
      NoPackagesSnoc(keys, key);
      if key !in nested {
        keys := keys + [key];
      }
      nested := nested[key := []];
      i := i + 1;
    }
    assert modules[..|modules|] == modules;
  }

  lemma NoPackagesSnoc(keys: seq<(string, string)>, key: (string, string))
    ensures NoPackages(keys)[key := []] == NoPackages(if key in keys then keys else keys + [key])
  {
  }

  lemma DirectStep(modules: seq<Dep>, packages: seq<Dep>, stdlib: string, i: nat)
    requires i < |packages|
    ensures var p := packages[i];
      DirectPackages(modules, packages[..i + 1], stdlib) == DirectPackages(modules, packages[..i], stdlib)
      + (if ModuleFor(modules, PkgName(p)).None? then [GoProvide("go-package", p.name, PkgVersion(p, stdlib), None)] else [])
  {
    assert packages[..i + 1][..i] == packages[..i];
  }

  lemma NestedStep(modules: seq<Dep>, packages: seq<Dep>, stdlib: string, i: nat, key: (string, string))
    requires i < |packages|
    ensures var p := packages[i]; var m := ModuleFor(modules, PkgName(p));
      NestedUnder(modules, packages[..i + 1], stdlib, key) == NestedUnder(modules, packages[..i], stdlib, key)
      + (if m.Some? && Key(modules[m.value]) == key then [(PkgName(p), PkgVersion(p, stdlib))] else [])
  {
    assert packages[..i + 1][..i] == packages[..i];
  }

  /** One package of the second loop, key by key. */
  lemma NestKeysStep(modules: seq<Dep>, packages: seq<Dep>, stdlib: string, keys: seq<(string, string)>, i: nat,
                     before: map<(string, string), seq<(string, string)>>, after: map<(string, string), seq<(string, string)>>)
    requires i < |packages|
    requires forall k :: k in keys ==> k in before && before[k] == NestedUnder(modules, packages[..i], stdlib, k)
    requires var p := packages[i]; var m := ModuleFor(modules, PkgName(p));
      if m.Some? then
        var key := Key(modules[m.value]);
        key in before && after == before[key := before[key] + [(PkgName(p), PkgVersion(p, stdlib))]]
      else after == before
    ensures forall k :: k in keys ==> k in after && after[k] == NestedUnder(modules, packages[..i + 1], stdlib, k)
  {
    forall k | k in keys
      ensures k in after && after[k] == NestedUnder(modules, packages[..i + 1], stdlib, k)
    {
      NestedStep(modules, packages, stdlib, i, k);
    }
  }

  /** The second loop: each package is nested under its module, or becomes a direct dependant. */
  method NestPackages(modules: seq<Dep>, packages: seq<Dep>, stdlib: string, keys: seq<(string, string)>,
                      nested0: map<(string, string), seq<(string, string)>>)
    returns (direct: seq<GoProvide>, nested: map<(string, string), seq<(string, string)>>)
    requires forall j :: 0 <= j < |modules| ==> Key(modules[j]) in keys
    requires forall k :: k in keys ==> k in nested0 && nested0[k] == []
    ensures direct == DirectPackages(modules, packages, stdlib)
    ensures forall k :: k in keys ==> k in nested && nested[k] == NestedUnder(modules, packages, stdlib, k)
  {
    direct := [];
    nested := nested0;
    var i := 0;
    while i < |packages|
      invariant 0 <= i <= |packages|
      invariant direct == DirectPackages(modules, packages[..i], stdlib)
      invariant forall k :: k in keys ==> k in nested && nested[k] == NestedUnder(modules, packages[..i], stdlib, k)
    {
      direct, nested := NestPackage(modules, packages, stdlib, keys, i, direct, nested);
      i := i + 1;
    }
    assert packages[..|packages|] == packages;
  }

  /** One pass of the second loop: the package either joins its module's list or becomes a direct dependant. */
  method NestPackage(modules: seq<Dep>, packages: seq<Dep>, stdlib: string, keys: seq<(string, string)>, i: nat,
                     direct0: seq<GoProvide>, nested0: map<(string, string), seq<(string, string)>>)
    returns (direct: seq<GoProvide>, nested: map<(string, string), seq<(string, string)>>)
    requires i < |packages|
    requires forall j :: 0 <= j < |modules| ==> Key(modules[j]) in keys
    requires direct0 == DirectPackages(modules, packages[..i], stdlib)
    requires forall k :: k in keys ==> k in nested0 && nested0[k] == NestedUnder(modules, packages[..i], stdlib, k)
    ensures direct == DirectPackages(modules, packages[..i + 1], stdlib)
    ensures forall k :: k in keys ==> k in nested && nested[k] == NestedUnder(modules, packages[..i + 1], stdlib, k)
  {
    var pkg := packages[i];
    var name := PkgName(pkg);
    var version := PkgVersion(pkg, stdlib);
    var m := FindModule(modules, name);
    DirectStep(modules, packages, stdlib, i);
    direct, nested := direct0, nested0;
    if m.Some? {
      var key := Key(modules[m.value]);
      nested := nested[key := nested[key] + [(name, version)]];
    } else {
      direct := direct + [GoProvide("go-package", pkg.name, version, None)];
    }
    NestKeysStep(modules, packages, stdlib, keys, i, nested0, nested);
  }

  lemma ModuleEntriesStep(modules: seq<Dep>, packages: seq<Dep>, stdlib: string, keys: seq<(string, string)>, j: nat)
    requires j < |keys|
    ensures var k := keys[j]; var nested := NestedUnder(modules, packages, stdlib, k);
      ModuleEntries(modules, packages, stdlib, keys[..j + 1]) == ModuleEntries(modules, packages, stdlib, keys[..j])
      + [GoProvide("gomod", k.0, k.1, if |nested| > 0 then Some(nested) else None)]
  {
    assert keys[..j + 1][..j] == keys[..j];
  }

  /** The last loop of `_extract_golang`: one module entry per key, with its packages when it has any. */
  method AppendModules(modules: seq<Dep>, packages: seq<Dep>, stdlib: string, keys: seq<(string, string)>,
                       nested: map<(string, string), seq<(string, string)>>, direct: seq<GoProvide>)
    returns (dependants: seq<GoProvide>)
    requires forall k :: k in keys ==> k in nested && nested[k] == NestedUnder(modules, packages, stdlib, k)
    ensures dependants == direct + ModuleEntries(modules, packages, stdlib, keys)
  {
    dependants := direct;
    var j := 0;
    while j < |keys|
      invariant 0 <= j <= |keys|
      invariant dependants == direct + ModuleEntries(modules, packages, stdlib, keys[..j])
    {
      ModuleEntriesStep(modules, packages, stdlib, keys, j);
      var key := keys[j];
      var list := nested[key];
      dependants := dependants + [GoProvide("gomod", key.0, key.1, if |list| > 0 then Some(list) else None)];
      j := j + 1;
    }
    assert keys[..|keys|] == keys;
  }

  /** `Brew._extract_golang` */
  method ExtractGolang(deps: seq<Dep>, stdlib: string) returns (dependants: seq<GoProvide>, remaining: seq<Dep>)
    ensures dependants == GolangOf(deps, stdlib)
    ensures remaining == OfType(OfType(deps, "gomod", false), "go-package", false)
  {
    var modules, rest := FilterByType(deps, "gomod");
    var packages;
    packages, remaining := FilterByType(rest, "go-package");
    var keys, nested0 := CollectModuleKeys(modules);
    assert forall j :: 0 <= j < |modules| ==> Key(modules[j]) in keys;
    var nested;
    dependants, nested := NestPackages(modules, packages, stdlib, keys, nested0);
    dependants := AppendModules(modules, packages, stdlib, keys, nested, dependants);
  }

  /**
   * A package lands under the first module whose name prefixes its name without "vendor/"; it is a direct
   * dependant, under its full name, exactly when no module name prefixes it.
   */
  lemma {:induction false} PackagePlacement(modules: seq<Dep>, packages: seq<Dep>, stdlib: string, j: nat)
    requires j < |packages|
    ensures var p := packages[j];
      ModuleFor(modules, PkgName(p)).None? ==>
        GoProvide("go-package", p.name, PkgVersion(p, stdlib), None) in DirectPackages(modules, packages, stdlib)
    ensures var p := packages[j]; var m := ModuleFor(modules, PkgName(p));
      m.Some? ==> (PkgName(p), PkgVersion(p, stdlib)) in NestedUnder(modules, packages, stdlib, Key(modules[m.value]))
    decreases |packages|
  {
    var prefix := packages[..|packages| - 1];
    if j < |packages| - 1 {
      assert prefix[j] == packages[j];
      PackagePlacement(modules, prefix, stdlib, j);
    }
  }

  /** Every direct dependant is a package that no module name prefixes. */
  lemma {:induction false} DirectAreUnmatched(modules: seq<Dep>, packages: seq<Dep>, stdlib: string)
    ensures forall e :: e in DirectPackages(modules, packages, stdlib) ==>
      e.goType == "go-package" && e.components.None? &&
      exists p :: p in packages && p.name == e.name && ModuleFor(modules, PkgName(p)).None?
    decreases |packages|
  {
    if packages != [] {
      var prefix := packages[..|packages| - 1];
      DirectAreUnmatched(modules, prefix, stdlib);
      assert forall p :: p in prefix ==> p in packages;
    }
  }

  /** A module nested no package exactly when its entry has no "components". */
  lemma {:induction false} ModuleEntriesShape(modules: seq<Dep>, packages: seq<Dep>, stdlib: string, keys: seq<(string, string)>)
    ensures |ModuleEntries(modules, packages, stdlib, keys)| == |keys|
    ensures forall k :: 0 <= k < |keys| ==>
      var e := ModuleEntries(modules, packages, stdlib, keys)[k];
      e.goType == "gomod" && (e.name, e.version) == keys[k]
      && (e.components.None? <==> NestedUnder(modules, packages, stdlib, keys[k]) == [])
    decreases |keys|
  {
    if keys != [] {
      var prefix := keys[..|keys| - 1];
      ModuleEntriesShape(modules, packages, stdlib, prefix);
      assert forall k :: 0 <= k < |prefix| ==> prefix[k] == keys[k];
    }
  }

  // ---------------------------------------------------------------------------------------------
  // Advisory ids
  // ---------------------------------------------------------------------------------------------

  /** The number of decimal digits at the front of `s`, at most `max`. */
  function LeadingDigits(s: string, max: nat): (n: nat)
    ensures n <= max && n <= |s| && AllDigits(s[..n])
    ensures n < max && n < |s| ==> !IsDigit(s[n])
  {
    if max == 0 || s == [] || !IsDigit(s[0]) then 0
    else
      var k := LeadingDigits(s[1..], max - 1);
      assert s[..k + 1] == [s[0]] + s[1..][..k];
      k + 1
  }

  /** `RH\wA-[12]\d{3}:` — the fixed part of an advisory id. */
  predicate AdvisoryHead(s: string)
  {
    |s| >= 10 && s[0] == 'R' && s[1] == 'H' && IsWordChar(s[2]) && s[3] == 'A' && s[4] == '-'
    && (s[5] == '1' || s[5] == '2') && IsDigit(s[6]) && IsDigit(s[7]) && IsDigit(s[8]) && s[9] == ':'
  }

  /** `ADVISORY_REGEX.match(tag).group()`: the head followed by as many digits as fit, four to six. */
  function AdvisoryMatch(tag: string): (r: Option<string>)
    ensures r.Some? ==> (StartsWith(tag, r.value) && AdvisoryHead(r.value)
                         && 14 <= |r.value| <= 16 && AllDigits(r.value[10..]))
  {
    if !AdvisoryHead(tag) then None
    else
      var n := LeadingDigits(tag[10..], 6);
      if n < 4 then None
      else
        assert tag[..10 + n][10..] == tag[10..][..n];
        Some(tag[..10 + n])
  }

  /** The match is the longest: a digit after it is possible only once six digits were taken. */
  lemma AdvisoryMatchLongest(tag: string)
    requires AdvisoryMatch(tag).Some?
    ensures var m := AdvisoryMatch(tag).value; |m| < |tag| && IsDigit(tag[|m|]) ==> |m| == 16
  {
  }

  /** A tag is matched exactly when it starts with the head and at least four digits. */
  lemma AdvisoryMatchIff(tag: string)
    ensures AdvisoryMatch(tag).Some? <==> AdvisoryHead(tag) && |tag| >= 14 && AllDigits(tag[10..14])
  {
    if AdvisoryHead(tag) && |tag| >= 14 && AllDigits(tag[10..14]) {
      var s := tag[10..];
      assert s[..4] == tag[10..14];
      assert LeadingDigits(s, 6) >= 4 by {
        LeadingDigitsAtLeast(s, 6, 4);
      }
    }
    if AdvisoryMatch(tag).Some? {
      var m := AdvisoryMatch(tag).value;
      assert tag[10..14] == m[10..14];
    }
  }

  lemma {:induction false} LeadingDigitsAtLeast(s: string, max: nat, k: nat)
    requires k <= max && k <= |s| && AllDigits(s[..k])
    ensures LeadingDigits(s, max) >= k
    decreases k
  {
    if k > 0 {
      assert s[0] == s[..k][0];
      assert s[1..][..k - 1] == s[..k][1..];
      LeadingDigitsAtLeast(s[1..], max - 1, k - 1);
    }
  }

  /** The distinct advisory ids at the start of the tags. */
  function AdvisoryIds(tags: seq<string>): set<string>
  {
    set t | t in tags && AdvisoryMatch(t).Some? :: AdvisoryMatch(t).value
  }

  /** `Brew._extract_advisory_ids`, returned as the set it builds. */
  method ExtractAdvisoryIds(tags: seq<string>) returns (ids: set<string>)
    ensures ids == AdvisoryIds(tags)
  {
    ids := {};
    var i := 0;
    while i < |tags|
      invariant 0 <= i <= |tags|
      invariant ids == set t | t in tags[..i] && AdvisoryMatch(t).Some? :: AdvisoryMatch(t).value
    {
      assert tags[..i + 1] == tags[..i] + [tags[i]];
      var m := AdvisoryMatch(tags[i]);
      if m.Some? {
        ids := ids + {m.value};
      }
      i := i + 1;
    }
    assert tags[..|tags|] == tags;
  }

  // ---------------------------------------------------------------------------------------------
  // Image components
  // ---------------------------------------------------------------------------------------------

  const ContainerRepository := "registry.redhat.io"

  /** The `meta` of the OCI component `_create_image_component` builds. */
  datatype ImageMeta = ImageMeta(
    buildId: int, nvr: string, name: string, version: string, release: string, arch: string,
    repositoryUrl: Option<string>, nameFromLabel: Option<string>)

  /** `Brew._create_image_component` */
  function CreateImageComponent(
    buildId: int, nvr: string, name: string, version: string, release: string, arch: string, nameLabel: string
  ): (r: Result<ImageMeta>)
    ensures name != "" && version != "" && release != "" ==>
      r.Ok? && (r.value.name, r.value.version, r.value.release) == (name, version, release)
    ensures (name == "" || version == "" || release == "") ==>
      (SplitNvr(nvr).Err? ==> r.Err?) &&
      (SplitNvr(nvr).Ok? ==> r.Ok? && (r.value.name, r.value.version, r.value.release) == SplitNvr(nvr).value)
    ensures r.Ok? ==> r.value.buildId == buildId && r.value.nvr == nvr && r.value.arch == arch
    ensures r.Ok? ==> r.value.repositoryUrl == if nameLabel != "" then Some(ContainerRepository + "/" + nameLabel) else None
    ensures r.Ok? ==> (r.value.nameFromLabel.Some? <==> !Free(nameLabel, '/'))
    ensures r.Ok? && r.value.nameFromLabel.Some? ==>
      var n := r.value.nameFromLabel.value;
      Free(n, '/') && EndsWith(nameLabel, n) && |n| < |nameLabel| && nameLabel[|nameLabel| - |n| - 1] == '/'
  {
    var parts :=
      if name == "" || version == "" || release == "" then SplitNvr(nvr) else Ok((name, version, release));
    match parts
    case Err(e) => Err(e)
    case Ok((n, v, rel)) =>
      var repo := if nameLabel != "" then Some(ContainerRepository + "/" + nameLabel) else None;
      var fromLabel :=
        if nameLabel != "" && RSplitOnce(nameLabel, '/').Some? then Some(RSplitOnce(nameLabel, '/').value.1) else None;
      Ok(ImageMeta(buildId, nvr, n, v, rel, arch, repo, fromLabel))
  }

  /** A label "namespace/repo" gives the registry url of the whole label and the name "repo". */
  lemma ImageLabelNames(buildId: int, nvr: string, name: string, version: string, release: string, arch: string,
                        namespace: string, repo: string)
    requires Free(repo, '/')
    requires CreateImageComponent(buildId, nvr, name, version, release, arch, namespace + "/" + repo).Ok?
    ensures var m := CreateImageComponent(buildId, nvr, name, version, release, arch, namespace + "/" + repo).value;
      m.nameFromLabel == Some(repo) && m.repositoryUrl == Some(ContainerRepository + "/" + (namespace + "/" + repo))
  {
    RSplitOnceAt(namespace, '/', repo);
  }
}
