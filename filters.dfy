// The API's list filters over a queryset. A queryset is the sequence of its rows; `filter` keeps the rows a
// condition admits and `exclude` drops them, both in order. Row attributes the filters read are parameter
// functions, and the model's field metadata is a parameter function from field name to its kind.

module Filters {
  import opened Wrappers
  import opened Text

  /** `queryset.filter(...)`: the rows a condition admits, in order. */
  function Where<T(!new)>(rows: seq<T>, admits: T -> bool): (r: seq<T>)
    ensures |r| <= |rows|
    ensures forall x :: x in r <==> x in rows && admits(x)
  {
    if rows == [] then []
    else
      var n := |rows| - 1;
      assert rows == rows[..n] + [rows[n]];
      var front := Where(rows[..n], admits);
      if admits(rows[n]) then front + [rows[n]] else front
  }

  // ---------------------------------------------------------------------------------------------
  // TagFilter
  // ---------------------------------------------------------------------------------------------

  /** One comma-separated term of a tag filter: excluded or not, a tag name, and a value when one is given. */
  datatype TagTerm = TagTerm(exclude: bool, name: string, value: Option<string>)

  /** A term: a leading "!" excludes; "name:value" is split at its first ":". */
  function ParseTerm(tag: string): (t: TagTerm)
    ensures t.exclude <==> StartsWith(tag, "!")
    ensures var body := if t.exclude then tag[1..] else tag;
      (t.value.None? ==> t.name == body && !Contains(body, ":")) &&
      (t.value.Some? ==> t.name + ":" + t.value.value == body && !Contains(t.name, ":"))
  {
    var exclude := StartsWith(tag, "!");
    var body := if exclude then tag[1..] else tag;
    var (name, found, value) := Partition(body, ":");
    if found then TagTerm(exclude, name, Some(value)) else TagTerm(exclude, body, None)
  }

  /** The terms of a filter value; none for an empty value. */
  function Terms(value: string): (terms: seq<TagTerm>)
    ensures value == "" ==> terms == []
    ensures value != "" ==> |terms| == |Split(value, ",")|
  {
    if value == "" then [] else seq(|Split(value, ",")|, k requires 0 <= k < |Split(value, ",")| => ParseTerm(Split(value, ",")[k]))
  }

  predicate HasName(tags: set<(string, string)>, name: string)
  {
    exists tag :: tag in tags && tag.0 == name
  }

  predicate HasValue(tags: set<(string, string)>, value: string)
  {
    exists tag :: tag in tags && tag.1 == value
  }

  /**
   * Whether an object with these tags survives a term. `filter(tags__name=n, tags__value=v)` needs one tag
   * with both; `exclude` of the same drops an object that has a tag named n and a tag valued v, not
   * necessarily the same one, as Django's exclusion across a multi-valued relation does.
   */
  predicate Admits(tags: set<(string, string)>, t: TagTerm)
  {
    match t.value
    case None => HasName(tags, t.name) != t.exclude
    case Some(v) =>
      if t.exclude then !(HasName(tags, t.name) && HasValue(tags, v))
      else (t.name, v) in tags
  }

  /** The tags with a name. */
  function Named(tags: set<(string, string)>, name: string): set<(string, string)>
  {
    set tag | tag in tags && tag.0 == name
  }

  lemma NamedCount(tags: set<(string, string)>, name: string)
    ensures |Named(tags, name)| > 0 <==> HasName(tags, name)
  {
    if HasName(tags, name) {
      var tag :| tag in tags && tag.0 == name;
      assert tag in Named(tags, name);
    }
  }

  /**
   * How many tags of an object the join of a plain term matches: every tag with the name, or the one tag with
   * the name and the value (tags are unique per object, name and value).
   */
  function Matches(tags: set<(string, string)>, t: TagTerm): (n: nat)
    ensures !t.exclude ==> (n > 0 <==> Admits(tags, t))
  {
    match t.value
    case None =>
      NamedCount(tags, t.name);
      |Named(tags, t.name)|
    case Some(v) => if (t.name, v) in tags then 1 else 0
  }

  /**
   * `queryset.filter(...)` across a multi-valued relation, without `distinct`: each row once per related row
   * the join matches, the copies of a row side by side.
   */
  function JoinTags<T(!new)>(rows: seq<T>, count: T -> nat): seq<T>
  {
    if rows == [] then []
    else
      var n := |rows| - 1;
      JoinTags(rows[..n], count) + Copies(count(rows[n]), rows[n])
  }

  function Copies<T>(k: nat, y: T): seq<T>
  {
    seq(k, _ => y)
  }

  /** The admission test of one term, row by row. */
  function TermAdmits<T(!new)>(tagsOf: T -> set<(string, string)>, t: TagTerm): T -> bool
  {
    x => Admits(tagsOf(x), t)
  }

  /** The match count of one term, row by row. */
  function TermMatches<T(!new)>(tagsOf: T -> set<(string, string)>, t: TagTerm): T -> nat
  {
    x => Matches(tagsOf(x), t)
  }

  /** One term applied: an excluding term drops rows, a plain term joins the tags. */
  function Step<T(!new)>(rows: seq<T>, tagsOf: T -> set<(string, string)>, t: TagTerm): seq<T>
  {
    if t.exclude then Where(rows, TermAdmits(tagsOf, t)) else JoinTags(rows, TermMatches(tagsOf, t))
  }

  /** The rows left after the terms are applied one after the other. */
  function ApplyTerms<T(!new)>(rows: seq<T>, tagsOf: T -> set<(string, string)>, terms: seq<TagTerm>): seq<T>
  {
    if terms == [] then rows
    else Step(ApplyTerms(rows, tagsOf, terms[..|terms| - 1]), tagsOf, terms[|terms| - 1])
  }

  /** `TagFilter.filter` */
  method TagFilter<T(!new)>(rows: seq<T>, tagsOf: T -> set<(string, string)>, value: string) returns (r: seq<T>)
    ensures r == ApplyTerms(rows, tagsOf, Terms(value))
  {
    if value == "" {
      return rows;
    }
    r := rows;
    var searchTags := Split(value, ",");
    for i := 0 to |searchTags|
      invariant r == ApplyTerms(rows, tagsOf, Terms(value)[..i])
    {
      assert Terms(value)[..i + 1][..i] == Terms(value)[..i];
      var tag := searchTags[i];
      var exclude := false;
      if StartsWith(tag, "!") {
        tag := tag[1..];
        exclude := true;
      }
      var term;
      if Contains(tag, ":") {
        var (tagName, _, tagValue) := Partition(tag, ":");
        term := TagTerm(exclude, tagName, Some(tagValue));
      } else {
        term := TagTerm(exclude, tag, None);
      }
      assert term == Terms(value)[i];
      if exclude {
        r := Where(r, TermAdmits(tagsOf, term));
      } else {
        r := JoinTags(r, TermMatches(tagsOf, term));
      }
    }
    assert Terms(value)[..|searchTags|] == Terms(value);
  }

  /** Every term of `terms` admits the tags. */
  predicate AdmitsAll(tags: set<(string, string)>, terms: seq<TagTerm>)
  {
    forall k :: 0 <= k < |terms| ==> Admits(tags, terms[k])
  }

  lemma AdmitsAllSnoc(tags: set<(string, string)>, terms: seq<TagTerm>)
    requires terms != []
    ensures AdmitsAll(tags, terms) <==> AdmitsAll(tags, terms[..|terms| - 1]) && Admits(tags, terms[|terms| - 1])
  {
    var n := |terms| - 1;
    assert forall k :: 0 <= k < n ==> terms[..n][k] == terms[k];
  }

  /** How often one term passes a row on: once or never for an excluding term, once per match for a plain one. */
  function Weight(tags: set<(string, string)>, t: TagTerm): (w: nat)
    ensures w > 0 <==> Admits(tags, t)
  {
    if t.exclude then (if Admits(tags, t) then 1 else 0) else Matches(tags, t)
  }

  /** How many copies of a row the terms make: the product of their weights. */
  function Multiplicity(tags: set<(string, string)>, terms: seq<TagTerm>): nat
  {
    if terms == [] then 1 else Multiplicity(tags, terms[..|terms| - 1]) * Weight(tags, terms[|terms| - 1])
  }

  /** A row is copied at all exactly when every term admits it. */
  lemma {:induction false} MultiplicityPositive(tags: set<(string, string)>, terms: seq<TagTerm>)
    ensures Multiplicity(tags, terms) > 0 <==> AdmitsAll(tags, terms)
    decreases |terms|
  {
    if terms != [] {
      var n := |terms| - 1;
      MultiplicityPositive(tags, terms[..n]);
      AdmitsAllSnoc(tags, terms);
      ProductPositive(Multiplicity(tags, terms[..n]), Weight(tags, terms[n]));
    }
  }

  lemma ProductPositive(a: nat, b: nat)
    ensures a * b > 0 <==> a > 0 && b > 0
  {
    if a > 0 && b > 0 {
      assert a * b >= b;
    }
  }

  /** `k` copies of `y` hold `x` k times if it is `y`, and never otherwise. */
  lemma {:induction false} CopiesCount<T>(k: nat, y: T, x: T)
    ensures multiset(Copies(k, y))[x] == if x == y then k else 0
  {
    if k > 0 {
      CopiesCount(k - 1, y, x);
      assert Copies(k, y) == Copies(k - 1, y) + [y];
    }
  }

  lemma Distributes(a: nat, b: nat, c: nat)
    ensures (a + b) * c == a * c + b * c
  {
  }

  lemma Associates(a: nat, b: nat, c: nat)
    ensures (a * b) * c == a * (b * c)
  {
  }

  /** The join holds each row as often as the input, times its match count. */
  lemma {:induction false} JoinTagsCount<T(!new)>(rows: seq<T>, count: T -> nat, x: T)
    ensures multiset(JoinTags(rows, count))[x] == multiset(rows)[x] * count(x)
    decreases |rows|
  {
    if rows != [] {
      var n := |rows| - 1;
      assert rows == rows[..n] + [rows[n]];
      JoinTagsCount(rows[..n], count, x);
      CopiesCount(count(rows[n]), rows[n], x);
      var front := JoinTags(rows[..n], count);
      var copies := Copies(count(rows[n]), rows[n]);
      assert multiset(JoinTags(rows, count)) == multiset(front) + multiset(copies);
      var a := multiset(rows[..n])[x];
      var b := if x == rows[n] then 1 else 0;
      assert multiset(rows) == multiset(rows[..n]) + multiset([rows[n]]);
      assert multiset(rows)[x] == a + b;
      Distributes(a, b, count(x));
      assert b * count(x) == multiset(copies)[x];
    }
  }

  /** Filtering keeps each admitted row as often as the input holds it, and no other row. */
  lemma {:induction false} WhereCount<T(!new)>(rows: seq<T>, admits: T -> bool, x: T)
    ensures multiset(Where(rows, admits))[x] == if admits(x) then multiset(rows)[x] else 0
    decreases |rows|
  {
    if rows != [] {
      var n := |rows| - 1;
      assert rows == rows[..n] + [rows[n]];
      WhereCount(rows[..n], admits, x);
    }
  }

  /** One term passes each row on as often as it comes, times the term's weight for it. */
  lemma StepCount<T(!new)>(rows: seq<T>, tagsOf: T -> set<(string, string)>, t: TagTerm, x: T)
    ensures multiset(Step(rows, tagsOf, t))[x] == multiset(rows)[x] * Weight(tagsOf(x), t)
  {
    if t.exclude {
      WhereCount(rows, TermAdmits(tagsOf, t), x);
    } else {
      JoinTagsCount(rows, TermMatches(tagsOf, t), x);
    }
  }

  /**
   * The terms are ANDed, and every plain term multiplies: a row comes out as often as it goes in, times the
   * number of matching tags of each plain term, and not at all when an excluding term drops it.
   */
  lemma {:induction false} ApplyTermsCount<T(!new)>(rows: seq<T>, tagsOf: T -> set<(string, string)>,
                                                    terms: seq<TagTerm>, x: T)
    ensures multiset(ApplyTerms(rows, tagsOf, terms))[x] == multiset(rows)[x] * Multiplicity(tagsOf(x), terms)
    decreases |terms|
  {
    if terms != [] {
      var n := |terms| - 1;
      var t := terms[n];
      var prev := ApplyTerms(rows, tagsOf, terms[..n]);
      ApplyTermsCount(rows, tagsOf, terms[..n], x);
      StepCount(prev, tagsOf, t, x);
      Associates(multiset(rows)[x], Multiplicity(tagsOf(x), terms[..n]), Weight(tagsOf(x), t));
    }
  }

  /** A row remains exactly when it is an input row every term admits. */
  lemma ApplyTermsMembers<T(!new)>(rows: seq<T>, tagsOf: T -> set<(string, string)>, terms: seq<TagTerm>, x: T)
    ensures x in ApplyTerms(rows, tagsOf, terms) <==> x in rows && AdmitsAll(tagsOf(x), terms)
  {
    ApplyTermsCount(rows, tagsOf, terms, x);
    MultiplicityPositive(tagsOf(x), terms);
    ProductPositive(multiset(rows)[x], Multiplicity(tagsOf(x), terms));
  }

  /** An object tagged "n:a" and "n:b" comes out twice for the term "n". */
  lemma TagDuplicatesExample<T(!new)>(x: T, tagsOf: T -> set<(string, string)>, n: string, a: string, b: string)
    requires tagsOf(x) == {(n, a), (n, b)} && a != b
    ensures ApplyTerms([x], tagsOf, [TagTerm(false, n, None)]) == [x, x]
  {
    var t := TagTerm(false, n, None);
    assert Named(tagsOf(x), n) == {(n, a), (n, b)};
    assert Matches(tagsOf(x), t) == 2;
    assert [t][..0] == [];
    assert ApplyTerms([x], tagsOf, [t]) == JoinTags([x], TermMatches(tagsOf, t));
    assert [x][..0] == [];
    assert Copies(2, x) == [x, x];
  }

  /** The evidently intended filter, with `distinct()`: each input row once when every term admits it. */
  function DistinctTagFilter<T(!new)>(rows: seq<T>, tagsOf: T -> set<(string, string)>, terms: seq<TagTerm>): seq<T>
  {
    Where(rows, x => AdmitsAll(tagsOf(x), terms))
  }

  /**
   * The distinct filter keeps the rows the as-written filter keeps, each as often as the input holds it, so a
   * queryset without repeats gives a result without repeats.
   */
  lemma DistinctTagFilterOnce<T(!new)>(rows: seq<T>, tagsOf: T -> set<(string, string)>, terms: seq<TagTerm>, x: T)
    ensures multiset(DistinctTagFilter(rows, tagsOf, terms))[x] ==
            if AdmitsAll(tagsOf(x), terms) then multiset(rows)[x] else 0
    ensures x in DistinctTagFilter(rows, tagsOf, terms) <==> x in ApplyTerms(rows, tagsOf, terms)
  {
    WhereCount(rows, y => AdmitsAll(tagsOf(y), terms), x);
    ApplyTermsMembers(rows, tagsOf, terms, x);
  }

  /**
   * A plain term keeps the objects with a tag of that name, "!name" the objects without one, and "name:value"
   * the objects with that exact tag.
   */
  lemma TermMeaning(tags: set<(string, string)>, name: string, value: string)
    requires !Contains(name, ":") && name != "" && name[0] != '!'
    ensures Admits(tags, ParseTerm(name)) <==> exists tag :: tag in tags && tag.0 == name
    ensures Admits(tags, ParseTerm("!" + name)) <==> !exists tag :: tag in tags && tag.0 == name
    ensures Admits(tags, ParseTerm(name + ":" + value)) <==> (name, value) in tags
  {
    var plain := name;
    assert !StartsWith(plain, "!");
    NoPartition(name);
    var negated := "!" + name;
    assert StartsWith(negated, "!") && negated[1..] == name;
    var pair := name + ":" + value;
    assert pair[0] == name[0];
    assert !StartsWith(pair, "!");
    FirstColon(name, value);
  }

  lemma NoPartition(s: string)
    requires !Contains(s, ":")
    ensures Partition(s, ":") == (s, false, "")
  {
  }

  lemma FirstColon(a: string, r: string)
    requires !Contains(a, ":")
    ensures Partition(a + ":" + r, ":") == (a, true, r)
  {
    var s := a + ":" + r;
    FreeNotContains(a, ':');
    assert s[..|a|] == a;
    assert OccursAt(s, ":", |a|) by { assert s[|a|..|a| + 1] == ":"; }
    IndexOfAt(s, ":", |a|);
    assert s[|a| + 1..] == r;
  }

  // ---------------------------------------------------------------------------------------------
  // IncludeFieldsFilterSet
  // ---------------------------------------------------------------------------------------------

  /** `_preprocess_fields`: dots become "__", then the value is split at commas. */
  function PreprocessFields(value: string): (fields: seq<string>)
    ensures |fields| >= 1 && Join(fields, ",") == ReplaceAll(value, ".", "__")
    ensures forall k :: 0 <= k < |fields| ==> Free(fields[k], '.') && !Contains(fields[k], ",")
  {
    var replaced := ReplaceAll(value, ".", "__");
    JoinSplit(replaced, ",");
    SplitPartsFree(replaced, ",");
    DotsReplaced(value);
    SplitFree(replaced, ",", '.');
    Split(replaced, ",")
  }

  /** No dot is left once every dot is replaced. */
  lemma DotsReplaced(value: string)
    ensures Free(ReplaceAll(value, ".", "__"), '.')
  {
    SplitPartsFree(value, ".");
    forall k | 0 <= k < |Split(value, ".")|
      ensures Free(Split(value, ".")[k], '.')
    {
      FreeNotContains(Split(value, ".")[k], '.');
    }
    JoinFree(Split(value, "."), "__", '.');
  }

  /** What the model's metadata says of a field name. */
  datatype FieldKind = Missing | Concrete | Relation | Virtual

  /** The relations a field list prefetches: each traversal's path up to its last hop. */
  function Traversed(fields: seq<string>): set<string>
  {
    set f | f in fields && Contains(f, "__") :: BeforeLast(f, "__")
  }

  /** The plain fields of a field list, with a Component's build always added. */
  function Plain(fields: seq<string>, isComponent: bool): set<string>
  {
    (set f | f in fields && !Contains(f, "__")) + (if isComponent then {"software_build"} else {})
  }

  /** `_filter_fields`: relations can only be prefetched, concrete fields can be loaded, the rest is dropped. */
  method FilterFields(fields: set<string>, kindOf: string -> FieldKind) returns (prefetch: set<string>, valid: set<string>)
    ensures prefetch == set f | f in fields && kindOf(f) == Relation
    ensures valid == set f | f in fields && kindOf(f) == Concrete
  {
    prefetch := {};
    valid := {};
    var left := fields;
    while left != {}
      invariant left <= fields
      invariant prefetch == set f | f in fields - left && kindOf(f) == Relation
      invariant valid == set f | f in fields - left && kindOf(f) == Concrete
      decreases left
    {
      var fname :| fname in left;
      left := left - {fname};
      match kindOf(fname)
      case Missing =>
      case Relation => prefetch := prefetch + {fname};
      case Virtual =>
      case Concrete => valid := valid + {fname};
    }
  }

  /** The loop of `include_fields_filter`: traversals give their relation, the other fields are kept. */
  method SortFields(fields: seq<string>) returns (traversed: set<string>, plain: set<string>)
    ensures traversed == Traversed(fields) && plain == Plain(fields, false)
  {
    traversed := {};
    plain := {};
    for i := 0 to |fields|
      invariant traversed == Traversed(fields[..i])
      invariant plain == Plain(fields[..i], false)
    {
      SortFieldsStep(fields, i);
      var field := fields[i];
      if Contains(field, "__") {
        var rel := BeforeLast(field, "__");
        traversed := traversed + {rel};
        continue;
      }
      plain := plain + {field};
    }
    assert fields[..|fields|] == fields;
  }

  /** One more field adds its relation to the traversals, or itself to the plain fields. */
  lemma SortFieldsStep(fields: seq<string>, i: nat)
    requires i < |fields|
    ensures Contains(fields[i], "__") ==>
              Traversed(fields[..i + 1]) == Traversed(fields[..i]) + {BeforeLast(fields[i], "__")} &&
              Plain(fields[..i + 1], false) == Plain(fields[..i], false)
    ensures !Contains(fields[i], "__") ==>
              Traversed(fields[..i + 1]) == Traversed(fields[..i]) &&
              Plain(fields[..i + 1], false) == Plain(fields[..i], false) + {fields[i]}
  {
    assert fields[..i + 1] == fields[..i] + [fields[i]];
  }

  /**
   * `include_fields_filter`: the relations to prefetch and the fields to load with `only()` for a list of
   * requested fields.
   */
  method IncludeFieldsFilter(value: string, isComponent: bool, kindOf: string -> FieldKind)
    returns (toPrefetch: set<string>, only: set<string>)
    ensures var fields := PreprocessFields(value);
      toPrefetch == Traversed(fields) + (set f | f in Plain(fields, isComponent) && kindOf(f) == Relation) &&
      only == set f | f in Plain(fields, isComponent) && kindOf(f) == Concrete
  {
    var fields := PreprocessFields(value);
    var allFields;
    toPrefetch, allFields := SortFields(fields);
    if isComponent {
      allFields := allFields + {"software_build"};
    }
    var prefetch, validFields := FilterFields(allFields, kindOf);
    toPrefetch := toPrefetch + prefetch;
    only := validFields;
  }

  /**
   * A traversed field is never loaded with `only()`, only its relation is prefetched: `a.b.c` prefetches
   * `a__b`.
   */
  lemma TraversalPrefetched(a: string, b: string, c: string)
    requires Free(a, '_') && Free(b, '_') && Free(c, '_')
    ensures BeforeLast(a + "__" + b + "__" + c, "__") == a + "__" + b
  {
    var sep := "__";
    var front := a + sep + b;
    var s := front + sep + c;
    var j := |front|;
    assert s[j..j + 2] == sep;
    forall k | j < k
      ensures !OccursAt(s, sep, k)
    {
      if k + 2 <= |s| {
        assert s[k + 1] == c[k + 1 - j - 2];
      }
    }
    BeforeLastAt(s, sep, j);
    assert s[..j] == front;
  }

  // ---------------------------------------------------------------------------------------------
  // Boolean filters
  // ---------------------------------------------------------------------------------------------

  /**
   * `EmptyStringFilter.filter`: no value leaves the rows as they are; otherwise the rows whose field is empty
   * are kept exactly when the filter's exclude flag differs from the value, and the others when it does not.
   */
  function EmptyStringFilter<T(!new)>(rows: seq<T>, value: Option<bool>, exclude: bool, field: T -> string): (r: seq<T>)
    ensures value.None? ==> r == rows
    ensures value.Some? ==> forall x :: x in r <==> x in rows && (field(x) == "" <==> exclude != value.value)
  {
    if value.None? then rows
    else
      var excluding := exclude != (value.value == false);
      if excluding then Where(rows, x => field(x) != "") else Where(rows, x => field(x) == "")
  }

  /**
   * `filter_gomod_components`: no value leaves the rows as they are; otherwise only GOLANG rows remain, the Go
   * modules for true and the Go packages for false. `goType` is the row's recorded go_component_type, ""
   * when it has none.
   */
  function GomodComponents<T(!new)>(rows: seq<T>, value: Option<bool>, ctype: T -> string, goType: T -> string): (r: seq<T>)
    ensures value.None? ==> r == rows
    ensures value.Some? ==> forall x :: x in r <==> x in rows && ctype(x) == "GOLANG" && (goType(x) == "gomod" <==> value.value)
  {
    if value.None? then rows
    else
      var golang := Where(rows, x => ctype(x) == "GOLANG");
      if value.value == false then Where(golang, x => goType(x) != "gomod") else Where(golang, x => goType(x) == "gomod")
  }

  /** The related products an `o:redhat:` value is matched against by ofuri, any other value by name. */
  datatype Related = Related(ofuri: string, name: string)

  /** `filter_ofuri_or_name`: the rows with a related product whose ofuri, or else name, is the value. */
  function OfuriOrName<T(!new)>(rows: seq<T>, related: T -> set<Related>, value: string): (r: seq<T>)
    ensures forall x :: x in r <==> (x in rows &&
      exists p :: p in related(x) && (if StartsWith(value, "o:redhat:") then p.ofuri == value else p.name == value))
  {
    var byOfuri := StartsWith(value, "o:redhat:");
    Where(rows, x => exists p :: p in related(x) && (if byOfuri then p.ofuri == value else p.name == value))
  }
}
