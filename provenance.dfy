/**
 * The component-node forest behind `Component.get_provides_nodes` and `Component.get_sources_nodes`
 * (`corgi/core/models.py`). The MPTT tree table is a sequence of nodes addressed by position; each node names
 * its parent's position and keeps the tree level, which is one more than its parent's.
 */
module Provenance {
  import opened Wrappers

  /** `ComponentNode.ComponentNodeType` */
  datatype NodeType = Source | Requires | Provides | ProvidesDev

  /** A `ComponentNode`: its parent, its MPTT level, its type and the uuid of the component it stands for. */
  datatype Node = Node(parent: Option<nat>, level: nat, ntype: NodeType, obj: string)

  type Forest = seq<Node>

  /** Every parent exists and sits one level higher. */
  predicate WellFormed(f: Forest)
  {
    forall n :: 0 <= n < |f| ==> f[n].parent.Some? ==> f[n].parent.value < |f| && f[f[n].parent.value].level + 1 == f[n].level
  }

  /** `PROVIDES_NODE_TYPES` when dev dependencies are included, else just PROVIDES. */
  function ProvidesTypes(includeDev: bool): set<NodeType>
  {
    if includeDev then {Provides, ProvidesDev} else {Provides}
  }

  /** `get_ancestors(include_self=False)`: the proper ancestors of node `m`. */
  function Ancestors(f: Forest, m: nat): (r: set<nat>)
    requires WellFormed(f) && m < |f|
    ensures forall a :: a in r ==> a < |f|
    ensures f[m].parent.Some? ==> f[m].parent.value in r
    decreases f[m].level
  {
    match f[m].parent
    case None => {}
    case Some(p) => {p} + Ancestors(f, p)
  }

  /** `get_descendants()`: the nodes of which `n` is a proper ancestor. */
  function Descendants(f: Forest, n: nat): set<nat>
    requires WellFormed(f) && n < |f|
  {
    set m | 0 <= m < |f| && n in Ancestors(f, m)
  }

  /** Proper ancestry is irreflexive: an ancestor sits at a strictly smaller level. */
  lemma {:induction false} AncestorsAbove(f: Forest, m: nat)
    requires WellFormed(f) && m < |f|
    ensures forall a :: a in Ancestors(f, m) ==> f[a].level < f[m].level
    ensures m !in Ancestors(f, m) && m !in Descendants(f, m)
    decreases f[m].level
  {
    match f[m].parent
    case None =>
    case Some(p) => AncestorsAbove(f, p);
  }

  /** The objects of the provides-typed proper descendants of any node of component `x`. */
  ghost function ProvidesOf(f: Forest, x: string, types: set<NodeType>): set<string>
    requires WellFormed(f)
  {
    set n, m | 0 <= n < |f| && 0 <= m < |f| && f[n].obj == x && n in Ancestors(f, m) && f[m].ntype in types :: f[m].obj
  }

  /** The objects of the proper ancestors of any provides-typed node of component `y`. */
  ghost function SourcesOf(f: Forest, y: string, types: set<NodeType>): set<string>
    requires WellFormed(f)
  {
    set n, m | 0 <= n < |f| && 0 <= m < |f| && f[m].obj == y && f[m].ntype in types && n in Ancestors(f, m) :: f[n].obj
  }

  /** The objects of the provides-typed proper descendants of node `n`. */
  function ProvidedBy(f: Forest, n: nat, types: set<NodeType>): set<string>
    requires WellFormed(f) && n < |f|
  {
    set m | m in Descendants(f, n) && f[m].ntype in types :: f[m].obj
  }

  /** The objects of the proper ancestors of node `m`. */
  function AncestorObjects(f: Forest, m: nat): set<string>
    requires WellFormed(f) && m < |f|
  {
    set n | n in Ancestors(f, m) :: f[n].obj
  }

  /** `ProvidesOf` restricted to the component's nodes among the first `i`. */
  ghost function ProvidesBelow(f: Forest, x: string, types: set<NodeType>, i: nat): set<string>
    requires WellFormed(f)
  {
    set n, m | 0 <= n < i && n < |f| && 0 <= m < |f| && f[n].obj == x && n in Ancestors(f, m) && f[m].ntype in types :: f[m].obj
  }

  /** `SourcesOf` restricted to the provides-typed nodes among the first `i`. */
  ghost function SourcesBelow(f: Forest, y: string, types: set<NodeType>, i: nat): set<string>
    requires WellFormed(f)
  {
    set n, m | 0 <= n < |f| && 0 <= m < i && m < |f| && f[m].obj == y && f[m].ntype in types && n in Ancestors(f, m) :: f[n].obj
  }

  /** One more node adds its provides descendants' objects when it is a node of the component. */
  lemma ProvidesBelowStep(f: Forest, x: string, types: set<NodeType>, i: nat)
    requires WellFormed(f) && i < |f|
    ensures ProvidesBelow(f, x, types, i + 1) ==
            ProvidesBelow(f, x, types, i) + (if f[i].obj == x then ProvidedBy(f, i, types) else {})
  {
    ProvidesBelowCovered(f, x, types, i);
    ProvidesBelowGrows(f, x, types, i);
  }

  lemma ProvidesBelowCovered(f: Forest, x: string, types: set<NodeType>, i: nat)
    requires WellFormed(f) && i < |f|
    ensures forall y :: y in ProvidesBelow(f, x, types, i + 1) ==>
              y in ProvidesBelow(f, x, types, i) || (f[i].obj == x && y in ProvidedBy(f, i, types))
  {
    forall y | y in ProvidesBelow(f, x, types, i + 1)
      ensures y in ProvidesBelow(f, x, types, i) || (f[i].obj == x && y in ProvidedBy(f, i, types))
    {
      var n, m :| 0 <= n < i + 1 && n < |f| && 0 <= m < |f| && f[n].obj == x && n in Ancestors(f, m) &&
                  f[m].ntype in types && f[m].obj == y;
      if n == i {
        assert m in Descendants(f, i);
      } else {
        assert 0 <= n < i;
      }
    }
  }

  lemma ProvidesBelowGrows(f: Forest, x: string, types: set<NodeType>, i: nat)
    requires WellFormed(f) && i < |f|
    ensures ProvidesBelow(f, x, types, i) <= ProvidesBelow(f, x, types, i + 1)
    ensures f[i].obj == x ==> ProvidedBy(f, i, types) <= ProvidesBelow(f, x, types, i + 1)
  {
    if f[i].obj == x {
      forall y | y in ProvidedBy(f, i, types)
        ensures y in ProvidesBelow(f, x, types, i + 1)
      {
        var m :| m in Descendants(f, i) && f[m].ntype in types && f[m].obj == y;
        assert 0 <= m < |f| && i in Ancestors(f, m);
      }
    }
  }

  /** One more node adds its ancestors' objects when it is a provides-typed node of the component. */
  lemma SourcesBelowStep(f: Forest, y: string, types: set<NodeType>, i: nat)
    requires WellFormed(f) && i < |f|
    ensures SourcesBelow(f, y, types, i + 1) ==
            SourcesBelow(f, y, types, i) + (if f[i].obj == y && f[i].ntype in types then AncestorObjects(f, i) else {})
  {
    var after, before := SourcesBelow(f, y, types, i + 1), SourcesBelow(f, y, types, i);
    var added := if f[i].obj == y && f[i].ntype in types then AncestorObjects(f, i) else {};
    forall z | z in after
      ensures z in before + added
    {
      var n, m :| 0 <= n < |f| && 0 <= m < i + 1 && m < |f| && f[m].obj == y && f[m].ntype in types &&
                  n in Ancestors(f, m) && f[n].obj == z;
      if m == i {
        assert z in AncestorObjects(f, i);
      }
    }
    forall z | z in added
      ensures z in after
    {
      var n :| n in Ancestors(f, i) && f[n].obj == z;
    }
  }

  /** `get_provides_nodes`: for each node of the component, add the objects of its provides descendants. */
  method GetProvidesNodes(f: Forest, x: string, includeDev: bool) returns (provided: set<string>)
    requires WellFormed(f)
    ensures provided == ProvidesOf(f, x, ProvidesTypes(includeDev))
  {
    var types := ProvidesTypes(includeDev);
    provided := {};
    var i := 0;
    while i < |f|
      invariant 0 <= i <= |f|
      invariant provided == ProvidesBelow(f, x, types, i)
    {
      ProvidesBelowStep(f, x, types, i);
      if f[i].obj == x {
        provided := provided + ProvidedBy(f, i, types);
      }
      i := i + 1;
    }
    assert ProvidesBelow(f, x, types, |f|) == ProvidesOf(f, x, types);
  }

  /** `get_sources_nodes`: for each provides-typed node of the component, add the objects of its ancestors. */
  method GetSourcesNodes(f: Forest, y: string, includeDev: bool) returns (sources: set<string>)
    requires WellFormed(f)
    ensures sources == SourcesOf(f, y, ProvidesTypes(includeDev))
  {
    var types := ProvidesTypes(includeDev);
    sources := {};
    var i := 0;
    while i < |f|
      invariant 0 <= i <= |f|
      invariant sources == SourcesBelow(f, y, types, i)
    {
      SourcesBelowStep(f, y, types, i);
      if f[i].obj == y && f[i].ntype in types {
        sources := sources + AncestorObjects(f, i);
      }
      i := i + 1;
    }
    assert SourcesBelow(f, y, types, |f|) == SourcesOf(f, y, types);
  }

  /** Sources are the inverse of provides: `y` is provided by `x` exactly when `x` is a source of `y`. */
  lemma ProvidesSourcesInverse(f: Forest, x: string, y: string, includeDev: bool)
    requires WellFormed(f)
    ensures y in ProvidesOf(f, x, ProvidesTypes(includeDev)) <==> x in SourcesOf(f, y, ProvidesTypes(includeDev))
  {
    var types := ProvidesTypes(includeDev);
    if y in ProvidesOf(f, x, types) {
      var n, m :| 0 <= n < |f| && 0 <= m < |f| && f[n].obj == x && n in Ancestors(f, m) && f[m].ntype in types && f[m].obj == y;
      assert f[n].obj in SourcesOf(f, y, types);
    }
    if x in SourcesOf(f, y, types) {
      var n, m :| 0 <= n < |f| && 0 <= m < |f| && f[m].obj == y && f[m].ntype in types && n in Ancestors(f, m) && f[n].obj == x;
      assert f[m].obj in ProvidesOf(f, x, types);
    }
  }

  /** Leaving out dev dependencies only shrinks the result. */
  lemma DevWidens(f: Forest, x: string)
    requires WellFormed(f)
    ensures ProvidesOf(f, x, ProvidesTypes(false)) <= ProvidesOf(f, x, ProvidesTypes(true))
  {
  }
}
