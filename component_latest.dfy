/**
 * The Python counterpart of the stored function: `ComponentQuerySet.filter_latest_nevra_by_distinct_component`
 * and `ComponentQuerySet.latest_components` (`corgi/core/models.py`). The queryset is a sequence of rows in
 * query order; `rpm.labelCompare` is stood in for by the corrected segment comparator on each of epoch,
 * version and release.
 */
module LatestNevra {
  import opened Wrappers
  import opened RpmVersion
  import opened RpmVersionOrder
  import opened ComponentModel

  /** The columns the two queryset methods read. */
  datatype NevraRow = NevraRow(
    nevra: string, namespace: string, name: string, arch: string,
    epoch: EpochAttr, version: string, release: string)

  /** The (epoch, version, release) strings `_compare_packages` hands to the comparator. */
  type Label = (string, string, string)

  function LabelOf(r: NevraRow): Label
  {
    (EnsureEpoch(r.epoch), r.version, r.release)
  }

  /** `labelCompare`: epoch, then version, then release. */
  function LabelCompare(x: Label, y: Label): (r: int)
    ensures -1 <= r <= 1
  {
    var e := RpmVerCmpFixed(Some(x.0), Some(y.0));
    if e != 0 then e
    else
      var v := RpmVerCmpFixed(Some(x.1), Some(y.1));
      if v != 0 then v else RpmVerCmpFixed(Some(x.2), Some(y.2))
  }

  lemma LabelReflexive(x: Label)
    ensures LabelCompare(x, x) == 0
  {
  }

  lemma LabelAntisymmetric(x: Label, y: Label)
    ensures LabelCompare(x, y) == -LabelCompare(y, x)
  {
    FixedAntisymmetric(x.0, y.0);
    FixedAntisymmetric(x.1, y.1);
    FixedAntisymmetric(x.2, y.2);
  }

  /** Componentwise: -1 when `Fixed(a, b) <= 0` is strict, and the equal case when it is not. */
  lemma FixedLeSplit(a: string, b: string, c: string)
    requires RpmVerCmpFixed(Some(a), Some(b)) <= 0 && RpmVerCmpFixed(Some(b), Some(c)) <= 0
    ensures RpmVerCmpFixed(Some(a), Some(c)) <= 0
    ensures RpmVerCmpFixed(Some(a), Some(b)) == 0 && RpmVerCmpFixed(Some(b), Some(c)) == 0 ==>
      RpmVerCmpFixed(Some(a), Some(c)) == 0
    ensures RpmVerCmpFixed(Some(a), Some(b)) < 0 || RpmVerCmpFixed(Some(b), Some(c)) < 0 ==>
      RpmVerCmpFixed(Some(a), Some(c)) < 0
  {
    FixedTransitive(a, b, c);
    if RpmVerCmpFixed(Some(a), Some(b)) == 0 && RpmVerCmpFixed(Some(b), Some(c)) == 0 {
      FixedAntisymmetric(a, b);
      FixedAntisymmetric(b, c);
      FixedTransitive(c, b, a);
      FixedAntisymmetric(a, c);
    }
  }

  lemma LabelTransitive(x: Label, y: Label, z: Label)
    requires LabelCompare(x, y) <= 0 && LabelCompare(y, z) <= 0
    ensures LabelCompare(x, z) <= 0
  {
    LabelAntisymmetric(x, y);
    LabelAntisymmetric(y, z);
    var e1, e2 := RpmVerCmpFixed(Some(x.0), Some(y.0)), RpmVerCmpFixed(Some(y.0), Some(z.0));
    assert e1 <= 0 && e2 <= 0;
    FixedLeSplit(x.0, y.0, z.0);
    if e1 == 0 && e2 == 0 {
      var v1, v2 := RpmVerCmpFixed(Some(x.1), Some(y.1)), RpmVerCmpFixed(Some(y.1), Some(z.1));
      assert v1 <= 0 && v2 <= 0;
      FixedLeSplit(x.1, y.1, z.1);
      if v1 == 0 && v2 == 0 {
        FixedLeSplit(x.2, y.2, z.2);
      }
    }
  }

  // ---------------------------------------------------------------------------------------------
  // filter_latest_nevra_by_distinct_component
  // ---------------------------------------------------------------------------------------------

  predicate Matches(r: NevraRow, namespace: string, name: string, arch: string)
  {
    r.namespace == namespace && r.name == name && r.arch == arch
  }

  /**
   * The row `sorted(..., key=cmp_to_key(_compare_packages))[-1]` picks among the matching rows of `rows`:
   * a stable sort ends with the last of the greatest rows, which is what this left fold keeps.
   */
  function LatestMatch(rows: seq<NevraRow>, namespace: string, name: string, arch: string): (r: Option<nat>)
    ensures r.Some? ==> r.value < |rows| && Matches(rows[r.value], namespace, name, arch)
  {
    if rows == [] then None
    else
      var before := LatestMatch(rows[..|rows| - 1], namespace, name, arch);
      var last := rows[|rows| - 1];
      if !Matches(last, namespace, name, arch) then before
      else if before.None? || LabelCompare(LabelOf(last), LabelOf(rows[before.value])) >= 0 then Some(|rows| - 1)
      else before
  }

  /** The NEVRA the method returns: the chosen row's, or "" when no row matches. */
  function LatestNevraOf(rows: seq<NevraRow>, namespace: string, name: string, arch: string): string
  {
    match LatestMatch(rows, namespace, name, arch)
    case None => ""
    case Some(i) => rows[i].nevra
  }

  /** `cmp` orders labels as a total preorder. */
  ghost predicate Preorder(cmp: (Label, Label) -> int)
  {
    (forall x :: cmp(x, x) == 0)
    && (forall x, y :: cmp(x, y) == -cmp(y, x))
    && (forall x, y, z :: cmp(x, y) <= 0 && cmp(y, z) <= 0 ==> cmp(x, z) <= 0)
  }

  lemma LabelPreorder()
    ensures Preorder(LabelCompare)
  {
    forall x | true ensures LabelCompare(x, x) == 0 { LabelReflexive(x); }
    forall x, y | true ensures LabelCompare(x, y) == -LabelCompare(y, x) { LabelAntisymmetric(x, y); }
    forall x, y, z | LabelCompare(x, y) <= 0 && LabelCompare(y, z) <= 0 ensures LabelCompare(x, z) <= 0 {
      LabelTransitive(x, y, z);
    }
  }

  /** `i` holds a greatest matching row under `cmp`, and every later matching row is strictly smaller. */
  ghost predicate LastGreatest(rows: seq<NevraRow>, namespace: string, name: string, arch: string, i: nat,
                         cmp: (Label, Label) -> int)
    requires i < |rows|
  {
    Matches(rows[i], namespace, name, arch)
    && (forall j :: 0 <= j < |rows| && Matches(rows[j], namespace, name, arch) ==>
          cmp(LabelOf(rows[j]), LabelOf(rows[i])) <= 0)
    && (forall j :: i < j < |rows| && Matches(rows[j], namespace, name, arch) ==>
          cmp(LabelOf(rows[j]), LabelOf(rows[i])) < 0)
  }

  /** A row that does not match leaves the choice as it was. */
  lemma StepSkip(rows: seq<NevraRow>, namespace: string, name: string, arch: string, b: nat,
                 cmp: (Label, Label) -> int)
    requires |rows| > 0 && b < |rows| - 1 && !Matches(rows[|rows| - 1], namespace, name, arch)
    requires LastGreatest(rows[..|rows| - 1], namespace, name, arch, b, cmp)
    ensures LastGreatest(rows, namespace, name, arch, b, cmp)
  {
    var prefix := rows[..|rows| - 1];
    assert forall j :: 0 <= j < |prefix| ==> prefix[j] == rows[j];
  }

  /** A matching row smaller than the current choice leaves it, and is one of the later, smaller rows. */
  lemma StepKeep(rows: seq<NevraRow>, namespace: string, name: string, arch: string, b: nat,
                 cmp: (Label, Label) -> int)
    requires |rows| > 0 && b < |rows| - 1 && Matches(rows[|rows| - 1], namespace, name, arch)
    requires cmp(LabelOf(rows[|rows| - 1]), LabelOf(rows[b])) < 0
    requires LastGreatest(rows[..|rows| - 1], namespace, name, arch, b, cmp)
    ensures LastGreatest(rows, namespace, name, arch, b, cmp)
  {
    var prefix := rows[..|rows| - 1];
    assert forall j :: 0 <= j < |prefix| ==> prefix[j] == rows[j];
  }

  /** A matching row at least as great as the current choice becomes the choice. */
  lemma StepReplace(rows: seq<NevraRow>, namespace: string, name: string, arch: string, b: nat,
                    cmp: (Label, Label) -> int)
    requires Preorder(cmp)
    requires |rows| > 0 && b < |rows| - 1 && Matches(rows[|rows| - 1], namespace, name, arch)
    requires cmp(LabelOf(rows[|rows| - 1]), LabelOf(rows[b])) >= 0
    requires LastGreatest(rows[..|rows| - 1], namespace, name, arch, b, cmp)
    ensures LastGreatest(rows, namespace, name, arch, |rows| - 1, cmp)
  {
    var prefix := rows[..|rows| - 1];
    var n := |rows| - 1;
    var last := LabelOf(rows[n]);
    assert prefix[b] == rows[b];
    forall j | 0 <= j < |rows| && Matches(rows[j], namespace, name, arch)
      ensures cmp(LabelOf(rows[j]), last) <= 0
    {
      if j < n {
        assert prefix[j] == rows[j];
        assert cmp(LabelOf(rows[j]), LabelOf(rows[b])) <= 0;
        assert cmp(LabelOf(rows[b]), last) <= 0;
      }
    }
  }

  /** The first matching row becomes the choice. */
  lemma StepFirst(rows: seq<NevraRow>, namespace: string, name: string, arch: string, cmp: (Label, Label) -> int)
    requires Preorder(cmp)
    requires |rows| > 0 && Matches(rows[|rows| - 1], namespace, name, arch)
    requires forall j :: 0 <= j < |rows| - 1 ==> !Matches(rows[j], namespace, name, arch)
    ensures LastGreatest(rows, namespace, name, arch, |rows| - 1, cmp)
  {
    assert cmp(LabelOf(rows[|rows| - 1]), LabelOf(rows[|rows| - 1])) == 0;
  }

  /** There is a chosen row exactly when some row matches. */
  lemma {:induction false} LatestMatchNone(rows: seq<NevraRow>, namespace: string, name: string, arch: string)
    ensures LatestMatch(rows, namespace, name, arch).None? <==> forall j :: 0 <= j < |rows| ==> !Matches(rows[j], namespace, name, arch)
    decreases |rows|
  {
    if rows != [] {
      var prefix := rows[..|rows| - 1];
      assert forall j :: 0 <= j < |prefix| ==> prefix[j] == rows[j];
      LatestMatchNone(prefix, namespace, name, arch);
    }
  }

  /**
   * The chosen row is the last of the greatest matching rows under the comparator, and there is one exactly
   * when some row matches.
   */
  lemma {:induction false} LatestMatchIsLastGreatest(rows: seq<NevraRow>, namespace: string, name: string, arch: string)
    ensures LatestMatch(rows, namespace, name, arch).None? <==> forall j :: 0 <= j < |rows| ==> !Matches(rows[j], namespace, name, arch)
    ensures var r := LatestMatch(rows, namespace, name, arch);
      r.Some? ==> LastGreatest(rows, namespace, name, arch, r.value, LabelCompare)
    decreases |rows|
  {
    LatestMatchNone(rows, namespace, name, arch);
    if rows != [] {
      var prefix := rows[..|rows| - 1];
      var n := |rows| - 1;
      LatestMatchIsLastGreatest(prefix, namespace, name, arch);
      LabelPreorder();
      var b := LatestMatch(prefix, namespace, name, arch);
      if !Matches(rows[n], namespace, name, arch) {
        if b.Some? {
          StepSkip(rows, namespace, name, arch, b.value, LabelCompare);
        }
      } else if b.None? {
        assert forall j :: 0 <= j < |prefix| ==> prefix[j] == rows[j];
        StepFirst(rows, namespace, name, arch, LabelCompare);
      } else if LabelCompare(LabelOf(rows[n]), LabelOf(rows[b.value])) >= 0 {
        StepReplace(rows, namespace, name, arch, b.value, LabelCompare);
      } else {
        StepKeep(rows, namespace, name, arch, b.value, LabelCompare);
      }
    }
  }

  /** `filter_latest_nevra_by_distinct_component`: filter, then keep a running latest over the matches. */
  method FilterLatestNevra(rows: seq<NevraRow>, namespace: string, name: string, arch: string) returns (nevra: string)
    ensures nevra == LatestNevraOf(rows, namespace, name, arch)
  {
    var best: Option<nat> := None;
    var i := 0;
    while i < |rows|
      invariant 0 <= i <= |rows|
      invariant best == LatestMatch(rows[..i], namespace, name, arch)
    {
      assert rows[..i + 1][..i] == rows[..i];
      var r := rows[i];
      if Matches(r, namespace, name, arch) {
        if best.None? || LabelCompare(LabelOf(r), LabelOf(rows[best.value])) >= 0 {
          best := Some(i);
        }
      }
      i := i + 1;
    }
    assert rows[..|rows|] == rows;
    nevra := if best.None? then "" else rows[best.value].nevra;
  }

  /**
   * The returned NEVRA is "" when no row matches; otherwise it belongs to a matching row that no matching row
   * exceeds, with a falsy epoch compared as "0".
   */
  lemma FilterLatestNevraChoice(rows: seq<NevraRow>, namespace: string, name: string, arch: string)
    ensures (forall j :: 0 <= j < |rows| ==> !Matches(rows[j], namespace, name, arch)) ==>
      LatestNevraOf(rows, namespace, name, arch) == ""
    ensures (exists j :: 0 <= j < |rows| && Matches(rows[j], namespace, name, arch)) ==>
      exists i :: 0 <= i < |rows| && LatestNevraOf(rows, namespace, name, arch) == rows[i].nevra
        && Matches(rows[i], namespace, name, arch)
        && forall j :: 0 <= j < |rows| && Matches(rows[j], namespace, name, arch) ==>
             LabelCompare(LabelOf(rows[j]), LabelOf(rows[i])) <= 0
  {
    LatestMatchIsLastGreatest(rows, namespace, name, arch);
    var r := LatestMatch(rows, namespace, name, arch);
    if r.Some? {
      var i := r.value;
      assert LatestNevraOf(rows, namespace, name, arch) == rows[i].nevra;
      assert LastGreatest(rows, namespace, name, arch, i, LabelCompare);
    }
  }

  // ---------------------------------------------------------------------------------------------
  // latest_components
  // ---------------------------------------------------------------------------------------------

  /** The non-empty latest NEVRAs over the distinct (namespace, name, arch) triples of the first `n` rows. */
  function LatestSet(rows: seq<NevraRow>, n: nat): set<string>
    requires n <= |rows|
  {
    set j | 0 <= j < n && LatestNevraOf(rows, rows[j].namespace, rows[j].name, rows[j].arch) != ""
      :: LatestNevraOf(rows, rows[j].namespace, rows[j].name, rows[j].arch)
  }

  function KeepIf(rows: seq<NevraRow>, keep: set<string>, inside: bool): (r: seq<NevraRow>)
    ensures |r| <= |rows|
    ensures forall x :: x in r <==> x in rows && ((x.nevra in keep) == inside)
  {
    if rows == [] then []
    else
      var rest := KeepIf(rows[1..], keep, inside);
      if (rows[0].nevra in keep) == inside then [rows[0]] + rest else rest
  }

  /** The queryset `latest_components` returns. */
  function LatestComponentsOf(rows: seq<NevraRow>, showLatest: bool): seq<NevraRow>
  {
    var latest := LatestSet(rows, |rows|);
    if showLatest then (if latest == {} then [] else KeepIf(rows, latest, true))
    else (if latest == {} then rows else KeepIf(rows, latest, false))
  }

  function Triple(r: NevraRow): (string, string, string)
  {
    (r.namespace, r.name, r.arch)
  }

  /** The distinct (namespace, name, arch) triples of the first `n` rows. */
  function Seen(rows: seq<NevraRow>, n: nat): set<(string, string, string)>
    requires n <= |rows|
  {
    set j | 0 <= j < n :: Triple(rows[j])
  }

  lemma SeenStep(rows: seq<NevraRow>, i: nat)
    requires i < |rows|
    ensures Seen(rows, i + 1) == Seen(rows, i) + {Triple(rows[i])}
  {
  }

  /** The latest set grows by the `i`-th row's latest NEVRA, which it already holds when the triple was seen. */
  lemma LatestSetStep(rows: seq<NevraRow>, i: nat)
    requires i < |rows|
    ensures var nevra := LatestNevraOf(rows, rows[i].namespace, rows[i].name, rows[i].arch);
      LatestSet(rows, i + 1) == LatestSet(rows, i) + (if nevra != "" then {nevra} else {})
    ensures var nevra := LatestNevraOf(rows, rows[i].namespace, rows[i].name, rows[i].arch);
      Triple(rows[i]) in Seen(rows, i) && nevra != "" ==> nevra in LatestSet(rows, i)
  {
    var nevra := LatestNevraOf(rows, rows[i].namespace, rows[i].name, rows[i].arch);
    if Triple(rows[i]) in Seen(rows, i) && nevra != "" {
      var j :| 0 <= j < i && Triple(rows[j]) == Triple(rows[i]);
      assert LatestNevraOf(rows, rows[j].namespace, rows[j].name, rows[j].arch) == nevra;
    }
  }

  /** `latest_components`: the loop over the distinct triples, then the include or exclude filter. */
  method LatestComponents(rows: seq<NevraRow>, showLatest: bool) returns (result: seq<NevraRow>)
    ensures result == LatestComponentsOf(rows, showLatest)
  {
    var latest: set<string> := {};
    var seen: set<(string, string, string)> := {};
    var i := 0;
    while i < |rows|
      invariant 0 <= i <= |rows|
      invariant latest == LatestSet(rows, i)
      invariant seen == Seen(rows, i)
    {
      var r := rows[i];
      LatestSetStep(rows, i);
      SeenStep(rows, i);
      if (r.namespace, r.name, r.arch) !in seen {
        var nevra := FilterLatestNevra(rows, r.namespace, r.name, r.arch);
        if nevra != "" {
          latest := latest + {nevra};
        }
        seen := seen + {(r.namespace, r.name, r.arch)};
      }
      i := i + 1;
    }
    if showLatest {
      result := if latest == {} then [] else KeepIf(rows, latest, true);
    } else {
      result := if latest == {} then rows else KeepIf(rows, latest, false);
    }
  }

  /**
   * The included and the excluded queries split the rows: every row is in exactly one of them, and neither
   * holds anything else. Without a non-empty latest NEVRA, excluding keeps every row and including keeps none.
   */
  lemma LatestComponentsPartition(rows: seq<NevraRow>)
    ensures LatestSet(rows, |rows|) == {} ==> LatestComponentsOf(rows, false) == rows && LatestComponentsOf(rows, true) == []
    ensures forall x :: x in rows ==> (x in LatestComponentsOf(rows, true) <==> x !in LatestComponentsOf(rows, false))
    ensures forall x :: x in LatestComponentsOf(rows, true) ==> x in rows
    ensures forall x :: x in LatestComponentsOf(rows, false) ==> x in rows
  {
  }

  /** Every row of a triple whose latest NEVRA is its own is included. */
  lemma LatestRowIncluded(rows: seq<NevraRow>, j: nat)
    requires j < |rows| && rows[j].nevra != ""
    requires LatestNevraOf(rows, rows[j].namespace, rows[j].name, rows[j].arch) == rows[j].nevra
    ensures rows[j] in LatestComponentsOf(rows, true)
  {
    assert rows[j].nevra in LatestSet(rows, |rows|);
  }
}
