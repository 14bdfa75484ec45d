// Helpers shared by the Celery tasks: which HTTP failures are not worth retrying, the time since which a periodic
// task refreshes its data, and the creation of product-to-build relations. Times are whole seconds; the task
// results table and the relations table are parameters and fields.

module TasksCommon {
  import opened Wrappers

  /**
   * `fatal_code`: with a response, fatal exactly for a 4xx status other than 408 (Request Timeout); without
   * one, None, which the retry decorator reads as not fatal.
   */
  function FatalCode(responseStatus: Option<int>): (fatal: Option<bool>)
    ensures responseStatus.None? <==> fatal.None?
    ensures fatal == Some(true) <==>
              responseStatus.Some? && 400 <= responseStatus.value < 500 && responseStatus.value != 408
  {
    match responseStatus
    case None => None
    case Some(status) => Some(400 <= status < 500 && status != 408)
  }

  /** Server errors, successes and request timeouts are retried. */
  lemma RetriedStatuses(status: int)
    requires status < 400 || status >= 500 || status == 408
    ensures FatalCode(Some(status)) == Some(false)
  {
  }

  /** A row of the Celery task results table, as these helpers read it. */
  datatype TaskResult = TaskResult(taskName: string, taskArgs: string, taskKwargs: string,
                                   traceback: Option<string>, result: string, status: string, dateDone: int)

  const Minute: int := 60
  const Day: int := 24 * 60 * Minute

  /** A successful run of the task with no keyword arguments: the scheduled runs, not manual ones. */
  predicate ScheduledSuccess(r: TaskResult, taskName: string)
  {
    r.taskName == taskName && r.taskKwargs == "\"{}\"" && r.status == "SUCCESS"
  }

  /** The latest `date_done` of a scheduled success of the task, if any. */
  function LastSuccess(results: seq<TaskResult>, taskName: string): (last: Option<int>)
    ensures last.None? <==> forall i :: 0 <= i < |results| ==> !ScheduledSuccess(results[i], taskName)
    ensures last.Some? ==> exists i :: 0 <= i < |results| && ScheduledSuccess(results[i], taskName) &&
                                       results[i].dateDone == last.value
    ensures last.Some? ==> forall i :: 0 <= i < |results| && ScheduledSuccess(results[i], taskName) ==>
                                       results[i].dateDone <= last.value
  {
    if results == [] then None
    else
      var rest := LastSuccess(results[1..], taskName);
      assert forall i :: 1 <= i < |results| ==> results[i] == results[1..][i - 1];
      if !ScheduledSuccess(results[0], taskName) then rest
      else if rest.Some? && rest.value > results[0].dateDone then rest
      else Some(results[0].dateDone)
  }

  /**
   * `get_last_success_for_task`: half an hour before the last scheduled success, so that refreshes overlap, or
   * three days before `now` when the task never succeeded.
   */
  function RefreshSince(results: seq<TaskResult>, taskName: string, now: int): (since: int)
    ensures LastSuccess(results, taskName).Some? ==> since == LastSuccess(results, taskName).value - 30 * Minute
    ensures LastSuccess(results, taskName).None? ==> since == now - 3 * Day
  {
    match LastSuccess(results, taskName)
    case Some(last) => last - 30 * Minute
    case None => now - 3 * Day
  }

  /**
   * With a recorded scheduled success, the refresh starts before the latest one, so the runs overlap, and no
   * earlier than half an hour before any of them.
   */
  lemma RefreshOverlapsSuccesses(results: seq<TaskResult>, taskName: string, now: int, i: int)
    requires 0 <= i < |results| && ScheduledSuccess(results[i], taskName)
    ensures RefreshSince(results, taskName, now) >= results[i].dateDone - 30 * Minute
    ensures RefreshSince(results, taskName, now) < LastSuccess(results, taskName).value
  {
    assert LastSuccess(results, taskName).Some?;
    assert results[i].dateDone <= LastSuccess(results, taskName).value;
  }

  /** The unique key of a product-component relation. */
  datatype RelationKey = RelationKey(externalSystemId: string, productRef: string, buildId: string)

  /** The build ids of `ids` that have no relation yet: the ones a run creates. */
  function NewBuilds(ids: seq<string>, externalSystemId: string, productRef: string, rows: set<RelationKey>)
    : set<string>
  {
    set b | b in ids && RelationKey(externalSystemId, productRef, b) !in rows
  }

  /** A run never creates more relations than it is given build ids. */
  lemma {:induction false} NewBuildsBound(ids: seq<string>, externalSystemId: string, productRef: string,
                                          rows: set<RelationKey>)
    ensures |NewBuilds(ids, externalSystemId, productRef, rows)| <= |ids|
    decreases |ids|
  {
    if ids != [] {
      var last := ids[|ids| - 1];
      var front := ids[..|ids| - 1];
      NewBuildsBound(front, externalSystemId, productRef, rows);
      assert NewBuilds(ids, externalSystemId, productRef, rows) <=
             NewBuilds(front, externalSystemId, productRef, rows) + {last};
      SubsetCard(NewBuilds(ids, externalSystemId, productRef, rows),
                 NewBuilds(front, externalSystemId, productRef, rows) + {last});
    }
  }

  /** One more build id adds itself to the new builds when it has no relation before the run. */
  lemma NewBuildsSnoc(ids: seq<string>, i: nat, externalSystemId: string, productRef: string, rows: set<RelationKey>)
    requires i < |ids|
    ensures NewBuilds(ids[..i + 1], externalSystemId, productRef, rows) ==
            NewBuilds(ids[..i], externalSystemId, productRef, rows) +
            (if RelationKey(externalSystemId, productRef, ids[i]) !in rows then {ids[i]} else {})
  {
    assert ids[..i + 1] == ids[..i] + [ids[i]];
  }

  /** The keys of `rows` are those of `before` and the relations of the build ids `added`. */
  ghost predicate Extended(rows: set<RelationKey>, before: set<RelationKey>, externalSystemId: string, productRef: string,
                     added: set<string>)
  {
    forall k :: k in rows <==>
      k in before || (k.externalSystemId == externalSystemId && k.productRef == productRef && k.buildId in added)
  }

  lemma SubsetCard(a: set<string>, b: set<string>)
    requires a <= b
    ensures |a| <= |b|
  {
    assert b == a + (b - a);
  }

  /** The product-component relations table: the relation keys present, each with its type. */
  class RelationTable {
    var rows: map<RelationKey, string>

    constructor()
      ensures rows == map[]
    {
      rows := map[];
    }

    /**
     * `_create_relations`: gets or creates a relation for each build id, a created one with the given type, and
     * counts the ones created.
     */
    method CreateRelations(buildIds: seq<string>, externalSystemId: string, productRef: string, relationType: string)
      returns (created: nat)
      modifies this
      ensures created == |NewBuilds(buildIds, externalSystemId, productRef, old(rows).Keys)|
      ensures created <= |buildIds|
      ensures Extended(rows.Keys, old(rows).Keys, externalSystemId, productRef,
                       NewBuilds(buildIds, externalSystemId, productRef, old(rows).Keys))
      ensures forall k :: k in old(rows) ==> k in rows && rows[k] == old(rows)[k]
      ensures forall k :: k in rows && k !in old(rows) ==> rows[k] == relationType
    {
      created := 0;
      ghost var before := rows.Keys;
      for i := 0 to |buildIds|
        invariant created == |NewBuilds(buildIds[..i], externalSystemId, productRef, before)|
        invariant Extended(rows.Keys, before, externalSystemId, productRef,
                           NewBuilds(buildIds[..i], externalSystemId, productRef, before))
        invariant forall k :: k in old(rows) ==> k in rows && rows[k] == old(rows)[k]
        invariant forall k :: k in rows && k !in old(rows) ==> rows[k] == relationType
      {
        var key := RelationKey(externalSystemId, productRef, buildIds[i]);
        ghost var doneBefore := NewBuilds(buildIds[..i], externalSystemId, productRef, before);
        NewBuildsSnoc(buildIds, i, externalSystemId, productRef, before);
        assert key in rows <==> key in before || buildIds[i] in doneBefore;
        if key !in rows {
          rows := rows[key := relationType];
          created := created + 1;
        }
      }
      assert buildIds[..|buildIds|] == buildIds;
      NewBuildsBound(buildIds, externalSystemId, productRef, before);
    }
  }
}
