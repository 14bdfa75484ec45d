// The monitoring tasks: the schedule helper that registers interval tasks, the daily e-mail that reports the
// Celery tasks that failed, grouped by task and by distinct error, and the expiry of old task results. The task
// results table is a field; the settings module, the current time and the sending of mail are parameters or
// results. Times are whole seconds and are written as their decimal value.

module Monitoring {
  import opened Wrappers
  import opened Text
  import opened TasksCommon
  import ConfigUtils

  /* ---------------------------------------------------------------- interval tasks */

  datatype Period = Hours | Minutes

  datatype Interval = Interval(every: int, period: Period)

  /** A periodic task is found by its name and the dotted path of the task it runs. */
  datatype TaskKey = TaskKey(name: string, task: string)

  function TaskPath(pkg: string, task: string): string
  {
    "corgi.tasks." + pkg + "." + task
  }

  /** Python truthiness of an optional number: present and not zero. */
  predicate Truthy(n: Option<int>)
  {
    n.Some? && n.value != 0
  }

  /**
   * `upsert_interval_task`: an interval of `hours` hours when that is truthy, else of `minutes` minutes when that
   * is, else a ValueError naming the task; the periodic task is then got or created, so an existing one keeps
   * its interval.
   */
  function UpsertIntervalTask(tasks: map<TaskKey, Interval>, pkg: string, task: string, hours: Option<int>,
                              minutes: Option<int>): (r: Result<map<TaskKey, Interval>>)
    ensures r.Err? <==> !Truthy(hours) && !Truthy(minutes)
    ensures r.Err? ==> r.error == ValueError("No interval value was specified when setting up " + task + " task")
    ensures r.Ok? ==> r.value.Keys == tasks.Keys + {TaskKey(task, TaskPath(pkg, task))}
    ensures r.Ok? ==> forall k :: k in tasks ==> r.value[k] == tasks[k]
    ensures r.Ok? && TaskKey(task, TaskPath(pkg, task)) !in tasks ==>
              r.value[TaskKey(task, TaskPath(pkg, task))] ==
              (if Truthy(hours) then Interval(hours.value, Hours) else Interval(minutes.value, Minutes))
  {
    var key := TaskKey(task, TaskPath(pkg, task));
    if !Truthy(hours) && !Truthy(minutes) then
      Err(ValueError("No interval value was specified when setting up " + task + " task"))
    else
      var interval := if Truthy(hours) then Interval(hours.value, Hours) else Interval(minutes.value, Minutes);
      Ok(if key in tasks then tasks else tasks[key := interval])
  }

  /** Registering the same task twice leaves the schedule as registering it once. */
  lemma UpsertIdempotent(tasks: map<TaskKey, Interval>, pkg: string, task: string, hours: Option<int>,
                         minutes: Option<int>)
    requires UpsertIntervalTask(tasks, pkg, task, hours, minutes).Ok?
    ensures var once := UpsertIntervalTask(tasks, pkg, task, hours, minutes).value;
      UpsertIntervalTask(once, pkg, task, hours, minutes) == Ok(once)
  {
  }

  /* ---------------------------------------------------------------- failed task report */

  const EmailFailedTasksName := "corgi.tasks.monitoring.email_failed_tasks"

  /** The report starts at the last scheduled success of this task, but never more than three days back. */
  function Threshold(results: seq<TaskResult>, now: int): (since: int)
    ensures since >= now - 3 * Day && since >= RefreshSince(results, EmailFailedTasksName, now)
    ensures since == now - 3 * Day || since == RefreshSince(results, EmailFailedTasksName, now)
  {
    var last := RefreshSince(results, EmailFailedTasksName, now);
    if last > now - 3 * Day then last else now - 3 * Day
  }

  /** A result that failed or is waiting to be retried, finished at `since` or later. */
  predicate Failed(r: TaskResult, since: int)
  {
    (r.status == "FAILURE" || r.status == "RETRY") && r.dateDone >= since
  }

  /** The rows the query's filter selects: the failed results since `since`, in table order. */
  function FailedRows(results: seq<TaskResult>, since: int): (rows: seq<TaskResult>)
    ensures forall r :: r in rows <==> r in results && Failed(r, since)
    ensures |rows| <= |results|
  {
    if results == [] then []
    else (if Failed(results[0], since) then [results[0]] else []) + FailedRows(results[1..], since)
  }

  /** `order_by("task_name", "date_done")`: task names in code-point order, then the time each result finished. */
  predicate NameDateLe(a: TaskResult, b: TaskResult)
  {
    StrLt(a.taskName, b.taskName) || (a.taskName == b.taskName && a.dateDone <= b.dateDone)
  }

  predicate SortedByNameDate(s: seq<TaskResult>)
  {
    forall i, j :: 0 <= i < j < |s| ==> NameDateLe(s[i], s[j])
  }

  lemma NameDateTotal(a: TaskResult, b: TaskResult)
    ensures NameDateLe(a, b) || NameDateLe(b, a)
  {
    StrCmpAntisymmetric(a.taskName, b.taskName);
    StrCmpZero(a.taskName, b.taskName);
  }

  lemma NameDateTransitive(a: TaskResult, b: TaskResult, c: TaskResult)
    requires NameDateLe(a, b) && NameDateLe(b, c)
    ensures NameDateLe(a, c)
  {
    StrCmpZero(a.taskName, b.taskName);
    StrCmpZero(b.taskName, c.taskName);
    if a.taskName != b.taskName && b.taskName != c.taskName {
      StrCmpTransitive(a.taskName, b.taskName, c.taskName);
    }
  }

  /** Results of one task, and only those, compare equal on the name: the order within a task is by time. */
  lemma NameDateSameTask(a: TaskResult, b: TaskResult)
    requires NameDateLe(a, b) && a.taskName == b.taskName
    ensures a.dateDone <= b.dateDone
  {
    StrCmpZero(a.taskName, b.taskName);
  }

  /** An element no greater than every element of a sorted list can go before it. */
  lemma ConsSortedByNameDate(h: TaskResult, rest: seq<TaskResult>)
    requires SortedByNameDate(rest)
    requires forall y :: y in rest ==> NameDateLe(h, y)
    ensures SortedByNameDate([h] + rest)
  {
    var r := [h] + rest;
    forall i, j | 0 <= i < j < |r|
      ensures NameDateLe(r[i], r[j])
    {
      assert r[j] == rest[j - 1];
      if i > 0 {
        assert r[i] == rest[i - 1];
      }
    }
  }

  /** `x` put into the sorted list `t` before the first element it does not exceed. */
  function InsertByNameDate(x: TaskResult, t: seq<TaskResult>): (r: seq<TaskResult>)
    requires SortedByNameDate(t)
    ensures multiset(r) == multiset(t) + multiset{x}
    ensures SortedByNameDate(r)
  {
    if t == [] then [x]
    else if NameDateLe(x, t[0]) then
      forall y | y in t ensures NameDateLe(x, y) {
        var k :| 0 <= k < |t| && t[k] == y;
        if k > 0 { NameDateTransitive(x, t[0], y); }
      }
      ConsSortedByNameDate(x, t);
      [x] + t
    else
      assert t == [t[0]] + t[1..];
      var rest := InsertByNameDate(x, t[1..]);
      NameDateTotal(x, t[0]);
      forall y | y in rest ensures NameDateLe(t[0], y) {
        assert y in multiset(rest);
        if y != x {
          var k :| 0 <= k < |t[1..]| && t[1..][k] == y;
          assert t[k + 1] == y;
        }
      }
      ConsSortedByNameDate(t[0], rest);
      [t[0]] + rest
  }

  /** The rows of `s` ordered by task name and then by time. */
  function OrderByNameDate(s: seq<TaskResult>): (r: seq<TaskResult>)
    ensures multiset(r) == multiset(s)
    ensures SortedByNameDate(r)
  {
    if s == [] then []
    else
      assert s == [s[0]] + s[1..];
      InsertByNameDate(s[0], OrderByNameDate(s[1..]))
  }

  /**
   * The failed results since `since` as the query returns them: each failed result of the table once (as often
   * as the table holds it), ordered by task name and, within a task, by the time it finished.
   */
  function FailedSince(results: seq<TaskResult>, since: int): (failed: seq<TaskResult>)
    ensures multiset(failed) == multiset(FailedRows(results, since))
    ensures forall r :: r in failed <==> r in results && Failed(r, since)
    ensures SortedByNameDate(failed)
    ensures forall i, j :: 0 <= i < j < |failed| && failed[i].taskName == failed[j].taskName ==>
              failed[i].dateDone <= failed[j].dateDone
  {
    var failed := OrderByNameDate(FailedRows(results, since));
    assert forall r :: r in failed <==> r in multiset(FailedRows(results, since));
    forall i, j | 0 <= i < j < |failed| && failed[i].taskName == failed[j].taskName
      ensures failed[i].dateDone <= failed[j].dateDone
    {
      NameDateSameTask(failed[i], failed[j]);
    }
    failed
  }

  /** What is reported of a failure: its arguments, its keyword arguments, and its traceback or else its result. */
  datatype ErrorTriple = ErrorTriple(args: string, kwargs: string, traceback: string)

  function ErrorOf(r: TaskResult): ErrorTriple
  {
    ErrorTriple(r.taskArgs, r.taskKwargs, if r.traceback.Some? && r.traceback.value != "" then r.traceback.value
                                          else r.result)
  }

  /** The task names of the results, in order. */
  function NamesOf(rs: seq<TaskResult>): (names: seq<string>)
    ensures |names| == |rs| && forall i :: 0 <= i < |rs| ==> names[i] == rs[i].taskName
  {
    seq(|rs|, i requires 0 <= i < |rs| => rs[i].taskName)
  }

  lemma NamesOfSnoc(rs: seq<TaskResult>, i: nat)
    requires i < |rs|
    ensures NamesOf(rs[..i + 1]) == NamesOf(rs[..i]) + [rs[i].taskName]
  {
  }

  lemma NamesOfLast(rs: seq<TaskResult>)
    requires rs != []
    ensures multiset(NamesOf(rs)) == multiset(NamesOf(rs[..|rs| - 1])) + multiset{rs[|rs| - 1].taskName}
  {
    assert NamesOf(rs) == NamesOf(rs[..|rs| - 1]) + [rs[|rs| - 1].taskName];
  }

  /** The distinct elements of `s` in the order of their first appearance, as a dict's keys are. */
  function Dedup<T(==,!new)>(s: seq<T>): (d: seq<T>)
    ensures forall x :: x in d <==> x in s
    ensures Distinct(d)
    decreases |s|
  {
    if s == [] then []
    else
      var d := Dedup(s[..|s| - 1]);
      assert forall x :: x in s <==> x in s[..|s| - 1] || x == s[|s| - 1];
      if s[|s| - 1] in d then d else d + [s[|s| - 1]]
  }

  predicate Distinct<T(==,!new)>(s: seq<T>)
  {
    forall i, j :: 0 <= i < j < |s| ==> s[i] != s[j]
  }

  /** The error triples of the results of task `name`, in order: `errors_by_task[name]`. */
  function ErrorsOf(rs: seq<TaskResult>, name: string): (es: seq<ErrorTriple>)
    ensures |es| == multiset(NamesOf(rs))[name]
    decreases |rs|
  {
    if rs == [] then []
    else
      var front := ErrorsOf(rs[..|rs| - 1], name);
      NamesOfLast(rs);
      if rs[|rs| - 1].taskName == name then front + [ErrorOf(rs[|rs| - 1])] else front
  }

  /** One more result adds its task name to the distinct names when it is new. */
  lemma DedupNamesSnoc(rs: seq<TaskResult>, i: nat)
    requires i < |rs|
    ensures Dedup(NamesOf(rs[..i + 1])) ==
            if rs[i].taskName in Dedup(NamesOf(rs[..i])) then Dedup(NamesOf(rs[..i]))
            else Dedup(NamesOf(rs[..i])) + [rs[i].taskName]
  {
    var names := NamesOf(rs[..i + 1]);
    NamesOfSnoc(rs, i);
    assert names[..|names| - 1] == NamesOf(rs[..i]);
  }

  /** One more result adds its error to its own task's errors only. */
  lemma ErrorsOfSnoc(rs: seq<TaskResult>, i: nat, name: string)
    requires i < |rs|
    ensures ErrorsOf(rs[..i + 1], name) ==
            ErrorsOf(rs[..i], name) + (if rs[i].taskName == name then [ErrorOf(rs[i])] else [])
  {
    assert rs[..i + 1][..i] == rs[..i];
  }

  /** A task that has no result has no errors. */
  lemma ErrorsOfAbsent(rs: seq<TaskResult>, name: string)
    requires name !in Dedup(NamesOf(rs))
    ensures ErrorsOf(rs, name) == []
  {
    assert name !in NamesOf(rs);
    assert multiset(NamesOf(rs))[name] == 0;
  }

  /** The sum, over `keys`, of the number of times each occurs in `s`: `sum(Counter(s).values())` for distinct keys. */
  function Total<T(==,!new)>(keys: seq<T>, s: seq<T>): nat
  {
    if keys == [] then 0 else Total(keys[..|keys| - 1], s) + multiset(s)[keys[|keys| - 1]]
  }

  /** One more element of `s` adds one to the total of distinct keys exactly when it is one of them. */
  lemma {:induction false} TotalSnoc<T(!new)>(keys: seq<T>, s: seq<T>, x: T)
    requires Distinct(keys)
    ensures Total(keys, s + [x]) == Total(keys, s) + (if x in keys then 1 else 0)
  {
    if keys != [] {
      var front := keys[..|keys| - 1];
      assert Distinct(front);
      TotalSnoc(front, s, x);
      assert multiset(s + [x]) == multiset(s) + multiset{x};
      assert x in keys <==> x in front || x == keys[|keys| - 1];
      assert x == keys[|keys| - 1] ==> x !in front;
    }
  }

  /** Counting the distinct elements of `s` accounts for every element: the counts add up to `|s|`. */
  lemma {:induction false} CountsAddUp<T(!new)>(s: seq<T>)
    ensures Total(Dedup(s), s) == |s|
    decreases |s|
  {
    if s != [] {
      var f := s[..|s| - 1];
      var x := s[|s| - 1];
      assert s == f + [x];
      CountsAddUp(f);
      TotalSnoc(Dedup(f), f, x);
      if x !in Dedup(f) {
        assert multiset(f)[x] == 0;
        assert multiset(s)[x] == 1;
        assert Dedup(s) == Dedup(f) + [x];
        assert (Dedup(f) + [x])[..|Dedup(f)|] == Dedup(f);
      }
    }
  }

  /** Counts never increase along `r`. */
  predicate Descending<T(==,!new)>(r: seq<T>, s: seq<T>)
  {
    forall i, j :: 0 <= i < j < |r| ==> multiset(s)[r[i]] >= multiset(s)[r[j]]
  }

  /** Puts `x` after every element of `t` occurring at least as often in `s`, and before the others. */
  function InsertByCount<T(==,!new)>(x: T, t: seq<T>, s: seq<T>): (r: seq<T>)
    ensures multiset(r) == multiset(t) + multiset{x}
  {
    if t == [] then [x]
    else if multiset(s)[t[0]] < multiset(s)[x] then [x] + t
    else
      assert t == [t[0]] + t[1..];
      [t[0]] + InsertByCount(x, t[1..], s)
  }

  /** Inserting into a list ordered by count keeps it ordered. */
  lemma {:induction false} InsertKeepsDescending<T(!new)>(x: T, t: seq<T>, s: seq<T>)
    requires Descending(t, s)
    ensures Descending(InsertByCount(x, t, s), s)
  {
    if t != [] && multiset(s)[t[0]] >= multiset(s)[x] {
      var rest := InsertByCount(x, t[1..], s);
      InsertKeepsDescending(x, t[1..], s);
      assert t == [t[0]] + t[1..];
      forall y | y in rest
        ensures multiset(s)[t[0]] >= multiset(s)[y]
      {
        assert y in multiset(rest);
        if y != x {
          assert y in t[1..];
        }
      }
      ConsDescending(t[0], rest, s);
    }
  }

  /** An element counted at least as often as every element of an ordered list can go before it. */
  lemma ConsDescending<T(!new)>(h: T, rest: seq<T>, s: seq<T>)
    requires Descending(rest, s)
    requires forall y :: y in rest ==> multiset(s)[h] >= multiset(s)[y]
    ensures Descending([h] + rest, s)
  {
    var r := [h] + rest;
    forall i, j | 0 <= i < j < |r|
      ensures multiset(s)[r[i]] >= multiset(s)[r[j]]
    {
      assert r[j] == rest[j - 1];
      if i > 0 {
        assert r[i] == rest[i - 1];
      }
    }
  }

  /** `sorted(items, key=count, reverse=True)`: the items from the most frequent in `s` to the least. */
  function SortByCount<T(==,!new)>(items: seq<T>, s: seq<T>): (r: seq<T>)
    ensures multiset(r) == multiset(items)
    ensures Descending(r, s)
  {
    if items == [] then []
    else
      assert items == items[..|items| - 1] + [items[|items| - 1]];
      var sorted := SortByCount(items[..|items| - 1], s);
      InsertKeepsDescending(items[|items| - 1], sorted, s);
      InsertByCount(items[|items| - 1], sorted, s)
  }

  /** The elements of `r` that occur exactly `c` times in `s`, in order. */
  function WithCount<T(==,!new)>(r: seq<T>, s: seq<T>, c: nat): seq<T>
  {
    if r == [] then [] else (if multiset(s)[r[0]] == c then [r[0]] else []) + WithCount(r[1..], s, c)
  }

  lemma {:induction false} WithCountAppend<T(!new)>(a: seq<T>, b: seq<T>, s: seq<T>, c: nat)
    ensures WithCount(a + b, s, c) == WithCount(a, s, c) + WithCount(b, s, c)
  {
    if a == [] {
      assert a + b == b;
    } else {
      var h, t := a[0], a[1..];
      assert a == [h] + t;
      assert a + b == [h] + (t + b);
      WithCountAppend(t, b, s, c);
      ConsWithCount(h, t + b, t, WithCount(b, s, c), s, c);
    }
  }

  lemma WithCountCons<T(!new)>(h: T, t: seq<T>, s: seq<T>, c: nat)
    ensures WithCount([h] + t, s, c) == (if multiset(s)[h] == c then [h] else []) + WithCount(t, s, c)
  {
    assert ([h] + t)[0] == h;
    assert ([h] + t)[1..] == t;
  }

  lemma {:induction false} WithCountNone<T(!new)>(t: seq<T>, s: seq<T>, c: nat)
    requires forall y :: y in t ==> multiset(s)[y] != c
    ensures WithCount(t, s, c) == []
  {
    if t != [] {
      assert t[0] in t;
      assert forall y :: y in t[1..] ==> y in t;
      WithCountNone(t[1..], s, c);
    }
  }

  lemma DescendingTail<T(!new)>(t: seq<T>, s: seq<T>)
    requires t != [] && Descending(t, s)
    ensures Descending(t[1..], s)
  {
    forall i, j | 0 <= i < j < |t| - 1 ensures multiset(s)[t[1..][i]] >= multiset(s)[t[1..][j]] {
      assert t[1..][i] == t[i + 1] && t[1..][j] == t[j + 1];
    }
  }

  /** Inserting by count puts `x` after every element of the same count: ties keep their order. */
  lemma {:induction false} InsertByCountTies<T(!new)>(x: T, t: seq<T>, s: seq<T>, c: nat)
    requires Descending(t, s)
    ensures WithCount(InsertByCount(x, t, s), s, c) ==
            WithCount(t, s, c) + (if multiset(s)[x] == c then [x] else [])
  {
    if t != [] {
      if multiset(s)[t[0]] < multiset(s)[x] {
        InsertFirstTies(x, t, s, c);
      } else {
        var h, tl := t[0], t[1..];
        assert t == [h] + tl;
        var rest := InsertByCount(x, tl, s);
        assert InsertByCount(x, t, s) == [h] + rest;
        DescendingTail(t, s);
        InsertByCountTies(x, tl, s, c);
        ConsWithCount(h, rest, tl, if multiset(s)[x] == c then [x] else [], s, c);
      }
    }
  }

  lemma InsertFirstTies<T(!new)>(x: T, t: seq<T>, s: seq<T>, c: nat)
    requires Descending(t, s)
    requires t != [] && multiset(s)[t[0]] < multiset(s)[x]
    ensures WithCount([x] + t, s, c) == WithCount(t, s, c) + (if multiset(s)[x] == c then [x] else [])
  {
    WithCountCons(x, t, s, c);
    if multiset(s)[x] == c {
      forall y | y in t ensures multiset(s)[y] != c {
        var k :| 0 <= k < |t| && t[k] == y;
      }
      WithCountNone(t, s, c);
    }
  }

  /** A common first element adds the same to both sides. */
  lemma ConsWithCount<T(!new)>(h: T, rest: seq<T>, t: seq<T>, tail: seq<T>, s: seq<T>, c: nat)
    requires WithCount(rest, s, c) == WithCount(t, s, c) + tail
    ensures WithCount([h] + rest, s, c) == WithCount([h] + t, s, c) + tail
  {
    WithCountCons(h, rest, s, c);
    WithCountCons(h, t, s, c);
    var hd: seq<T> := if multiset(s)[h] == c then [h] else [];
    assert hd + (WithCount(t, s, c) + tail) == (hd + WithCount(t, s, c)) + tail;
  }

  /**
   * `sorted` is stable: the elements of one count come out of `SortByCount` in the order they had in `items`.
   * For a task's distinct errors that is the order of their first occurrence, as `Counter` keeps it.
   */
  lemma {:induction false} SortByCountStable<T(!new)>(items: seq<T>, s: seq<T>, c: nat)
    ensures WithCount(SortByCount(items, s), s, c) == WithCount(items, s, c)
  {
    if items != [] {
      var f := items[..|items| - 1];
      var x := items[|items| - 1];
      assert items == f + [x];
      SortByCountStable(f, s, c);
      assert SortByCount(items, s) == InsertByCount(x, SortByCount(f, s), s);
      InsertByCountTies(x, SortByCount(f, s), s, c);
      WithCountSnoc(f, x, s, c);
    }
  }

  lemma WithCountSnoc<T(!new)>(f: seq<T>, x: T, s: seq<T>, c: nat)
    ensures WithCount(f + [x], s, c) == WithCount(f, s, c) + (if multiset(s)[x] == c then [x] else [])
  {
    WithCountAppend(f, [x], s, c);
    WithCountCons(x, [], s, c);
    assert [x] + [] == [x];
  }

  /** One line of a task's section: a distinct error and how often it occurred. */
  function ErrorSection(name: string, e: ErrorTriple, count: nat): string
  {
    "## " + name + ": " + NatToString(count) + " error(s) when called with:\n\n" +
    "args=" + e.args + "\nkwargs=" + e.kwargs + "\n" + e.traceback + "\n"
  }

  /** The lines for the errors `items`, each with its count in `errors`. */
  function ErrorSections(name: string, items: seq<ErrorTriple>, errors: seq<ErrorTriple>): string
  {
    if items == [] then ""
    else
      var e := items[|items| - 1];
      ErrorSections(name, items[..|items| - 1], errors) + ErrorSection(name, e, multiset(errors)[e])
  }

  function TaskHeader(name: string, total: nat): string
  {
    "# " + name + ": " + NatToString(total) + " total errors\n\n"
  }

  const SectionEnd := "---\n\n"

  /** A task's section: its total, its distinct errors from the most frequent down, and the closing rule. */
  function TaskSection(name: string, errors: seq<ErrorTriple>): string
  {
    TaskHeader(name, Total(Dedup(errors), errors)) +
    ErrorSections(name, SortByCount(Dedup(errors), errors), errors) + SectionEnd
  }

  /** The sections of the tasks `names`, in that order. */
  function TaskSections(names: seq<string>, failed: seq<TaskResult>): string
  {
    if names == [] then ""
    else
      var name := names[|names| - 1];
      TaskSections(names[..|names| - 1], failed) + TaskSection(name, ErrorsOf(failed, name))
  }

  function ReportHeader(since: int): string
  {
    "The following Celery tasks failed since " + IntToString(since) + ":\n\n"
  }

  const NoFailures := "No failed tasks! Hooray!"

  /** The report on the failures `failed` since `since`. */
  function ReportBody(failed: seq<TaskResult>, since: int): string
  {
    ReportHeader(since) + (if failed == [] then NoFailures else TaskSections(Dedup(NamesOf(failed)), failed))
  }

  /** The subject: the day of the last success the report counts from, and the number of failures. */
  function Subject(lastSuccess: int, count: nat): string
  {
    "Failed Corgi Celery tasks after " + IntToString(lastSuccess / Day) + ": " + NatToString(count)
  }

  datatype Email = Email(subject: string, body: string)

  /** The e-mail `email_failed_tasks` sends for the table `results` at time `now`. */
  function FailedTasksEmail(results: seq<TaskResult>, now: int): (e: Email)
    ensures e.subject == Subject(RefreshSince(results, EmailFailedTasksName, now),
                                 |FailedRows(results, Threshold(results, now))|)
    ensures StartsWith(e.body, ReportHeader(Threshold(results, now)))
  {
    var since := Threshold(results, now);
    var failed := FailedSince(results, since);
    assert |failed| == |FailedRows(results, since)| by {
      assert |multiset(failed)| == |multiset(FailedRows(results, since))|;
    }
    Email(Subject(RefreshSince(results, EmailFailedTasksName, now), |failed|), ReportBody(failed, since))
  }

  /**
   * The loop over the failed results that fills `errors_by_task`: the task names in order of first appearance,
   * and for each the error triples of its results in order.
   */
  method GroupByTask(failed: seq<TaskResult>) returns (names: seq<string>, groups: map<string, seq<ErrorTriple>>)
    ensures names == Dedup(NamesOf(failed))
    ensures forall n :: n in groups <==> n in names
    ensures forall n :: n in groups ==> groups[n] == ErrorsOf(failed, n)
  {
    names := [];
    groups := map[];
    for i := 0 to |failed|
      invariant names == Dedup(NamesOf(failed[..i]))
      invariant forall n :: n in groups <==> n in names
      invariant forall n :: n in groups ==> groups[n] == ErrorsOf(failed[..i], n)
    {
      var r := failed[i];
      DedupNamesSnoc(failed, i);
      if r.taskName !in groups {
        ErrorsOfAbsent(failed[..i], r.taskName);
        groups := groups[r.taskName := []];
        names := names + [r.taskName];
      }
      groups := groups[r.taskName := groups[r.taskName] + [ErrorOf(r)]];
      forall n | n in groups
        ensures groups[n] == ErrorsOf(failed[..i + 1], n)
      {
        ErrorsOfSnoc(failed, i, n);
      }
    }
    assert failed[..|failed|] == failed;
  }

  lemma ErrorSectionsSnoc(name: string, items: seq<ErrorTriple>, j: nat, errors: seq<ErrorTriple>)
    requires j < |items|
    ensures ErrorSections(name, items[..j + 1], errors) ==
            ErrorSections(name, items[..j], errors) + ErrorSection(name, items[j], multiset(errors)[items[j]])
  {
    assert items[..j + 1][..j] == items[..j];
  }

  lemma TaskSectionsSnoc(names: seq<string>, k: nat, failed: seq<TaskResult>)
    requires k < |names|
    ensures TaskSections(names[..k + 1], failed) ==
            TaskSections(names[..k], failed) + TaskSection(names[k], ErrorsOf(failed, names[k]))
  {
    assert names[..k + 1][..k] == names[..k];
  }

  /** The statements that add a task's section to the report, from its total down to the closing rule. */
  method AppendTaskSection(report: string, name: string, errors: seq<ErrorTriple>) returns (body: string)
    ensures body == report + TaskSection(name, errors)
  {
    var unique := Dedup(errors);
    var header := TaskHeader(name, Total(unique, errors));
    var sorted := SortByCount(unique, errors);
    body := report + header;
    assert sorted[..0] == [];
    for j := 0 to |sorted|
      invariant body == report + (header + ErrorSections(name, sorted[..j], errors))
    {
      var line := ErrorSection(name, sorted[j], multiset(errors)[sorted[j]]);
      ghost var lines := ErrorSections(name, sorted[..j], errors);
      ErrorSectionsSnoc(name, sorted, j, errors);
      AppendAssociative(report, header + lines, line);
      AppendAssociative(header, lines, line);
      body := body + line;
    }
    assert sorted[..|sorted|] == sorted;
    AppendAssociative(report, header + ErrorSections(name, sorted, errors), SectionEnd);
    body := body + SectionEnd;
  }

  /** The loop over the grouped tasks that adds each task's section to the report, in the order given. */
  method AppendTaskSections(report: string, names: seq<string>, groups: map<string, seq<ErrorTriple>>,
                            failed: seq<TaskResult>) returns (body: string)
    requires forall n :: n in names ==> n in groups && groups[n] == ErrorsOf(failed, n)
    ensures body == report + TaskSections(names, failed)
  {
    body := report;
    assert names[..0] == [];
    for k := 0 to |names|
      invariant body == report + TaskSections(names[..k], failed)
    {
      TaskSectionsSnoc(names, k, failed);
      AppendAssociative(report, TaskSections(names[..k], failed), TaskSection(names[k], ErrorsOf(failed, names[k])));
      body := AppendTaskSection(body, names[k], groups[names[k]]);
    }
    assert names[..|names|] == names;
  }

  /** The task results table. */
  class TaskResults {
    var results: seq<TaskResult>

    constructor(results: seq<TaskResult>)
      ensures this.results == results
    {
      this.results := results;
    }

    /**
     * `email_failed_tasks`: nothing in the development environment; otherwise the e-mail about the failures
     * since the threshold, built section by section.
     */
    method EmailFailedTasks(settingsModule: Option<string>, now: int) returns (mail: Option<Email>)
      ensures ConfigUtils.RunningDev(settingsModule) <==> mail.None?
      ensures mail.Some? ==> mail.value == FailedTasksEmail(results, now)
    {
      if ConfigUtils.RunningDev(settingsModule) {
        return None;
      }
      var lastSuccess := RefreshSince(results, EmailFailedTasksName, now);
      var since := Threshold(results, now);
      var failed := FailedSince(results, since);
      var subject := Subject(lastSuccess, |failed|);
      var body := ReportHeader(since);
      if |failed| == 0 {
        body := body + NoFailures;
      } else {
        var names, groups := GroupByTask(failed);
        body := AppendTaskSections(body, names, groups, failed);
      }
      return Some(Email(subject, body));
    }

    /** `expire_task_results`: deletes the results finished more than thirty days before `now`. */
    method ExpireTaskResults(now: int) returns (message: string)
      modifies this
      ensures results == Unexpired(old(results), now - 30 * Day)
      ensures message == "Removed " + NatToString(|old(results)| - |results|) + " expired task results"
    {
      var kept := Unexpired(results, now - 30 * Day);
      var removed := |results| - |kept|;
      results := kept;
      return "Removed " + NatToString(removed) + " expired task results";
    }
  }

  /** The results finished at `cutoff` or later, in order. */
  function Unexpired(rs: seq<TaskResult>, cutoff: int): (kept: seq<TaskResult>)
    ensures forall r :: r in kept <==> r in rs && r.dateDone >= cutoff
    ensures |kept| <= |rs|
  {
    if rs == [] then []
    else (if rs[0].dateDone >= cutoff then [rs[0]] else []) + Unexpired(rs[1..], cutoff)
  }

  /** The results finished before `cutoff`. */
  function Expired(rs: seq<TaskResult>, cutoff: int): seq<TaskResult>
  {
    if rs == [] then []
    else (if rs[0].dateDone < cutoff then [rs[0]] else []) + Expired(rs[1..], cutoff)
  }

  /** Expiry splits the table: what is kept and what is removed make up the table, so the count is exact. */
  lemma {:induction false} ExpirySplits(rs: seq<TaskResult>, cutoff: int)
    ensures multiset(Unexpired(rs, cutoff)) + multiset(Expired(rs, cutoff)) == multiset(rs)
    ensures |rs| - |Unexpired(rs, cutoff)| == |Expired(rs, cutoff)|
    ensures forall r :: r in Expired(rs, cutoff) <==> r in rs && r.dateDone < cutoff
  {
    ExpiryMultisets(rs, cutoff);
    ExpiredMembers(rs, cutoff);
    assert |multiset(Unexpired(rs, cutoff))| + |multiset(Expired(rs, cutoff))| == |multiset(rs)|;
  }

  lemma {:induction false} ExpiryMultisets(rs: seq<TaskResult>, cutoff: int)
    ensures multiset(Unexpired(rs, cutoff)) + multiset(Expired(rs, cutoff)) == multiset(rs)
  {
    if rs != [] {
      var u, e := Unexpired(rs[1..], cutoff), Expired(rs[1..], cutoff);
      var hu: seq<TaskResult> := if rs[0].dateDone >= cutoff then [rs[0]] else [];
      var he: seq<TaskResult> := if rs[0].dateDone < cutoff then [rs[0]] else [];
      ExpiryMultisets(rs[1..], cutoff);
      assert multiset(hu) + multiset(he) == multiset{rs[0]};
      MultisetCons(rs);
      RegroupMultisets(hu, he, u, e);
    }
  }

  lemma MultisetCons<T>(s: seq<T>)
    requires s != []
    ensures multiset(s) == multiset{s[0]} + multiset(s[1..])
  {
    assert s == [s[0]] + s[1..];
  }

  lemma RegroupMultisets<T>(a: seq<T>, b: seq<T>, c: seq<T>, d: seq<T>)
    ensures multiset(a + c) + multiset(b + d) == (multiset(a) + multiset(b)) + (multiset(c) + multiset(d))
  {
  }

  lemma {:induction false} ExpiredMembers(rs: seq<TaskResult>, cutoff: int)
    ensures forall r :: r in Expired(rs, cutoff) <==> r in rs && r.dateDone < cutoff
  {
    if rs != [] {
      ExpiredMembers(rs[1..], cutoff);
      assert rs == [rs[0]] + rs[1..];
    }
  }

  /** Running the expiry again at the same time removes nothing more. */
  lemma {:induction false} ExpiryIdempotent(rs: seq<TaskResult>, cutoff: int)
    ensures Unexpired(Unexpired(rs, cutoff), cutoff) == Unexpired(rs, cutoff)
  {
    if rs != [] {
      ExpiryIdempotent(rs[1..], cutoff);
      var tail := Unexpired(rs[1..], cutoff);
      if rs[0].dateDone >= cutoff {
        assert Unexpired(rs, cutoff) == [rs[0]] + tail;
        assert ([rs[0]] + tail)[1..] == tail;
        assert Unexpired([rs[0]] + tail, cutoff) == [rs[0]] + Unexpired(tail, cutoff);
      } else {
        assert Unexpired(rs, cutoff) == tail;
      }
    }
  }

  /** In the development environment no mail is built, whatever the table holds. */
  lemma DevSendsNothing(settingsModule: Option<string>)
    requires settingsModule == Some("config.settings.dev")
    ensures ConfigUtils.RunningDev(settingsModule)
  {
    ConfigUtils.NamedEnvironments();
  }

  lemma NoneFailed(rs: seq<TaskResult>, since: int)
    requires forall r :: r in rs ==> !Failed(r, since)
    ensures FailedSince(rs, since) == []
  {
    NoFailedRows(rs, since);
    assert |multiset(FailedSince(rs, since))| == 0;
  }

  lemma {:induction false} NoFailedRows(rs: seq<TaskResult>, since: int)
    requires forall r :: r in rs ==> !Failed(r, since)
    ensures FailedRows(rs, since) == []
  {
    if rs != [] {
      assert rs[0] in rs;
      NoFailedRows(rs[1..], since);
    }
  }

  /** Ordered by task name, the results name their tasks in strictly increasing order once duplicates go. */
  lemma {:induction false} SortedNamesDedup(s: seq<TaskResult>)
    requires SortedByNameDate(s)
    ensures StrictlySorted(Dedup(NamesOf(s)))
    decreases |s|
  {
    if s != [] {
      var n := |s| - 1;
      var f := s[..n];
      assert SortedByNameDate(f);
      SortedNamesDedup(f);
      DedupNamesSnoc(s, n);
      assert s[..n + 1] == s;
      var d := Dedup(NamesOf(f));
      var x := s[n].taskName;
      if x !in d {
        forall i | 0 <= i < |d| ensures StrLt(d[i], x) {
          assert d[i] in NamesOf(f);
          var k :| 0 <= k < |f| && NamesOf(f)[k] == d[i];
          assert NameDateLe(s[k], s[n]);
          StrCmpZero(d[i], x);
        }
        SnocStrictlySorted(d, x);
      }
    }
  }

  lemma SnocStrictlySorted(d: seq<string>, x: string)
    requires StrictlySorted(d)
    requires forall i :: 0 <= i < |d| ==> StrLt(d[i], x)
    ensures StrictlySorted(d + [x])
  {
    var r := d + [x];
    forall i, j | 0 <= i < j < |r|
      ensures StrLt(r[i], r[j])
    {
      assert r[i] == d[i];
    }
  }

  /**
   * The report follows the query's order: when some task failed, the body is the header and one section per
   * failed task, the tasks in strictly increasing name order, and each task's errors taken in the order the
   * task's results finished.
   */
  lemma SectionsFollowTaskNames(results: seq<TaskResult>, now: int)
    ensures var since := Threshold(results, now);
      var failed := FailedSince(results, since);
      var names := Dedup(NamesOf(failed));
      failed != [] ==>
        FailedTasksEmail(results, now).body == ReportHeader(since) + TaskSections(names, failed) &&
        StrictlySorted(names) &&
        (forall n :: n in names <==> exists r :: r in results && Failed(r, since) && r.taskName == n) &&
        (forall i, j :: 0 <= i < j < |failed| && failed[i].taskName == failed[j].taskName ==>
           failed[i].dateDone <= failed[j].dateDone)
  {
    var since := Threshold(results, now);
    var failed := FailedSince(results, since);
    SortedNamesDedup(failed);
    FailedNames(results, since);
  }

  /** The task names of the failed results are those of the table's failed results. */
  lemma FailedNames(results: seq<TaskResult>, since: int)
    ensures var failed := FailedSince(results, since);
      forall n :: n in NamesOf(failed) <==> exists r :: r in results && Failed(r, since) && r.taskName == n
  {
    var failed := FailedSince(results, since);
    forall n ensures n in NamesOf(failed) <==> exists r :: r in results && Failed(r, since) && r.taskName == n {
      if n in NamesOf(failed) {
        var k :| 0 <= k < |failed| && NamesOf(failed)[k] == n;
        assert failed[k] in failed;
      }
      if r :| r in results && Failed(r, since) && r.taskName == n {
        var k :| 0 <= k < |failed| && failed[k] == r;
        assert NamesOf(failed)[k] == n;
      }
    }
  }

  /** Without failures since the threshold, the report says so after its header, and the subject counts 0. */
  lemma NoFailuresReport(results: seq<TaskResult>, now: int)
    requires forall r :: r in results ==> !Failed(r, Threshold(results, now))
    ensures FailedTasksEmail(results, now).body == ReportHeader(Threshold(results, now)) + NoFailures
    ensures FailedTasksEmail(results, now).subject ==
            Subject(RefreshSince(results, EmailFailedTasksName, now), 0)
  {
    var since := Threshold(results, now);
    var failed := FailedSince(results, since);
    NoneFailed(results, since);
    assert FailedTasksEmail(results, now) ==
           Email(Subject(RefreshSince(results, EmailFailedTasksName, now), |failed|), ReportBody(failed, since));
  }

  /** Each task's section header counts all of that task's failures. */
  lemma GroupTotal(failed: seq<TaskResult>, name: string)
    ensures Total(Dedup(ErrorsOf(failed, name)), ErrorsOf(failed, name)) == |ErrorsOf(failed, name)|
    ensures |ErrorsOf(failed, name)| == multiset(NamesOf(failed))[name]
  {
    CountsAddUp(ErrorsOf(failed, name));
  }

  /** The task sections together account for every failure exactly once. */
  lemma GroupsCoverFailures(failed: seq<TaskResult>)
    ensures GroupSizes(Dedup(NamesOf(failed)), failed) == |failed|
  {
    GroupSizesTotal(Dedup(NamesOf(failed)), failed);
    CountsAddUp(NamesOf(failed));
  }

  /** The number of failures in the groups of `names`. */
  function GroupSizes(names: seq<string>, failed: seq<TaskResult>): nat
  {
    if names == [] then 0 else GroupSizes(names[..|names| - 1], failed) + |ErrorsOf(failed, names[|names| - 1])|
  }

  lemma {:induction false} GroupSizesTotal(names: seq<string>, failed: seq<TaskResult>)
    ensures GroupSizes(names, failed) == Total(names, NamesOf(failed))
  {
    if names != [] {
      GroupSizesTotal(names[..|names| - 1], failed);
    }
  }

  /**
   * A section lists each distinct error of its task exactly once, from the most frequent to the least, and the
   * counts it prints add up to the header's total.
   */
  lemma SectionOrder(errors: seq<ErrorTriple>)
    ensures var listed := SortByCount(Dedup(errors), errors);
      Descending(listed, errors) &&
      (forall e :: e in listed <==> e in errors) &&
      (forall e :: e in listed ==> multiset(listed)[e] == 1) &&
      Total(Dedup(errors), errors) == |errors| &&
      forall c: nat :: WithCount(listed, errors, c) == WithCount(Dedup(errors), errors, c)
  {
    forall c: nat ensures WithCount(SortByCount(Dedup(errors), errors), errors, c) == WithCount(Dedup(errors), errors, c) {
      SortByCountStable(Dedup(errors), errors, c);
    }
    var listed := SortByCount(Dedup(errors), errors);
    DistinctOnce(Dedup(errors));
    assert forall e :: e in listed <==> e in multiset(Dedup(errors));
    CountsAddUp(errors);
  }

  lemma {:induction false} DistinctOnce<T(!new)>(s: seq<T>)
    requires Distinct(s)
    ensures forall e :: e in s ==> multiset(s)[e] == 1
  {
    if s != [] {
      var f := s[..|s| - 1];
      assert Distinct(f);
      DistinctOnce(f);
      assert s == f + [s[|s| - 1]];
      assert s[|s| - 1] !in f;
    }
  }
}
