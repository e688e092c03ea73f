/** The values behind the dashboard: tasks, the activity log, and the pure parts of its
    actions (the new task list each one computes, the log entries it writes, the progress
    figures shown). */
module TaskList {
  import opened JsNumbers

  datatype Task = Task(id: int, content: string, time: string, completed: bool, comments: string)

  /** A log entry: what happened and the ISO timestamp of when. */
  datatype Activity = Activity(action: string, time: string)

  /** The log keeps the 50 newest entries. */
  const LogCapacity: nat := 50

  function Min(a: int, b: int): int
  {
    if a < b then a else b
  }

  /** `[entry, ...log].slice(0, 50)`: the entry goes first, the previous entries follow in order,
      and only the first 50 are kept. */
  function Logged(log: seq<Activity>, entry: Activity): (r: seq<Activity>)
    ensures |r| == Min(|log| + 1, LogCapacity)
    ensures r[0] == entry
    ensures forall i :: 1 <= i < |r| ==> r[i] == log[i - 1]
  {
    var all := [entry] + log;
    if |all| <= LogCapacity then all else all[..LogCapacity]
  }

  /** The log after `entries` are added one after the other, oldest first. */
  function LogAll(log: seq<Activity>, entries: seq<Activity>): seq<Activity>
  {
    if entries == [] then log else Logged(LogAll(log, entries[..|entries| - 1]), entries[|entries| - 1])
  }

  lemma LogAllStep(log: seq<Activity>, entries: seq<Activity>, entry: Activity)
    ensures LogAll(log, entries + [entry]) == Logged(LogAll(log, entries), entry)
  {
    assert (entries + [entry])[..|entries|] == entries;
  }

  function Reversed<T>(s: seq<T>): (r: seq<T>)
    ensures |r| == |s|
    ensures forall i :: 0 <= i < |s| ==> r[i] == s[|s| - 1 - i]
  {
    if s == [] then [] else [s[|s| - 1]] + Reversed(s[..|s| - 1])
  }

  /** Adding entries one at a time leaves the newest first, then the older log, cut at 50. */
  lemma {:induction false} LogAllNewestFirst(log: seq<Activity>, entries: seq<Activity>)
    requires entries != []
    ensures LogAll(log, entries)
         == (Reversed(entries) + log)[..Min(|entries| + |log|, LogCapacity)]
  {
    var older := entries[..|entries| - 1];
    if older == [] {
      LogOne(log, entries);
    } else {
      LogAllNewestFirst(log, older);
      LogAllNext(log, older, entries[|entries| - 1]);
      assert older + [entries[|entries| - 1]] == entries;
    }
  }

  /** The base case: one entry goes in front of the log. */
  lemma LogOne(log: seq<Activity>, entries: seq<Activity>)
    requires |entries| == 1
    ensures LogAll(log, entries) == (Reversed(entries) + log)[..Min(1 + |log|, LogCapacity)]
  {
    assert entries[..0] == [];
    assert Reversed(entries) == [entries[0]];
  }

  /** The step: if the older entries are newest first, so are they with one more in front. */
  lemma LogAllNext(log: seq<Activity>, older: seq<Activity>, last: Activity)
    requires LogAll(log, older) == (Reversed(older) + log)[..Min(|older| + |log|, LogCapacity)]
    ensures LogAll(log, older + [last])
         == (Reversed(older + [last]) + log)[..Min(|older| + 1 + |log|, LogCapacity)]
  {
    var p := Reversed(older) + log;
    assert |p| == |older| + |log|;
    calc {
      LogAll(log, older + [last]);
    == { LogAllStep(log, older, last); }
      Logged(LogAll(log, older), last);
    ==
      Logged(p[..Min(|p|, LogCapacity)], last);
    == { LoggedOfCut(p, last); }
      ([last] + p)[..Min(|p| + 1, LogCapacity)];
    == { FrontOfReversed(older, last, log); }
      (Reversed(older + [last]) + log)[..Min(|older| + 1 + |log|, LogCapacity)];
    }
  }

  lemma FrontOfReversed(older: seq<Activity>, last: Activity, log: seq<Activity>)
    ensures [last] + (Reversed(older) + log) == Reversed(older + [last]) + log
  {
    ReversedSnoc(older, last);
    assert [last] + (Reversed(older) + log) == ([last] + Reversed(older)) + log;
  }

  lemma ReversedSnoc<T>(s: seq<T>, x: T)
    ensures Reversed(s + [x]) == [x] + Reversed(s)
  {
    assert (s + [x])[..|s|] == s;
  }

  /** Logging after a cut at 50 is logging before it: the cut only drops entries that the next
      cut would drop anyway. */
  lemma LoggedOfCut(p: seq<Activity>, entry: Activity)
    ensures Logged(p[..Min(|p|, LogCapacity)], entry) == ([entry] + p)[..Min(|p| + 1, LogCapacity)]
  {
    var r := Logged(p[..Min(|p|, LogCapacity)], entry);
    var q := ([entry] + p)[..Min(|p| + 1, LogCapacity)];
    assert |r| == |q|;
    forall i | 0 <= i < |r|
      ensures r[i] == q[i]
    {
    }
  }

  /** A log within the cap stays within it. */
  lemma LogAllCapped(log: seq<Activity>, entries: seq<Activity>)
    requires |log| <= LogCapacity
    ensures |LogAll(log, entries)| <= LogCapacity
  {
    if entries != [] {
      LogAllNewestFirst(log, entries);
    }
  }

  // ----- the task list -----

  /** `{ ...t, completed: !t.completed }` for the task with id `id`; other tasks as they are. */
  function Flip(t: Task, id: int): Task
  {
    if t.id == id then t.(completed := !t.completed) else t
  }

  /** `tasks.map(...)` in `toggleTask`. */
  function Toggled(tasks: seq<Task>, id: int): (r: seq<Task>)
    ensures |r| == |tasks|
  {
    seq(|tasks|, i requires 0 <= i < |tasks| => Flip(tasks[i], id))
  }

  /** Toggling flips the completion of exactly the tasks with that id, and changes nothing else of
      any task, nor the order. */
  lemma ToggleEffect(tasks: seq<Task>, id: int)
    ensures var r := Toggled(tasks, id);
      forall i :: 0 <= i < |tasks| ==>
        && r[i].(completed := tasks[i].completed) == tasks[i]
        && (r[i].completed != tasks[i].completed <==> tasks[i].id == id)
  {
  }

  /** Toggling twice restores the list. */
  lemma ToggleTwice(tasks: seq<Task>, id: int)
    ensures Toggled(Toggled(tasks, id), id) == tasks
  {
    assert forall i :: 0 <= i < |tasks| ==> Toggled(Toggled(tasks, id), id)[i] == tasks[i];
  }

  /** The log line `handleAddTask` writes for a new task with this content. */
  function AddAction(content: string): string
  {
    "Added task: \"" + content + "\""
  }

  /** The log line `toggleTask` writes for a matching task, before it flips it. */
  function ToggleAction(t: Task): string
  {
    (if !t.completed then "Completed" else "Unchecked") + ": \"" + t.content + "\""
  }

  /** The entries `toggleTask` logs: one per task with that id, in list order. */
  function ToggleEntries(tasks: seq<Task>, id: int, stamp: string): (r: seq<Activity>)
    ensures |r| <= |tasks|
    ensures forall k :: 0 <= k < |r| ==> r[k].time == stamp
  {
    if tasks == [] then []
    else
      var last := tasks[|tasks| - 1];
      ToggleEntries(tasks[..|tasks| - 1], id, stamp)
        + (if last.id == id then [Activity(ToggleAction(last), stamp)] else [])
  }

  /** One more task adds its entry, if it has the id, after those of the tasks before it. */
  lemma ToggleEntriesStep(tasks: seq<Task>, i: nat, id: int, stamp: string)
    requires i < |tasks|
    ensures tasks[i].id == id ==>
      ToggleEntries(tasks[..i + 1], id, stamp)
        == ToggleEntries(tasks[..i], id, stamp) + [Activity(ToggleAction(tasks[i]), stamp)]
    ensures tasks[i].id != id ==>
      ToggleEntries(tasks[..i + 1], id, stamp) == ToggleEntries(tasks[..i], id, stamp)
  {
    assert tasks[..i + 1][..i] == tasks[..i];
    assert ToggleEntries(tasks[..i], id, stamp) + [] == ToggleEntries(tasks[..i], id, stamp);
  }

  /** The number of tasks with the given id. */
  function Matching(tasks: seq<Task>, id: int): (n: nat)
    ensures n <= |tasks|
  {
    if tasks == [] then 0 else Matching(tasks[..|tasks| - 1], id) + (if tasks[|tasks| - 1].id == id then 1 else 0)
  }

  /** One entry per matching task; none when no task has the id. */
  lemma {:induction false} ToggleEntriesCount(tasks: seq<Task>, id: int, stamp: string)
    ensures |ToggleEntries(tasks, id, stamp)| == Matching(tasks, id)
    ensures (forall i :: 0 <= i < |tasks| ==> tasks[i].id != id) ==> ToggleEntries(tasks, id, stamp) == []
  {
    if tasks != [] {
      ToggleEntriesCount(tasks[..|tasks| - 1], id, stamp);
    }
  }

  /** `tasks.map(t => t.id === edited.id ? edited : t)` in `saveEdit`. */
  function Replaced(tasks: seq<Task>, edited: Task): (r: seq<Task>)
    ensures |r| == |tasks|
  {
    seq(|tasks|, i requires 0 <= i < |tasks| => if tasks[i].id == edited.id then edited else tasks[i])
  }

  /** Every task with the edited task's id becomes the edited task; every other task stays in its
      place; replacing again changes nothing more. */
  lemma ReplaceEffect(tasks: seq<Task>, edited: Task)
    ensures var r := Replaced(tasks, edited);
      && (forall i :: 0 <= i < |tasks| ==> (r[i] == edited <==> tasks[i].id == edited.id || tasks[i] == edited))
      && (forall i :: 0 <= i < |tasks| && tasks[i].id != edited.id ==> r[i] == tasks[i])
      && Replaced(r, edited) == r
  {
  }

  /** `tasks.filter(t => t.id !== id)` in `confirmDelete`. */
  function Removed(tasks: seq<Task>, id: int): (r: seq<Task>)
    ensures |r| <= |tasks|
  {
    if tasks == [] then []
    else
      var last := tasks[|tasks| - 1];
      Removed(tasks[..|tasks| - 1], id) + (if last.id == id then [] else [last])
  }

  /** The tasks left are exactly the tasks without the id. */
  lemma {:induction false} RemovedMembers(tasks: seq<Task>, id: int)
    ensures forall t :: t in Removed(tasks, id) <==> t in tasks && t.id != id
  {
    if tasks != [] {
      var init, last := tasks[..|tasks| - 1], tasks[|tasks| - 1];
      RemovedMembers(init, id);
      assert tasks == init + [last];
    }
  }

  /** Removal drops exactly the matching tasks: the rest keep their relative order (removal
      works piece by piece), and a list without the id is left as it is. */
  lemma {:induction false} RemovedSplits(a: seq<Task>, b: seq<Task>, id: int)
    ensures Removed(a + b, id) == Removed(a, id) + Removed(b, id)
    decreases |b|
  {
    if b == [] {
      assert a + b == a;
    } else {
      assert (a + b)[..|a + b| - 1] == a + b[..|b| - 1];
      RemovedSplits(a, b[..|b| - 1], id);
    }
  }

  lemma {:induction false} RemovedCount(tasks: seq<Task>, id: int)
    ensures |Removed(tasks, id)| + Matching(tasks, id) == |tasks|
    ensures Matching(tasks, id) == 0 ==> Removed(tasks, id) == tasks
  {
    if tasks != [] {
      var init, last := tasks[..|tasks| - 1], tasks[|tasks| - 1];
      RemovedCount(init, id);
      assert Removed(tasks, id) == Removed(init, id) + (if last.id == id then [] else [last]);
      assert init + [last] == tasks;
    }
  }

  /** `tasks.find(t => t.id === id)`: the first task with the id, if any. */
  function Find(tasks: seq<Task>, id: int): (r: Option<Task>)
    ensures r.Some? ==> r.value in tasks && r.value.id == id
    ensures r.None? <==> forall i :: 0 <= i < |tasks| ==> tasks[i].id != id
  {
    if tasks == [] then None
    else if tasks[0].id == id then Some(tasks[0])
    else
      var r := Find(tasks[1..], id);
      assert forall i :: 1 <= i < |tasks| ==> tasks[i] == tasks[1..][i - 1];
      r
  }

  /** `Find` returns the first match: no earlier task has the id. */
  lemma {:induction false} FindFirst(tasks: seq<Task>, id: int)
    ensures Find(tasks, id).Some? ==>
      exists i :: 0 <= i < |tasks| && tasks[i] == Find(tasks, id).value
                  && forall j :: 0 <= j < i ==> tasks[j].id != id
  {
    if tasks != [] && tasks[0].id != id {
      FindFirst(tasks[1..], id);
      if Find(tasks, id).Some? {
        var i :| 0 <= i < |tasks[1..]| && tasks[1..][i] == Find(tasks, id).value
                 && forall j :: 0 <= j < i ==> tasks[1..][j].id != id;
        assert tasks[i + 1] == Find(tasks, id).value;
        assert forall j :: 1 <= j < i + 1 ==> tasks[j] == tasks[1..][j - 1];
      }
    } else if tasks != [] {
      assert tasks[0] == Find(tasks, id).value;
    }
  }

  /** The log line `confirmDelete` writes; `task?.content` of a missing task prints `undefined`. */
  function DeleteAction(found: Option<Task>): string
  {
    "Deleted task: \"" + (if found.Some? then found.value.content else "undefined") + "\""
  }

  // ----- progress -----

  /** `tasks.filter(t => t.completed).length`. */
  function CompletedCount(tasks: seq<Task>): (n: nat)
    ensures n <= |tasks|
  {
    if tasks == [] then 0 else CompletedCount(tasks[..|tasks| - 1]) + (if tasks[|tasks| - 1].completed then 1 else 0)
  }

  /** Every task completed exactly when the count reaches the length; none when it is 0. */
  lemma {:induction false} CompletedCountExtremes(tasks: seq<Task>)
    ensures CompletedCount(tasks) == |tasks| <==> forall i :: 0 <= i < |tasks| ==> tasks[i].completed
    ensures CompletedCount(tasks) == 0 <==> forall i :: 0 <= i < |tasks| ==> !tasks[i].completed
  {
    if tasks != [] {
      var init := tasks[..|tasks| - 1];
      CompletedCountExtremes(init);
      assert forall i :: 0 <= i < |init| ==> init[i] == tasks[i];
    }
  }

  /** Adding a task that is not completed leaves the count as it is. */
  lemma {:induction false} CompletedCountPrepend(t: Task, tasks: seq<Task>)
    requires !t.completed
    ensures CompletedCount([t] + tasks) == CompletedCount(tasks)
    decreases |tasks|
  {
    if tasks != [] {
      assert ([t] + tasks)[..|tasks|] == [t] + tasks[..|tasks| - 1];
      CompletedCountPrepend(t, tasks[..|tasks| - 1]);
    }
  }

  /** `Math.round((completed / total) * 100)`, or 0 for an empty list. */
  function ProgressPercent(tasks: seq<Task>): (p: int)
    ensures 0 <= p <= 100
  {
    if |tasks| > 0 then
      var c, n := CompletedCount(tasks) as real, |tasks| as real;
      FractionInUnit(c, n);
      RoundBetween(0, (c / n) * 100.0, 100);
      Round((c / n) * 100.0)
    else 0
  }

  /** A count out of a positive total, as a fraction, lies in [0, 1]. */
  lemma FractionInUnit(c: real, n: real)
    requires 0.0 <= c <= n && 0.0 < n
    ensures 0.0 <= c / n <= 1.0
  {
    var f := c / n;
    assert f * n == c;
    if f > 1.0 {
      calc {
        c;
      ==
        f * n;
      == { MulDistributes(f, 1.0, n); }
        (f - 1.0) * n + n;
      > { MulSign(f - 1.0, n); }
        n;
      }
    }
  }

  /** The percentage lies in 0..100; it is 0 for an empty list or with nothing completed, and
      100 exactly when every task is completed. */
  lemma ProgressBounds(tasks: seq<Task>)
    ensures 0 <= ProgressPercent(tasks) <= 100
    ensures (forall i :: 0 <= i < |tasks| ==> !tasks[i].completed) ==> ProgressPercent(tasks) == 0
    ensures (|tasks| > 0 && forall i :: 0 <= i < |tasks| ==> tasks[i].completed) ==> ProgressPercent(tasks) == 100
  {
    CompletedCountExtremes(tasks);
    if |tasks| > 0 {
      var c, n := CompletedCount(tasks) as real, |tasks| as real;
      FractionInUnit(c, n);
      RoundBetween(0, (c / n) * 100.0, 100);
      PercentExtremes(c, n);
      if c == n {
        RoundOfInt(100);
      }
      if c == 0.0 {
        RoundOfInt(0);
      }
    }
  }

  /** All of a positive total is 100 percent of it, none of it 0 percent. */
  lemma PercentExtremes(c: real, n: real)
    requires 0.0 < n
    ensures c == n ==> (c / n) * 100.0 == 100.0
    ensures c == 0.0 ==> (c / n) * 100.0 == 0.0
  {
  }

  /** Spreading a count over one more item gives a smaller share. */
  lemma ShareShrinks(c: real, n: real)
    requires 0.0 <= c && 0.0 < n
    ensures c / (n + 1.0) <= c / n
  {
    var a, b := c / (n + 1.0), c / n;
    assert a * (n + 1.0) == c && b * n == c;
    assert 0.0 <= a by {
      if a < 0.0 {
        MulSign(-a, n + 1.0);
      }
    }
    MulSign(a, 1.0);
    MulDistributes(a, b, n);
  }

  /** Adding a task that is not completed never raises the progress percentage. */
  lemma AddNeverRaisesProgress(t: Task, tasks: seq<Task>)
    requires !t.completed
    ensures ProgressPercent([t] + tasks) <= ProgressPercent(tasks)
  {
    CompletedCountPrepend(t, tasks);
    var c, n := CompletedCount(tasks) as real, |tasks| as real;
    if |tasks| == 0 {
      assert CompletedCount([t] + tasks) == 0;
      assert (0.0 / 1.0) * 100.0 == 0.0;
      RoundOfInt(0);
    } else {
      assert |[t] + tasks| as real == n + 1.0;
      ShareShrinks(c, n);
      RoundMonotone((c / (n + 1.0)) * 100.0, (c / n) * 100.0);
    }
  }

  /** The circumference of the progress ring, as the dash array gives it. */
  const RingLength: real := 377.0

  /** `377 - (377 * progressPercent) / 100`: the undrawn part of the ring. */
  function RingOffset(percent: int): (offset: real)
    ensures 0 <= percent <= 100 ==> 0.0 <= offset <= RingLength
    ensures percent == 0 <==> offset == RingLength
  {
    RingLength - (RingLength * percent as real) / 100.0
  }

  /** The offset stays within the ring: all of it undrawn at 0%, none at 100%. */
  lemma RingOffsetRange(tasks: seq<Task>)
    ensures 0.0 <= RingOffset(ProgressPercent(tasks)) <= RingLength
    ensures ProgressPercent(tasks) == 0 ==> RingOffset(ProgressPercent(tasks)) == RingLength
    ensures ProgressPercent(tasks) == 100 ==> RingOffset(ProgressPercent(tasks)) == 0.0
  {
    ProgressBounds(tasks);
  }
}
