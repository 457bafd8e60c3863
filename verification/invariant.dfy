/**
 * The scheduler invariant `Inv` (unique ids, positive intervals, one
 * countdown per task, each in `[0, interval*60]`) holds after start-up and
 * is kept by every command, given a fresh id for "add" and, for a direct
 * interval update, a positive interval — which the interval field's guard
 * and the preset buttons supply.
 */
module InvariantProperties {
  import opened Wrappers
  import opened Tasks
  import opened Scheduler
  import TickProperties
  import CommandProperties

  /** Seeding gives each listed task without an entry its full countdown. */
  lemma {:induction false} SeedCountdownsFull(cds: map<TaskId, int>, ts: seq<Task>)
    requires UniqueIds(ts)
    ensures forall t | t in ts && t.id !in cds :: SeedCountdowns(cds, ts)[t.id] == FullCountdown(t)
    decreases |ts|
  {
    if |ts| > 0 {
      UniqueTail(ts);
      var cds' := if ts[0].id in cds then cds else cds[ts[0].id := FullCountdown(ts[0])];
      SeedCountdownsFull(cds', ts[1..]);
      forall t | t in ts && t.id !in cds ensures SeedCountdowns(cds, ts)[t.id] == FullCountdown(t) {
        if t != ts[0] {
          assert t in ts[1..];
        }
      }
    }
  }

  /**
   * Start-up with a well-formed task list gives every task its full
   * countdown, unpaused, with no popup.
   */
  lemma InitEstablishesInv(tasks: seq<Task>, stats: Stats, soundEnabled: bool)
    requires UniqueIds(tasks) && forall t | t in tasks :: t.interval > 0
    ensures Inv(Init(tasks, stats, soundEnabled))
    ensures forall t | t in tasks :: Init(tasks, stats, soundEnabled).countdowns[t.id] == FullCountdown(t)
    ensures !Init(tasks, stats, soundEnabled).paused && Init(tasks, stats, soundEnabled).popup.None?
  {
    SeedCountdownsFull(map[], tasks);
  }

  /** The built-in tasks start as 2700, 3600 and 1200 seconds. */
  lemma DefaultInit(stats: Stats, soundEnabled: bool)
    ensures Inv(Init(DefaultTasks, stats, soundEnabled))
    ensures Init(DefaultTasks, stats, soundEnabled).countdowns == map[SitId := 2700, WaterId := 3600, EyeId := 1200]
  {
    DefaultTasksWellFormed();
    InitEstablishesInv(DefaultTasks, stats, soundEnabled);
    assert DefaultTasks[0] in DefaultTasks && DefaultTasks[1] in DefaultTasks && DefaultTasks[2] in DefaultTasks;
  }

  lemma TickKeepsInv(s: State)
    requires Inv(s)
    ensures Inv(Tick(s).state)
  {
    TickProperties.TickPreservesInv(s);
  }

  lemma DismissKeepsInv(s: State)
    requires Inv(s)
    ensures Inv(Dismiss(s).state)
  {
    if s.popup.Some? && s.popup.value.id in Ids(s.tasks) {
      var t := Find(s.tasks, s.popup.value.id).value;
      forall u | u in s.tasks ensures 0 <= Dismiss(s).state.countdowns[u.id] <= FullCountdown(u) {
        if u.id == t.id {
          FindMember(s.tasks, u);
        }
      }
    }
  }

  lemma AddTaskKeepsInv(s: State, id: TaskId)
    requires Inv(s) && id !in Ids(s.tasks)
    ensures Inv(AddTask(s, id).state)
  {
    UniqueSnoc(s.tasks, NewTask(id));
    var s' := AddTask(s, id).state;
    forall u | u in s'.tasks ensures u.interval > 0 && 0 <= s'.countdowns[u.id] <= FullCountdown(u) {
      if u != NewTask(id) {
        assert u in s.tasks;
      }
    }
  }

  lemma RemoveTaskKeepsInv(s: State, id: TaskId)
    requires Inv(s)
    ensures Inv(RemoveTask(s, id).state)
  {
    WithoutIdUnique(s.tasks, id);
  }

  /** Patching the task at position `k` keeps the list's ids and their uniqueness. */
  lemma PatchKeepsIds(ts: seq<Task>, k: nat, t: Task)
    requires UniqueIds(ts) && k < |ts| && t.id == ts[k].id
    ensures UniqueIds(ts[k := t])
    ensures Ids(ts[k := t]) == Ids(ts)
  {
    var us := ts[k := t];
    forall i, j | 0 <= i < |us| && 0 <= j < |us| && us[i].id == us[j].id ensures i == j {
      assert ts[i].id == ts[j].id;
    }
    forall x | x in Ids(us) ensures x in Ids(ts) {
      var u :| u in us && u.id == x;
      var i :| 0 <= i < |us| && us[i] == u;
      assert ts[i] in ts;
    }
    forall x | x in Ids(ts) ensures x in Ids(us) {
      var u :| u in ts && u.id == x;
      var i :| 0 <= i < |ts| && ts[i] == u;
      assert us[i] in us;
    }
  }

  lemma UpdateTaskKeepsInv(s: State, id: TaskId, p: Patch)
    requires Inv(s)
    requires p.interval.Some? ==> p.interval.value > 0
    ensures Inv(UpdateTask(s, id, p).state)
  {
    if id in Ids(s.tasks) {
      var k := FindIndex(s.tasks, id).value;
      var t := Apply(s.tasks[k], p);
      PatchKeepsIds(s.tasks, k, t);
      var s' := UpdateTask(s, id, p).state;
      forall u | u in s'.tasks ensures u.interval > 0 && 0 <= s'.countdowns[u.id] <= FullCountdown(u) {
        var i :| 0 <= i < |s'.tasks| && s'.tasks[i] == u;
        if i != k {
          assert s.tasks[i] in s.tasks;
          assert s.tasks[i].id != id;
        } else {
          assert s.tasks[k] in s.tasks;
        }
      }
    }
  }

  lemma TogglePauseKeepsInv(s: State)
    requires Inv(s)
    ensures Inv(TogglePause(s).state)
  {
  }

  lemma ResetAllKeepsInv(s: State)
    requires Inv(s)
    ensures Inv(ResetAll(s).state)
  {
    CommandProperties.ResetAllSpec(s);
  }

  lemma ResetTaskKeepsInv(s: State, id: TaskId)
    requires Inv(s)
    ensures Inv(ResetTask(s, id).state)
  {
    if id in Ids(s.tasks) {
      var s' := ResetTask(s, id).state;
      forall u | u in s.tasks ensures 0 <= s'.countdowns[u.id] <= FullCountdown(u) {
        if u.id == id {
          FindMember(s.tasks, u);
        }
      }
    }
  }

  lemma ToggleEnabledKeepsInv(s: State, id: TaskId)
    requires Inv(s)
    ensures Inv(ToggleEnabled(s, id).state)
  {
    if id != "" && id in Ids(s.tasks) {
      var k := FindIndex(s.tasks, id).value;
      var t := s.tasks[k].(enabled := !s.tasks[k].enabled);
      PatchKeepsIds(s.tasks, k, t);
      var s' := ToggleEnabled(s, id).state;
      forall u | u in s'.tasks ensures u.interval > 0 && 0 <= s'.countdowns[u.id] <= FullCountdown(u) {
        var i :| 0 <= i < |s'.tasks| && s'.tasks[i] == u;
        assert s.tasks[i] in s.tasks;
      }
    }
  }

  /** Whatever is typed into an interval field, the invariant survives. */
  lemma IntervalInputKeepsInv(s: State, id: TaskId, parsed: Option<int>)
    requires Inv(s)
    ensures Inv(IntervalInput(s, id, parsed).state)
  {
    if parsed.Some? && parsed.value > 0 {
      UpdateTaskKeepsInv(s, id, Patch(None, parsed));
    }
  }

  lemma PresetClickKeepsInv(s: State, id: TaskId, minutes: int)
    requires Inv(s) && minutes in PresetMinutes
    ensures Inv(PresetClick(s, id, minutes).state)
  {
    UpdateTaskKeepsInv(s, id, Patch(None, Some(minutes)));
  }

  lemma TitleEditKeepsInv(s: State, id: TaskId, text: string)
    requires Inv(s)
    ensures Inv(TitleEdit(s, id, text).state)
  {
    UpdateTaskKeepsInv(s, id, Patch(Some(text), None));
  }

  /**
   * `UpdateTask` itself does not check the interval: a negative one
   * reaching it directly would push the countdown below 0.
   */
  lemma UnguardedIntervalBreaksInv(s: State)
    requires Inv(s) && SitId in Ids(s.tasks)
    ensures !Inv(UpdateTask(s, SitId, Patch(None, Some(-1))).state)
  {
    var k := FindIndex(s.tasks, SitId).value;
    var s' := UpdateTask(s, SitId, Patch(None, Some(-1))).state;
    assert s'.tasks[k] in s'.tasks;
  }
}
