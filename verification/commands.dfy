/**
 * What each user command does to the scheduler state, and what it leaves
 * alone: dismissing the popup, adding, removing and updating tasks,
 * pausing, resetting, and the card handlers.
 */
module CommandProperties {
  import opened Wrappers
  import opened Tasks
  import opened Scheduler

  // ----------------------------------------------------------------- dismiss

  /**
   * Dismissing with no popup does nothing. Otherwise it counts a break for
   * "sit" or a cup for "water" (and nothing for any other id), restarts the
   * countdown of the task that still carries the popup's id, drops no other
   * countdown, clears the slot and saves the statistics.
   */
  lemma DismissSpec(s: State)
    ensures s.popup.None? ==> Dismiss(s) == Transition(s, [])
    ensures s.popup.Some? ==>
      var id := s.popup.value.id; var s' := Dismiss(s).state;
      && s'.popup.None?
      && s'.stats.sitBreaks == s.stats.sitBreaks + (if id == SitId then 1 else 0)
      && s'.stats.waterCups == s.stats.waterCups + (if id == WaterId then 1 else 0)
      && s'.tasks == s.tasks && s'.paused == s.paused && s'.soundEnabled == s.soundEnabled
      && (forall k | k in s.countdowns && k != id :: k in s'.countdowns && s'.countdowns[k] == s.countdowns[k])
      && (id !in Ids(s.tasks) ==> s'.countdowns == s.countdowns)
      && (id in Ids(s.tasks) ==>
            s'.countdowns.Keys == s.countdowns.Keys + {id}
            && s'.countdowns[id] == FullCountdown(Find(s.tasks, id).value))
      && Dismiss(s).effects == [SaveStats]
  {
  }

  /**
   * The restarted countdown uses the task's current interval, not the one
   * captured in the popup when it fired.
   */
  lemma DismissRestartsCurrentInterval(s: State, t: Task)
    requires UniqueIds(s.tasks) && t in s.tasks
    requires s.popup.Some? && s.popup.value.id == t.id
    ensures Dismiss(s).state.countdowns[t.id] == FullCountdown(t)
  {
    FindMember(s.tasks, t);
  }

  /** A second dismiss finds the slot empty and does nothing. */
  lemma DismissTwiceIsDismissOnce(s: State)
    ensures Dismiss(Dismiss(s).state) == Transition(Dismiss(s).state, [])
  {
  }

  // ------------------------------------------------------------------- CRUD

  /**
   * Adding appends exactly one enabled task with a 30-minute interval under
   * the given id, gives it a 1800-second countdown and saves the settings;
   * every earlier task and every other countdown is unchanged.
   */
  lemma AddTaskSpec(s: State, id: TaskId)
    ensures var s' := AddTask(s, id).state;
      && |s'.tasks| == |s.tasks| + 1
      && s'.tasks[..|s.tasks|] == s.tasks
      && s'.tasks[|s.tasks|].id == id
      && s'.tasks[|s.tasks|].enabled
      && s'.tasks[|s.tasks|].interval == 30
      && s'.countdowns.Keys == s.countdowns.Keys + {id}
      && s'.countdowns[id] == 1800
      && (forall k | k in s.countdowns && k != id :: s'.countdowns[k] == s.countdowns[k])
      && s' == s.(tasks := s'.tasks, countdowns := s'.countdowns)
      && AddTask(s, id).effects == [SaveSettings]
  {
  }

  /** Under a fresh id the new task is the one `find` returns for that id. */
  lemma AddTaskFindsNew(s: State, id: TaskId)
    requires UniqueIds(s.tasks) && id !in Ids(s.tasks)
    ensures Find(AddTask(s, id).state.tasks, id) == Some(NewTask(id))
  {
    UniqueSnoc(s.tasks, NewTask(id));
    FindMember(s.tasks + [NewTask(id)], NewTask(id));
  }

  /** Removing a task just added under a fresh id gives back the original state. */
  lemma RemoveUndoesAdd(s: State, id: TaskId)
    requires id !in Ids(s.tasks) && id !in s.countdowns
    ensures RemoveTask(AddTask(s, id).state, id).state == s
  {
    var ts := s.tasks + [NewTask(id)];
    assert WithoutId(ts, id) == s.tasks by {
      WithoutAppended(s.tasks, NewTask(id));
    }
    assert s.countdowns[id := NewTaskInterval * SecondsPerMinute] - {id} == s.countdowns;
  }

  /**
   * Removing drops every task carrying the id and its countdown entry,
   * keeps all other tasks and countdowns, and saves the settings. The popup
   * is left as it is, even when it shows the removed task.
   */
  lemma RemoveTaskSpec(s: State, id: TaskId)
    ensures var s' := RemoveTask(s, id).state;
      && (forall t :: t in s'.tasks <==> t in s.tasks && t.id != id)
      && id !in Ids(s'.tasks)
      && s'.countdowns.Keys == s.countdowns.Keys - {id}
      && (forall k | k in s'.countdowns :: s'.countdowns[k] == s.countdowns[k])
      && s' == s.(tasks := s'.tasks, countdowns := s'.countdowns)
      && RemoveTask(s, id).effects == [SaveSettings]
  {
  }

  /** With unique ids, removing the id at position `k` removes exactly that task. */
  lemma RemoveTaskExactlyOne(s: State, k: nat)
    requires UniqueIds(s.tasks) && k < |s.tasks|
    ensures RemoveTask(s, s.tasks[k].id).state.tasks == s.tasks[..k] + s.tasks[k + 1..]
  {
    WithoutIdAt(s.tasks, k);
  }

  /**
   * Updating an unknown id is a no-op with no save. Otherwise the first task
   * with the id is patched in place and nothing else in the list moves; an
   * update carrying an interval restarts that task's countdown from the new
   * `interval*60`, and one without an interval (a title) moves no countdown.
   */
  lemma UpdateTaskSpec(s: State, id: TaskId, p: Patch)
    ensures id !in Ids(s.tasks) ==> UpdateTask(s, id, p) == Transition(s, [])
    ensures id in Ids(s.tasks) ==>
      var k := FindIndex(s.tasks, id).value; var s' := UpdateTask(s, id, p).state;
      && |s'.tasks| == |s.tasks|
      && s'.tasks[k] == Apply(s.tasks[k], p)
      && (forall j | 0 <= j < |s.tasks| && j != k :: s'.tasks[j] == s.tasks[j])
      && (p.interval.None? ==> s'.countdowns == s.countdowns)
      && (p.interval.Some? ==>
            s'.countdowns.Keys == s.countdowns.Keys + {id}
            && s'.countdowns[id] == p.interval.value * 60
            && forall k' | k' in s.countdowns && k' != id :: s'.countdowns[k'] == s.countdowns[k'])
      && s' == s.(tasks := s'.tasks, countdowns := s'.countdowns)
      && UpdateTask(s, id, p).effects == [SaveSettings]
  {
  }

  // --------------------------------------------------------- pause and reset

  /** Pausing flips only the pause flag; flipping twice restores the state. */
  lemma TogglePauseSpec(s: State)
    ensures TogglePause(s).state.paused == !s.paused
    ensures TogglePause(s).state.(paused := s.paused) == s
    ensures TogglePause(TogglePause(s).state).state == s
  {
  }

  /** Restarting a unique-id list sets every listed task to its full countdown. */
  lemma {:induction false} ResetCountdownsFull(cds: map<TaskId, int>, ts: seq<Task>)
    requires UniqueIds(ts)
    ensures forall t | t in ts :: ResetCountdowns(cds, ts)[t.id] == FullCountdown(t)
    decreases |ts|
  {
    if |ts| > 0 {
      UniqueTail(ts);
      ResetCountdownsFull(cds[ts[0].id := FullCountdown(ts[0])], ts[1..]);
      forall t | t in ts ensures ResetCountdowns(cds, ts)[t.id] == FullCountdown(t) {
        if t != ts[0] {
          assert t in ts[1..];
        }
      }
    }
  }

  /**
   * For any task list, "reset all" gives every listed id an entry, leaves
   * the entries of other ids alone, resumes the clock, issues nothing and
   * changes nothing else.
   */
  lemma ResetAllFrame(s: State)
    ensures var s' := ResetAll(s).state;
      && s'.countdowns.Keys == s.countdowns.Keys + Ids(s.tasks)
      && (forall k | k in s.countdowns && k !in Ids(s.tasks) :: s'.countdowns[k] == s.countdowns[k])
      && !s'.paused
      && s' == s.(countdowns := s'.countdowns, paused := false)
      && ResetAll(s).effects == []
  {
  }

  /**
   * Over a unique-id list, "reset all" gives every task its full
   * `interval*60`, resumes the clock, and changes nothing else.
   */
  lemma ResetAllSpec(s: State)
    requires UniqueIds(s.tasks)
    ensures var s' := ResetAll(s).state;
      && (forall t | t in s.tasks :: s'.countdowns[t.id] == FullCountdown(t))
      && s'.countdowns.Keys == s.countdowns.Keys + Ids(s.tasks)
      && (forall k | k in s.countdowns && k !in Ids(s.tasks) :: s'.countdowns[k] == s.countdowns[k])
      && !s'.paused
      && s' == s.(countdowns := s'.countdowns, paused := false)
      && ResetAll(s).effects == []
  {
    ResetCountdownsFull(s.countdowns, s.tasks);
  }

  /**
   * On the listed ids, "reset all" writes values that do not depend on the
   * countdowns it starts from (with duplicate ids, the last task wins).
   */
  lemma {:induction false} ResetCountdownsForgets(c1: map<TaskId, int>, c2: map<TaskId, int>, ts: seq<Task>)
    ensures forall k | k in Ids(ts) :: ResetCountdowns(c1, ts)[k] == ResetCountdowns(c2, ts)[k]
    decreases |ts|
  {
    if |ts| > 0 {
      var f := FullCountdown(ts[0]);
      IdsCons(ts);
      ResetCountdownsForgets(c1[ts[0].id := f], c2[ts[0].id := f], ts[1..]);
    }
  }

  /** A second "reset all" changes nothing, whatever the ids. */
  lemma ResetAllIdempotent(s: State)
    ensures ResetAll(ResetAll(s).state) == ResetAll(s)
  {
    var r1 := ResetCountdowns(s.countdowns, s.tasks);
    var r2 := ResetCountdowns(r1, s.tasks);
    ResetCountdownsForgets(r1, s.countdowns, s.tasks);
    assert r2.Keys == r1.Keys;
    assert forall k | k in r2 :: r2[k] == r1[k];
    assert r2 == r1;
  }

  // ---------------------------------------------------- card event handlers

  /**
   * Clicking a card's ring restarts that task's countdown from its full
   * interval, touching nothing else; an unknown id is a no-op.
   */
  lemma ResetTaskSpec(s: State, id: TaskId)
    ensures id !in Ids(s.tasks) ==> ResetTask(s, id) == Transition(s, [])
    ensures id in Ids(s.tasks) ==>
      var s' := ResetTask(s, id).state;
      && s' == s.(countdowns := s'.countdowns)
      && s'.countdowns.Keys == s.countdowns.Keys + {id}
      && s'.countdowns[id] == FullCountdown(Find(s.tasks, id).value)
      && (forall k | k in s.countdowns && k != id :: s'.countdowns[k] == s.countdowns[k])
      && ResetTask(s, id).effects == []
  {
  }

  /** Two lists that carry the same ids position by position locate an id at the same place. */
  lemma {:induction false} FindIndexSameIds(ts: seq<Task>, us: seq<Task>, id: TaskId)
    requires |ts| == |us| && forall i | 0 <= i < |ts| :: ts[i].id == us[i].id
    ensures FindIndex(ts, id) == FindIndex(us, id)
    decreases |ts|
  {
    if |ts| > 0 && ts[0].id != id {
      assert us[0].id == ts[0].id;
      assert forall i | 0 <= i < |ts| - 1 :: ts[1..][i].id == ts[i + 1].id == us[i + 1].id == us[1..][i].id;
      FindIndexSameIds(ts[1..], us[1..], id);
    } else if |ts| > 0 {
      assert us[0].id == id;
    }
  }

  /**
   * Clicking a card's switch flips the enabled flag of the first task with
   * that id, moves no countdown and saves the settings; an empty or unknown
   * id is a no-op.
   */
  lemma ToggleEnabledSpec(s: State, id: TaskId)
    ensures (id == "" || id !in Ids(s.tasks)) ==> ToggleEnabled(s, id) == Transition(s, [])
    ensures id != "" && id in Ids(s.tasks) ==>
      var k := FindIndex(s.tasks, id).value; var s' := ToggleEnabled(s, id).state;
      && |s'.tasks| == |s.tasks|
      && s'.tasks[k] == s.tasks[k].(enabled := !s.tasks[k].enabled)
      && (forall j | 0 <= j < |s.tasks| && j != k :: s'.tasks[j] == s.tasks[j])
      && s' == s.(tasks := s'.tasks)
      && ToggleEnabled(s, id).effects == [SaveSettings]
  {
  }

  /** Flipping the same card's switch twice restores the state. */
  lemma ToggleEnabledTwice(s: State, id: TaskId)
    ensures ToggleEnabled(ToggleEnabled(s, id).state, id).state == s
  {
    var s1 := ToggleEnabled(s, id).state;
    if id != "" && id in Ids(s.tasks) {
      FindIndexSameIds(s.tasks, s1.tasks, id);
      var k := FindIndex(s.tasks, id).value;
      assert s1.tasks[k := s1.tasks[k].(enabled := !s1.tasks[k].enabled)] == s.tasks;
    }
  }

  /**
   * The interval field only acts on a positive parsed value: empty, NaN,
   * zero or negative input changes nothing and saves nothing.
   */
  lemma IntervalInputSpec(s: State, id: TaskId, parsed: Option<int>)
    ensures (parsed.None? || parsed.value <= 0 || id !in Ids(s.tasks)) ==> IntervalInput(s, id, parsed) == Transition(s, [])
    ensures parsed.Some? && parsed.value > 0 && id in Ids(s.tasks) ==>
      var k := FindIndex(s.tasks, id).value; var s' := IntervalInput(s, id, parsed).state;
      && s'.countdowns[id] == parsed.value * 60
      && Find(s'.tasks, id).Some?
      && Find(s'.tasks, id).value.interval == parsed.value
      && |s'.tasks| == |s.tasks|
      && s'.tasks[k] == s.tasks[k].(interval := parsed.value)
      && (forall j | 0 <= j < |s.tasks| && j != k :: s'.tasks[j] == s.tasks[j])
      && s'.countdowns.Keys == s.countdowns.Keys + {id}
      && (forall k' | k' in s.countdowns && k' != id :: s'.countdowns[k'] == s.countdowns[k'])
      && s' == s.(tasks := s'.tasks, countdowns := s'.countdowns)
      && IntervalInput(s, id, parsed).effects == [SaveSettings]
  {
    if parsed.Some? && parsed.value > 0 {
      UpdateTaskSpec(s, id, Patch(None, Some(parsed.value)));
      if id in Ids(s.tasks) {
        var s' := IntervalInput(s, id, parsed).state;
        FindIndexSameIds(s.tasks, s'.tasks, id);
      }
    }
  }

  /**
   * A preset button gives the first task with the id the button's minutes
   * as its interval and restarts its countdown at `minutes*60`, touching
   * nothing else, and saves; an unknown id is a no-op.
   */
  lemma PresetClickSpec(s: State, id: TaskId, minutes: int)
    ensures id !in Ids(s.tasks) ==> PresetClick(s, id, minutes) == Transition(s, [])
    ensures id in Ids(s.tasks) ==>
      var k := FindIndex(s.tasks, id).value; var s' := PresetClick(s, id, minutes).state;
      && Find(s'.tasks, id).Some?
      && Find(s'.tasks, id).value.interval == minutes
      && s'.countdowns[id] == minutes * 60
      && |s'.tasks| == |s.tasks|
      && s'.tasks[k] == s.tasks[k].(interval := minutes)
      && (forall j | 0 <= j < |s.tasks| && j != k :: s'.tasks[j] == s.tasks[j])
      && s'.countdowns.Keys == s.countdowns.Keys + {id}
      && (forall k' | k' in s.countdowns && k' != id :: s'.countdowns[k'] == s.countdowns[k'])
      && s' == s.(tasks := s'.tasks, countdowns := s'.countdowns)
      && PresetClick(s, id, minutes).effects == [SaveSettings]
  {
    UpdateTaskSpec(s, id, Patch(None, Some(minutes)));
    if id in Ids(s.tasks) {
      FindIndexSameIds(s.tasks, PresetClick(s, id, minutes).state.tasks, id);
    }
  }

  /**
   * Leaving an edited title gives the first task with the id that text as
   * its title, moves no countdown, touches nothing else, and saves; an
   * unknown id is a no-op.
   */
  lemma TitleEditSpec(s: State, id: TaskId, text: string)
    ensures id !in Ids(s.tasks) ==> TitleEdit(s, id, text) == Transition(s, [])
    ensures id in Ids(s.tasks) ==>
      var k := FindIndex(s.tasks, id).value; var s' := TitleEdit(s, id, text).state;
      && Find(s'.tasks, id).Some?
      && Find(s'.tasks, id).value.title == text
      && |s'.tasks| == |s.tasks|
      && s'.tasks[k] == s.tasks[k].(title := text)
      && (forall j | 0 <= j < |s.tasks| && j != k :: s'.tasks[j] == s.tasks[j])
      && s' == s.(tasks := s'.tasks)
      && TitleEdit(s, id, text).effects == [SaveSettings]
  {
    UpdateTaskSpec(s, id, Patch(Some(text), None));
    if id in Ids(s.tasks) {
      FindIndexSameIds(s.tasks, TitleEdit(s, id, text).state.tasks, id);
    }
  }

  /** Editing a title moves no countdown. */
  lemma TitleEditKeepsCountdowns(s: State, id: TaskId, text: string)
    ensures TitleEdit(s, id, text).state.countdowns == s.countdowns
    ensures TitleEdit(s, id, text).state.popup == s.popup
  {
  }
}
