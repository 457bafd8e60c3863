/**
 * What one tick does: the countdown of every enabled task with time left
 * drops by one, a due notification is raised exactly for the tasks that
 * step from 1 to 0, and the popup slot ends up holding the last of them.
 */
module TickProperties {
  import opened Wrappers
  import opened Tasks
  import opened Scheduler

  /** The value a task's own countdown steps to in one unpaused tick. */
  function Ticked(t: Task, c: int): int {
    if t.enabled && c > 0 then c - 1 else c
  }

  /** The task's countdown is at its last second, so this tick makes it due. */
  predicate FiresOn(t: Task, cds: map<TaskId, int>) {
    t.enabled && t.id in cds && cds[t.id] == 1
  }

  /** The tasks this tick makes due, in list order. */
  function DueTasks(ts: seq<Task>, cds: map<TaskId, int>): seq<Task>
    decreases |ts|
  {
    if |ts| == 0 then []
    else (if FiresOn(ts[0], cds) then [ts[0]] else []) + DueTasks(ts[1..], cds)
  }

  /** The effects of notifying each of `due`, one after another. */
  function AllNotificationEffects(soundEnabled: bool, due: seq<Task>): seq<Effect>
    decreases |due|
  {
    if |due| == 0 then []
    else NotificationEffects(soundEnabled, due[0]) + AllNotificationEffects(soundEnabled, due[1..])
  }

  /** What the popup slot holds after `due` have each overwritten it in turn. */
  function LastOr(due: seq<Task>, p: Option<Task>): Option<Task> {
    if |due| == 0 then p else Some(due[|due| - 1])
  }

  lemma {:induction false} DueTasksMembers(ts: seq<Task>, cds: map<TaskId, int>)
    ensures forall t :: t in DueTasks(ts, cds) <==> t in ts && FiresOn(t, cds)
    decreases |ts|
  {
    if |ts| > 0 {
      DueTasksMembers(ts[1..], cds);
      assert forall t | t in ts :: t == ts[0] || t in ts[1..];
    }
  }

  lemma {:induction false} DueTasksFrame(ts: seq<Task>, c1: map<TaskId, int>, c2: map<TaskId, int>)
    requires forall t | t in ts :: FiresOn(t, c1) == FiresOn(t, c2)
    ensures DueTasks(ts, c1) == DueTasks(ts, c2)
    decreases |ts|
  {
    if |ts| > 0 {
      assert ts[0] in ts;
      assert forall t | t in ts[1..] :: t in ts;
      DueTasksFrame(ts[1..], c1, c2);
    }
  }

  lemma NotificationEffectsCons(soundEnabled: bool, t: Task, rest: seq<Task>)
    ensures AllNotificationEffects(soundEnabled, [t] + rest)
         == NotificationEffects(soundEnabled, t) + AllNotificationEffects(soundEnabled, rest)
  {
    assert ([t] + rest)[1..] == rest;
  }

  /** One step of the `forEach`, seen from the countdown map. */
  lemma TickStepCountdowns(r: Transition, t: Task)
    ensures var cds := r.state.countdowns;
      TickStep(r, t).state.countdowns
        == if t.id in cds then cds[t.id := Ticked(t, cds[t.id])] else cds
  {
  }

  /**
   * The `forEach` over a list with unique ids moves each listed task's
   * countdown by `Ticked` and leaves every other entry alone.
   */
  lemma {:induction false} TickTasksCountdowns(r: Transition, ts: seq<Task>)
    requires UniqueIds(ts)
    ensures var cds := r.state.countdowns; var cds' := TickTasks(r, ts).state.countdowns;
      && (forall k | k in cds && k !in Ids(ts) :: cds'[k] == cds[k])
      && (forall t | t in ts && t.id in cds :: cds'[t.id] == Ticked(t, cds[t.id]))
    decreases |ts|
  {
    if |ts| > 0 {
      var cds := r.state.countdowns;
      var r1 := TickStep(r, ts[0]);
      TickStepCountdowns(r, ts[0]);
      UniqueTail(ts);
      IdsCons(ts);
      TickTasksCountdowns(r1, ts[1..]);
      var cds' := TickTasks(r, ts).state.countdowns;
      forall t | t in ts && t.id in cds
        ensures cds'[t.id] == Ticked(t, cds[t.id])
      {
        if t != ts[0] {
          assert t in ts[1..];
        }
      }
    }
  }

  /** One step of the `forEach`, seen from the popup slot and the effects. */
  lemma TickStepNotifies(r: Transition, t: Task)
    ensures var r1 := TickStep(r, t); var fires := FiresOn(t, r.state.countdowns);
      && r1.state.soundEnabled == r.state.soundEnabled
      && r1.effects == r.effects + (if fires then NotificationEffects(r.state.soundEnabled, t) else [])
      && r1.state.popup == (if fires then Some(t) else r.state.popup)
  {
  }

  /** Under unique ids, the first step leaves the dueness of later tasks alone. */
  lemma DueAfterStep(r: Transition, ts: seq<Task>)
    requires UniqueIds(ts) && |ts| > 0
    ensures DueTasks(ts[1..], TickStep(r, ts[0]).state.countdowns) == DueTasks(ts[1..], r.state.countdowns)
  {
    var cds := r.state.countdowns;
    var cds1 := TickStep(r, ts[0]).state.countdowns;
    TickStepCountdowns(r, ts[0]);
    UniqueTail(ts);
    forall t | t in ts[1..] ensures FiresOn(t, cds1) == FiresOn(t, cds) {
      assert t.id != ts[0].id;
    }
    DueTasksFrame(ts[1..], cds1, cds);
  }

  /** Peeling the first task off the list of due notifications. */
  lemma DueEffectsCons(sound: bool, ts: seq<Task>, cds: map<TaskId, int>)
    requires |ts| > 0
    ensures AllNotificationEffects(sound, DueTasks(ts, cds))
         == (if FiresOn(ts[0], cds) then NotificationEffects(sound, ts[0]) else [])
            + AllNotificationEffects(sound, DueTasks(ts[1..], cds))
  {
    var rest := DueTasks(ts[1..], cds);
    if FiresOn(ts[0], cds) {
      assert DueTasks(ts, cds) == [ts[0]] + rest;
      NotificationEffectsCons(sound, ts[0], rest);
    } else {
      assert DueTasks(ts, cds) == rest;
    }
  }

  /** The effects of the first step, and what it leaves for the rest of the list. */
  lemma FirstStepEffects(r: Transition, ts: seq<Task>)
    requires UniqueIds(ts) && |ts| > 0
    ensures var cds := r.state.countdowns; var sound := r.state.soundEnabled;
      var r1 := TickStep(r, ts[0]);
      var head := if FiresOn(ts[0], cds) then NotificationEffects(sound, ts[0]) else [];
      && r1.effects == r.effects + head
      && r1.state.soundEnabled == sound
      && DueTasks(ts[1..], r1.state.countdowns) == DueTasks(ts[1..], cds)
      && AllNotificationEffects(sound, DueTasks(ts, cds))
         == head + AllNotificationEffects(sound, DueTasks(ts[1..], cds))
  {
    TickStepNotifies(r, ts[0]);
    DueAfterStep(r, ts);
    DueEffectsCons(r.state.soundEnabled, ts, r.state.countdowns);
  }

  lemma Regroup(x: seq<Effect>, e: seq<Effect>, head: seq<Effect>, tail: seq<Effect>)
    requires x == (e + head) + tail
    ensures x == e + (head + tail)
  {
  }

  /** The `forEach` over a list with unique ids notifies each due task, in list order. */
  lemma {:induction false} TickTasksEffects(r: Transition, ts: seq<Task>)
    requires UniqueIds(ts)
    ensures TickTasks(r, ts).effects
         == r.effects + AllNotificationEffects(r.state.soundEnabled, DueTasks(ts, r.state.countdowns))
    decreases |ts|
  {
    if |ts| > 0 {
      var cds := r.state.countdowns;
      var sound := r.state.soundEnabled;
      var r1 := TickStep(r, ts[0]);
      var head := if FiresOn(ts[0], cds) then NotificationEffects(sound, ts[0]) else [];
      var tail := AllNotificationEffects(sound, DueTasks(ts[1..], cds));
      FirstStepEffects(r, ts);
      UniqueTail(ts);
      TickTasksEffects(r1, ts[1..]);
      Regroup(TickTasks(r1, ts[1..]).effects, r.effects, head, tail);
    }
  }

  /** The `forEach` over a list with unique ids leaves the last due task in the popup slot. */
  lemma {:induction false} TickTasksPopup(r: Transition, ts: seq<Task>)
    requires UniqueIds(ts)
    ensures TickTasks(r, ts).state.popup == LastOr(DueTasks(ts, r.state.countdowns), r.state.popup)
    decreases |ts|
  {
    if |ts| > 0 {
      var cds := r.state.countdowns;
      var r1 := TickStep(r, ts[0]);
      TickStepNotifies(r, ts[0]);
      DueAfterStep(r, ts);
      UniqueTail(ts);
      TickTasksPopup(r1, ts[1..]);
      var rest := DueTasks(ts[1..], cds);
      if FiresOn(ts[0], cds) {
        assert DueTasks(ts, cds) == [ts[0]] + rest;
      } else {
        assert DueTasks(ts, cds) == rest;
      }
    }
  }

  /**
   * Countdowns after a tick: nothing moves while paused; otherwise each
   * enabled task with time left drops by exactly one and every other
   * countdown (disabled, already at 0, or not a listed task) stays put.
   * The task list, statistics, pause and sound flags never change.
   */
  lemma TickCountdowns(s: State)
    requires UniqueIds(s.tasks)
    ensures var s' := Tick(s).state;
      && s' == s.(countdowns := s'.countdowns, popup := s'.popup)
      && s'.countdowns.Keys == s.countdowns.Keys
      && (s.paused ==> s' == s)
      && (forall k | k in s.countdowns && k !in Ids(s.tasks) :: s'.countdowns[k] == s.countdowns[k])
      && (forall t | t in s.tasks && t.id in s.countdowns ::
            s'.countdowns[t.id] == if s.paused then s.countdowns[t.id] else Ticked(t, s.countdowns[t.id]))
  {
    if !s.paused {
      TickTasksCountdowns(Transition(s, []), s.tasks);
    }
  }

  /**
   * Notifications of a tick: none while paused; otherwise exactly the due
   * tasks are notified, in list order, and the popup slot holds the last
   * of them (there is no queue), or is left as it was when none is due.
   */
  lemma TickNotifications(s: State)
    requires UniqueIds(s.tasks)
    ensures s.paused ==> Tick(s).effects == [] && Tick(s).state.popup == s.popup
    ensures !s.paused ==>
      && Tick(s).effects == AllNotificationEffects(s.soundEnabled, DueTasks(s.tasks, s.countdowns))
      && Tick(s).state.popup == LastOr(DueTasks(s.tasks, s.countdowns), s.popup)
  {
    if !s.paused {
      TickTasksEffects(Transition(s, []), s.tasks);
      TickTasksPopup(Transition(s, []), s.tasks);
    }
  }

  /**
   * The due event is edge-triggered: an unpaused tick makes a task due
   * exactly when its countdown steps from a positive value to 0, and a
   * task already at 0 is never due again and stays at 0.
   */
  lemma TickDueOnOneToZero(s: State, t: Task)
    requires Inv(s) && !s.paused && t in s.tasks
    ensures var c := s.countdowns[t.id]; var c' := Tick(s).state.countdowns[t.id];
      && (t in DueTasks(s.tasks, s.countdowns) <==> c > 0 && c' == 0)
      && (t in DueTasks(s.tasks, s.countdowns) <==> t.enabled && c == 1)
      && (c == 0 ==> t !in DueTasks(s.tasks, s.countdowns) && c' == 0)
  {
    TickCountdowns(s);
    DueTasksMembers(s.tasks, s.countdowns);
  }

  /** Ticking keeps every countdown within `[0, interval*60]`. */
  lemma TickPreservesInv(s: State)
    requires Inv(s)
    ensures Inv(Tick(s).state)
  {
    TickCountdowns(s);
  }

  lemma {:induction false} DueTasksAppend(xs: seq<Task>, ys: seq<Task>, cds: map<TaskId, int>)
    ensures DueTasks(xs + ys, cds) == DueTasks(xs, cds) + DueTasks(ys, cds)
    decreases |xs|
  {
    if |xs| > 0 {
      assert (xs + ys)[0] == xs[0];
      assert (xs + ys)[1..] == xs[1..] + ys;
      DueTasksAppend(xs[1..], ys, cds);
    } else {
      assert xs + ys == ys;
    }
  }

  lemma {:induction false} AllNotificationEffectsAppend(sound: bool, d1: seq<Task>, d2: seq<Task>)
    ensures AllNotificationEffects(sound, d1 + d2)
         == AllNotificationEffects(sound, d1) + AllNotificationEffects(sound, d2)
    decreases |d1|
  {
    if |d1| > 0 {
      assert (d1 + d2)[0] == d1[0];
      assert (d1 + d2)[1..] == d1[1..] + d2;
      AllNotificationEffectsAppend(sound, d1[1..], d2);
    } else {
      assert d1 + d2 == d2;
    }
  }

  /** Every task in `due` gets its OS notification somewhere in the effects. */
  lemma {:induction false} ShownIn(sound: bool, due: seq<Task>, t: Task)
    requires t in due
    ensures ShowNotification(t.title, t.desc) in AllNotificationEffects(sound, due)
    decreases |due|
  {
    var head := NotificationEffects(sound, due[0]);
    var tail := AllNotificationEffects(sound, due[1..]);
    assert AllNotificationEffects(sound, due) == head + tail;
    if due[0] == t {
      assert head[|head| - 1] == ShowNotification(t.title, t.desc);
    } else {
      ShownIn(sound, due[1..], t);
    }
  }

  /** The due list around a task that falls due at position `j`. */
  lemma DueTasksAround(ts: seq<Task>, cds: map<TaskId, int>, j: int)
    requires 0 <= j < |ts| && FiresOn(ts[j], cds)
    ensures DueTasks(ts, cds) == DueTasks(ts[..j], cds) + ([ts[j]] + DueTasks(ts[j + 1..], cds))
  {
    var post := ts[j..];
    assert ts == ts[..j] + post;
    DueTasksAppend(ts[..j], post, cds);
    assert post[0] == ts[j] && post[1..] == ts[j + 1..];
  }

  /** With a task due at position `j`, the popup ends up holding a task from position `j` on. */
  lemma DueLaterTakesPopup(s: State, j: int)
    requires UniqueIds(s.tasks) && !s.paused && 0 <= j < |s.tasks|
    requires FiresOn(s.tasks[j], s.countdowns)
    ensures exists k | j <= k < |s.tasks| :: Tick(s).state.popup == Some(s.tasks[k])
  {
    var ts, cds := s.tasks, s.countdowns;
    DueTasksAround(ts, cds, j);
    var d2 := [ts[j]] + DueTasks(ts[j + 1..], cds);
    var due := DueTasks(ts, cds);
    TickNotifications(s);
    assert due[|due| - 1] == d2[|d2| - 1];
    var last := d2[|d2| - 1];
    if last != ts[j] {
      assert last in DueTasks(ts[j + 1..], cds);
      DueTasksMembers(ts[j + 1..], cds);
      var k' :| 0 <= k' < |ts[j + 1..]| && ts[j + 1..][k'] == last;
      assert ts[j + 1 + k'] == last;
    }
  }

  /** Two tasks due at positions `i < j` are both notified, the earlier one first. */
  lemma DueTasksNotifiedInOrder(s: State, i: int, j: int)
    requires UniqueIds(s.tasks) && !s.paused && 0 <= i < j < |s.tasks|
    requires FiresOn(s.tasks[i], s.countdowns) && FiresOn(s.tasks[j], s.countdowns)
    ensures var e := Tick(s).effects;
      exists p, q | 0 <= p < q < |e| ::
        e[p] == ShowNotification(s.tasks[i].title, s.tasks[i].desc)
        && e[q] == ShowNotification(s.tasks[j].title, s.tasks[j].desc)
  {
    var ts, cds, sound := s.tasks, s.countdowns, s.soundEnabled;
    var pre := ts[..j];
    var rest := DueTasks(ts[j + 1..], cds);
    var d1 := DueTasks(pre, cds);
    DueTasksAround(ts, cds, j);
    TickNotifications(s);
    AllNotificationEffectsAppend(sound, d1, [ts[j]] + rest);
    NotificationEffectsCons(sound, ts[j], rest);
    DueTasksMembers(pre, cds);
    assert pre[i] == ts[i];
    ShownIn(sound, d1, ts[i]);
    var e1 := AllNotificationEffects(sound, d1);
    var p :| 0 <= p < |e1| && e1[p] == ShowNotification(ts[i].title, ts[i].desc);
    var head := NotificationEffects(sound, ts[j]);
    var e := Tick(s).effects;
    assert e == e1 + (head + AllNotificationEffects(sound, rest));
    var q := |e1| + |head| - 1;
    assert e[p] == e1[p];
    assert e[q] == head[|head| - 1];
  }

  /**
   * Two tasks due in the same tick, at positions `i < j` of a list with
   * unique ids: both are notified, the earlier one first, and the popup
   * slot ends up holding a task from position `j` on, so the earlier
   * task's popup is overwritten.
   */
  lemma SimultaneousDueKeepsLast(s: State, i: int, j: int)
    requires UniqueIds(s.tasks) && !s.paused && 0 <= i < j < |s.tasks|
    requires FiresOn(s.tasks[i], s.countdowns) && FiresOn(s.tasks[j], s.countdowns)
    ensures exists k | j <= k < |s.tasks| :: Tick(s).state.popup == Some(s.tasks[k])
    ensures Tick(s).state.popup.Some? && Tick(s).state.popup.value.id != s.tasks[i].id
    ensures var e := Tick(s).effects;
      exists p, q | 0 <= p < q < |e| ::
        e[p] == ShowNotification(s.tasks[i].title, s.tasks[i].desc)
        && e[q] == ShowNotification(s.tasks[j].title, s.tasks[j].desc)
  {
    DueLaterTakesPopup(s, j);
    var k :| j <= k < |s.tasks| && Tick(s).state.popup == Some(s.tasks[k]);
    assert s.tasks[k].id != s.tasks[i].id;
    DueTasksNotifiedInOrder(s, i, j);
  }
}
