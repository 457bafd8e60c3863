/**
 * The page's inputs as one command type, a dispatcher applying a command
 * to the scheduler, and runs of commands: the invariant over every run
 * from start-up, pause/resume, and what happens to a reminder whose popup
 * was overwritten.
 */
module Controller {
  import opened Wrappers
  import opened Tasks
  import S = Scheduler
  import TickProperties
  import CommandProperties
  import InvariantProperties

  datatype Command =
    | Tick
    | Dismiss
    | AddTask(id: TaskId)
    | RemoveTask(id: TaskId)
    | TitleEdit(id: TaskId, text: string)
    | IntervalInput(id: TaskId, parsed: Option<int>)
    | PresetClick(id: TaskId, minutes: int)
    | ToggleEnabled(id: TaskId)
    | ResetTask(id: TaskId)
    | TogglePause
    | ResetAll

  function Step(s: S.State, c: Command): S.Transition {
    match c
    case Tick => S.Tick(s)
    case Dismiss => S.Dismiss(s)
    case AddTask(id) => S.AddTask(s, id)
    case RemoveTask(id) => S.RemoveTask(s, id)
    case TitleEdit(id, text) => S.TitleEdit(s, id, text)
    case IntervalInput(id, parsed) => S.IntervalInput(s, id, parsed)
    case PresetClick(id, minutes) => S.PresetClick(s, id, minutes)
    case ToggleEnabled(id) => S.ToggleEnabled(s, id)
    case ResetTask(id) => S.ResetTask(s, id)
    case TogglePause => S.TogglePause(s)
    case ResetAll => S.ResetAll(s)
  }

  /** Apply the commands in order, collecting every effect they issue. */
  function Run(s: S.State, cs: seq<Command>): (r: S.Transition)
    ensures cs == [] ==> r == S.Transition(s, [])
    decreases |cs|
  {
    if |cs| == 0 then S.Transition(s, [])
    else
      var first := Step(s, cs[0]);
      var rest := Run(first.state, cs[1..]);
      S.Transition(rest.state, first.effects + rest.effects)
  }

  /**
   * What the page guarantees of a command: an added task's id is new
   * (the source builds it from the clock), and a preset button carries
   * one of its four minute values.
   */
  predicate Admissible(s: S.State, c: Command) {
    match c
    case AddTask(id) => id !in Ids(s.tasks)
    case PresetClick(_, minutes) => minutes in S.PresetMinutes
    case _ => true
  }

  ghost predicate AdmissibleRun(s: S.State, cs: seq<Command>)
    decreases |cs|
  {
    |cs| == 0 || (Admissible(s, cs[0]) && AdmissibleRun(Step(s, cs[0]).state, cs[1..]))
  }

  lemma StepKeepsInv(s: S.State, c: Command)
    requires S.Inv(s) && Admissible(s, c)
    ensures S.Inv(Step(s, c).state)
  {
    match c
    case Tick => InvariantProperties.TickKeepsInv(s);
    case Dismiss => InvariantProperties.DismissKeepsInv(s);
    case AddTask(id) => InvariantProperties.AddTaskKeepsInv(s, id);
    case RemoveTask(id) => InvariantProperties.RemoveTaskKeepsInv(s, id);
    case TitleEdit(id, text) => InvariantProperties.TitleEditKeepsInv(s, id, text);
    case IntervalInput(id, parsed) => InvariantProperties.IntervalInputKeepsInv(s, id, parsed);
    case PresetClick(id, minutes) => InvariantProperties.PresetClickKeepsInv(s, id, minutes);
    case ToggleEnabled(id) => InvariantProperties.ToggleEnabledKeepsInv(s, id);
    case ResetTask(id) => InvariantProperties.ResetTaskKeepsInv(s, id);
    case TogglePause => InvariantProperties.TogglePauseKeepsInv(s);
    case ResetAll => InvariantProperties.ResetAllKeepsInv(s);
  }

  /** Every admissible run keeps each countdown within `[0, interval*60]`. */
  lemma {:induction false} RunKeepsInv(s: S.State, cs: seq<Command>)
    requires S.Inv(s) && AdmissibleRun(s, cs)
    ensures S.Inv(Run(s, cs).state)
    decreases |cs|
  {
    if |cs| > 0 {
      StepKeepsInv(s, cs[0]);
      RunKeepsInv(Step(s, cs[0]).state, cs[1..]);
    }
  }

  /** From start-up with the built-in tasks, the invariant holds after any admissible run. */
  lemma StartupRunKeepsInv(stats: S.Stats, soundEnabled: bool, cs: seq<Command>)
    requires AdmissibleRun(S.Init(DefaultTasks, stats, soundEnabled), cs)
    ensures S.Inv(Run(S.Init(DefaultTasks, stats, soundEnabled), cs).state)
  {
    InvariantProperties.DefaultInit(stats, soundEnabled);
    RunKeepsInv(S.Init(DefaultTasks, stats, soundEnabled), cs);
  }

  // ------------------------------------------------------- pause and resume

  function Ticks(n: nat): (cs: seq<Command>)
    ensures |cs| == n && forall i | 0 <= i < n :: cs[i] == Tick
  {
    seq(n, _ => Tick)
  }

  lemma {:induction false} RunAppend(s: S.State, a: seq<Command>, b: seq<Command>)
    ensures Run(s, a + b).state == Run(Run(s, a).state, b).state
    ensures Run(s, a + b).effects == Run(s, a).effects + Run(Run(s, a).state, b).effects
    decreases |a|
  {
    if |a| > 0 {
      assert (a + b)[0] == a[0];
      assert (a + b)[1..] == a[1..] + b;
      RunAppend(Step(s, a[0]).state, a[1..], b);
    } else {
      assert a + b == b;
    }
  }

  /** While paused, ticks are dropped: any number of them changes nothing and issues nothing. */
  lemma {:induction false} PausedTicksAreDropped(s: S.State, n: nat)
    requires s.paused
    ensures Run(s, Ticks(n)) == S.Transition(s, [])
    decreases n
  {
    if n > 0 {
      assert Ticks(n)[1..] == Ticks(n - 1);
      PausedTicksAreDropped(s, n - 1);
    }
  }

  /** Pausing, letting `n` ticks pass and resuming restores the exact state, countdowns included. */
  lemma PauseResumeRestores(s: S.State, n: nat)
    requires !s.paused
    ensures Run(s, [TogglePause] + Ticks(n) + [TogglePause]).state == s
  {
    var p := S.TogglePause(s).state;
    PausedTicksAreDropped(p, n);
    RunAppend(s, [TogglePause], Ticks(n));
    RunAppend(s, [TogglePause] + Ticks(n), [TogglePause]);
    var one: seq<Command> := [TogglePause];
    assert one[1..] == [];
  }

  // ------------------------------------------------- an overwritten reminder

  /** A run made only of ticks, dismisses and pause toggles. */
  predicate ClockOnly(cs: seq<Command>) {
    forall i | 0 <= i < |cs| :: cs[i].Tick? || cs[i].Dismiss? || cs[i].TogglePause?
  }

  /** The popup slot does not show the task with id `id`. */
  predicate NotShowing(s: S.State, id: TaskId) {
    s.popup.None? || s.popup.value.id != id
  }

  /** One tick, dismiss or pause toggle keeps a task at 0 that is not in the popup. */
  lemma ClockStepKeepsStalled(s: S.State, c: Command, a: Task)
    requires UniqueIds(s.tasks) && a in s.tasks && a.id in s.countdowns && s.countdowns[a.id] == 0
    requires NotShowing(s, a.id)
    requires c.Tick? || c.Dismiss? || c.TogglePause?
    ensures var s' := Step(s, c).state;
      && s'.tasks == s.tasks && a.id in s'.countdowns && s'.countdowns[a.id] == 0 && NotShowing(s', a.id)
  {
    if c.Tick? {
      TickProperties.TickCountdowns(s);
      TickProperties.TickNotifications(s);
      TickProperties.DueTasksMembers(s.tasks, s.countdowns);
      var due := TickProperties.DueTasks(s.tasks, s.countdowns);
      if |due| > 0 {
        assert due[|due| - 1] in due;
      }
    } else if c.Dismiss? {
      CommandProperties.DismissSpec(s);
    }
  }

  /**
   * A task at 0 that the popup slot does not show stays at 0 and is never
   * shown again, however long the clock runs and whatever is dismissed:
   * only a reset or an interval change revives it. This is the fate of a
   * reminder whose popup was overwritten by another one due in the same
   * tick, since the slot keeps no queue.
   */
  lemma {:induction false} StalledTaskStaysStalled(s: S.State, cs: seq<Command>, a: Task)
    requires UniqueIds(s.tasks) && a in s.tasks && a.id in s.countdowns && s.countdowns[a.id] == 0
    requires NotShowing(s, a.id) && ClockOnly(cs)
    ensures var s' := Run(s, cs).state;
      && s'.tasks == s.tasks && a.id in s'.countdowns && s'.countdowns[a.id] == 0 && NotShowing(s', a.id)
    decreases |cs|
  {
    if |cs| > 0 {
      ClockStepKeepsStalled(s, cs[0], a);
      assert ClockOnly(cs[1..]) by {
        forall i | 0 <= i < |cs[1..]| ensures cs[1..][i].Tick? || cs[1..][i].Dismiss? || cs[1..][i].TogglePause? {
          assert cs[1..][i] == cs[i + 1];
        }
      }
      StalledTaskStaysStalled(Step(s, cs[0]).state, cs[1..], a);
    }
  }

  /**
   * Two tasks due in the same tick, at positions `i < j`: the earlier one's
   * popup is overwritten, and afterwards no run of ticks, dismisses and
   * pause toggles brings it back.
   */
  lemma OverwrittenReminderStalls(s: S.State, cs: seq<Command>, i: int, j: int)
    requires S.Inv(s) && !s.paused && 0 <= i < j < |s.tasks|
    requires TickProperties.FiresOn(s.tasks[i], s.countdowns) && TickProperties.FiresOn(s.tasks[j], s.countdowns)
    requires ClockOnly(cs)
    ensures var cds := Run(S.Tick(s).state, cs).state.countdowns;
      s.tasks[i].id in cds && cds[s.tasks[i].id] == 0
    ensures NotShowing(Run(S.Tick(s).state, cs).state, s.tasks[i].id)
  {
    var a := s.tasks[i];
    assert a in s.tasks;
    TickProperties.SimultaneousDueKeepsLast(s, i, j);
    TickProperties.TickDueOnOneToZero(s, a);
    TickProperties.TickCountdowns(s);
    TickProperties.DueTasksMembers(s.tasks, s.countdowns);
    StalledTaskStaysStalled(S.Tick(s).state, cs, a);
  }
}
