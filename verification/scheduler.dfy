/**
 * The countdown scheduler of the reminder window: the task list, a
 * countdown (in seconds) per task id, a single popup slot, the day's
 * statistics and the pause flag, with one pure function per command.
 *
 * Every command yields a `Transition`: the next state and the effects the
 * command issues, in order. Re-rendering the page is not an effect here;
 * it changes no state.
 */
module Scheduler {
  import opened Wrappers
  import opened Tasks

  datatype Stats = Stats(sitBreaks: nat, waterCups: nat)

  datatype Effect =
    | PlaySound
    | ShowNotification(title: string, body: string)
    | SaveSettings
    | SaveStats

  /**
   * `countdowns` may lack a task's id (`undefined` in the source); every
   * comparison with a missing entry is false there, so such a task is
   * neither decremented nor considered for "next task".
   */
  datatype State = State(
    tasks: seq<Task>,
    countdowns: map<TaskId, int>,
    popup: Option<Task>,
    stats: Stats,
    paused: bool,
    soundEnabled: bool)

  datatype Transition = Transition(state: State, effects: seq<Effect>)

  /**
   * The scheduler invariant: ids are unique, intervals are positive, there
   * is exactly one countdown per task and it lies in `[0, interval*60]`.
   */
  ghost predicate Inv(s: State) {
    && UniqueIds(s.tasks)
    && (forall t | t in s.tasks :: t.interval > 0)
    && s.countdowns.Keys == Ids(s.tasks)
    && (forall t | t in s.tasks :: 0 <= s.countdowns[t.id] <= FullCountdown(t))
  }

  // ---------------------------------------------------------------- start-up

  /** Give every task that has no countdown yet its full interval. */
  function SeedCountdowns(cds: map<TaskId, int>, ts: seq<Task>): (r: map<TaskId, int>)
    ensures r.Keys == cds.Keys + Ids(ts)
    ensures forall k | k in cds :: r[k] == cds[k]
    decreases |ts|
  {
    if |ts| == 0 then cds
    else
      var cds' := if ts[0].id in cds then cds else cds[ts[0].id := FullCountdown(ts[0])];
      IdsCons(ts);
      SeedCountdowns(cds', ts[1..])
  }

  /** The state once settings are loaded and countdowns are seeded. */
  function Init(tasks: seq<Task>, stats: Stats, soundEnabled: bool): State {
    State(tasks, SeedCountdowns(map[], tasks), None, stats, false, soundEnabled)
  }

  // ---------------------------------------------------------- tick and fire

  /** The effects a due notification issues: the sound (if on), then the OS notification. */
  function NotificationEffects(soundEnabled: bool, t: Task): seq<Effect> {
    (if soundEnabled then [PlaySound] else []) + [ShowNotification(t.title, t.desc)]
  }

  /** A due task takes over the popup slot, replacing whatever it held. */
  function TriggerNotification(s: State, t: Task): (r: Transition)
    ensures r.state.popup == Some(t)
    ensures r.state == s.(popup := r.state.popup)
    ensures |r.effects| == (if s.soundEnabled then 2 else 1)
    ensures s.soundEnabled ==> r.effects[0] == PlaySound
    ensures r.effects[|r.effects| - 1] == ShowNotification(t.title, t.desc)
  {
    Transition(s.(popup := Some(t)), NotificationEffects(s.soundEnabled, t))
  }

  /** One iteration of the tick's `forEach` over the task list. */
  function TickStep(r: Transition, t: Task): Transition {
    var s := r.state;
    if t.enabled && t.id in s.countdowns && s.countdowns[t.id] > 0 then
      var s' := s.(countdowns := s.countdowns[t.id := s.countdowns[t.id] - 1]);
      if s'.countdowns[t.id] == 0 then
        var fired := TriggerNotification(s', t);
        Transition(fired.state, r.effects + fired.effects)
      else
        Transition(s', r.effects)
    else
      r
  }

  /** The tick's `forEach`, visiting `ts` in list order. */
  function TickTasks(r: Transition, ts: seq<Task>): (r': Transition)
    ensures r'.state == r.state.(countdowns := r'.state.countdowns, popup := r'.state.popup)
    ensures r'.state.countdowns.Keys == r.state.countdowns.Keys
    ensures r.effects <= r'.effects
    decreases |ts|
  {
    if |ts| == 0 then r else TickTasks(TickStep(r, ts[0]), ts[1..])
  }

  /** The one-second tick. */
  function Tick(s: State): Transition {
    if s.paused then Transition(s, []) else TickTasks(Transition(s, []), s.tasks)
  }

  // ----------------------------------------------------------------- dismiss

  /** Add one to the statistic the task id tracks, if any. */
  function CountBreak(st: Stats, id: TaskId): (r: Stats)
    ensures r.sitBreaks == st.sitBreaks + (if id == SitId then 1 else 0)
    ensures r.waterCups == st.waterCups + (if id == WaterId then 1 else 0)
  {
    Stats(
      if id == SitId then st.sitBreaks + 1 else st.sitBreaks,
      if id == WaterId then st.waterCups + 1 else st.waterCups)
  }

  /** "Got it" on the popup. */
  function Dismiss(s: State): Transition {
    match s.popup
    case None => Transition(s, [])
    case Some(p) =>
      var cds := match Find(s.tasks, p.id)
        case Some(t) => s.countdowns[p.id := FullCountdown(t)]
        case None => s.countdowns;
      Transition(s.(stats := CountBreak(s.stats, p.id), countdowns := cds, popup := None), [SaveStats])
  }

  // ------------------------------------------------------------------- CRUD

  /** "Add custom reminder", with the generated id given as `id`. */
  function AddTask(s: State, id: TaskId): Transition {
    Transition(
      s.(tasks := s.tasks + [NewTask(id)], countdowns := s.countdowns[id := NewTaskInterval * SecondsPerMinute]),
      [SaveSettings])
  }

  function RemoveTask(s: State, id: TaskId): Transition {
    Transition(s.(tasks := WithoutId(s.tasks, id), countdowns := s.countdowns - {id}), [SaveSettings])
  }

  /** Patch the first task with this id; a new interval restarts its countdown. */
  function UpdateTask(s: State, id: TaskId, p: Patch): Transition {
    match FindIndex(s.tasks, id)
    case None => Transition(s, [])
    case Some(k) =>
      var t := Apply(s.tasks[k], p);
      var cds := if p.interval.Some? then s.countdowns[id := FullCountdown(t)] else s.countdowns;
      Transition(s.(tasks := s.tasks[k := t], countdowns := cds), [SaveSettings])
  }

  // --------------------------------------------------------- pause and reset

  function TogglePause(s: State): Transition {
    Transition(s.(paused := !s.paused), [])
  }

  /** Restart every listed task's countdown, in list order. */
  function ResetCountdowns(cds: map<TaskId, int>, ts: seq<Task>): (r: map<TaskId, int>)
    ensures r.Keys == cds.Keys + Ids(ts)
    ensures forall k | k in cds && k !in Ids(ts) :: r[k] == cds[k]
    decreases |ts|
  {
    if |ts| == 0 then cds
    else
      IdsCons(ts);
      ResetCountdowns(cds[ts[0].id := FullCountdown(ts[0])], ts[1..])
  }

  /** "Reset all": restart every countdown and resume. */
  function ResetAll(s: State): Transition {
    Transition(s.(countdowns := ResetCountdowns(s.countdowns, s.tasks), paused := false), [])
  }

  // ---------------------------------------------------- card event handlers

  /** Click on a card's progress ring: restart that task's countdown. */
  function ResetTask(s: State, id: TaskId): Transition {
    match Find(s.tasks, id)
    case None => Transition(s, [])
    case Some(t) => Transition(s.(countdowns := s.countdowns[id := FullCountdown(t)]), [])
  }

  /**
   * Click on a card's switch: flip the first task with this id. The handler
   * only looks the task up when the switch carries a non-empty id.
   */
  function ToggleEnabled(s: State, id: TaskId): Transition {
    if id == "" then Transition(s, []) else
    match FindIndex(s.tasks, id)
    case None => Transition(s, [])
    case Some(k) =>
      Transition(s.(tasks := s.tasks[k := s.tasks[k].(enabled := !s.tasks[k].enabled)]), [SaveSettings])
  }

  /**
   * Typing in a card's interval field. `parsed` is the `parseInt` of the
   * field's text, `None` standing for NaN; only a positive value reaches
   * `UpdateTask`.
   */
  function IntervalInput(s: State, id: TaskId, parsed: Option<int>): Transition {
    match parsed
    case Some(v) => if v > 0 then UpdateTask(s, id, Patch(None, Some(v))) else Transition(s, [])
    case None => Transition(s, [])
  }

  /** The minute values carried by a card's preset buttons. */
  const PresetMinutes: seq<int> := [15, 30, 45, 60]

  /** Click on a preset button carrying `minutes`. */
  function PresetClick(s: State, id: TaskId, minutes: int): Transition {
    UpdateTask(s, id, Patch(None, Some(minutes)))
  }

  /** Leaving a card's editable title. */
  function TitleEdit(s: State, id: TaskId, text: string): Transition {
    UpdateTask(s, id, Patch(Some(text), None))
  }
}
