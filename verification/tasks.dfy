/**
 * Task records of the reminder settings (`settings.tasks`), the built-in
 * default tasks, and the list operations the scheduler performs on them:
 * lookup by id (`Array.prototype.find`), removal by id (`filter`) and
 * field-level update (`Object.assign`).
 */
module Tasks {
  import opened Wrappers

  type TaskId = string

  /** One reminder. `interval` is in minutes; the countdown runs in seconds. */
  datatype Task = Task(id: TaskId, title: string, desc: string, interval: int, enabled: bool, icon: string)

  /** The fields an update may carry; an absent field is left as it is. */
  datatype Patch = Patch(title: Option<string>, interval: Option<int>)

  const SecondsPerMinute: int := 60

  const SitId: TaskId := "sit"
  const WaterId: TaskId := "water"
  const EyeId: TaskId := "eye"

  const DefaultTasks: seq<Task> := [
    Task(SitId, "久坐提醒", "该起来活动了，走动一下吧~", 45, true, "sit"),
    Task(WaterId, "喝水提醒", "该喝口水了，保持水分充足~", 60, true, "water"),
    Task(EyeId, "护眼提醒", "让眼睛休息一下，看看远处~", 20, true, "eye")
  ]

  /** Interval, in minutes, of a task created by "add custom reminder". */
  const NewTaskInterval: int := 30

  /** The task "add custom reminder" appends under the fresh id `id`. */
  function NewTask(id: TaskId): Task {
    Task(id, "新提醒", "又是充满活力的一天，记得休息哦~", NewTaskInterval, true, "bell")
  }

  /** The countdown, in seconds, a task restarts from. */
  function FullCountdown(t: Task): int {
    t.interval * SecondsPerMinute
  }

  function Ids(ts: seq<Task>): set<TaskId> {
    set t | t in ts :: t.id
  }

  /** No two positions of the task list share an id. */
  ghost predicate UniqueIds(ts: seq<Task>) {
    forall i, j | 0 <= i < |ts| && 0 <= j < |ts| && ts[i].id == ts[j].id :: i == j
  }

  /** Position of the first task with id `id`, as `find` would locate it. */
  function FindIndex(ts: seq<Task>, id: TaskId): (r: Option<nat>)
    ensures r.Some? ==> r.value < |ts| && ts[r.value].id == id
    ensures r.Some? ==> forall j | 0 <= j < r.value :: ts[j].id != id
    ensures r.None? <==> id !in Ids(ts)
    decreases |ts|
  {
    if |ts| == 0 then None
    else if ts[0].id == id then Some(0)
    else
      match FindIndex(ts[1..], id)
      case None => (assert ts == [ts[0]] + ts[1..]; None)
      case Some(k) => Some(k + 1)
  }

  /** The first task with id `id`, if any. */
  function Find(ts: seq<Task>, id: TaskId): (r: Option<Task>)
    ensures r.Some? ==> r.value in ts && r.value.id == id
    ensures r.Some? ==> exists k | 0 <= k < |ts| :: ts[k] == r.value && forall j | 0 <= j < k :: ts[j].id != id
    ensures r.None? <==> id !in Ids(ts)
  {
    match FindIndex(ts, id)
    case None => None
    case Some(k) => assert ts[k] == ts[k]; Some(ts[k])
  }

  /** The task list with every task of id `id` dropped, order kept. */
  function WithoutId(ts: seq<Task>, id: TaskId): (r: seq<Task>)
    ensures forall t :: t in r <==> t in ts && t.id != id
    ensures Ids(r) == Ids(ts) - {id}
    decreases |ts|
  {
    if |ts| == 0 then []
    else if ts[0].id == id then WithoutId(ts[1..], id)
    else [ts[0]] + WithoutId(ts[1..], id)
  }

  /** `Object.assign(task, updates)` for the fields a patch can carry. */
  function Apply(t: Task, p: Patch): (r: Task)
    ensures r.id == t.id && r.desc == t.desc && r.enabled == t.enabled && r.icon == t.icon
    ensures r.title == p.title.GetOr(t.title)
    ensures r.interval == p.interval.GetOr(t.interval)
  {
    t.(title := p.title.GetOr(t.title), interval := p.interval.GetOr(t.interval))
  }

  lemma IdsCons(ts: seq<Task>)
    requires |ts| > 0
    ensures Ids(ts) == {ts[0].id} + Ids(ts[1..])
  {
    assert forall t | t in ts :: t == ts[0] || t in ts[1..];
    assert forall t | t in ts[1..] :: t in ts;
  }

  lemma UniqueTail(ts: seq<Task>)
    requires UniqueIds(ts) && |ts| > 0
    ensures UniqueIds(ts[1..])
    ensures ts[0].id !in Ids(ts[1..])
  {
    forall t | t in ts[1..] ensures t.id != ts[0].id {
      var j :| 0 <= j < |ts[1..]| && ts[1..][j] == t;
      assert ts[j + 1] == t;
    }
    forall i, j | 0 <= i < |ts[1..]| && 0 <= j < |ts[1..]| && ts[1..][i].id == ts[1..][j].id
      ensures i == j
    {
      assert ts[i + 1].id == ts[j + 1].id;
    }
  }

  lemma UniqueCons(t: Task, ts: seq<Task>)
    requires UniqueIds(ts) && t.id !in Ids(ts)
    ensures UniqueIds([t] + ts)
  {
    var r := [t] + ts;
    forall j | 0 < j < |r| ensures r[j].id != t.id {
      assert r[j] in ts;
    }
    forall i, j | 0 < i < |r| && 0 < j < |r| && r[i].id == r[j].id
      ensures i == j
    {
      assert ts[i - 1].id == ts[j - 1].id;
    }
  }

  lemma UniqueSnoc(ts: seq<Task>, t: Task)
    requires UniqueIds(ts) && t.id !in Ids(ts)
    ensures UniqueIds(ts + [t])
    ensures Ids(ts + [t]) == Ids(ts) + {t.id}
  {
    var r := ts + [t];
    forall j | 0 <= j < |ts| ensures r[j].id != t.id {
      assert r[j] in ts;
    }
    forall i, j | 0 <= i < |ts| && 0 <= j < |ts| && r[i].id == r[j].id
      ensures i == j
    {
      assert ts[i].id == ts[j].id;
    }
    forall x | x in r ensures x in ts || x == t { }
  }

  /** Under unique ids, a task is the first task carrying its own id. */
  lemma FindMember(ts: seq<Task>, t: Task)
    requires UniqueIds(ts) && t in ts
    ensures Find(ts, t.id) == Some(t)
  {
    var i :| 0 <= i < |ts| && ts[i] == t;
    var k := FindIndex(ts, t.id).value;
    assert ts[k].id == ts[i].id;
  }

  lemma {:induction false} WithoutAbsent(ts: seq<Task>, id: TaskId)
    requires id !in Ids(ts)
    ensures WithoutId(ts, id) == ts
    decreases |ts|
  {
    if |ts| > 0 {
      assert ts[0] in ts;
      assert Ids(ts[1..]) <= Ids(ts) by {
        forall x | x in ts[1..] ensures x in ts { }
      }
      WithoutAbsent(ts[1..], id);
      assert ts == [ts[0]] + ts[1..];
    }
  }

  /** Filtering out the id of a task appended to a list that lacks that id. */
  lemma {:induction false} WithoutAppended(ts: seq<Task>, t: Task)
    requires t.id !in Ids(ts)
    ensures WithoutId(ts + [t], t.id) == ts
    decreases |ts|
  {
    var r := ts + [t];
    if |ts| == 0 {
      assert r[1..] == [];
    } else {
      assert r[0] == ts[0];
      assert r[1..] == ts[1..] + [t];
      IdsCons(ts);
      WithoutAppended(ts[1..], t);
      assert ts[0] in ts;
      assert WithoutId(r, t.id) == [ts[0]] + WithoutId(r[1..], t.id);
      assert ts == [ts[0]] + ts[1..];
    }
  }

  /**
   * With unique ids, removing the id held at position `k` removes exactly
   * that task and keeps every other task in its order.
   */
  lemma {:induction false} WithoutIdAt(ts: seq<Task>, k: nat)
    requires UniqueIds(ts) && k < |ts|
    ensures WithoutId(ts, ts[k].id) == ts[..k] + ts[k + 1..]
    decreases |ts|
  {
    UniqueTail(ts);
    if k == 0 {
      WithoutAbsent(ts[1..], ts[0].id);
    } else {
      var id := ts[k].id;
      assert ts[1..][k - 1] == ts[k];
      assert ts[0].id != id;
      WithoutIdAt(ts[1..], k - 1);
      var tail := ts[1..];
      assert WithoutId(ts, id) == [ts[0]] + WithoutId(tail, id);
      assert tail[..k - 1] == ts[1..k];
      assert tail[k..] == ts[k + 1..];
      assert [ts[0]] + ts[1..k] == ts[..k];
      assert [ts[0]] + (ts[1..k] + ts[k + 1..]) == ([ts[0]] + ts[1..k]) + ts[k + 1..];
    }
  }

  lemma {:induction false} WithoutIdUnique(ts: seq<Task>, id: TaskId)
    requires UniqueIds(ts)
    ensures UniqueIds(WithoutId(ts, id))
    decreases |ts|
  {
    if |ts| > 0 {
      UniqueTail(ts);
      WithoutIdUnique(ts[1..], id);
      if ts[0].id != id {
        UniqueCons(ts[0], WithoutId(ts[1..], id));
      }
    }
  }

  lemma DefaultTasksWellFormed()
    ensures UniqueIds(DefaultTasks)
    ensures forall t | t in DefaultTasks :: t.interval > 0
    ensures Ids(DefaultTasks) == {SitId, WaterId, EyeId}
  {
    forall t | t in DefaultTasks ensures t.id in {SitId, WaterId, EyeId} { }
    assert DefaultTasks[0] in DefaultTasks && DefaultTasks[1] in DefaultTasks && DefaultTasks[2] in DefaultTasks;
  }
}
