/** The queue of shard migrations: pending, active and completed tasks, and the background runs of
    those that were started.

    The map of active tasks is keyed by id, the background runs are not: two tasks with one id share
    a place in the map but both run, and both end up in the completed list. */
module MigrationQueue {
  import opened Basics

  type TaskId = string

  datatype State = Pending | Active | Completed | Failed | Cancelled

  datatype Task = Task(
    id: TaskId,
    shardId: string,
    source: string,
    target: string,
    repositories: seq<string>,
    state: State)

  datatype Queue = Queue(
    pending: seq<Task>,
    active: map<TaskId, Task>,
    running: seq<Task>,         // what the background runs were started with
    completed: seq<Task>)

  const EMPTY: Queue := Queue([], map[], [], [])

  // ------------------------------------------------------------------- what a step does

  function Enqueue(q: Queue, task: Task): Queue {
    q.(pending := q.pending + [task.(state := Pending)])
  }

  function StartNewest(q: Queue): Queue
    requires q.pending != []
  {
    var n := |q.pending| - 1;
    var task := q.pending[n].(state := Active);
    q.(pending := q.pending[..n], active := q.active[task.id := task], running := q.running + [task])
  }

  /** Starts pending tasks, the newest first, while there is room. */
  function Drain(q: Queue, maxActive: int): Queue
    decreases |q.pending|
  {
    if q.pending == [] || |q.active.Keys| >= maxActive then q
    else Drain(StartNewest(q), maxActive)
  }

  /** A background run ends, well or not. Its id leaves the map, whoever holds it there. */
  function Finish(q: Queue, k: nat, ok: bool): Queue {
    if k >= |q.running| then q
    else
      var task := q.running[k].(state := if ok then Completed else Failed);
      Queue(q.pending, q.active - {task.id}, Cut(q.running, k), q.completed + [task])
  }

  datatype Op = Submit(task: Task) | Process | End(k: nat, ok: bool)

  function Step(q: Queue, op: Op, maxActive: int): Queue {
    match op
    case Submit(task) => Enqueue(q, task)
    case Process => Drain(q, maxActive)
    case End(k, ok) => Finish(q, k, ok)
  }

  function Run(ops: seq<Op>, maxActive: int): Queue {
    if ops == [] then EMPTY
    else Step(Run(ops[..|ops| - 1], maxActive), ops[|ops| - 1], maxActive)
  }

  /** Everything submitted so far, in order. */
  function Submitted(ops: seq<Op>): seq<Task> {
    if ops == [] then [] else Submitted(ops[..|ops| - 1]) + Submits(ops[|ops| - 1])
  }

  function Submits(op: Op): seq<Task> {
    match op
    case Submit(task) => [task]
    case _ => []
  }

  // ----------------------------------------------------------------------- conservation

  /** What is read off a task does not depend on the state it is in. */
  ghost predicate StateBlind<T(!new)>(f: Task -> T) {
    forall t: Task, s: State :: f(t.(state := s)) == f(t)
  }

  ghost function Bag<T>(f: Task -> T, ts: seq<Task>): multiset<T> {
    if ts == [] then multiset{} else Bag(f, ts[..|ts| - 1]) + multiset{f(ts[|ts| - 1])}
  }

  ghost function BagOf<T>(f: Task -> T, q: Queue): multiset<T> {
    Bag(f, q.pending) + Bag(f, q.running) + Bag(f, q.completed)
  }

  lemma BagSnoc<T>(f: Task -> T, a: seq<Task>, t: Task)
    ensures Bag(f, a + [t]) == Bag(f, a) + multiset{f(t)}
  {
    assert (a + [t])[..|a|] == a;
  }

  lemma CutSnoc(a: seq<Task>, k: nat)
    requires k < |a| - 1
    ensures Cut(a, k) == Cut(a[..|a| - 1], k) + [a[|a| - 1]]
  {
  }

  lemma {:induction false} BagTake<T>(f: Task -> T, a: seq<Task>, k: nat)
    requires k < |a|
    ensures Bag(f, a) == Bag(f, Cut(a, k)) + multiset{f(a[k])}
  {
    var n := |a| - 1;
    if k == n {
      assert Cut(a, k) == a[..n];
    } else {
      BagTake(f, a[..n], k);
      CutSnoc(a, k);
      BagSnoc(f, Cut(a[..n], k), a[n]);
    }
  }

  lemma {:induction false} BagAppend<T>(f: Task -> T, a: seq<Task>, b: seq<Task>)
    ensures Bag(f, a + b) == Bag(f, a) + Bag(f, b)
  {
    if b == [] {
      assert a + b == a;
    } else {
      var init, last := b[..|b| - 1], b[|b| - 1];
      BagAppend(f, a, init);
      BagSnoc(f, a + init, last);
      Regrouped(a, b);
    }
  }

  lemma Regrouped(a: seq<Task>, b: seq<Task>)
    requires b != []
    ensures a + b == a + b[..|b| - 1] + [b[|b| - 1]]
  {
  }

  lemma StartBag<T(!new)>(f: Task -> T, q: Queue)
    requires StateBlind(f) && q.pending != []
    ensures BagOf(f, StartNewest(q)) == BagOf(f, q)
  {
    var n := |q.pending| - 1;
    BagSnoc(f, q.running, q.pending[n].(state := Active));
  }

  lemma {:induction false} DrainBag<T(!new)>(f: Task -> T, q: Queue, maxActive: int)
    requires StateBlind(f)
    ensures BagOf(f, Drain(q, maxActive)) == BagOf(f, q)
    decreases |q.pending|
  {
    if q.pending != [] && |q.active.Keys| < maxActive {
      StartBag(f, q);
      DrainBag(f, StartNewest(q), maxActive);
    }
  }

  lemma FinishBag<T(!new)>(f: Task -> T, q: Queue, k: nat, ok: bool)
    requires StateBlind(f)
    ensures BagOf(f, Finish(q, k, ok)) == BagOf(f, q)
  {
    if k < |q.running| {
      BagTake(f, q.running, k);
      BagSnoc(f, q.completed, q.running[k].(state := if ok then Completed else Failed));
    }
  }

  lemma StepBag<T(!new)>(f: Task -> T, q: Queue, op: Op, maxActive: int)
    requires StateBlind(f)
    ensures BagOf(f, Step(q, op, maxActive)) == BagOf(f, q) + Bag(f, Submits(op))
  {
    match op
    case Submit(task) =>
      BagSnoc(f, q.pending, task.(state := Pending));
      BagSnoc(f, [], task);
      assert [] + [task] == [task];
    case Process => DrainBag(f, q, maxActive);
    case End(k, ok) => FinishBag(f, q, k, ok);
  }

  /** In every run, duplicate ids or not, everything submitted is pending, running or completed,
      exactly as often as it was submitted and unchanged but for its state. */
  lemma {:induction false} QueueConserves<T(!new)>(f: Task -> T, ops: seq<Op>, maxActive: int)
    requires StateBlind(f)
    ensures BagOf(f, Run(ops, maxActive)) == Bag(f, Submitted(ops))
  {
    if ops != [] {
      var before, op := ops[..|ops| - 1], ops[|ops| - 1];
      QueueConserves(f, before, maxActive);
      StepBag(f, Run(before, maxActive), op, maxActive);
      BagAppend(f, Submitted(before), Submits(op));
    }
  }

  function Whole(t: Task): Task {
    t.(state := Pending)
  }

  /** In particular, the tasks themselves but for their state. */
  lemma TasksConserved(ops: seq<Op>, maxActive: int)
    ensures BagOf(Whole, Run(ops, maxActive)) == Bag(Whole, Submitted(ops))
  {
    QueueConserves(Whole, ops, maxActive);
  }

  // ------------------------------------------------------------------- states and limit

  predicate AllIn(ts: seq<Task>, states: set<State>) {
    forall t | t in ts :: t.state in states
  }

  /** Tasks are in the state of their place, every active id has a run, and there is room. */
  ghost predicate Orderly(q: Queue, maxActive: int) {
    && AllIn(q.pending, {Pending}) && AllIn(q.running, {Active})
    && AllIn(q.completed, {Completed, Failed})
    && (forall id | id in q.active :: q.active[id] in q.running && q.active[id].id == id)
    && (maxActive >= 0 ==> |q.active.Keys| <= maxActive)
  }

  lemma StartOrderly(q: Queue, maxActive: int)
    requires Orderly(q, maxActive) && q.pending != [] && |q.active.Keys| < maxActive
    ensures Orderly(StartNewest(q), maxActive)
  {
    var n, q' := |q.pending| - 1, StartNewest(q);
    assert q.pending[n] in q.pending;
    assert q'.active.Keys == q.active.Keys + {q.pending[n].id};
    assert forall t | t in q.running :: t in q'.running;
    assert q'.running[|q.running|] in q'.running;
  }

  lemma {:induction false} DrainOrderly(q: Queue, maxActive: int)
    requires Orderly(q, maxActive)
    ensures Orderly(Drain(q, maxActive), maxActive)
    decreases |q.pending|
  {
    if q.pending != [] && |q.active.Keys| < maxActive {
      StartOrderly(q, maxActive);
      DrainOrderly(StartNewest(q), maxActive);
    }
  }

  lemma FinishOrderly(q: Queue, maxActive: int, k: nat, ok: bool)
    requires Orderly(q, maxActive)
    ensures Orderly(Finish(q, k, ok), maxActive)
  {
    if k < |q.running| {
      var q', gone := Finish(q, k, ok), q.running[k];
      SubsetSize(q'.active.Keys, q.active.Keys);
      assert q.running == q.running[..k] + [gone] + q.running[k + 1..];
      assert forall t | t in q.running && t != gone :: t in q'.running;
    }
  }

  /** In every run: pending tasks are pending, running ones active, completed ones completed or
      failed; active ids belong to running tasks and are at most `maxActive`. */
  lemma {:induction false} QueueStaysOrderly(ops: seq<Op>, maxActive: int)
    ensures Orderly(Run(ops, maxActive), maxActive)
  {
    if ops != [] {
      var q := Run(ops[..|ops| - 1], maxActive);
      QueueStaysOrderly(ops[..|ops| - 1], maxActive);
      match ops[|ops| - 1]
      case Submit(task) =>
      case Process => DrainOrderly(q, maxActive);
      case End(k, ok) => FinishOrderly(q, maxActive, k, ok);
    }
  }

  /** The last `k` tasks, as they are when they are started, the newest first. */
  function Newest(ts: seq<Task>, k: nat): seq<Task>
    requires k <= |ts|
  {
    if k == 0 then []
    else [ts[|ts| - 1].(state := Active)] + Newest(ts[..|ts| - 1], k - 1)
  }

  /** Draining starts the newest tasks first, stops only for lack of tasks or of room, and leaves
      the other tasks in order. */
  lemma {:induction false} DrainTakesNewest(q: Queue, maxActive: int)
    ensures var q' := Drain(q, maxActive);
            && q'.pending <= q.pending && q'.completed == q.completed
            && q'.running == q.running + Newest(q.pending, |q.pending| - |q'.pending|)
            && (q'.pending == [] || |q'.active.Keys| >= maxActive)
    decreases |q.pending|
  {
    var q' := Drain(q, maxActive);
    if q.pending != [] && |q.active.Keys| < maxActive {
      var next := StartNewest(q);
      DrainTakesNewest(next, maxActive);
      var task, more := next.running[|q.running|], Newest(next.pending, |next.pending| - |q'.pending|);
      assert q.running + [task] + more == q.running + ([task] + more);
    } else {
      assert q.running + [] == q.running;
    }
  }

  // ------------------------------------------------------------------ order of submission

  /** The tasks are those submitted at the given positions, in the given state. */
  predicate SubmittedAt(ts: seq<Task>, all: seq<Task>, at: seq<nat>, state: State) {
    && |at| == |ts| && (forall i | 0 <= i < |at| :: at[i] < |all|)
    && forall i | 0 <= i < |at| :: ts[i] == all[at[i]].(state := state)
  }

  lemma SubmittedPrefix(ts: seq<Task>, all: seq<Task>, at: seq<nat>, state: State, k: nat)
    requires SubmittedAt(ts, all, at, state) && Positions(at, |all|) && k <= |ts|
    ensures SubmittedAt(ts[..k], all, at[..k], state) && Positions(at[..k], |all|)
  {
  }

  lemma SubmittedNext(ts: seq<Task>, all: seq<Task>, at: seq<nat>, state: State, task: Task)
    requires SubmittedAt(ts, all, at, state) && Positions(at, |all|)
    ensures SubmittedAt(ts + [task.(state := state)], all + [task], at + [|all|], state)
    ensures Positions(at + [|all|], |all + [task]|)
  {
  }

  /** In every run the pending tasks wait in the order in which they were submitted. */
  lemma {:induction false} PendingInOrder(ops: seq<Op>, maxActive: int) returns (at: seq<nat>)
    ensures Positions(at, |Submitted(ops)|)
    ensures SubmittedAt(Run(ops, maxActive).pending, Submitted(ops), at, Pending)
  {
    if ops == [] {
      at := [];
    } else {
      var before := ops[..|ops| - 1];
      var q, all := Run(before, maxActive), Submitted(before);
      at := PendingInOrder(before, maxActive);
      match ops[|ops| - 1]
      case Submit(task) =>
        SubmittedNext(q.pending, all, at, Pending, task);
        at := at + [|all|];
      case Process =>
        var k := |Drain(q, maxActive).pending|;
        DrainTakesNewest(q, maxActive);
        SubmittedPrefix(q.pending, all, at, Pending, k);
        at := at[..k];
      case End(_, _) =>
    }
  }

  lemma {:induction false} NewestSize(ts: seq<Task>, k: nat)
    requires k <= |ts|
    ensures |Newest(ts, k)| == k
  {
    if k > 0 {
      NewestSize(ts[..|ts| - 1], k - 1);
    }
  }

  lemma {:induction false} NewestAt(ts: seq<Task>, k: nat, i: nat)
    requires i < k <= |ts|
    ensures |Newest(ts, k)| == k && Newest(ts, k)[i] == ts[|ts| - 1 - i].(state := Active)
  {
    NewestSize(ts, k);
    if i > 0 {
      var init := ts[..|ts| - 1];
      NewestAt(init, k - 1, i - 1);
      assert Newest(ts, k)[i] == Newest(init, k - 1)[i - 1];
    }
  }

  predicate Decreasing(at: seq<nat>) {
    forall i, j | 0 <= i < j < |at| :: at[i] > at[j]
  }

  predicate AllBefore(a: seq<nat>, b: seq<nat>) {
    forall i, j | 0 <= i < |a| && 0 <= j < |b| :: a[i] < b[j]
  }

  /** The newest tasks of a list in order of submission, against the rest of it. */
  lemma NewestAreLatest(ts: seq<Task>, all: seq<Task>, at: seq<nat>, k: nat)
    returns (started: seq<nat>)
    requires SubmittedAt(ts, all, at, Pending) && Positions(at, |all|) && k <= |ts|
    ensures SubmittedAt(Newest(ts, k), all, started, Active) && Decreasing(started)
    ensures AllBefore(at[..|ts| - k], started)
  {
    var n := |ts|;
    started := seq(k, i requires 0 <= i < k => at[n - 1 - i]);
    NewestSize(ts, k);
    forall i | 0 <= i < k ensures Newest(ts, k)[i] == all[started[i]].(state := Active) {
      NewestAt(ts, k, i);
    }
  }

  /** Tasks that waited in `q` run in `q'`, the latest submitted first, and all of them were submitted
      after those that wait on. */
  ghost predicate StartsLatest(q: Queue, q': Queue, all: seq<Task>, started: seq<nat>,
                               left: seq<nat>)
  {
    && q.running <= q'.running
    && SubmittedAt(q'.running[|q.running|..], all, started, Active) && Decreasing(started)
    && SubmittedAt(q'.pending, all, left, Pending) && Positions(left, |all|)
    && AllBefore(left, started)
  }

  lemma DrainStartsLatest(q: Queue, maxActive: int, all: seq<Task>, at: seq<nat>)
    returns (started: seq<nat>, left: seq<nat>)
    requires SubmittedAt(q.pending, all, at, Pending) && Positions(at, |all|)
    ensures StartsLatest(q, Drain(q, maxActive), all, started, left)
  {
    var q' := Drain(q, maxActive);
    DrainTakesNewest(q, maxActive);
    var k := |q'.pending|;
    started := NewestAreLatest(q.pending, all, at, |q.pending| - k);
    SubmittedPrefix(q.pending, all, at, Pending, k);
    left := at[..k];
    assert q'.pending == q.pending[..k];
    assert q'.running[|q.running|..] == Newest(q.pending, |q.pending| - k);
  }

  lemma ProcessRun(ops: seq<Op>, maxActive: int)
    ensures Run(ops + [Process], maxActive) == Drain(Run(ops, maxActive), maxActive)
  {
    assert (ops + [Process])[..|ops|] == ops;
  }

  /** Each processing of the queue, in every run, starts waiting tasks, the latest submitted first,
      all of them later than those it leaves waiting, and it leaves some only for lack of room. */
  lemma LatestStartFirst(ops: seq<Op>, maxActive: int) returns (started: seq<nat>, left: seq<nat>)
    ensures var q, q' := Run(ops, maxActive), Run(ops + [Process], maxActive);
            && StartsLatest(q, q', Submitted(ops), started, left)
            && (q'.pending == [] || |q'.active.Keys| >= maxActive)
  {
    var at := PendingInOrder(ops, maxActive);
    ProcessRun(ops, maxActive);
    DrainTakesNewest(Run(ops, maxActive), maxActive);
    started, left := DrainStartsLatest(Run(ops, maxActive), maxActive, Submitted(ops), at);
  }

  datatype Ending = Ending(task: Task, ok: bool)

  /** The background runs that ended, in the order in which they did, and how. */
  function Endings(ops: seq<Op>, maxActive: int): seq<Ending> {
    if ops == [] then []
    else
      var op, q := ops[|ops| - 1], Run(ops[..|ops| - 1], maxActive);
      Endings(ops[..|ops| - 1], maxActive) +
      if op.End? && op.k < |q.running| then [Ending(q.running[op.k], op.ok)] else []
  }

  /** In every run the completed list holds the tasks whose runs ended, in that order, as completed
      or failed according to how they did. */
  lemma {:induction false} CompletedTellsHow(ops: seq<Op>, maxActive: int)
    ensures var done, ended := Run(ops, maxActive).completed, Endings(ops, maxActive);
            && |done| == |ended|
            && forall i | 0 <= i < |ended| ::
                 done[i] == ended[i].task.(state := if ended[i].ok then Completed else Failed)
  {
    if ops != [] {
      CompletedTellsHow(ops[..|ops| - 1], maxActive);
      DrainTakesNewest(Run(ops[..|ops| - 1], maxActive), maxActive);
    }
  }

  // --------------------------------------------------------------------- unique task ids

  function Id(t: Task): TaskId {
    t.id
  }

  predicate UniqueIds(ts: seq<Task>) {
    forall i, j | 0 <= i < j < |ts| :: ts[i].id != ts[j].id
  }

  /** No id is there twice. */
  ghost predicate Single(ids: multiset<TaskId>) {
    forall id :: ids[id] <= 1
  }

  lemma {:induction false} IdInBag(ts: seq<Task>, id: TaskId)
    ensures Bag(Id, ts)[id] > 0 <==> exists t | t in ts :: t.id == id
  {
    if ts != [] {
      var init, last := ts[..|ts| - 1], ts[|ts| - 1];
      IdInBag(init, id);
      assert ts == init + [last];
    }
  }

  lemma {:induction false} UniqueIffSingle(ts: seq<Task>)
    ensures UniqueIds(ts) <==> Single(Bag(Id, ts))
  {
    if ts != [] {
      var init, last := ts[..|ts| - 1], ts[|ts| - 1];
      assert ts == init + [last];
      UniqueIffSingle(init);
      IdInBag(init, last.id);
      if Single(Bag(Id, ts)) {
        SingleInit(init, last);
      }
      if UniqueIds(init) && !exists t | t in init :: t.id == last.id {
        assert forall i | 0 <= i < |init| :: init[i] in init;
      }
    }
  }

  lemma SingleInit(init: seq<Task>, last: Task)
    requires Single(Bag(Id, init + [last]))
    ensures Single(Bag(Id, init)) && !exists t | t in init :: t.id == last.id
  {
    BagSnoc(Id, init, last);
    IdInBag(init, last.id);
    assert Bag(Id, init + [last])[last.id] == Bag(Id, init)[last.id] + 1;
    forall id ensures Bag(Id, init)[id] <= 1 {
      assert Bag(Id, init)[id] <= Bag(Id, init + [last])[id];
    }
  }

  function All(q: Queue): seq<Task> {
    q.pending + q.running + q.completed
  }

  lemma AllUnique(ops: seq<Op>, maxActive: int)
    requires UniqueIds(Submitted(ops))
    ensures UniqueIds(All(Run(ops, maxActive)))
  {
    var q := Run(ops, maxActive);
    QueueConserves(Id, ops, maxActive);
    BagAppend(Id, q.pending, q.running);
    BagAppend(Id, q.pending + q.running, q.completed);
    UniqueIffSingle(Submitted(ops));
    UniqueIffSingle(All(q));
  }

  lemma RunningUnique(q: Queue)
    requires UniqueIds(All(q))
    ensures UniqueIds(q.running)
  {
    forall i, j | 0 <= i < j < |q.running| ensures q.running[i].id != q.running[j].id {
      assert All(q)[|q.pending| + i] == q.running[i] && All(q)[|q.pending| + j] == q.running[j];
    }
  }

  /** Every running task holds its id in the map. */
  predicate Holding(q: Queue) {
    forall i | 0 <= i < |q.running| :: q.running[i].id in q.active
  }

  lemma {:induction false} DrainHolding(q: Queue, maxActive: int)
    requires Holding(q)
    ensures Holding(Drain(q, maxActive))
    decreases |q.pending|
  {
    if q.pending != [] && |q.active.Keys| < maxActive {
      DrainHolding(StartNewest(q), maxActive);
    }
  }

  lemma FinishHolding(q: Queue, k: nat, ok: bool)
    requires Holding(q) && UniqueIds(q.running)
    ensures Holding(Finish(q, k, ok))
  {
  }

  lemma {:induction false} RunHolding(ops: seq<Op>, maxActive: int)
    requires UniqueIds(Submitted(ops))
    ensures Holding(Run(ops, maxActive))
  {
    if ops != [] {
      var before, q := ops[..|ops| - 1], Run(ops[..|ops| - 1], maxActive);
      assert Submitted(before) <= Submitted(ops);
      RunHolding(before, maxActive);
      match ops[|ops| - 1]
      case Submit(task) =>
      case Process => DrainHolding(q, maxActive);
      case End(k, ok) =>
        AllUnique(before, maxActive);
        RunningUnique(q);
        FinishHolding(q, k, ok);
    }
  }

  function IdsOf(ts: seq<Task>): seq<TaskId> {
    seq(|ts|, i requires 0 <= i < |ts| => ts[i].id)
  }

  /** In every run with unique ids no id is in two places or twice in one; the map holds exactly the
      running tasks, so the number of background runs stays within the limit. */
  lemma UniqueTasks(ops: seq<Op>, maxActive: int)
    requires UniqueIds(Submitted(ops))
    ensures var q := Run(ops, maxActive);
            && UniqueIds(All(q))
            && Elements(IdsOf(q.running)) == q.active.Keys
            && |q.running| == |q.active.Keys|
            && (maxActive >= 0 ==> |q.running| <= maxActive)
  {
    var q := Run(ops, maxActive);
    AllUnique(ops, maxActive);
    RunningUnique(q);
    RunHolding(ops, maxActive);
    QueueStaysOrderly(ops, maxActive);
    var ids := IdsOf(q.running);
    DistinctSize(ids);
    forall id | id in q.active ensures id in ids {
      var i :| 0 <= i < |q.running| && q.running[i] == q.active[id];
      assert ids[i] == id;
    }
  }

  // ------------------------------------------------------------------------ duplicate ids

  /** Starting a task keeps the number of pending and active tasks if and only if its id is not
      active already. */
  lemma StartKeepsCountIff(q: Queue)
    requires q.pending != []
    ensures var q' := StartNewest(q);
            |q'.pending| + |q'.active.Keys| == |q.pending| + |q.active.Keys|
            <==> q.pending[|q.pending| - 1].id !in q.active
  {
    var id := q.pending[|q.pending| - 1].id;
    assert StartNewest(q).active.Keys == q.active.Keys + {id};
    if id in q.active {
      assert q.active.Keys + {id} == q.active.Keys;
    }
  }

  function Copies(task: Task, n: nat): seq<Op> {
    if n == 0 then [] else Copies(task, n - 1) + [Submit(task)]
  }

  lemma {:induction false} CopiesWait(task: Task, n: nat, maxActive: int)
    ensures var q := Run(Copies(task, n), maxActive);
            && |q.pending| == n && q.running == [] && q.active == map[]
            && forall i | 0 <= i < n :: q.pending[i].id == task.id
  {
    if n > 0 {
      CopiesWait(task, n - 1, maxActive);
      assert Copies(task, n)[..|Copies(task, n)| - 1] == Copies(task, n - 1);
    }
  }

  lemma {:induction false} DrainCopies(q: Queue, id: TaskId, maxActive: int)
    requires maxActive >= 2 && q.active.Keys <= {id}
    requires forall i | 0 <= i < |q.pending| :: q.pending[i].id == id
    ensures var q' := Drain(q, maxActive);
            |q'.running| == |q.running| + |q.pending| && q'.active.Keys <= {id}
    decreases |q.pending|
  {
    SubsetSize(q.active.Keys, {id});
    if q.pending != [] {
      DrainCopies(StartNewest(q), id, maxActive);
    }
  }

  /** Any number of tasks with one id run at once and share one place in the map. */
  lemma CopiesAllRun(task: Task, n: nat, maxActive: int)
    requires maxActive >= 2
    ensures var q := Run(Copies(task, n) + [Process], maxActive);
            |q.running| == n && |q.active.Keys| <= 1
  {
    var ops, q := Copies(task, n), Run(Copies(task, n), maxActive);
    assert (ops + [Process])[..|ops|] == ops;
    CopiesWait(task, n, maxActive);
    DrainCopies(q, task.id, maxActive);
    SubsetSize(Drain(q, maxActive).active.Keys, {task.id});
  }

  /** At most one task runs, and while it does the map is not empty. */
  ghost predicate Solo(q: Queue, maxActive: int) {
    && |q.running| <= 1 && (maxActive <= 0 ==> q.running == [])
    && (q.running != [] ==> q.active.Keys != {})
  }

  lemma DrainSolo(q: Queue, maxActive: int)
    requires Solo(q, maxActive) && maxActive <= 1
    ensures Solo(Drain(q, maxActive), maxActive)
  {
    if q.pending != [] && |q.active.Keys| < maxActive {
      var next := StartNewest(q);
      assert next.running[|q.running|].id in next.active.Keys;
      assert next.active.Keys != {} && |next.active.Keys| >= 1;
    }
  }

  lemma {:induction false} SoloRun(ops: seq<Op>, maxActive: int)
    requires maxActive <= 1
    ensures Solo(Run(ops, maxActive), maxActive)
  {
    if ops != [] {
      SoloRun(ops[..|ops| - 1], maxActive);
      var q := Run(ops[..|ops| - 1], maxActive);
      match ops[|ops| - 1]
      case Submit(task) =>
      case Process => DrainSolo(q, maxActive);
      case End(k, ok) =>
    }
  }

  function Room(maxActive: int): nat {
    if maxActive > 0 then maxActive else 0
  }

  /** Without unique ids, the number of background runs stays within the limit in every run if and
      only if the limit is one or less. */
  lemma RunningLimitIff(maxActive: int)
    ensures (forall ops :: |Run(ops, maxActive).running| <= Room(maxActive)) <==> maxActive <= 1
  {
    if maxActive <= 1 {
      forall ops ensures |Run(ops, maxActive).running| <= Room(maxActive) {
        SoloRun(ops, maxActive);
      }
    } else {
      CopiesAllRun(Task("", "", "", "", [], Pending), maxActive + 1, maxActive);
    }
  }

  // ---------------------------------------------------------------- the queue as an object

  class Migrations {
    var pending: seq<Task>
    var active: map<TaskId, Task>
    var running: seq<Task>
    var completed: seq<Task>
    const maxActive: int

    ghost function View(): Queue
      reads this
    {
      Queue(pending, active, running, completed)
    }

    constructor (maxActive: int)
      ensures View() == EMPTY && this.maxActive == maxActive
    {
      pending, active, running, completed := [], map[], [], [];
      this.maxActive := maxActive;
    }

    method MigrateShard(id: TaskId, shardId: string, source: string, target: string,
                        shards: map<string, set<string>>) returns (ok: bool)
      modifies this`pending
      ensures ok <==> shardId in shards
      ensures !ok ==> View() == old(View())
      ensures ok ==> old(pending) < pending
      ensures ok ==> exists repos: seq<string> ::
                && (forall r :: r in repos <==> r in shards[shardId])
                && |repos| == |shards[shardId]|
                && View() == Step(old(View()),
                                  Submit(Task(id, shardId, source, target, repos, Pending)),
                                  maxActive)
    {
      if shardId !in shards {
        return false;
      }
      var repos: seq<string>, rest := [], shards[shardId];
      while rest != {}
        invariant rest <= shards[shardId] && |repos| + |rest| == |shards[shardId]|
        invariant forall r :: r in repos <==> r in shards[shardId] - rest
      {
        var r :| r in rest;
        repos, rest := repos + [r], rest - {r};
      }
      pending := pending + [Task(id, shardId, source, target, repos, Pending)];
      ok := true;
    }

    method ProcessPendingMigrations()
      modifies this`pending, this`active, this`running
      ensures View() == Drain(old(View()), maxActive)
    {
      if |active.Keys| >= maxActive {
        return;
      }
      var i := |pending| - 1;
      while i >= 0
        invariant i == |pending| - 1
        invariant Drain(View(), maxActive) == Drain(old(View()), maxActive)
        invariant completed == old(completed)
      {
        if |active.Keys| >= maxActive {
          break;
        }
        var task := pending[i];
        assert pending[..i] + pending[i + 1..] == pending[..i];
        pending := pending[..i] + pending[i + 1..];
        task := task.(state := Active);
        active := active[task.id := task];
        running := running + [task];
        i := i - 1;
      }
    }

    /** The deferred end of a background run: it is listed as completed whether or not its id
        is still active. */
    method EndMigration(k: nat, ok: bool)
      requires k < |running|
      modifies this`active, this`running, this`completed
      ensures View() == Finish(old(View()), k, ok)
    {
      var task := running[k].(state := if ok then Completed else Failed);
      running := running[..k] + running[k + 1..];
      active := active - {task.id};
      completed := completed + [task];
    }
  }
}
