/** The timer loop (SysAsyncEventLoop, mxsystem.cpp) while it runs: a priority queue of one-shot and
    recurring tasks, one worker. Time is whatever the clock says at each step. */
module Scheduler {
  import opened Collections

  /** SysAsyncTask. `id` tells apart the calls of schedule that created the tasks; `callable` is false for
      an empty function object, which the worker drops. */
  datatype Task = Task(id: nat, callable: bool, scheduled: int, interval: int) {
    predicate Recurring() { callable && interval > 0 }
  }

  /** One execution of a job. */
  datatype Execution = Execution(id: nat, scheduled: int, started: int)

  datatype State = State(
    queue: seq<Task>,         // _queue, in no particular order
    running: Option<Task>,    // the task whose job the worker is executing
    born: seq<Task>,          // every task as it was first scheduled, by id
    log: seq<Execution>)      // every execution so far

  const IDLE: State := State([], None, [], [])

  datatype Event =
    | Schedule(callable: bool, delay: int, interval: int, now: int)
    | Poll(now: int, i: nat)  // the worker looks at the top of the queue, which is task i
    | Finish

  /** Task i is a top of the priority queue: no task is scheduled earlier. */
  predicate IsTop(q: seq<Task>, i: nat) {
    i < |q| && forall j :: 0 <= j < |q| ==> q[i].scheduled <= q[j].scheduled
  }

  predicate Enabled(s: State, e: Event) {
    match e
    case Schedule(_, _, _, _) => true
    case Poll(_, i) => s.running.None? && (s.queue != [] ==> IsTop(s.queue, i))
    case Finish => s.running.Some?
  }

  function Step(s: State, e: Event): State
    requires Enabled(s, e)
  {
    match e
    case Schedule(callable, delay, interval, now) =>
      var t := Task(|s.born|, callable, now + delay, interval);
      s.(queue := s.queue + [t], born := s.born + [t])
    case Poll(now, i) =>
      if s.queue == [] || s.queue[i].scheduled > now then s
      else
        var t := s.queue[i];
        var rest := Without(s.queue, i);
        if !t.callable then s.(queue := rest)
        else s.(queue := rest, running := Some(t), log := s.log + [Execution(t.id, t.scheduled, now)])
    case Finish =>
      var t := s.running.value;
      s.(running := None,
         queue := if t.interval > 0 then s.queue + [t.(scheduled := t.scheduled + t.interval)] else s.queue)
  }

  /** How often a task has been executed. */
  function Runs(log: seq<Execution>, id: nat): nat {
    if log == [] then 0
    else Runs(log[..|log| - 1], id) + if log[|log| - 1].id == id then 1 else 0
  }

  /** When execution k of a task is due. */
  function Due(t: Task, k: nat): int {
    t.scheduled + k * t.interval
  }

  lemma NextDue(t: Task, k: nat)
    ensures Due(t, k + 1) == Due(t, k) + t.interval
  {
  }

  /** A queued or running task is the one it was born as, except for its time. */
  predicate SameTask(t: Task, born: seq<Task>) {
    t.id < |born| && t == born[t.id].(scheduled := t.scheduled)
  }

  /** The task waits for its next execution: the one after those it has had. */
  predicate Waiting(t: Task, s: State) {
    && SameTask(t, s.born)
    && t.scheduled == Due(s.born[t.id], Runs(s.log, t.id))
    && (t.Recurring() || Runs(s.log, t.id) == 0)
  }

  /** The task is in the execution that was logged last for it. */
  predicate Executing(t: Task, s: State) {
    && SameTask(t, s.born) && t.callable
    && Runs(s.log, t.id) > 0
    && t.scheduled == Due(s.born[t.id], Runs(s.log, t.id) - 1)
    && (t.Recurring() || Runs(s.log, t.id) == 1)
  }

  ghost predicate Queued(s: State, id: nat) {
    exists i :: 0 <= i < |s.queue| && s.queue[i].id == id
  }

  /** Execution n of the log was not early, and was due when the interval says. */
  predicate Punctual(s: State, n: nat)
    requires n < |s.log|
  {
    var x := s.log[n];
    && x.id < |s.born|
    && x.scheduled <= x.started
    && x.scheduled == Due(s.born[x.id], Runs(s.log[..n], x.id))
    && (s.born[x.id].Recurring() || Runs(s.log[..n], x.id) == 0)
  }

  ghost predicate Inv(s: State) {
    && (forall i :: 0 <= i < |s.born| ==> s.born[i].id == i)
    && (forall i :: 0 <= i < |s.queue| ==> Waiting(s.queue[i], s))
    && (s.running.Some? ==> Executing(s.running.value, s))
    && (forall i, j :: 0 <= i < j < |s.queue| ==> s.queue[i].id != s.queue[j].id)
    && (s.running.Some? ==> forall i :: 0 <= i < |s.queue| ==> s.queue[i].id != s.running.value.id)
    && (forall n :: 0 <= n < |s.log| ==> Punctual(s, n))
    && (forall id :: 0 <= id < |s.born| && s.born[id].Recurring() ==>
          Queued(s, id) || (s.running.Some? && s.running.value.id == id))
  }

  lemma {:induction false} RunsOfNew(log: seq<Execution>, id: nat)
    requires forall n :: 0 <= n < |log| ==> log[n].id < id
    ensures Runs(log, id) == 0
  {
    if log != [] {
      assert forall n :: 0 <= n < |log| - 1 ==> log[..|log| - 1][n] == log[n];
      RunsOfNew(log[..|log| - 1], id);
    }
  }

  lemma ScheduleInv(s: State, e: Event)
    requires Inv(s) && e.Schedule?
    ensures Inv(Step(s, e))
  {
    hide Runs, Due;
    var t := Step(s, e);
    var id := |s.born|;
    forall n | 0 <= n < |s.log|
      ensures s.log[n].id < id && Punctual(t, n)
    {
      assert Punctual(s, n);
    }
    RunsOfNew(s.log, id);
    assert Due(t.born[id], 0) == t.born[id].scheduled by { DueFirst(t.born[id]); }
    forall i | 0 <= i < |t.queue|
      ensures Waiting(t.queue[i], t)
    {
      if i < |s.queue| { assert Waiting(s.queue[i], s); }
    }
    KeepsQueued(s, t, id);
  }

  lemma DueFirst(t: Task)
    ensures Due(t, 0) == t.scheduled
  {
  }

  lemma KeepsQueued(s: State, t: State, id: nat)
    requires Inv(s) && |s.queue| < |t.queue| && s.queue == t.queue[..|s.queue|]
    ensures forall k :: Queued(s, k) ==> Queued(t, k)
    ensures Queued(t, t.queue[|s.queue|].id)
  {
    forall k | Queued(s, k)
      ensures Queued(t, k)
    {
      var i :| 0 <= i < |s.queue| && s.queue[i].id == k;
      assert t.queue[i] == s.queue[i];
    }
  }

  lemma RunsNext(log: seq<Execution>, x: Execution, id: nat)
    ensures Runs(log + [x], id) == Runs(log, id) + if x.id == id then 1 else 0
    ensures forall n :: 0 <= n <= |log| ==> (log + [x])[..n] == log[..n]
  {
    assert (log + [x])[..|log|] == log;
  }

  lemma PollInv(s: State, e: Event)
    requires Inv(s) && e.Poll? && Enabled(s, e)
    ensures Inv(Step(s, e))
  {
    hide Runs, Due, Queued;
    if s.queue != [] && s.queue[e.i].scheduled <= e.now {
      var t := Step(s, e);
      var task := s.queue[e.i];
      assert Waiting(task, s);
      var x := Execution(task.id, task.scheduled, e.now);
      forall id ensures Runs(s.log + [x], id) == Runs(s.log, id) + if task.id == id then 1 else 0 { RunsNext(s.log, x, id); }
      forall i | 0 <= i < |t.queue|
        ensures Waiting(t.queue[i], t) && t.queue[i].id != task.id
      {
        assert Waiting(s.queue[if i < e.i then i else i + 1], s);
      }
      forall n | 0 <= n < |t.log|
        ensures Punctual(t, n)
      {
        RunsNext(s.log, x, 0);
        if n < |s.log| {
          assert Punctual(s, n);
          assert t.log[..n] == s.log[..n];
        } else {
          assert t.log[..n] == s.log;
        }
      }
      forall id | 0 <= id < |t.born| && t.born[id].Recurring()
        ensures Queued(t, id) || (t.running.Some? && t.running.value.id == id)
      {
        RemovedOne(s, t, e.i, id);
      }
    }
  }

  lemma RemovedOne(s: State, t: State, i: nat, id: nat)
    requires i < |s.queue| && t.queue == Without(s.queue, i)
    ensures Queued(s, id) ==> Queued(t, id) || s.queue[i].id == id
  {
    if Queued(s, id) && s.queue[i].id != id {
      var j :| 0 <= j < |s.queue| && s.queue[j].id == id;
      assert t.queue[if j < i then j else j - 1].id == id;
    }
  }

  lemma FinishInv(s: State)
    requires Inv(s) && s.running.Some?
    ensures Inv(Step(s, Finish))
  {
    if s.running.value.interval > 0 { FinishRecurring(s); } else { FinishLast(s); }
  }

  /** Tasks and executions are judged by what was born and logged alone. */
  lemma SameHistory(s: State, t: State)
    requires t.born == s.born && t.log == s.log
    ensures forall n :: 0 <= n < |s.log| && Punctual(s, n) ==> Punctual(t, n)
    ensures forall task :: Waiting(task, s) ==> Waiting(task, t)
  {
    hide Runs, Due;
  }

  lemma FinishRecurring(s: State)
    requires Inv(s) && s.running.Some? && s.running.value.interval > 0
    ensures Inv(Step(s, Finish))
  {
    var t := Step(s, Finish);
    assert Executing(s.running.value, s);
    Requeued(s);
    SameHistory(s, t);
    KeepsQueued(s, t, s.running.value.id);
    hide Punctual, Waiting, Queued, Executing;
  }

  lemma FinishLast(s: State)
    requires Inv(s) && s.running.Some? && s.running.value.interval <= 0
    ensures Inv(Step(s, Finish))
  {
    var t := Step(s, Finish);
    assert Executing(s.running.value, s);
    SameHistory(s, t);
    assert t.queue == s.queue && t.running.None?;
    assert forall id :: Queued(s, id) ==> Queued(t, id);
    hide Punctual, Waiting, Queued;
  }

  lemma Requeued(s: State)
    requires Inv(s) && s.running.Some? && s.running.value.interval > 0
    ensures var t := Step(s, Finish);
            |t.queue| == |s.queue| + 1 && Waiting(t.queue[|s.queue|], t)
  {
    hide Runs, Punctual;
    var task := s.running.value;
    assert Executing(task, s);
    NextDue(s.born[task.id], Runs(s.log, task.id) - 1);
  }

  /** s is reached from an idle loop by the events es. */
  ghost predicate Reaches(es: seq<Event>, s: State) {
    if es == [] then s == IDLE
    else
      var n := |es| - 1;
      exists t :: Reaches(es[..n], t) && Enabled(t, es[n]) && s == Step(t, es[n])
  }

  lemma {:induction false} ReachesInv(es: seq<Event>, s: State)
    requires Reaches(es, s)
    ensures Inv(s)
    decreases |es|
  {
    if es != [] {
      hide Inv, Step;
      var n := |es| - 1;
      var t :| Reaches(es[..n], t) && Enabled(t, es[n]) && s == Step(t, es[n]);
      ReachesInv(es[..n], t);
      StepInv(t, es[n]);
    }
  }

  lemma StepInv(s: State, e: Event)
    requires Inv(s) && Enabled(s, e)
    ensures Inv(Step(s, e))
  {
    hide Inv, Step;
    match e
    case Schedule(_, _, _, _) => ScheduleInv(s, e);
    case Poll(_, _) => PollInv(s, e);
    case Finish => FinishInv(s);
  }

  /** In every run no execution starts before its time, the k-th execution of a task (from 0) is due k
      intervals after the time it was first scheduled for, and a one-shot task has no second execution. */
  lemma ExecutionsArePunctual(es: seq<Event>, s: State, n: nat)
    requires Reaches(es, s) && n < |s.log|
    ensures var x := s.log[n];
            && x.id < |s.born|
            && x.scheduled <= x.started
            && x.scheduled == s.born[x.id].scheduled + Runs(s.log[..n], x.id) * s.born[x.id].interval
            && (s.born[x.id].Recurring() || Runs(s.log[..n], x.id) == 0)
  {
    hide Runs;
    ReachesInv(es, s);
    assert Punctual(s, n);
  }

  /** In every run a recurring task is in one place only: once in the queue or in execution. */
  lemma RecurringTasksSurvive(es: seq<Event>, s: State, id: nat)
    requires Reaches(es, s) && id < |s.born| && s.born[id].Recurring()
    ensures Queued(s, id) <==> !(s.running.Some? && s.running.value.id == id)
    ensures forall i, j :: 0 <= i < j < |s.queue| ==> s.queue[i].id != s.queue[j].id
  {
    hide Runs, Due, Waiting, Executing, Punctual;
    ReachesInv(es, s);
  }

  // ----- What the worker does -----

  /** The worker with nothing running, looking at a due top of the queue, takes it off the queue, and starts it
      and logs the execution when it can be called. Otherwise it changes nothing. */
  lemma PollMeans(s: State, now: int, i: nat)
    requires Enabled(s, Poll(now, i))
    ensures var t := Step(s, Poll(now, i));
            && t.born == s.born
            && (s.queue != [] && s.queue[i].scheduled <= now ==>
                  var task := s.queue[i];
                  && |t.queue| == |s.queue| - 1
                  && (forall j :: 0 <= j < |t.queue| ==> t.queue[j] == s.queue[if j < i then j else j + 1])
                  && t.running == (if task.callable then Some(task) else None)
                  && t.log == s.log + (if task.callable then [Execution(task.id, task.scheduled, now)] else []))
            && (s.queue == [] || now < s.queue[i].scheduled ==> t == s)
  {
  }

  /** The job of a running task that has returned is over, and a recurring one is queued again, an interval
      after its last time. */
  lemma FinishMeans(s: State)
    requires s.running.Some?
    ensures var t, task := Step(s, Finish), s.running.value;
            && t.running == None && t.log == s.log && t.born == s.born
            && t.queue == s.queue + (if task.interval > 0
                                     then [Task(task.id, task.callable, task.scheduled + task.interval, task.interval)]
                                     else [])
  {
  }

  /** A scheduled task is queued, due after its delay. */
  lemma ScheduleMeans(s: State, callable: bool, delay: int, interval: int, now: int)
    ensures var t := Step(s, Schedule(callable, delay, interval, now));
            && t.queue == s.queue + [Task(|s.born|, callable, now + delay, interval)]
            && t.born == s.born + [Task(|s.born|, callable, now + delay, interval)]
            && t.running == s.running && t.log == s.log
  {
  }

  // ----- Every due task gets its turn -----

  /** States one after another, by events of the worker alone: polls at this time and returns of jobs. */
  ghost predicate Works(es: seq<Event>, ss: seq<State>, now: int) {
    && |ss| == |es| + 1
    && forall i :: 0 <= i < |es| ==>
         (es[i] == Finish || (es[i].Poll? && es[i].now == now)) && Enabled(ss[i], es[i]) && ss[i + 1] == Step(ss[i], es[i])
  }

  lemma WorksMore(s: State, e: Event, es: seq<Event>, ss: seq<State>, now: int)
    requires (e == Finish || (e.Poll? && e.now == now)) && Enabled(s, e) && Works(es, ss, now) && ss[0] == Step(s, e)
    ensures Works([e] + es, [s] + ss, now)
  {
    hide Step;
    var fs, ts := [e] + es, [s] + ss;
    forall i | 0 <= i < |fs|
      ensures (fs[i] == Finish || (fs[i].Poll? && fs[i].now == now)) && Enabled(ts[i], fs[i]) && ts[i + 1] == Step(ts[i], fs[i])
    {
      if i > 0 { assert fs[i] == es[i - 1] && ts[i] == ss[i - 1] && ts[i + 1] == ss[i]; }
    }
  }

  /** How far the queue is behind the given time: the distances of all earlier tasks. */
  function Backlog(q: seq<Task>, limit: int): nat {
    if q == [] then 0
    else (if q[0].scheduled < limit then limit - q[0].scheduled else 0) + Backlog(q[1..], limit)
  }

  lemma {:induction false} BacklogAppend(a: seq<Task>, b: seq<Task>, limit: int)
    ensures Backlog(a + b, limit) == Backlog(a, limit) + Backlog(b, limit)
  {
    if a == [] {
      assert a + b == b;
    } else {
      assert (a + b)[1..] == a[1..] + b;
      BacklogAppend(a[1..], b, limit);
    }
  }

  lemma BacklogWithout(q: seq<Task>, i: nat, limit: int)
    requires i < |q|
    ensures Backlog(q, limit) == Backlog(Without(q, i), limit) + if q[i].scheduled < limit then limit - q[i].scheduled else 0
  {
    assert q == q[..i] + ([q[i]] + q[i + 1..]);
    BacklogAppend(q[..i], [q[i]] + q[i + 1..], limit);
    BacklogAppend([q[i]], q[i + 1..], limit);
    BacklogAppend(q[..i], q[i + 1..], limit);
    assert [q[i]][1..] == [];
  }

  /** A top of a queue. */
  lemma {:induction false} SomeTop(q: seq<Task>) returns (i: nat)
    requires q != []
    ensures IsTop(q, i)
  {
    i := 0;
    if |q| > 1 {
      var j := SomeTop(q[1..]);
      assert forall k :: 1 <= k < |q| ==> q[k] == q[1..][k - 1];
      if q[1 + j].scheduled < q[0].scheduled { i := 1 + j; }
    }
  }

  /** Task d is queued with this number and this time. */
  predicate QueuedAs(s: State, d: Task) {
    exists i :: 0 <= i < |s.queue| && s.queue[i] == d
  }

  /** Every due task that can be called is brought to execution by finitely many polls and returns of jobs,
      even if the clock stands still, whatever else is due. */
  lemma DueTaskRuns(s: State, k: nat, now: int) returns (es: seq<Event>, ss: seq<State>)
    requires k < |s.queue| && s.queue[k].callable && s.queue[k].scheduled <= now
    ensures |ss| == |es| + 1 && ss[0] == s
    ensures forall i :: 0 <= i < |es| ==>
              (es[i] == Finish || (es[i].Poll? && es[i].now == now)) && Enabled(ss[i], es[i]) && ss[i + 1] == Step(ss[i], es[i])
    ensures var d, t := s.queue[k], ss[|es|];
            t.running == Some(d) && t.log != [] && t.log[|t.log| - 1] == Execution(d.id, d.scheduled, now)
  {
    es, ss := TaskRuns(s, s.queue[k], now);
  }

  lemma {:induction false} TaskRuns(s: State, d: Task, now: int) returns (es: seq<Event>, ss: seq<State>)
    requires QueuedAs(s, d) && d.callable && d.scheduled <= now
    ensures Works(es, ss, now) && ss[0] == s
    ensures var t := ss[|es|];
            t.running == Some(d) && t.log != [] && t.log[|t.log| - 1] == Execution(d.id, d.scheduled, now)
    decreases Work(s, d).0, Work(s, d).1
  {
    hide QueuedAs, Work, Step;
    if s.running.Some? {
      FinishStays(s, d);
      var rest, states := TaskRuns(Step(s, Finish), d, now);
      WorksMore(s, Finish, rest, states, now);
      es, ss := [Finish] + rest, [s] + states;
    } else {
      var i, reached := NextPoll(s, d, now);
      var e := Poll(now, i);
      var rest, states := [], [Step(s, e)];
      if !reached { rest, states := TaskRuns(Step(s, e), d, now); }
      WorksMore(s, e, rest, states, now);
      es, ss := [e] + rest, [s] + states;
    }
  }

  /** What is to be done before d: the backlog of the queue, and that of the running task once it returns. */
  function Work(s: State, d: Task): (nat, nat) {
    (Backlog(s.queue, d.scheduled) +
     (if s.running.Some? && s.running.value.interval > 0 && s.running.value.scheduled + s.running.value.interval < d.scheduled
      then d.scheduled - s.running.value.scheduled - s.running.value.interval else 0),
     if s.running.Some? then 1 else 0)
  }

  lemma FinishStays(s: State, d: Task)
    requires QueuedAs(s, d) && s.running.Some?
    ensures var t := Step(s, Finish);
            QueuedAs(t, d) && Work(t, d).0 == Work(s, d).0 && Work(t, d).1 < Work(s, d).1
  {
    FinishMeans(s);
    var t, task := Step(s, Finish), s.running.value;
    var i :| 0 <= i < |s.queue| && s.queue[i] == d;
    assert t.queue[i] == d;
    var more := t.queue[|s.queue|..];
    assert t.queue == s.queue + more;
    BacklogAppend(s.queue, more, d.scheduled);
    assert more != [] ==> more[1..] == [];
  }

  /** The next poll starts d, or there is less to do before it. */
  lemma NextPoll(s: State, d: Task, now: int) returns (i: nat, reached: bool)
    requires QueuedAs(s, d) && s.running.None? && d.callable && d.scheduled <= now
    ensures Enabled(s, Poll(now, i))
    ensures var t := Step(s, Poll(now, i));
            && (reached ==> t.running == Some(d) && t.log == s.log + [Execution(d.id, d.scheduled, now)])
            && (!reached ==> QueuedAs(t, d) && Work(t, d).0 < Work(s, d).0)
  {
    var k: nat :| k < |s.queue| && s.queue[k] == d;
    i := SomeTop(s.queue);
    if s.queue[i].scheduled == d.scheduled {
      i := k;
      reached := true;
      PollMeans(s, now, i);
    } else {
      reached := false;
      PollMeans(s, now, i);
      var t := Step(s, Poll(now, i));
      assert t.queue == Without(s.queue, i);
      assert t.queue[if k < i then k else k - 1] == d;
      BacklogWithout(s.queue, i, d.scheduled);
    }
  }

  class EventLoop {
    var queue: seq<Task>
    var running: Option<Task>
    ghost var born: seq<Task>
    ghost var log: seq<Execution>
    var created: nat

    ghost function Now(): State
      reads this
    {
      State(queue, running, born, log)
    }

    ghost predicate Valid()
      reads this
    {
      created == |born| && Inv(Now())
    }

    constructor ()
      ensures Valid() && Now() == IDLE
    {
      queue, running, born, log, created := [], None, [], [], 0;
    }

    /** schedule(job, delay, interval) */
    method Schedule(callable: bool, delay: int, interval: int, now: int)
      requires Valid()
      modifies this
      ensures Valid() && Now() == Step(old(Now()), Event.Schedule(callable, delay, interval, now))
      ensures queue == old(queue) + [Task(old(created), callable, now + delay, interval)] && running == old(running)
    {
      hide Inv;
      StepInv(Now(), Event.Schedule(callable, delay, interval, now));
      var t := Task(created, callable, now + delay, interval);
      queue := queue + [t];
      created := created + 1;
      born := born + [t];
    }

    /** _queue.top(): a task with the least time. */
    method Top() returns (i: nat)
      requires queue != []
      ensures IsTop(queue, i)
    {
      i := 0;
      var j := 1;
      while j < |queue|
        invariant i < j <= |queue|
        invariant forall k :: 0 <= k < j ==> queue[i].scheduled <= queue[k].scheduled
      {
        if queue[j].scheduled < queue[i].scheduled {
          i := j;
        }
        j := j + 1;
      }
    }

    /** One turn of the worker: starts the earliest task if it is due. */
    method Poll(now: int) returns (started: Option<Task>)
      requires Valid() && running.None?
      modifies this`queue, this`running, this`log
      ensures Valid() && started == running
      ensures exists i :: Enabled(old(Now()), Event.Poll(now, i)) && Now() == Step(old(Now()), Event.Poll(now, i))
      ensures started.Some? ==> started.value in old(queue) && started.value.scheduled <= now
                                && forall t :: t in old(queue) ==> started.value.scheduled <= t.scheduled
      ensures (exists t :: t in old(queue) && t.scheduled <= now) ==>
                exists i: nat :: IsTop(old(queue), i) && queue == Without(old(queue), i)
                            && started == if old(queue)[i].callable then Some(old(queue)[i]) else None
      ensures (forall t :: t in old(queue) ==> now < t.scheduled) ==> queue == old(queue) && started == None
    {
      hide Inv;
      if queue == [] {
        StepInv(Now(), Event.Poll(now, 0));
        assert Now() == Step(old(Now()), Event.Poll(now, 0));
        return None;
      }
      var i := Top();
      StepInv(Now(), Event.Poll(now, i));
      if queue[i].scheduled <= now {
        var t := queue[i];
        queue := Without(queue, i);
        if t.callable {
          running := Some(t);
          log := log + [Execution(t.id, t.scheduled, now)];
        }
      }
      assert Now() == Step(old(Now()), Event.Poll(now, i));
      return running;
    }

    /** The job has returned: a recurring task is queued again. */
    method Finish()
      requires Valid() && running.Some?
      modifies this`queue, this`running
      ensures Valid() && Now() == Step(old(Now()), Event.Finish)
      ensures var t := old(running).value;
              running == None
              && queue == old(queue) + if t.interval > 0 then [t.(scheduled := t.scheduled + t.interval)] else []
    {
      hide Inv;
      StepInv(Now(), Event.Finish);
      var t := running.value;
      running := None;
      if t.interval > 0 {
        queue := queue + [t.(scheduled := t.scheduled + t.interval)];
      }
    }
  }
}
