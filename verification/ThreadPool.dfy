/** All interleavings of mjl_threadpool.c: what a thread does while it holds the
    mutex is one step; an onion task keeps the mutex until it has finished. */
module ThreadPool {
  import opened Wrappers
  import opened TaskQueue

  datatype Phase =
    | Locking          // about to take the mutex
    | Waiting          // on the condition variable
    | Woken            // about to take the mutex again
    | Running(job: Job)
    | Exited

  datatype Pool = Pool(
    workers: seq<Phase>,
    queue: seq<Job>,
    stop: bool,
    holder: Option<nat>,  // the worker whose onion keeps the mutex
    accepted: seq<Job>,   // every task that was ever pushed
    started: seq<Job>,    // in the order in which they were taken
    done: seq<Job>
  )

  datatype Action =
    | OwnerPush(onion: bool, woken: set<nat>)          // threadpool_tail_push and _onion
    | TaskPush(w: nat, onion: bool, woken: set<nat>)   // the same from a running task
    | OnionPush(w: nat, woken: set<nat>)               // threadpool_head_push_nolock
    | Spurious(w: nat)
    | Enter(w: nat)
    | Finish(w: nat)
    | Join

  predicate Ready(p: Phase) {
    p.Locking? || p.Woken?
  }

  function WaitingSet(p: Pool): set<nat> {
    set w | 0 <= w < |p.workers| && p.workers[w].Waiting?
  }

  // pthread_cond_signal wakes some waiting thread, and perhaps more than one.
  predicate Signals(p: Pool, woken: set<nat>) {
    woken <= WaitingSet(p) && (WaitingSet(p) != {} ==> woken != {})
  }

  predicate Enabled(p: Pool, act: Action) {
    match act
    case OwnerPush(_, woken) => p.holder.None? && !p.stop && Signals(p, woken)
    case TaskPush(w, _, woken) =>
      p.holder.None? && w < |p.workers| && p.workers[w].Running? && !p.workers[w].job.onion && Signals(p, woken)
    case OnionPush(w, woken) => p.holder == Some(w) && Signals(p, woken)
    case Spurious(w) => w < |p.workers| && p.workers[w].Waiting?
    case Enter(w) => p.holder.None? && w < |p.workers| && Ready(p.workers[w])
    case Finish(w) => w < |p.workers| && p.workers[w].Running?
    case Join => p.holder.None? && !p.stop
  }

  function Wake(workers: seq<Phase>, woken: set<nat>): (r: seq<Phase>)
    ensures |r| == |workers|
    ensures forall i :: 0 <= i < |r| ==> r[i] == if workers[i].Waiting? && i in woken then Woken else workers[i]
  {
    seq(|workers|, i requires 0 <= i < |workers| => if workers[i].Waiting? && i in woken then Woken else workers[i])
  }

  // threadpool_task_add
  function Add(p: Pool, onion: bool, atHead: bool, woken: set<nat>): Pool {
    var job := Job(|p.accepted|, onion);
    p.(queue := if atHead then [job] + p.queue else p.queue + [job],
       accepted := p.accepted + [job], workers := Wake(p.workers, woken))
  }

  function Next(p: Pool, act: Action): Pool
    requires Enabled(p, act)
  {
    match act
    case OwnerPush(onion, woken) => Add(p, onion, false, woken)
    case TaskPush(_, onion, woken) => Add(p, onion, false, woken)
    case OnionPush(_, woken) => Add(p, false, true, woken)
    case Spurious(w) => p.(workers := p.workers[w := Woken])
    case Enter(w) =>
      if p.queue == [] then p.(workers := p.workers[w := if p.stop then Exited else Waiting])
      else
        var job := p.queue[0];
        p.(queue := p.queue[1..], started := p.started + [job], workers := p.workers[w := Running(job)],
           holder := if job.onion then Some(w) else None)
    case Finish(w) =>
      var job := p.workers[w].job;
      p.(workers := p.workers[w := Locking], done := p.done + [job], holder := if job.onion then None else p.holder)
    case Join => p.(stop := true, workers := Wake(p.workers, WaitingSet(p)))
  }

  function Start(threadc: nat): Pool {
    Pool(seq(threadc, i => Locking), [], false, None, [], [], [])
  }

  // ---------- Counting ----------

  function ReadyCount(ws: seq<Phase>): nat {
    if ws == [] then 0 else (if Ready(ws[0]) then 1 else 0) + ReadyCount(ws[1..])
  }

  function JobOf(p: Phase): multiset<Job> {
    if p.Running? then multiset{p.job} else multiset{}
  }

  function RunningJobs(ws: seq<Phase>): multiset<Job> {
    if ws == [] then multiset{} else JobOf(ws[0]) + RunningJobs(ws[1..])
  }

  lemma {:induction false} SetReady(ws: seq<Phase>, i: nat, p: Phase)
    requires i < |ws|
    ensures ReadyCount(ws[i := p]) + (if Ready(ws[i]) then 1 else 0) == ReadyCount(ws) + (if Ready(p) then 1 else 0)
  {
    if i > 0 {
      assert ws[i := p][1..] == ws[1..][i - 1 := p];
      SetReady(ws[1..], i - 1, p);
    } else {
      assert ws[0 := p][1..] == ws[1..];
    }
  }

  lemma {:induction false} SetRunning(ws: seq<Phase>, i: nat, p: Phase)
    requires i < |ws|
    ensures RunningJobs(ws[i := p]) + JobOf(ws[i]) == RunningJobs(ws) + JobOf(p)
  {
    hide JobOf;
    var vs := ws[i := p];
    assert RunningJobs(vs) == JobOf(vs[0]) + RunningJobs(vs[1..]);
    assert RunningJobs(ws) == JobOf(ws[0]) + RunningJobs(ws[1..]);
    if i > 0 {
      assert vs[1..] == ws[1..][i - 1 := p];
      SetRunning(ws[1..], i - 1, p);
      Regroup(JobOf(ws[0]), RunningJobs(vs[1..]), JobOf(ws[i]), RunningJobs(ws[1..]), JobOf(p));
    } else {
      assert vs[1..] == ws[1..];
    }
  }

  lemma Regroup(a: multiset<Job>, b: multiset<Job>, c: multiset<Job>, d: multiset<Job>, e: multiset<Job>)
    requires b + c == d + e
    ensures (a + b) + c == (a + d) + e
  {
    assert (a + b) + c == a + (b + c);
  }

  lemma SetPhase(ws: seq<Phase>, i: nat, p: Phase)
    requires i < |ws|
    ensures ReadyCount(ws[i := p]) + (if Ready(ws[i]) then 1 else 0) == ReadyCount(ws) + (if Ready(p) then 1 else 0)
    ensures !ws[i].Running? && !p.Running? ==> RunningJobs(ws[i := p]) == RunningJobs(ws)
    ensures !ws[i].Running? && p.Running? ==> RunningJobs(ws[i := p]) == RunningJobs(ws) + multiset{p.job}
    ensures ws[i].Running? && !p.Running? ==> RunningJobs(ws[i := p]) + multiset{ws[i].job} == RunningJobs(ws)
  {
    SetReady(ws, i, p);
    SetRunning(ws, i, p);
    var r, r' := RunningJobs(ws), RunningJobs(ws[i := p]);
    assert r + multiset{} == r && r' + multiset{} == r';
  }

  // Two lists of phases that differ only in some waiting workers having been
  // woken, one at least if the flag says so.
  lemma {:induction false} WakeCount(ws: seq<Phase>, vs: seq<Phase>, any: bool)
    requires |ws| == |vs|
    requires forall i :: 0 <= i < |ws| ==> vs[i] == ws[i] || (ws[i].Waiting? && vs[i].Woken?)
    requires any ==> exists i :: 0 <= i < |ws| && vs[i] != ws[i]
    ensures ReadyCount(vs) >= ReadyCount(ws) + if any then 1 else 0
    ensures RunningJobs(vs) == RunningJobs(ws)
    decreases |ws|
  {
    if ws != [] {
      var rest := any && vs[0] == ws[0];
      if rest {
        var i :| 0 <= i < |ws| && vs[i] != ws[i];
        assert vs[1..][i - 1] != ws[1..][i - 1];
      }
      WakeCount(ws[1..], vs[1..], rest);
    }
  }

  // ---------- The invariant ----------

  /** Each accepted task is either still queued or has been started, once. */
  ghost predicate Books(p: Pool) {
    && multiset(p.started) + multiset(p.queue) == multiset(p.accepted)
    && multiset(p.started) == multiset(p.done) + RunningJobs(p.workers)
    && (forall i :: 0 <= i < |p.accepted| ==> p.accepted[i].id == i)
  }

  /** While a worker sleeps, every queued task has a worker on the way to it. */
  ghost predicate NoLostWakeup(p: Pool) {
    WaitingSet(p) != {} ==> |p.queue| <= ReadyCount(p.workers)
  }

  ghost predicate Awake(p: Pool) {
    p.queue != [] ==> exists w :: 0 <= w < |p.workers| && !p.workers[w].Waiting? && !p.workers[w].Exited?
  }

  ghost predicate Holding(p: Pool) {
    && (p.holder.Some? ==> p.holder.value < |p.workers| && p.workers[p.holder.value].Running? &&
                           p.workers[p.holder.value].job.onion)
    && (forall w :: 0 <= w < |p.workers| && p.workers[w].Running? && p.workers[w].job.onion ==> p.holder == Some(w))
  }

  ghost predicate Stopping(p: Pool) {
    && (p.stop ==> WaitingSet(p) == {})
    && (forall w :: 0 <= w < |p.workers| && p.workers[w].Exited? ==> p.stop)
  }

  ghost predicate Inv(p: Pool) {
    |p.workers| > 0 && Books(p) && NoLostWakeup(p) && Awake(p) && Holding(p) && Stopping(p)
  }

  lemma StartInv(threadc: nat)
    requires threadc > 0
    ensures Inv(Start(threadc))
  {
    var p := Start(threadc);
    NothingRuns(p.workers);
  }

  lemma {:induction false} NothingRuns(ws: seq<Phase>)
    requires forall w :: 0 <= w < |ws| ==> !ws[w].Running?
    ensures RunningJobs(ws) == multiset{}
  {
    if ws != [] {
      NothingRuns(ws[1..]);
    }
  }

  lemma AddBooks(p: Pool, onion: bool, atHead: bool, woken: set<nat>)
    requires Books(p) && RunningJobs(Wake(p.workers, woken)) == RunningJobs(p.workers)
    ensures Books(Add(p, onion, atHead, woken))
  {
    hide RunningJobs, Wake;
    var q, job := Add(p, onion, atHead, woken), Job(|p.accepted|, onion);
    assert multiset(q.queue) == multiset(p.queue) + multiset{job};
  }

  lemma WakeWorkers(p: Pool, woken: set<nat>)
    requires Signals(p, woken)
    ensures var ws := Wake(p.workers, woken);
            ReadyCount(ws) >= ReadyCount(p.workers) + (if WaitingSet(p) != {} then 1 else 0) &&
            RunningJobs(ws) == RunningJobs(p.workers)
  {
    hide ReadyCount, RunningJobs;
    if WaitingSet(p) != {} {
      var w :| w in woken;
      assert Wake(p.workers, woken)[w] != p.workers[w];
    }
    WakeCount(p.workers, Wake(p.workers, woken), WaitingSet(p) != {});
  }

  // A push, by anybody who may push.
  lemma AddKeeps(p: Pool, onion: bool, atHead: bool, woken: set<nat>, who: Option<nat>)
    requires Inv(p) && Signals(p, woken)
    requires if who.Some? then who.value < |p.workers| && p.workers[who.value].Running? else !p.stop
    ensures Inv(Add(p, onion, atHead, woken))
  {
    hide ReadyCount, RunningJobs, Books;
    var q := Add(p, onion, atHead, woken);
    WakeWorkers(p, woken);
    AddBooks(p, onion, atHead, woken);
    assert forall w :: w in WaitingSet(q) ==> w in WaitingSet(p);
    if who.Some? {
      assert q.workers[who.value] == p.workers[who.value];
    } else if WaitingSet(p) == {} {
      assert p.workers[0].Waiting? ==> 0 in WaitingSet(p);
      assert !p.workers[0].Waiting? && !p.workers[0].Exited? && q.workers[0] == p.workers[0];
    } else {
      var w :| w in woken;
      assert q.workers[w] == Woken;
    }
  }

  // A worker that finds no task sleeps, or ends if the pool is stopping.
  lemma SleepKeeps(p: Pool, w: nat)
    requires Inv(p) && Enabled(p, Enter(w)) && p.queue == []
    ensures Inv(Next(p, Enter(w)))
  {
    hide ReadyCount, RunningJobs;
    var q := Next(p, Enter(w));
    SetPhase(p.workers, w, q.workers[w]);
    assert p.workers[w].Waiting? ==> w in WaitingSet(p);
    assert Books(q);
    assert Stopping(q);
    assert Holding(q);
  }

  lemma TakeBooks(p: Pool, w: nat)
    requires Books(p) && Enabled(p, Enter(w)) && p.queue != []
    ensures Books(Next(p, Enter(w)))
  {
    hide ReadyCount, RunningJobs;
    var q, job := Next(p, Enter(w)), p.queue[0];
    SetPhase(p.workers, w, Running(job));
    assert multiset(q.started) == multiset(p.started) + multiset{job};
    assert multiset(p.done) + RunningJobs(p.workers) + multiset{job} == multiset(p.done) + RunningJobs(q.workers);
    Booked(p.started, p.queue, p.accepted);
  }

  // A worker that finds a task runs the first one.
  lemma TakeKeeps(p: Pool, w: nat)
    requires Inv(p) && Enabled(p, Enter(w)) && p.queue != []
    ensures Inv(Next(p, Enter(w)))
  {
    hide ReadyCount, RunningJobs;
    var q, job := Next(p, Enter(w)), p.queue[0];
    TakeBooks(p, w);
    hide Books;
    SetPhase(p.workers, w, Running(job));
    assert q.workers[w] == Running(job);
    assert forall v :: v in WaitingSet(q) ==> v in WaitingSet(p);
    assert Stopping(q);
    assert Holding(q);
  }

  lemma EnterKeeps(p: Pool, w: nat)
    requires Inv(p) && Enabled(p, Enter(w))
    ensures Inv(Next(p, Enter(w)))
  {
    hide Inv, Next;
    if p.queue == [] {
      SleepKeeps(p, w);
    } else {
      TakeKeeps(p, w);
    }
  }

  lemma TakeOne(s: seq<Job>)
    requires s != []
    ensures multiset(s) == multiset{s[0]} + multiset(s[1..])
  {
    assert s == [s[0]] + s[1..];
  }

  lemma Booked(started: seq<Job>, queue: seq<Job>, accepted: seq<Job>)
    requires queue != [] && multiset(started) + multiset(queue) == multiset(accepted)
    ensures multiset(started + [queue[0]]) + multiset(queue[1..]) == multiset(accepted)
  {
    TakeOne(queue);
  }

  lemma FinishKeeps(p: Pool, w: nat)
    requires Inv(p) && Enabled(p, Finish(w))
    ensures Inv(Next(p, Finish(w)))
  {
    hide ReadyCount, RunningJobs;
    var q := Next(p, Finish(w));
    SetPhase(p.workers, w, Locking);
    assert q.workers[w] == Locking;
    assert forall v :: v in WaitingSet(q) ==> v in WaitingSet(p);
    var job := p.workers[w].job;
    assert multiset(q.done) == multiset(p.done) + multiset{job};
    assert multiset(p.done) + multiset{job} + RunningJobs(q.workers) == multiset(p.done) + RunningJobs(p.workers);
    assert Books(q);
    assert NoLostWakeup(q);
    assert Stopping(q);
    assert Holding(q);
  }

  lemma SpuriousKeeps(p: Pool, w: nat)
    requires Inv(p) && Enabled(p, Spurious(w))
    ensures Inv(Next(p, Spurious(w)))
  {
    hide ReadyCount, RunningJobs;
    var q := Next(p, Spurious(w));
    assert w in WaitingSet(p);
    SetPhase(p.workers, w, Woken);
    assert q.workers[w] == Woken;
    assert RunningJobs(q.workers) == RunningJobs(p.workers);
    assert Books(q);
    assert Stopping(q);
    assert Holding(q);
    assert forall v :: v in WaitingSet(q) ==> v in WaitingSet(p);
  }

  lemma JoinKeeps(p: Pool)
    requires Inv(p) && Enabled(p, Join)
    ensures Inv(Next(p, Join))
  {
    hide ReadyCount, RunningJobs;
    var q := Next(p, Join);
    WakeCount(p.workers, q.workers, false);
    assert !q.workers[0].Waiting? && !q.workers[0].Exited?;
  }

  lemma InvKept(p: Pool, act: Action)
    requires Inv(p) && Enabled(p, act)
    ensures Inv(Next(p, act))
  {
    hide Books, NoLostWakeup, Awake, Stopping, Add;
    match act
    case OwnerPush(onion, woken) => AddKeeps(p, onion, false, woken, None);
    case TaskPush(w, onion, woken) => AddKeeps(p, onion, false, woken, Some(w));
    case OnionPush(w, woken) => AddKeeps(p, false, true, woken, Some(w));
    case Spurious(w) => SpuriousKeeps(p, w);
    case Enter(w) => EnterKeeps(p, w);
    case Finish(w) => FinishKeeps(p, w);
    case Join => JoinKeeps(p);
  }

  // ---------- Runs ----------

  predicate Possible(p: Pool, run: seq<Action>)
    decreases |run|
  {
    run != [] ==> Enabled(p, run[0]) && Possible(Next(p, run[0]), run[1..])
  }

  function After(p: Pool, run: seq<Action>): Pool
    requires Possible(p, run)
    decreases |run|
  {
    if run == [] then p else After(Next(p, run[0]), run[1..])
  }

  lemma {:induction false} RunKeeps(p: Pool, run: seq<Action>)
    requires Inv(p) && Possible(p, run)
    ensures Inv(After(p, run))
    decreases |run|
  {
    hide Inv, Enabled, Next;
    if run != [] {
      InvKept(p, run[0]);
      RunKeeps(Next(p, run[0]), run[1..]);
    }
  }

  /** No task is lost and none is run twice: in every interleaving, a task that
      was accepted is queued or has been started, and not both. */
  lemma EachTaskOnce(threadc: nat, run: seq<Action>, i: nat)
    requires threadc > 0 && Possible(Start(threadc), run)
    requires i < |After(Start(threadc), run).accepted|
    ensures var p, job := After(Start(threadc), run), After(Start(threadc), run).accepted[i];
            multiset(p.started)[job] + multiset(p.queue)[job] == 1
  {
    StartInv(threadc);
    RunKeeps(Start(threadc), run);
    var p := After(Start(threadc), run);
    OnlyOnce(p.accepted, i);
    assert (multiset(p.started) + multiset(p.queue))[p.accepted[i]] == 1;
  }

  lemma {:induction false} OnlyOnce(s: seq<Job>, i: nat)
    requires i < |s| && forall j :: 0 <= j < |s| ==> s[j].id == j
    ensures multiset(s)[s[i]] == 1
  {
    var a, b := s[..i], s[i + 1..];
    assert s == a + [s[i]] + b;
    assert s[i] !in a && s[i] !in b;
    assert multiset(s) == multiset(a) + multiset{s[i]} + multiset(b);
  }

  /** In every interleaving: a non-empty queue never coexists with all workers
      waiting or gone; while one waits, as many are on the way as tasks are
      queued; and none waits once the pool has been told to stop. */
  lemma NobodySleepsOnWork(threadc: nat, run: seq<Action>)
    requires threadc > 0 && Possible(Start(threadc), run)
    ensures var p := After(Start(threadc), run);
            && (p.queue != [] ==> exists w :: 0 <= w < |p.workers| && !p.workers[w].Waiting? && !p.workers[w].Exited?)
            && ((exists w :: 0 <= w < |p.workers| && p.workers[w].Waiting?) ==> |p.queue| <= ReadyCount(p.workers))
            && (p.stop ==> forall w :: 0 <= w < |p.workers| ==> !p.workers[w].Waiting?)
  {
    StartInv(threadc);
    RunKeeps(Start(threadc), run);
    var p := After(Start(threadc), run);
    hide Enabled, Next, ReadyCount;
    forall w | 0 <= w < |p.workers| && p.workers[w].Waiting? ensures w in WaitingSet(p) {
    }
  }

  /** When all workers have been joined, every task that was ever accepted has
      been run to its end, once. */
  lemma JoinedMeansDone(threadc: nat, run: seq<Action>)
    requires threadc > 0 && Possible(Start(threadc), run)
    requires var p := After(Start(threadc), run); forall w :: 0 <= w < |p.workers| ==> p.workers[w].Exited?
    ensures var p := After(Start(threadc), run);
            p.queue == [] && multiset(p.done) == multiset(p.accepted)
  {
    hide Enabled, Next, ReadyCount;
    StartInv(threadc);
    RunKeeps(Start(threadc), run);
    NothingRuns(After(Start(threadc), run).workers);
  }

  /** A pool that has been told to stop does not hang: while a worker is left,
      one of them can go on. */
  lemma NoDeadlock(p: Pool, v: nat)
    requires Inv(p) && p.stop && v < |p.workers| && !p.workers[v].Exited?
    ensures exists w :: Enabled(p, Enter(w)) || Enabled(p, Finish(w))
  {
    if p.holder.Some? {
      assert Enabled(p, Finish(p.holder.value));
    } else if p.workers[v].Running? {
      assert Enabled(p, Finish(v));
    } else {
      assert v !in WaitingSet(p);
      assert Enabled(p, Enter(v));
    }
  }

  function Weight(p: Phase): nat {
    match p
    case Exited => 0
    case Running(_) => 2
    case _ => 1
  }

  function Weights(ws: seq<Phase>): nat {
    if ws == [] then 0 else Weight(ws[0]) + Weights(ws[1..])
  }

  lemma {:induction false} SetWeight(ws: seq<Phase>, i: nat, p: Phase)
    requires i < |ws|
    ensures Weights(ws[i := p]) + Weight(ws[i]) == Weights(ws) + Weight(p)
  {
    if i > 0 {
      assert ws[i := p][1..] == ws[1..][i - 1 := p];
      SetWeight(ws[1..], i - 1, p);
    } else {
      assert ws[0 := p][1..] == ws[1..];
    }
  }

  /** And it does not go on for ever: every such step uses some of what is left
      to do. */
  lemma StopsInTheEnd(p: Pool, w: nat, act: Action)
    requires Inv(p) && p.stop && (act == Enter(w) || act == Finish(w)) && Enabled(p, act)
    ensures var q := Next(p, act);
            3 * |q.queue| + Weights(q.workers) < 3 * |p.queue| + Weights(p.workers)
  {
    SetWeight(p.workers, w, Next(p, act).workers[w]);
  }
}
