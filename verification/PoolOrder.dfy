/** The order in which the thread pool starts its tasks. */
module PoolOrder {
  import opened TaskQueue
  import opened ThreadPool

  // ---------- What a run pushes ----------

  function Push(act: Action, id: nat): seq<Job> {
    match act
    case OwnerPush(onion, _) => [Job(id, onion)]
    case TaskPush(_, onion, _) => [Job(id, onion)]
    case OnionPush(_, _) => [Job(id, false)]
    case _ => []
  }

  /** The tasks that a run pushes, numbered from id on. */
  function Pushed(run: seq<Action>, id: nat): seq<Job> {
    if run == [] then [] else Push(run[0], id) + Pushed(run[1..], id + |Push(run[0], id)|)
  }

  /** The numbers of those that it pushes at the head. */
  function HeadIds(run: seq<Action>, id: nat): set<nat> {
    if run == [] then {}
    else (if run[0].OnionPush? then {id} else {}) + HeadIds(run[1..], id + |Push(run[0], id)|)
  }

  predicate TailOnly(run: seq<Action>) {
    forall i :: 0 <= i < |run| ==> !run[i].OnionPush?
  }

  /** The tasks started, in order, and then those queued. */
  function Order(p: Pool): seq<Job> {
    p.started + p.queue
  }

  // ---------- One step ----------

  lemma StepPushes(p: Pool, act: Action)
    requires Enabled(p, act)
    ensures Next(p, act).accepted == p.accepted + Push(act, |p.accepted|)
    ensures p.started <= Next(p, act).started
  {
    hide Wake;
  }

  lemma StepOrder(p: Pool, act: Action)
    requires Enabled(p, act)
    ensures Order(Next(p, act)) ==
            if act.OnionPush? then p.started + Push(act, |p.accepted|) + p.queue
            else Order(p) + Push(act, |p.accepted|)
  {
    hide Wake, Enabled;
    if act.Enter? && p.queue != [] {
      assert p.queue == [p.queue[0]] + p.queue[1..];
    }
  }

  // ---------- Whole runs ----------

  lemma {:induction false} RunPushes(p: Pool, run: seq<Action>)
    requires Possible(p, run)
    ensures After(p, run).accepted == p.accepted + Pushed(run, |p.accepted|)
    ensures p.started <= After(p, run).started
    decreases |run|
  {
    hide Next, Enabled, Push;
    if run != [] {
      StepPushes(p, run[0]);
      RunPushes(Next(p, run[0]), run[1..]);
    }
  }

  lemma {:induction false} TailRun(p: Pool, run: seq<Action>)
    requires Possible(p, run) && TailOnly(run)
    ensures Order(After(p, run)) == Order(p) + Pushed(run, |p.accepted|)
    decreases |run|
  {
    hide Next, Enabled, Push, Order;
    if run != [] {
      StepOrder(p, run[0]);
      StepPushes(p, run[0]);
      TailRun(Next(p, run[0]), run[1..]);
    } else {
      assert Order(p) + [] == Order(p);
    }
  }

  /** First in, first out: while nothing is pushed at the head, the tasks started
      and then those queued are, in order, the tasks that the run pushed. */
  lemma FirstInFirstOut(threadc: nat, run: seq<Action>)
    requires Possible(Start(threadc), run) && TailOnly(run)
    ensures var p := After(Start(threadc), run);
            p.started + p.queue == Pushed(run, 0) && p.accepted == Pushed(run, 0)
  {
    hide Possible, After, Pushed;
    TailRun(Start(threadc), run);
    RunPushes(Start(threadc), run);
  }

  // Tasks that are not among heads stand in the order of their numbers.
  ghost predicate Sorted(order: seq<Job>, heads: set<nat>) {
    forall a, b :: 0 <= a < b < |order| && order[a].id !in heads && order[b].id !in heads ==>
                     order[a].id < order[b].id
  }

  ghost predicate Below(order: seq<Job>, n: nat) {
    forall a :: 0 <= a < |order| ==> order[a].id < n
  }

  lemma SortedTail(order: seq<Job>, heads: set<nat>, job: Job)
    requires Sorted(order, heads) && Below(order, job.id)
    ensures Sorted(order + [job], heads) && Below(order + [job], job.id + 1)
  {
  }

  lemma SortedHead(started: seq<Job>, queue: seq<Job>, heads: set<nat>, job: Job)
    requires Sorted(started + queue, heads) && Below(started + queue, job.id)
    ensures Sorted(started + [job] + queue, heads + {job.id}) && Below(started + [job] + queue, job.id + 1)
  {
    var was, now, k := started + queue, started + [job] + queue, |started|;
    forall a | 0 <= a < |now| && a != k ensures now[a] == was[if a < k then a else a - 1] {
    }
    forall a, b | 0 <= a < b < |now| && now[a].id !in heads + {job.id} && now[b].id !in heads + {job.id}
      ensures now[a].id < now[b].id
    {
      assert now[k] == job;
      var c, d := if a < k then a else a - 1, if b < k then b else b - 1;
      assert was[c] == now[a] && was[d] == now[b];
    }
  }

  lemma SortedStep(p: Pool, act: Action, heads: set<nat>)
    requires Enabled(p, act) && Sorted(Order(p), heads) && Below(Order(p), |p.accepted|)
    ensures var q := Next(p, act);
            Below(Order(q), |q.accepted|) &&
            Sorted(Order(q), heads + if act.OnionPush? then {|p.accepted|} else {})
  {
    StepOrder(p, act);
    StepPushes(p, act);
    hide Next, Enabled, Sorted, Below;
    assert heads + {} == heads;
    if act.OnionPush? {
      SortedHead(p.started, p.queue, heads, Job(|p.accepted|, false));
    } else if Push(act, |p.accepted|) == [] {
      assert Order(p) + [] == Order(p);
    } else {
      SortedTail(Order(p), heads, Push(act, |p.accepted|)[0]);
    }
  }

  lemma {:induction false} SortedRun(p: Pool, run: seq<Action>, heads: set<nat>)
    requires Possible(p, run) && Sorted(Order(p), heads) && Below(Order(p), |p.accepted|)
    ensures Sorted(Order(After(p, run)), heads + HeadIds(run, |p.accepted|))
    decreases |run|
  {
    hide Next, Enabled, Sorted, Below, Push, Order;
    if run != [] {
      var more := if run[0].OnionPush? then {|p.accepted|} else {};
      StepPushes(p, run[0]);
      SortedStep(p, run[0], heads);
      SortedRun(Next(p, run[0]), run[1..], heads + more);
      assert heads + HeadIds(run, |p.accepted|) ==
             heads + more + HeadIds(run[1..], |p.accepted| + |Push(run[0], |p.accepted|)|);
    } else {
      assert heads + {} == heads;
    }
  }

  /** Whatever is pushed at the head in between, of two tasks pushed at the tail
      the one pushed first is started first. */
  lemma TailOrderKept(threadc: nat, run: seq<Action>, a: nat, b: nat)
    requires threadc > 0 && Possible(Start(threadc), run)
    requires var p := After(Start(threadc), run); a < b < |p.started + p.queue|
    ensures var p := After(Start(threadc), run);
            var order := p.started + p.queue;
            && multiset(order) == multiset(Pushed(run, 0))
            && (order[a].id !in HeadIds(run, 0) && order[b].id !in HeadIds(run, 0) ==> order[a].id < order[b].id)
  {
    hide Possible, After, Pushed, HeadIds, Inv;
    SortedRun(Start(threadc), run, {});
    RunPushes(Start(threadc), run);
    StartInv(threadc);
    RunKeeps(Start(threadc), run);
    BooksOf(After(Start(threadc), run));
    assert {} + HeadIds(run, 0) == HeadIds(run, 0);
  }

  lemma BooksOf(p: Pool)
    requires Inv(p)
    ensures multiset(p.started + p.queue) == multiset(p.accepted)
  {
    assert multiset(p.started + p.queue) == multiset(p.started) + multiset(p.queue);
  }

  lemma {:induction false} RunJoin(p: Pool, first: seq<Action>, second: seq<Action>)
    requires Possible(p, first + second)
    ensures Possible(p, first) && Possible(After(p, first), second)
    ensures After(p, first + second) == After(After(p, first), second)
    decreases |first|
  {
    hide Next, Enabled;
    if first == [] {
      assert first + second == second;
    } else {
      assert (first + second)[1..] == first[1..] + second;
      RunJoin(Next(p, first[0]), first[1..], second);
    }
  }

  /** A task pushed at the head is the next one started, as long as no other is
      pushed at the head. */
  lemma HeadIsNext(threadc: nat, before: seq<Action>, push: Action, after: seq<Action>)
    requires Possible(Start(threadc), before + ([push] + after))
    requires push.OnionPush? && TailOnly(after)
    ensures Possible(Start(threadc), before)
    ensures var p, q := After(Start(threadc), before), After(Start(threadc), before + ([push] + after));
            && |q.started + q.queue| > |p.started| && p.started <= q.started
            && (q.started + q.queue)[|p.started|] == Job(|Pushed(before, 0)|, false)
  {
    hide Next, Enabled, Pushed;
    RunJoin(Start(threadc), before, [push] + after);
    RunPushes(Start(threadc), before);
    var p := After(Start(threadc), before);
    assert ([push] + after)[1..] == after;
    StepOrder(p, push);
    StepPushes(p, push);
    TailRun(Next(p, push), after);
    RunPushes(p, [push] + after);
  }
}
