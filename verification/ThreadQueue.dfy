// clib/thread_queue.c over clib/cond.h: one worker, any number of pushers, a task
// list under a spin lock and a counting wake-up. A step is one lock section, one
// task function, or the wake-up of a sleeper.
module ThreadQueue {
  import opened Sequences
  import Subsequences

  // What thread_queue_push is called with; a call with a NULL part is refused.
  datatype Request<T> = Null | Valid(task: T)

  // A pushing thread: the pushes still to do, and whether the wake-up of the
  // last one is still outstanding.
  datatype Pusher<T> = Pusher(todo: seq<Request<T>>, owes: bool)

  // AtQueue is before the lock section of the inner loop, Checking is before the
  // test of cnt in cond_wait, on entry as well as after waking up.
  datatype Worker<T> = AtQueue | Running(task: T) | Checking | Asleep

  datatype State<T> = State(
    queue: seq<T>, cnt: nat, worker: Worker<T>, pushers: seq<Pusher<T>>,
    pushed: seq<T>, executed: seq<T>)

  datatype Action =
    | Refuse(p: nat)  // thread_queue.c:106-108
    | Append(p: nat)  // thread_queue.c:110-112
    | Wakeup(p: nat)  // thread_queue.c:114, cond.h:46-51
    | Take            // thread_queue.c:67-69, a task was there
    | Finish          // thread_queue.c:75
    | SeeEmpty        // thread_queue.c:67-72, no task was there
    | Consume         // cond.h:54-59, cnt is positive
    | Sleep           // cond.h:54-56, cnt is zero
    | Spurious        // pthread_cond_wait returns without a signal

  predicate Enabled<T>(s: State<T>, a: Action) {
    match a
    case Refuse(p) => p < |s.pushers| && !s.pushers[p].owes && s.pushers[p].todo != [] && s.pushers[p].todo[0].Null?
    case Append(p) => p < |s.pushers| && !s.pushers[p].owes && s.pushers[p].todo != [] && s.pushers[p].todo[0].Valid?
    case Wakeup(p) => p < |s.pushers| && s.pushers[p].owes
    case Take => s.worker.AtQueue? && |s.queue| > 0
    case Finish => s.worker.Running?
    case SeeEmpty => s.worker.AtQueue? && |s.queue| == 0
    case Consume => s.worker.Checking? && s.cnt > 0
    case Sleep => s.worker.Checking? && s.cnt == 0
    case Spurious => s.worker.Asleep?
  }

  function Apply<T>(s: State<T>, a: Action): State<T>
    requires Enabled(s, a)
  {
    match a
    case Refuse(p) =>
      s.(pushers := s.pushers[p := Pusher(s.pushers[p].todo[1..], false)])
    case Append(p) =>
      var task := s.pushers[p].todo[0].task;
      s.(queue := s.queue + [task], pushed := s.pushed + [task],
         pushers := s.pushers[p := Pusher(s.pushers[p].todo[1..], true)])
    case Wakeup(p) =>
      s.(cnt := s.cnt + 1, worker := if s.worker.Asleep? then Checking else s.worker,
         pushers := s.pushers[p := s.pushers[p].(owes := false)])
    case Take => s.(queue := s.queue[1..], worker := Running(s.queue[0]))
    case Finish => s.(worker := AtQueue, executed := s.executed + [s.worker.task])
    case SeeEmpty => s.(worker := Checking)
    case Consume => s.(cnt := s.cnt - 1, worker := AtQueue)
    case Sleep => s.(worker := Asleep)
    case Spurious => s.(worker := Checking)
  }

  predicate Initial<T>(s: State<T>) {
    && |s.queue| == |s.pushed| == |s.executed| == 0 && s.cnt == 0 && s.worker.AtQueue?
    && forall p :: 0 <= p < |s.pushers| ==> !s.pushers[p].owes
  }

  // How many wake-ups are outstanding.
  function Owed<T>(ps: seq<Pusher<T>>): nat {
    if |ps| == 0 then 0 else Owed(ps[..|ps| - 1]) + if ps[|ps| - 1].owes then 1 else 0
  }

  // How many pushes are still to be made.
  function Remaining<T>(ps: seq<Pusher<T>>): nat {
    if |ps| == 0 then 0 else Remaining(ps[..|ps| - 1]) + |ps[|ps| - 1].todo|
  }

  // The tasks among requests.
  ghost function Tasks<T>(requests: seq<Request<T>>): multiset<T> {
    if requests == [] then multiset{}
    else (if requests[0].Null? then multiset{} else multiset{requests[0].task}) + Tasks(requests[1..])
  }

  // The tasks still to be pushed.
  ghost function Unpushed<T>(ps: seq<Pusher<T>>): multiset<T> {
    if |ps| == 0 then multiset{} else Unpushed(ps[..|ps| - 1]) + Tasks(ps[|ps| - 1].todo)
  }

  lemma {:induction false} UpdateOwed<T>(ps: seq<Pusher<T>>, p: nat, x: Pusher<T>)
    requires p < |ps|
    ensures Owed(ps[p := x]) == Owed(ps) - (if ps[p].owes then 1 else 0) + (if x.owes then 1 else 0)
  {
    var n, qs := |ps| - 1, ps[p := x];
    if p == n {
      assert qs[..n] == ps[..n];
    } else {
      assert qs[..n] == ps[..n][p := x];
      UpdateOwed(ps[..n], p, x);
    }
  }

  lemma {:induction false} UpdateRemaining<T>(ps: seq<Pusher<T>>, p: nat, x: Pusher<T>)
    requires p < |ps|
    ensures Remaining(ps[p := x]) == Remaining(ps) - |ps[p].todo| + |x.todo|
  {
    var n, qs := |ps| - 1, ps[p := x];
    if p == n {
      assert qs[..n] == ps[..n];
    } else {
      assert qs[..n] == ps[..n][p := x];
      UpdateRemaining(ps[..n], p, x);
    }
  }

  lemma {:induction false} UpdateUnpushed<T>(ps: seq<Pusher<T>>, p: nat, x: Pusher<T>)
    requires p < |ps|
    ensures Unpushed(ps[p := x]) + Tasks(ps[p].todo) == Unpushed(ps) + Tasks(x.todo)
  {
    var n, qs := |ps| - 1, ps[p := x];
    if p == n {
      assert qs[..n] == ps[..n];
    } else {
      assert qs[..n] == ps[..n][p := x];
      UpdateUnpushed(ps[..n], p, x);
      Exchanged(Unpushed(qs[..n]), Unpushed(ps[..n]), Tasks(ps[p].todo), Tasks(x.todo), Tasks(ps[n].todo));
    }
  }

  lemma Exchanged<T>(a: multiset<T>, b: multiset<T>, c: multiset<T>, d: multiset<T>, e: multiset<T>)
    requires a + c == b + d
    ensures (a + e) + c == (b + e) + d
  {
    assert (a + e) + c == (a + c) + e;
  }

  lemma Cancel<T>(a: multiset<T>, u: multiset<T>, b: multiset<T>, r: multiset<T>)
    requires a + (u + r) == b + r
    ensures a + u == b
  {
    forall x
      ensures (a + u)[x] == b[x]
    {
      assert (a + (u + r))[x] == (b + r)[x];
    }
  }

  // What the steps of a pusher do to the sums.
  lemma PusherStep<T>(s: State<T>, a: Action)
    requires Enabled(s, a) && (a.Refuse? || a.Append? || a.Wakeup?)
    ensures var t := Apply(s, a);
            && Remaining(t.pushers) == Remaining(s.pushers) - (if a.Wakeup? then 0 else 1)
            && Owed(t.pushers) == Owed(s.pushers) + (if a.Append? then 1 else if a.Wakeup? then -1 else 0)
  {
    UpdateOwed(s.pushers, a.p, Apply(s, a).pushers[a.p]);
    UpdateRemaining(s.pushers, a.p, Apply(s, a).pushers[a.p]);
  }

  // Two zero sums say that every pusher is done.
  lemma {:induction false} AllDone<T>(ps: seq<Pusher<T>>)
    requires forall p :: 0 <= p < |ps| ==> !ps[p].owes && ps[p].todo == []
    ensures Owed(ps) == 0 && Remaining(ps) == 0 && Unpushed(ps) == multiset{}
  {
    if |ps| > 0 {
      AllDone(ps[..|ps| - 1]);
    }
  }

  function InProgress<T>(w: Worker<T>): seq<T> {
    if w.Running? then [w.task] else []
  }

  // Tasks leave in push order; and once the worker has seen the queue empty,
  // every queued task is covered by a counted or an outstanding wake-up.
  ghost predicate Inv<T>(s: State<T>) {
    && s.pushed == s.executed + InProgress(s.worker) + s.queue
    && (s.worker.Checking? || s.worker.Asleep? ==> |s.queue| <= s.cnt + Owed(s.pushers))
    && (s.worker.Asleep? ==> s.cnt == 0)
  }

  lemma StepKeepsInv<T>(s: State<T>, a: Action)
    requires Inv(s) && Enabled(s, a)
    ensures Inv(Apply(s, a))
  {
    if a.Refuse? || a.Append? || a.Wakeup? {
      PusherStep(s, a);
    }
  }

  lemma AddBoth<T>(m: multiset<T>, u: multiset<T>, a: multiset<T>, b: multiset<T>)
    requires a + u == b
    ensures (m + u) + a == m + b
  {
  }

  lemma PusherConserves<T>(s: State<T>, a: Action, u: multiset<T>)
    requires Enabled(s, a) && (a.Refuse? || a.Append? || a.Wakeup?)
    requires u == if a.Append? then multiset{s.pushers[a.p].todo[0].task} else multiset{}
    ensures Unpushed(Apply(s, a).pushers) + u == Unpushed(s.pushers)
  {
    var x, y := s.pushers[a.p].todo, Apply(s, a).pushers[a.p].todo;
    UpdateUnpushed(s.pushers, a.p, Apply(s, a).pushers[a.p]);
    assert Tasks(x) == u + Tasks(y);
    Cancel(Unpushed(Apply(s, a).pushers), u, Unpushed(s.pushers), Tasks(y));
  }

  // No step makes or loses a task: what was pushed and what is still to be
  // pushed add up to the same tasks.
  lemma StepConserves<T>(s: State<T>, a: Action)
    requires Enabled(s, a)
    ensures multiset(Apply(s, a).pushed) + Unpushed(Apply(s, a).pushers) == multiset(s.pushed) + Unpushed(s.pushers)
  {
    if a.Refuse? || a.Append? || a.Wakeup? {
      var u := if a.Append? then multiset{s.pushers[a.p].todo[0].task} else multiset{};
      PusherConserves(s, a, u);
      assert multiset(Apply(s, a).pushed) == multiset(s.pushed) + u;
      AddBoth(multiset(s.pushed), u, Unpushed(Apply(s, a).pushers), Unpushed(s.pushers));
    } else {
      assert Apply(s, a).pushers == s.pushers && Apply(s, a).pushed == s.pushed;
    }
  }

  // Every step but a spurious wake-up makes this smaller.
  function Measure<T>(s: State<T>): nat {
    8 * Remaining(s.pushers) + 5 * Owed(s.pushers) + 2 * s.cnt + 2 * |s.queue| +
    match s.worker
    case AtQueue => 2
    case Running(_) => 3
    case Checking => 1
    case Asleep => 0
  }

  lemma StepDecreases<T>(s: State<T>, a: Action)
    requires Enabled(s, a)
    ensures if a.Spurious? then Measure(Apply(s, a)) == Measure(s) + 1 else Measure(Apply(s, a)) < Measure(s)
  {
    if a.Refuse? || a.Append? || a.Wakeup? {
      PusherStep(s, a);
    }
  }

  ghost predicate IsRun<T>(run: seq<State<T>>, actions: seq<Action>) {
    && |run| == |actions| + 1 && Initial(run[0])
    && forall i :: 0 <= i < |actions| ==> Enabled(run[i], actions[i]) && run[i + 1] == Apply(run[i], actions[i])
  }

  function Spurious(actions: seq<Action>): nat {
    if actions == [] then 0
    else Spurious(actions[..|actions| - 1]) + if actions[|actions| - 1].Spurious? then 1 else 0
  }

  lemma {:induction false} InitialOwesNothing<T>(ps: seq<Pusher<T>>)
    requires forall p :: 0 <= p < |ps| ==> !ps[p].owes
    ensures Owed(ps) == 0
  {
    if |ps| > 0 {
      InitialOwesNothing(ps[..|ps| - 1]);
    }
  }

  lemma {:induction false} RunKeepsInv<T>(run: seq<State<T>>, actions: seq<Action>, i: nat)
    requires IsRun(run, actions) && i < |run|
    ensures Inv(run[i])
  {
    if i > 0 {
      RunKeepsInv(run, actions, i - 1);
      assert run[i - 1 + 1] == Apply(run[i - 1], actions[i - 1]);
      StepKeepsInv(run[i - 1], actions[i - 1]);
    }
  }

  lemma {:induction false} RunConserves<T>(run: seq<State<T>>, actions: seq<Action>, i: nat)
    requires IsRun(run, actions) && i < |run|
    ensures multiset(run[i].pushed) + Unpushed(run[i].pushers) == Unpushed(run[0].pushers)
  {
    if i > 0 {
      RunConserves(run, actions, i - 1);
      assert run[i - 1 + 1] == Apply(run[i - 1], actions[i - 1]);
      StepConserves(run[i - 1], actions[i - 1]);
    }
  }

  lemma {:induction false} RunMeasure<T>(run: seq<State<T>>, actions: seq<Action>, i: nat)
    requires IsRun(run, actions) && i < |run|
    ensures i + Measure(run[i]) <= Measure(run[0]) + 2 * Spurious(actions[..i])
  {
    if i > 0 {
      RunMeasure(run, actions, i - 1);
      assert run[i - 1 + 1] == Apply(run[i - 1], actions[i - 1]);
      StepDecreases(run[i - 1], actions[i - 1]);
      assert actions[..i][..i - 1] == actions[..i - 1];
    }
  }

  // The tasks among requests, in order.
  function TaskList<T>(requests: seq<Request<T>>): seq<T> {
    if requests == [] then []
    else (if requests[0].Valid? then [requests[0].task] else []) + TaskList(requests[1..])
  }

  function AllTasks<T>(ps: seq<Pusher<T>>): seq<seq<T>> {
    seq(|ps|, p requires 0 <= p < |ps| => TaskList(ps[p].todo))
  }

  // s is an interleaving of parts: it takes them apart from their ends.
  ghost predicate Merges<T>(s: seq<T>, parts: seq<seq<T>>)
    decreases |s|
  {
    if s == [] then forall p :: 0 <= p < |parts| ==> parts[p] == []
    else exists p: nat :: MergesFrom(s, parts, p)
  }

  ghost predicate MergesFrom<T>(s: seq<T>, parts: seq<seq<T>>, p: nat)
    requires s != []
    decreases |s|, 0
  {
    && p < |parts| && parts[p] != [] && parts[p][|parts[p]| - 1] == s[|s| - 1]
    && Merges(s[..|s| - 1], parts[p := parts[p][..|parts[p]| - 1]])
  }

  // So each part can be picked from s in its own order.
  lemma {:induction false} PartInOrder<T>(s: seq<T>, parts: seq<seq<T>>, p: nat)
    requires Merges(s, parts) && p < |parts|
    ensures Subsequences.Within(parts[p], s)
    decreases |s|
  {
    if s == [] {
      Subsequences.EmptyWithin(s);
    } else {
      var q: nat :| MergesFrom(s, parts, q);
      PartInOrder(Init(s), parts[q := Init(parts[q])], p);
      if p == q {
        Subsequences.WithinBoth(Init(parts[p]), s);
        assert parts[p] == Init(parts[p]) + [Last(s)];
      } else {
        Subsequences.WithinInit(parts[p], s);
      }
    }
  }

  // parts are what each pusher has pushed so far of what it had to push at first.
  ghost predicate Halves<T>(parts: seq<seq<T>>, first: seq<Pusher<T>>, now: seq<Pusher<T>>) {
    && |parts| == |first| == |now|
    && forall p :: 0 <= p < |parts| ==> parts[p] + TaskList(now[p].todo) == TaskList(first[p].todo)
  }

  // Pushers with nothing left to do have pushed all they had.
  lemma AllPushed<T>(parts: seq<seq<T>>, first: seq<Pusher<T>>, now: seq<Pusher<T>>)
    requires Halves(parts, first, now) && forall p :: 0 <= p < |now| ==> now[p].todo == []
    ensures parts == AllTasks(first)
  {
    forall p | 0 <= p < |parts|
      ensures parts[p] == AllTasks(first)[p]
    {
      assert parts[p] + [] == parts[p];
    }
  }

  lemma {:induction false} RunInterleaves<T>(run: seq<State<T>>, actions: seq<Action>, i: nat)
    returns (parts: seq<seq<T>>)
    requires IsRun(run, actions) && i < |run|
    ensures Halves(parts, run[0].pushers, run[i].pushers) && Merges(run[i].pushed, parts)
  {
    if i == 0 {
      parts := seq(|run[0].pushers|, _ => []);
    } else {
      var before := RunInterleaves(run, actions, i - 1);
      assert run[i - 1 + 1] == Apply(run[i - 1], actions[i - 1]);
      parts := PartsStep(run[i - 1], actions[i - 1], run[0].pushers, before);
    }
  }

  lemma PartsStep<T>(s: State<T>, a: Action, first: seq<Pusher<T>>, before: seq<seq<T>>) returns (parts: seq<seq<T>>)
    requires Enabled(s, a) && Halves(before, first, s.pushers) && Merges(s.pushed, before)
    ensures Halves(parts, first, Apply(s, a).pushers) && Merges(Apply(s, a).pushed, parts)
  {
    if a.Append? {
      var task := s.pushers[a.p].todo[0].task;
      parts := before[a.p := before[a.p] + [task]];
      assert parts[a.p := before[a.p]] == before && (s.pushed + [task])[..|s.pushed|] == s.pushed;
      assert MergesFrom(s.pushed + [task], parts, a.p);
    } else {
      parts := before;
    }
  }

  // In every reachable state tasks have run, and will run, exactly in push
  // order, and the worker never sleeps on a queued task unless some pusher is
  // still to wake it up.
  lemma EveryRunIsSafe<T>(run: seq<State<T>>, actions: seq<Action>, i: nat)
    requires IsRun(run, actions) && i < |run|
    ensures run[i].pushed == run[i].executed + InProgress(run[i].worker) + run[i].queue
    ensures run[i].worker.Asleep? && |run[i].queue| > 0 ==>
              exists p :: 0 <= p < |run[i].pushers| && run[i].pushers[p].owes
  {
    RunKeepsInv(run, actions, i);
    var ps := run[i].pushers;
    if forall p :: 0 <= p < |ps| ==> !ps[p].owes {
      InitialOwesNothing(ps);
    }
  }

  // The length of a run is bounded by what there is to do, up to the spurious
  // wake-ups, each of which costs two steps.
  lemma EveryRunEnds<T>(run: seq<State<T>>, actions: seq<Action>)
    requires IsRun(run, actions)
    ensures |actions| <= 8 * Remaining(run[0].pushers) + 2 + 2 * Spurious(actions)
  {
    RunMeasure(run, actions, |actions|);
    InitialOwesNothing(run[0].pushers);
    assert actions[..|actions|] == actions;
  }

  // If the worker can only wake up spuriously and no pusher can go on, nothing
  // is left to do.
  lemma Quiescent<T>(s: State<T>)
    requires Inv(s) && forall a :: Enabled(s, a) ==> a.Spurious?
    ensures s.worker.Asleep? && s.cnt == 0 && |s.queue| == 0 && s.executed == s.pushed
    ensures Unpushed(s.pushers) == multiset{} && forall p :: 0 <= p < |s.pushers| ==> s.pushers[p].todo == []
  {
    forall p | 0 <= p < |s.pushers|
      ensures !s.pushers[p].owes && s.pushers[p].todo == []
    {
      assert !Enabled(s, Wakeup(p)) && !Enabled(s, Append(p)) && !Enabled(s, Refuse(p));
    }
    AllDone(s.pushers);
    assert s.worker.Asleep? by {
      assert !Enabled(s, Take) && !Enabled(s, SeeEmpty);
      assert !Enabled(s, Finish);
      assert !Enabled(s, Consume) && !Enabled(s, Sleep);
    }
  }

  // A run that cannot go on, except by waking up spuriously, has executed every
  // task once, in an order that keeps each pusher's own, and left the worker
  // asleep with nothing counted.
  lemma EveryRunCompletes<T>(run: seq<State<T>>, actions: seq<Action>)
    requires IsRun(run, actions)
    requires forall a :: Enabled(run[|actions|], a) ==> a.Spurious?
    ensures var s := run[|actions|];
            && s.worker.Asleep? && s.cnt == 0 && |s.queue| == 0
            && s.executed == s.pushed
            && multiset(s.executed) == Unpushed(run[0].pushers)
            && Merges(s.executed, AllTasks(run[0].pushers))
  {
    RunKeepsInv(run, actions, |actions|);
    RunConserves(run, actions, |actions|);
    Quiescent(run[|actions|]);
    var parts := RunInterleaves(run, actions, |actions|);
    AllPushed(parts, run[0].pushers, run[|actions|].pushers);
  }
}

// The lock sections and wake-ups of the code, over the intrusive list, carry out
// the steps of the protocol.
module ThreadQueueCode {
  import opened IntrusiveList
  import opened Sequences
  import opened ThreadQueue

  class Queue {
    const tasks: ListNode
    var cnt: nat
    ghost var queued: seq<ListNode>

    ghost predicate Valid()
      reads this, tasks, queued
    {
      tasks.IsList(queued)
    }

    // The shared memory is that of the protocol state s.
    ghost predicate Holds(s: State<ListNode>)
      reads this, tasks, queued
    {
      Valid() && s.queue == queued && s.cnt == cnt
    }

    // thread_queue_init (clib/thread_queue.c:85-95)
    constructor ()
      ensures Valid() && queued == [] && cnt == 0
    {
      tasks := new ListNode();
      cnt := 0;
      queued := [];
    }

    // thread_queue_push up to the unlock (clib/thread_queue.c:106-112)
    method Push(task: ListNode?, ghost s: State<ListNode>, ghost p: nat) returns (ret: int)
      requires Holds(s) && task != tasks && task !in queued
      requires p < |s.pushers| && !s.pushers[p].owes && s.pushers[p].todo != []
      requires s.pushers[p].todo[0].Null? <==> task == null
      requires task != null ==> s.pushers[p].todo[0].task == task
      modifies this`queued, tasks, queued, task
      ensures ret == if task == null then -1 else 0
      ensures Holds(Apply(s, if task == null then Refuse(p) else Append(p)))
    {
      if task == null {
        return -1;
      }
      tasks.Ends(queued);
      tasks.AddTail(task, queued);
      queued := queued + [task];
      return 0;
    }

    // cond_wakeup (clib/cond.h:46-51)
    method Wakeup(ghost s: State<ListNode>, ghost p: nat)
      requires Holds(s) && Enabled(s, Action.Wakeup(p))
      modifies this`cnt
      ensures Holds(Apply(s, Action.Wakeup(p)))
    {
      cnt := cnt + 1;
    }

    // The lock section of the worker (clib/thread_queue.c:67-72)
    method RemoveHead(ghost s: State<ListNode>) returns (task: ListNode?)
      requires Holds(s) && s.worker.AtQueue?
      modifies this`queued, tasks, queued
      ensures task == null ==> Enabled(s, SeeEmpty) && Holds(Apply(s, SeeEmpty))
      ensures task != null ==>
        Enabled(s, Take) && Holds(Apply(s, Take)) && task == s.queue[0] && task.IsList([])
    {
      task := tasks.RemoveHead(queued);
      if task != null {
        queued := queued[1..];
      }
    }

    // One round of the loop of cond_wait (clib/cond.h:54-59)
    method TryWait(ghost s: State<ListNode>) returns (waits: bool)
      requires Holds(s) && s.worker.Checking?
      modifies this`cnt
      ensures waits ==> Enabled(s, Sleep) && Holds(Apply(s, Sleep))
      ensures !waits ==> Enabled(s, Consume) && Holds(Apply(s, Consume))
    {
      if cnt == 0 {
        return true;
      }
      cnt := cnt - 1;
      return false;
    }
  }
}
