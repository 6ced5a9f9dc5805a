// clib/pthread_sem_sync.c: N threads in a ring hand one semaphore token on, each
// printing its number when it holds it. The steps of a run are the calls that
// other threads can see: sem_wait, printf and sem_post.
module SemaphoreRing {
  import opened Bits

  type pos = x: nat | x >= 1 witness 1

  datatype Pc = Waiting | Printing | Posting

  // done is the loop counter of do_print.
  datatype Thread = Thread(pc: Pc, done: nat)

  // The number of threads, the rounds of each and the number of the test case.
  datatype Config = Config(n: pos, m: nat, k: nat)

  datatype State = State(sems: seq<nat>, threads: seq<Thread>, started: bool, out: seq<nat>)

  datatype Action = Start | Wait(i: nat) | Print(i: nat) | Post(i: nat)

  // After sem_init and pthread_create (clib/pthread_sem_sync.c:41-56)
  ghost function Initial(c: Config): State {
    State(seq(c.n, i => 0), seq(c.n, i => Thread(Waiting, 0)), false, [])
  }

  ghost predicate Shaped(c: Config, s: State) {
    |s.sems| == |s.threads| == c.n
  }

  ghost predicate Enabled(c: Config, s: State, a: Action) {
    && Shaped(c, s)
    && match a
       case Start => !s.started
       case Wait(i) => i < c.n && s.threads[i].pc == Waiting && s.threads[i].done < c.m && s.sems[i] > 0
       case Print(i) => i < c.n && s.threads[i].pc == Printing
       case Post(i) => i < c.n && s.threads[i].pc == Posting
  }

  // One step (clib/pthread_sem_sync.c:31-35 and 58)
  ghost function Apply(c: Config, s: State, a: Action): State
    requires Enabled(c, s, a)
  {
    match a
    case Start =>
      var i := c.k % c.n;
      s.(sems := s.sems[i := s.sems[i] + 1], started := true)
    case Wait(i) =>
      s.(sems := s.sems[i := s.sems[i] - 1], threads := s.threads[i := Thread(Printing, s.threads[i].done)])
    case Print(i) =>
      s.(threads := s.threads[i := Thread(Posting, s.threads[i].done)], out := s.out + [i + 1])
    case Post(i) =>
      var j := (i + 1) % c.n;
      s.(sems := s.sems[j := s.sems[j] + 1], threads := s.threads[i := Thread(Waiting, s.threads[i].done + 1)])
  }

  // Taking the steps of a, one after the other, leads from s to t.
  ghost predicate Leads(c: Config, s: State, a: seq<Action>, t: State)
    decreases |a|
  {
    if a == [] then s == t else Enabled(c, s, a[0]) && Leads(c, Apply(c, s, a[0]), a[1..], t)
  }

  // The thread whose turn the t-th output is.
  ghost function Who(c: Config, t: nat): (i: nat)
    ensures i < c.n
  {
    (c.k + t) % c.n
  }

  // How many turns after the first thread i comes.
  ghost function Offset(c: Config, i: nat): (d: nat)
    ensures d < c.n
  {
    (i - c.k) % c.n
  }

  // The rounds thread i has finished when t numbers have been printed.
  ghost function Laps(c: Config, i: nat, t: nat): nat {
    t / c.n + if Offset(c, i) < t % c.n then 1 else 0
  }

  ghost function Output(c: Config, t: nat): (out: seq<nat>)
    ensures |out| == t
  {
    seq(t, u requires 0 <= u => Who(c, u) + 1)
  }

  ghost function PcAt(phase: nat): Pc {
    if phase == 0 then Waiting else if phase == 1 then Printing else Posting
  }

  // The thread who has yet to wait, to print or to post, and laps are the rounds
  // that the threads have finished.
  ghost function Ring(who: nat, laps: seq<nat>, phase: nat, out: seq<nat>): State {
    State(seq(|laps|, i requires 0 <= i < |laps| => if phase == 0 && i == who then 1 else 0),
          seq(|laps|, i requires 0 <= i < |laps| => Thread(if i == who then PcAt(phase) else Waiting, laps[i])),
          true, out)
  }

  ghost function AllLaps(c: Config, t: nat): (laps: seq<nat>)
    ensures |laps| == c.n
  {
    seq(c.n, i requires 0 <= i < c.n => Laps(c, i, t))
  }

  // After t outputs and phase further steps.
  ghost function At(c: Config, t: nat, phase: nat): State {
    Ring(Who(c, t), AllLaps(c, t), phase, Output(c, if phase == 2 then t + 1 else t))
  }

  ghost function Turn(c: Config, t: nat, phase: nat): Action {
    var i := Who(c, t);
    if phase == 0 then Wait(i) else if phase == 1 then Print(i) else Post(i)
  }

  // The state p steps after the first post: three steps make one output.
  ghost function After(c: Config, p: nat): State {
    At(c, p / 3, p % 3)
  }

  // Remainders do not see multiples.
  lemma ModShift(x: int, q: int, n: pos)
    ensures (x + q * n) % n == x % n
  {
    assert x + q * n == (x / n + q) * n + x % n;
    DivModUnique(x + q * n, n, x / n + q, x % n);
  }

  lemma OffsetOfTurn(k: int, t: int, n: pos)
    ensures ((k + t) % n - k) % n == t % n
  {
    ModShift(t, -((k + t) / n), n);
  }

  lemma TurnOfOffset(k: int, i: nat, t: int, n: pos)
    requires i < n && (i - k) % n == t % n
    ensures (k + t) % n == i
  {
    var p, q := t / n, (i - k) / n;
    assert t == p * n + t % n && i - k == q * n + t % n;
    Distribute(p, q, n);
    ModShift(i, p - q, n);
    DivModUnique(i, n, 0, i);
  }

  // Thread i has the turn exactly when its offset says so.
  lemma TurnIsOffset(c: Config, i: nat, t: nat)
    requires i < c.n
    ensures i == Who(c, t) <==> Offset(c, i) == t % c.n
  {
    OffsetOfTurn(c.k, t, c.n);
    if Offset(c, i) == t % c.n {
      TurnOfOffset(c.k, i, t, c.n);
    }
  }

  // The turn goes round.
  lemma NextTurn(c: Config, t: nat)
    ensures (Who(c, t) + 1) % c.n == Who(c, t + 1)
  {
    var x := c.k + t;
    assert x == (x / c.n) * c.n + x % c.n;
    ModShift(x % c.n + 1, x / c.n, c.n);
  }

  // One output more is one lap more for the thread whose turn it was.
  lemma LapsStep(c: Config, i: nat, t: nat)
    requires i < c.n
    ensures Laps(c, i, t + 1) == Laps(c, i, t) + if i == Who(c, t) then 1 else 0
  {
    TurnIsOffset(c, i, t);
    var n, q, r := c.n, t / c.n, t % c.n;
    assert t == q * n + r;
    if r + 1 < n {
      DivModUnique(t + 1, n, q, r + 1);
    } else {
      assert (q + 1) * n == q * n + n;
      DivModUnique(t + 1, n, q + 1, 0);
    }
  }

  // A thread whose turn it is has rounds to go exactly while outputs are due.
  lemma LapsOfTurn(c: Config, t: nat)
    ensures Laps(c, Who(c, t), t) < c.m <==> t < c.n * c.m
    ensures t == c.n * c.m ==> forall i :: 0 <= i < c.n ==> Laps(c, i, t) == c.m
  {
    TurnIsOffset(c, Who(c, t), t);
    var q, r := t / c.n, t % c.n;
    assert t == q * c.n + r;
    Distribute(c.m, q, c.n);
    if q < c.m {
      MulAtLeast(c.m - q, c.n);
    } else if c.m < q {
      Distribute(q, c.m, c.n);
      MulAtLeast(q - c.m, c.n);
    }
  }

  // There is just one step to take, until every thread has printed its number in
  // every round.
  lemma OneStep(c: Config, t: nat, phase: nat, a: Action)
    requires phase <= 2 && (t < c.n * c.m || (t == c.n * c.m && phase == 0))
    ensures Enabled(c, At(c, t, phase), a) <==> t < c.n * c.m && a == Turn(c, t, phase)
  {
    LapsOfTurn(c, t);
  }

  lemma StartStep(c: Config)
    ensures forall a :: Enabled(c, Initial(c), a) <==> a == Start
    ensures Apply(c, Initial(c), Start) == At(c, 0, 0)
  {
  }

  lemma WaitStep(c: Config, who: nat, laps: seq<nat>, out: seq<nat>)
    requires |laps| == c.n && who < c.n && laps[who] < c.m
    ensures Enabled(c, Ring(who, laps, 0, out), Wait(who))
    ensures Apply(c, Ring(who, laps, 0, out), Wait(who)) == Ring(who, laps, 1, out)
  {
  }

  lemma PrintStep(c: Config, who: nat, laps: seq<nat>, out: seq<nat>)
    requires |laps| == c.n && who < c.n
    ensures Enabled(c, Ring(who, laps, 1, out), Print(who))
    ensures Apply(c, Ring(who, laps, 1, out), Print(who)) == Ring(who, laps, 2, out + [who + 1])
  {
  }

  lemma PostStep(c: Config, who: nat, laps: seq<nat>, out: seq<nat>)
    requires |laps| == c.n && who < c.n
    ensures Enabled(c, Ring(who, laps, 2, out), Post(who))
    ensures Apply(c, Ring(who, laps, 2, out), Post(who)) == Ring((who + 1) % c.n, laps[who := laps[who] + 1], 0, out)
  {
  }

  lemma AllLapsStep(c: Config, t: nat)
    ensures AllLaps(c, t + 1) == AllLaps(c, t)[Who(c, t) := AllLaps(c, t)[Who(c, t)] + 1]
  {
    var s, who := AllLaps(c, t), Who(c, t);
    var u, r := s[who := s[who] + 1], AllLaps(c, t + 1);
    forall i | 0 <= i < c.n
      ensures r[i] == u[i]
    {
      LapsStep(c, i, t);
    }
  }

  lemma TurnStep(c: Config, t: nat, phase: nat)
    requires phase <= 2 && Enabled(c, At(c, t, phase), Turn(c, t, phase))
    ensures Apply(c, At(c, t, phase), Turn(c, t, phase)) == if phase < 2 then At(c, t, phase + 1) else At(c, t + 1, 0)
  {
    var who, laps := Who(c, t), AllLaps(c, t);
    if phase == 0 {
      WaitStep(c, who, laps, Output(c, t));
    } else if phase == 1 {
      PrintStep(c, who, laps, Output(c, t));
      assert Output(c, t) + [who + 1] == Output(c, t + 1);
    } else {
      PostStep(c, who, laps, Output(c, t + 1));
      NextTurn(c, t);
      AllLapsStep(c, t);
    }
  }

  lemma Thirds(p: nat, total: nat)
    requires p <= 3 * total
    ensures p < 3 * total <==> p / 3 < total
    ensures p == 3 * total ==> p / 3 == total && p % 3 == 0
    ensures p % 3 < 2 ==> (p + 1) / 3 == p / 3 && (p + 1) % 3 == p % 3 + 1
    ensures p % 3 == 2 ==> (p + 1) / 3 == p / 3 + 1 && (p + 1) % 3 == 0
  {
  }

  // What the steps above come to: from the p-th state the run can go on, and
  // then in one way, exactly when p has not reached its last value.
  lemma NextState(c: Config, p: nat, a: Action)
    requires p <= 3 * (c.n * c.m)
    ensures Enabled(c, After(c, p), a) <==> p < 3 * (c.n * c.m) && a == Turn(c, p / 3, p % 3)
    ensures Enabled(c, After(c, p), a) ==> Apply(c, After(c, p), a) == After(c, p + 1)
  {
    var t, phase := p / 3, p % 3;
    Thirds(p, c.n * c.m);
    OneStep(c, t, phase, a);
    if Enabled(c, After(c, p), a) {
      TurnStep(c, t, phase);
    }
  }

  lemma {:induction false} LeadsFurther(c: Config, p: nat, a: seq<Action>, t: State)
    requires p <= 3 * (c.n * c.m) && Leads(c, After(c, p), a, t)
    ensures p + |a| <= 3 * (c.n * c.m) && t == After(c, p + |a|)
    decreases |a|
  {
    if a != [] {
      NextState(c, p, a[0]);
      LeadsFurther(c, p + 1, a[1..], t);
    }
  }

  // Whatever the scheduler does, the number of steps alone determines the state.
  lemma EveryRunIsTheSame(c: Config, a: seq<Action>, t: State)
    requires Leads(c, Initial(c), a, t)
    ensures |a| <= 3 * (c.n * c.m) + 1
    ensures t == if a == [] then Initial(c) else After(c, |a| - 1)
  {
    StartStep(c);
    if a != [] {
      LeadsFurther(c, 0, a[1..], t);
    }
  }

  // The output of every run is the beginning of k + 1, k + 2, ... going round.
  lemma OutputGoesRound(c: Config, a: seq<Action>, t: State)
    requires Leads(c, Initial(c), a, t)
    ensures |t.out| <= c.n * c.m
    ensures forall u :: 0 <= u < |t.out| ==> t.out[u] == (c.k + u) % c.n + 1
  {
    EveryRunIsTheSame(c, a, t);
    if a != [] {
      Thirds(|a| - 1, c.n * c.m);
    }
  }

  // A run that can go no further has printed every number in every round, and
  // all threads are done.
  lemma NoRunStopsEarly(c: Config, a: seq<Action>, t: State)
    requires Leads(c, Initial(c), a, t)
    ensures (forall b :: !Enabled(c, t, b)) <==> |a| == 3 * (c.n * c.m) + 1
    ensures (forall b :: !Enabled(c, t, b)) ==> |t.out| == c.n * c.m
    ensures (forall b :: !Enabled(c, t, b)) ==>
              Shaped(c, t) && forall i :: 0 <= i < c.n ==> t.threads[i] == Thread(Waiting, c.m)
  {
    EveryRunIsTheSame(c, a, t);
    StartStep(c);
    if a == [] {
      assert Enabled(c, t, Start);
    } else {
      var p := |a| - 1;
      Thirds(p, c.n * c.m);
      forall b: Action
        ensures Enabled(c, t, b) <==> p < 3 * (c.n * c.m) && b == Turn(c, p / 3, p % 3)
      {
        NextState(c, p, b);
      }
      assert p < 3 * (c.n * c.m) ==> Enabled(c, t, Turn(c, p / 3, p % 3));
      LapsOfTurn(c, c.n * c.m);
    }
  }

  ghost function Sum(s: seq<nat>): nat {
    if s == [] then 0 else s[0] + Sum(s[1..])
  }

  // The threads between their wait and their post.
  ghost function Busy(threads: seq<Thread>): nat {
    if threads == [] then 0 else (if threads[0].pc == Waiting then 0 else 1) + Busy(threads[1..])
  }

  lemma {:induction false} SumOf(s: seq<nat>, i: nat, x: nat)
    requires i < |s|
    ensures Sum(s[i := x]) == Sum(s) - s[i] + x
  {
    if i > 0 {
      assert s[i := x][1..] == s[1..][i - 1 := x];
      SumOf(s[1..], i - 1, x);
    } else {
      assert s[i := x][1..] == s[1..];
    }
  }

  lemma {:induction false} BusyOf(s: seq<Thread>, i: nat, x: Thread)
    requires i < |s|
    ensures Busy(s[i := x]) == Busy(s) - (if s[i].pc == Waiting then 0 else 1) + (if x.pc == Waiting then 0 else 1)
  {
    if i > 0 {
      assert s[i := x][1..] == s[1..][i - 1 := x];
      BusyOf(s[1..], i - 1, x);
    } else {
      assert s[i := x][1..] == s[1..];
    }
  }

  // The tokens in semaphores and in hands.
  ghost function Tokens(s: State): nat {
    Sum(s.sems) + Busy(s.threads)
  }

  // Only the first post makes a token; no step from any state loses one.
  lemma StepKeepsTokens(c: Config, s: State, a: Action)
    requires Enabled(c, s, a)
    ensures Tokens(Apply(c, s, a)) == Tokens(s) + if a == Start then 1 else 0
  {
    match a
    case Start =>
      SumOf(s.sems, c.k % c.n, s.sems[c.k % c.n] + 1);
    case Wait(i) =>
      SumOf(s.sems, i, s.sems[i] - 1);
      BusyOf(s.threads, i, Thread(Printing, s.threads[i].done));
    case Print(i) =>
      BusyOf(s.threads, i, Thread(Posting, s.threads[i].done));
    case Post(i) =>
      var j := (i + 1) % c.n;
      SumOf(s.sems, j, s.sems[j] + 1);
      BusyOf(s.threads, i, Thread(Waiting, s.threads[i].done + 1));
  }

  lemma {:induction false} NoTokens(c: Config, j: nat)
    requires j <= c.n
    ensures Sum(Initial(c).sems[j..]) == 0 && Busy(Initial(c).threads[j..]) == 0
    decreases c.n - j
  {
    if j < c.n {
      assert Initial(c).sems[j..][1..] == Initial(c).sems[j + 1..];
      assert Initial(c).threads[j..][1..] == Initial(c).threads[j + 1..];
      NoTokens(c, j + 1);
    }
  }

  lemma {:induction false} LeadsKeepsTokens(c: Config, s: State, a: seq<Action>, t: State)
    requires Leads(c, s, a, t) && s.started
    ensures Tokens(t) == Tokens(s)
    decreases |a|
  {
    if a != [] {
      StepKeepsTokens(c, s, a[0]);
      LeadsKeepsTokens(c, Apply(c, s, a[0]), a[1..], t);
    }
  }

  // From the first post on there is one token, so at most one thread prints.
  lemma OneToken(c: Config, a: seq<Action>, t: State)
    requires Leads(c, Initial(c), a, t) && a != []
    ensures Tokens(t) == 1 && Shaped(c, t)
    ensures forall i, j :: 0 <= i < c.n && t.threads[i].pc != Waiting && 0 <= j < c.n && t.threads[j].pc != Waiting ==>
              i == j
  {
    NoTokens(c, 0);
    assert Initial(c).sems[0..] == Initial(c).sems && Initial(c).threads[0..] == Initial(c).threads;
    StartStep(c);
    StepKeepsTokens(c, Initial(c), Start);
    LeadsKeepsTokens(c, After(c, 0), a[1..], t);
    EveryRunIsTheSame(c, a, t);
  }

  // What the threads share. Each method is one call of a thread that is not
  // blocked, and makes the protocol's step.
  class Semaphores {
    const c: Config
    const sems: array<nat>
    const threads: array<Thread>
    var started: bool
    var out: seq<nat>

    ghost function View(): State
      reads this, sems, threads
    {
      State(sems[..], threads[..], started, out)
    }

    // sem_init and pthread_create (clib/pthread_sem_sync.c:41-56)
    constructor (c: Config)
      ensures View() == Initial(c) && this.c == c && fresh(sems) && fresh(threads)
    {
      this.c, started, out := c, false, [];
      sems := new nat[c.n](i => 0);
      threads := new Thread[c.n](i => Thread(Waiting, 0));
    }

    // sem_post of the first semaphore (clib/pthread_sem_sync.c:58)
    method First()
      requires Enabled(c, View(), Start)
      modifies this, sems
      ensures View() == Apply(c, old(View()), Start)
    {
      sems[c.k % c.n] := sems[c.k % c.n] + 1;
      started := true;
    }

    // sem_wait (clib/pthread_sem_sync.c:32)
    method SemWait(i: nat)
      requires Enabled(c, View(), Wait(i))
      modifies sems, threads
      ensures View() == Apply(c, old(View()), Wait(i))
    {
      sems[i] := sems[i] - 1;
      threads[i] := Thread(Printing, threads[i].done);
    }

    // printf (clib/pthread_sem_sync.c:33)
    method Printf(i: nat)
      requires Enabled(c, View(), Print(i))
      modifies this`out, threads
      ensures View() == Apply(c, old(View()), Print(i))
    {
      out := out + [i + 1];
      threads[i] := Thread(Posting, threads[i].done);
    }

    // sem_post and the next round (clib/pthread_sem_sync.c:31, 34)
    method SemPost(i: nat)
      requires Enabled(c, View(), Post(i))
      modifies sems, threads
      ensures View() == Apply(c, old(View()), Post(i))
    {
      var next := (i + 1) % c.n;
      sems[next] := sems[next] + 1;
      threads[i] := Thread(Waiting, threads[i].done + 1);
    }
  }
}
