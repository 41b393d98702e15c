/** tpool.c as a transition system. */
module Tpool {
  // The queue and the stop flag are touched only under the mutex, so each critical section is one step; waiting on
  // the condition variable gives the mutex up, which splits a worker's loop there. Any interleaving of the steps is
  // a run, and a sleeping worker may also wake up for no reason.

  type Worker = nat

  /** Idle: awake and about to take the mutex. Sleeping: inside the condition wait. */
  datatype Pc = Idle | Sleeping | Running(task: nat) | Exited

  /** Tasks are numbered by submission. `queue` is the linked list from head to tail. */
  datatype Pool = Pool(pcs: seq<Pc>, queue: seq<nat>, stop: bool,
                       submitted: nat, started: seq<nat>, done: set<nat>)

  ghost predicate Init(p: Pool, n: nat)
  {
    p == Pool(seq(n, _ => Idle), [], false, 0, [], {})
  }

  // ----- steps -----

  /** One pass through the worker's critical section, up to the wait, the exit or the task. */
  function Take(p: Pool, w: Worker): Pool
    requires w < |p.pcs|
  {
    if p.queue == [] && !p.stop then p.(pcs := p.pcs[w := Sleeping])
    else if p.stop && p.queue == [] then p.(pcs := p.pcs[w := Exited])
    else p.(pcs := p.pcs[w := Running(p.queue[0])], queue := p.queue[1..], started := p.started + [p.queue[0]])
  }

  function Finish(p: Pool, w: Worker): Pool
    requires w < |p.pcs| && p.pcs[w].Running?
  {
    p.(pcs := p.pcs[w := Idle], done := p.done + {p.pcs[w].task})
  }

  function WakeSet(pcs: seq<Pc>, woken: set<Worker>): (r: seq<Pc>)
    ensures |r| == |pcs|
    ensures forall w :: 0 <= w < |pcs| ==> r[w] == if w in woken && pcs[w].Sleeping? then Idle else pcs[w]
  {
    seq(|pcs|, w requires 0 <= w < |pcs| => if w in woken && pcs[w].Sleeping? then Idle else pcs[w])
  }

  function WakeAll(pcs: seq<Pc>): (r: seq<Pc>)
    ensures |r| == |pcs|
    ensures forall w :: 0 <= w < |pcs| ==> r[w] == if pcs[w].Sleeping? then Idle else pcs[w]
  {
    seq(|pcs|, w requires 0 <= w < |pcs| => if pcs[w].Sleeping? then Idle else pcs[w])
  }

  ghost predicate SomeAsleep(pcs: seq<Pc>) { exists w :: 0 <= w < |pcs| && pcs[w].Sleeping? }

  /** A signal wakes at least one sleeper, if there is any. */
  ghost predicate Signal(pcs: seq<Pc>, woken: set<Worker>)
  {
    SomeAsleep(pcs) ==> exists w :: w in woken && w < |pcs| && pcs[w].Sleeping?
  }

  function Add(p: Pool, woken: set<Worker>): Pool
  {
    p.(queue := p.queue + [p.submitted], submitted := p.submitted + 1, pcs := WakeSet(p.pcs, woken))
  }

  function Shutdown(p: Pool): Pool
  {
    p.(stop := true, pcs := WakeAll(p.pcs))
  }

  datatype Step = TakeStep(w: Worker) | FinishStep(w: Worker) | SpuriousStep(w: Worker)
      | AddStep(woken: set<Worker>) | ShutdownStep

  /** Tasks are submitted only before shutdown starts. */
  ghost predicate Next(p: Pool, s: Step, p': Pool)
  {
    match s
    case TakeStep(w) => w < |p.pcs| && p.pcs[w].Idle? && p' == Take(p, w)
    case FinishStep(w) => w < |p.pcs| && p.pcs[w].Running? && p' == Finish(p, w)
    case SpuriousStep(w) => w < |p.pcs| && p.pcs[w].Sleeping? && p' == p.(pcs := p.pcs[w := Idle])
    case AddStep(woken) => !p.stop && Signal(p.pcs, woken) && p' == Add(p, woken)
    case ShutdownStep => !p.stop && p' == Shutdown(p)
  }

  ghost predicate Run(states: seq<Pool>, steps: seq<Step>, n: nat)
  {
    && |states| == |steps| + 1 && Init(states[0], n)
    && forall i :: 0 <= i < |steps| ==> Next(states[i], steps[i], states[i + 1])
  }

  // ----- the invariant -----

  function AwakeIdle(pcs: seq<Pc>): nat
  {
    if pcs == [] then 0 else (if pcs[0].Idle? then 1 else 0) + AwakeIdle(pcs[1..])
  }

  function UpTo(n: nat): seq<nat> { seq(n, i requires 0 <= i < n => i) }

  /** A started task is done, or one worker runs it, and never both. */
  ghost predicate RunOnce(p: Pool)
  {
    && (forall t :: t in p.done ==> t < |p.started|)
    && (forall w :: 0 <= w < |p.pcs| && p.pcs[w].Running? ==> p.pcs[w].task < |p.started| && p.pcs[w].task !in p.done)
    && (forall v, w :: 0 <= v < w < |p.pcs| && p.pcs[v].Running? && p.pcs[w].Running? ==> p.pcs[v].task != p.pcs[w].task)
    && (forall t :: 0 <= t < |p.started| ==> t in p.done || exists w :: 0 <= w < |p.pcs| && p.pcs[w] == Running(t))
  }

  ghost predicate Inv(p: Pool)
  {
    // first come, first served: what has been started and what is queued are the submissions in order
    && p.started + p.queue == UpTo(p.submitted)
    && RunOnce(p)
    // no lost wake-up
    && (SomeAsleep(p.pcs) ==> !p.stop && |p.queue| <= AwakeIdle(p.pcs))
    && (forall w :: 0 <= w < |p.pcs| && p.pcs[w].Exited? ==> p.stop && p.queue == [])
  }

  lemma {:induction false} IdleUpdate(pcs: seq<Pc>, w: Worker, pc: Pc)
    requires w < |pcs|
    ensures AwakeIdle(pcs[w := pc]) == AwakeIdle(pcs) - (if pcs[w].Idle? then 1 else 0) + (if pc.Idle? then 1 else 0)
  {
    if w == 0 {
      assert pcs[w := pc][1..] == pcs[1..];
    } else {
      assert pcs[w := pc][1..] == pcs[1..][w - 1 := pc];
      IdleUpdate(pcs[1..], w - 1, pc);
    }
  }

  lemma {:induction false} IdleWake(pcs: seq<Pc>, woken: set<Worker>, pcs': seq<Pc>)
    requires |pcs'| == |pcs| && forall w :: 0 <= w < |pcs| ==> (pcs[w].Idle? ==> pcs'[w].Idle?)
    ensures AwakeIdle(pcs) <= AwakeIdle(pcs')
    ensures (exists w :: 0 <= w < |pcs| && !pcs[w].Idle? && pcs'[w].Idle?) ==> AwakeIdle(pcs) < AwakeIdle(pcs')
  {
    if pcs != [] {
      IdleWake(pcs[1..], woken, pcs'[1..]);
      if w :| 0 <= w < |pcs| && !pcs[w].Idle? && pcs'[w].Idle? {
        if w > 0 { assert pcs[1..][w - 1] == pcs[w] && pcs'[1..][w - 1] == pcs'[w]; }
      }
    }
  }

  lemma TakeKeeps(p: Pool, w: Worker)
    requires Inv(p) && w < |p.pcs| && p.pcs[w].Idle?
    ensures Inv(Take(p, w))
  {
    hide RunOnce;
    var p' := Take(p, w);
    IdleUpdate(p.pcs, w, p'.pcs[w]);
    if p.queue != [] {
      var t := p.queue[0];
      assert (p.started + p.queue)[|p.started|] == t;
      assert t == |p.started|;
      assert p'.started + p'.queue == p.started + p.queue;
      TakeRunsOnce(p, w);
      assert SomeAsleep(p'.pcs) ==> SomeAsleep(p.pcs);
    } else {
      WakeKeepsRunning(p, p');
      assert p.stop ==> (SomeAsleep(p'.pcs) ==> SomeAsleep(p.pcs));
    }
  }

  lemma TakeRunsOnce(p: Pool, w: Worker)
    requires RunOnce(p) && w < |p.pcs| && p.pcs[w].Idle? && p.queue != [] && p.queue[0] == |p.started|
    ensures RunOnce(Take(p, w))
  {
    var p' := Take(p, w);
    forall t | 0 <= t < |p'.started| ensures t in p'.done || exists v :: 0 <= v < |p'.pcs| && p'.pcs[v] == Running(t) {
      if t == |p.started| {
        assert p'.pcs[w] == Running(t);
      } else if t !in p.done {
        var v :| 0 <= v < |p.pcs| && p.pcs[v] == Running(t);
        assert p'.pcs[v] == Running(t);
      }
    }
  }

  lemma FinishKeeps(p: Pool, w: Worker)
    requires Inv(p) && w < |p.pcs| && p.pcs[w].Running?
    ensures Inv(Finish(p, w))
  {
    var p' := Finish(p, w);
    IdleUpdate(p.pcs, w, Idle);
    forall t | 0 <= t < |p'.started| ensures t in p'.done || exists v :: 0 <= v < |p'.pcs| && p'.pcs[v] == Running(t) {
      if t !in p'.done {
        var v :| 0 <= v < |p.pcs| && p.pcs[v] == Running(t);
        assert p'.pcs[v] == Running(t);
      }
    }
    assert SomeAsleep(p'.pcs) ==> SomeAsleep(p.pcs);
  }

  /** Falling asleep, waking and exiting concern no worker that runs a task. */
  lemma WakeKeepsRunning(p: Pool, p': Pool)
    requires RunOnce(p) && |p'.pcs| == |p.pcs| && p'.started == p.started && p'.done == p.done
    requires forall w :: 0 <= w < |p.pcs| ==> p'.pcs[w] == p.pcs[w] || (!p.pcs[w].Running? && !p'.pcs[w].Running?)
    ensures RunOnce(p')
  {
    forall t | 0 <= t < |p'.started| ensures t in p'.done || exists v :: 0 <= v < |p'.pcs| && p'.pcs[v] == Running(t) {
      if t !in p.done {
        var v :| 0 <= v < |p.pcs| && p.pcs[v] == Running(t);
        assert p'.pcs[v] == Running(t);
      }
    }
  }

  lemma NextKeepsInv(p: Pool, s: Step, p': Pool)
    requires Inv(p) && Next(p, s, p')
    ensures Inv(p')
  {
    hide RunOnce;
    match s {
      case TakeStep(w) => TakeKeeps(p, w);
      case FinishStep(w) => FinishKeeps(p, w);
      case SpuriousStep(w) =>
        WakeKeepsRunning(p, p');
        IdleUpdate(p.pcs, w, Idle);
        assert SomeAsleep(p'.pcs) ==> SomeAsleep(p.pcs);
      case AddStep(woken) =>
        WakeKeepsRunning(p, p');
        IdleWake(p.pcs, woken, p'.pcs);
        assert p'.started + p'.queue == (p.started + p.queue) + [p.submitted];
        assert UpTo(p.submitted + 1) == UpTo(p.submitted) + [p.submitted];
        assert SomeAsleep(p'.pcs) ==> SomeAsleep(p.pcs);
      case ShutdownStep =>
        WakeKeepsRunning(p, p');
    }
  }

  lemma {:induction false} RunKeepsInv(states: seq<Pool>, steps: seq<Step>, n: nat)
    requires Run(states, steps, n)
    ensures forall i :: 0 <= i < |states| ==> Inv(states[i]) && |states[i].pcs| == n
  {
    var k := |steps|;
    if k > 0 {
      RunKeepsInv(states[..k], steps[..k - 1], n);
      assert states[..k][k - 1] == states[k - 1];
      NextKeepsInv(states[k - 1], steps[k - 1], states[k]);
      forall i | 0 <= i < |states| ensures Inv(states[i]) && |states[i].pcs| == n {
        if i < k { assert states[..k][i] == states[i]; }
      }
    }
  }

  // ----- what users of the pool see -----

  /** Over every interleaving: tasks start in the order of submission, each at most once; none is lost
      or finished twice; and once all workers have exited every submitted task is done. */
  lemma PoolIsCorrect(states: seq<Pool>, steps: seq<Step>, n: nat)
    requires Run(states, steps, n)
    ensures forall i :: 0 <= i < |states| ==>
              var p := states[i];
              && p.started == UpTo(|p.started|) && |p.started| <= p.submitted
              && RunOnce(p)
              && (n > 0 && AllExited(p) ==> p.stop && forall t :: t in p.done <==> 0 <= t < p.submitted)
  {
    RunKeepsInv(states, steps, n);
    forall i | 0 <= i < |states|
      ensures var p := states[i];
              && p.started == UpTo(|p.started|) && |p.started| <= p.submitted
              && RunOnce(p)
              && (n > 0 && AllExited(p) ==> p.stop && forall t :: t in p.done <==> 0 <= t < p.submitted)
    {
      InvMeans(states[i]);
    }
  }

  ghost predicate AllExited(p: Pool) { forall w :: 0 <= w < |p.pcs| ==> p.pcs[w].Exited? }

  lemma InvMeans(p: Pool)
    requires Inv(p)
    ensures p.started == UpTo(|p.started|) && |p.started| <= p.submitted
    ensures |p.pcs| > 0 && AllExited(p) ==> p.stop && forall t :: t in p.done <==> 0 <= t < p.submitted
  {
    assert |p.started + p.queue| == p.submitted;
    forall i | 0 <= i < |p.started| ensures p.started[i] == i {
      assert p.started[i] == (p.started + p.queue)[i];
    }
    if |p.pcs| > 0 && AllExited(p) {
      assert p.pcs[0].Exited?;
      forall t: nat | t < p.submitted ensures t in p.done {
      }
    }
  }

  /** A worker never sleeps while more tasks are queued than awake idle workers could take, so with work
      queued some worker is awake; and nobody sleeps through a shutdown. */
  lemma NoLostWakeup(p: Pool, w: Worker)
    requires Inv(p) && w < |p.pcs| && p.pcs[w].Sleeping?
    ensures !p.stop && |p.queue| <= AwakeIdle(p.pcs)
    ensures p.queue != [] ==> exists v :: 0 <= v < |p.pcs| && p.pcs[v].Idle?
  {
    assert SomeAsleep(p.pcs);
    if p.queue != [] { IdleExists(p.pcs); }
  }

  lemma {:induction false} IdleExists(pcs: seq<Pc>)
    requires AwakeIdle(pcs) > 0
    ensures exists v :: 0 <= v < |pcs| && pcs[v].Idle?
  {
    if !pcs[0].Idle? {
      IdleExists(pcs[1..]);
      var v :| 0 <= v < |pcs[1..]| && pcs[1..][v].Idle?;
      assert pcs[v + 1].Idle?;
    }
  }

  // ----- shutdown terminates -----

  function Cost(pc: Pc): nat
  {
    match pc
    case Running(_) => 2
    case Idle => 1
    case Sleeping => 2
    case Exited => 0
  }

  function Costs(pcs: seq<Pc>): nat { if pcs == [] then 0 else Cost(pcs[0]) + Costs(pcs[1..]) }

  lemma {:induction false} CostsUpdate(pcs: seq<Pc>, w: Worker, pc: Pc)
    requires w < |pcs|
    ensures Costs(pcs[w := pc]) == Costs(pcs) - Cost(pcs[w]) + Cost(pc)
  {
    if w == 0 {
      assert pcs[w := pc][1..] == pcs[1..];
    } else {
      assert pcs[w := pc][1..] == pcs[1..][w - 1 := pc];
      CostsUpdate(pcs[1..], w - 1, pc);
    }
  }

  /** After shutdown every step brings the pool closer to all workers having exited, and until then some
      worker can step: the joins return. */
  lemma ShutdownTerminates(p: Pool)
    requires Inv(p) && p.stop
    ensures forall s, p' :: Next(p, s, p') ==> p'.stop && 2 * |p'.queue| + Costs(p'.pcs) < 2 * |p.queue| + Costs(p.pcs)
    ensures AllExited(p) || exists s, p' :: Next(p, s, p')
  {
    forall s, p' | Next(p, s, p') ensures p'.stop && 2 * |p'.queue| + Costs(p'.pcs) < 2 * |p.queue| + Costs(p.pcs) {
      match s {
        case TakeStep(w) => CostsUpdate(p.pcs, w, p'.pcs[w]);
        case FinishStep(w) => CostsUpdate(p.pcs, w, Idle);
        case SpuriousStep(w) => CostsUpdate(p.pcs, w, Idle);
        case _ =>
      }
    }
    if w :| 0 <= w < |p.pcs| && !p.pcs[w].Exited? {
      assert !SomeAsleep(p.pcs);
      if p.pcs[w].Idle? {
        assert Next(p, TakeStep(w), Take(p, w));
      } else {
        assert Next(p, FinishStep(w), Finish(p, w));
      }
    }
  }
}
