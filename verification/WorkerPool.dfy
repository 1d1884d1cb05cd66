/**
 The thread pool of src/network/queue.c as a step system.  Every critical section of the queue
 mutex is one step, and so is the return of a work function.  A signal may wake any non-empty set of
 sleepers, and sleepers may wake on their own.
 */
module WorkerPool {

  type Job = int

  /** What a worker is doing; `ticket` is the position of its unit in the order of dequeueing. */
  datatype Phase =
    | Seeking                // about to take the mutex and look at the queue
    | Waiting                // asleep in pthread_cond_wait
    | Running(ticket: nat)   // inside work_unit->function, outside the mutex
    | Exited

  /** `queue`, `workers` and `finalized` are the pool; the rest are histories. */
  datatype Pool = Pool(
    queue: seq<Job>, workers: seq<Phase>, finalized: bool,
    added: seq<Job>, taken: seq<Job>, dropped: seq<Job>, finished: set<nat>)

  datatype Action =
    | Add(job: Job, woken: set<nat>)
    | Wake(w: nat)
    | Check(w: nat)
    | Finish(w: nat)
    | Finalize

  /** What a worker does in its critical section. */
  datatype Verdict = Sleep | Leave | Dequeue

  function Decide(empty: bool, terminate: bool): Verdict {
    if terminate then Leave else if empty then Sleep else Dequeue
  }

  predicate Init(s: Pool) {
    && s.queue == s.added == s.taken == s.dropped == [] && s.finished == {} && !s.finalized
    && forall w :: 0 <= w < |s.workers| ==> s.workers[w] == Seeking
  }

  predicate Asleep(s: Pool, w: nat) {
    w < |s.workers| && s.workers[w].Waiting?
  }

  predicate Enabled(s: Pool, a: Action) {
    match a
    case Add(_, woken) =>
      && (forall w :: w in woken ==> Asleep(s, w))
      && (woken == {} ==> forall w :: 0 <= w < |s.workers| ==> !s.workers[w].Waiting?)
    case Wake(w) => Asleep(s, w)
    case Check(w) => w < |s.workers| && s.workers[w].Seeking?
    case Finish(w) => w < |s.workers| && s.workers[w].Running?
    case Finalize => true
  }

  function Rouse(ws: seq<Phase>, woken: set<nat>): (r: seq<Phase>)
    ensures |r| == |ws|
    ensures forall w :: 0 <= w < |ws| ==> r[w] == if w in woken then Seeking else ws[w]
  {
    seq(|ws|, w requires 0 <= w < |ws| => if w in woken then Seeking else ws[w])
  }

  function Sleepers(ws: seq<Phase>): (r: set<nat>)
    ensures forall w :: w in r <==> 0 <= w < |ws| && ws[w].Waiting?
  {
    set w | 0 <= w < |ws| && ws[w].Waiting?
  }

  function Apply(s: Pool, a: Action): Pool
    requires Enabled(s, a)
  {
    match a
    case Add(job, woken) =>
      s.(queue := s.queue + [job], added := s.added + [job], workers := Rouse(s.workers, woken))
    case Wake(w) => s.(workers := s.workers[w := Seeking])
    case Check(w) =>
      (match Decide(s.queue == [], s.finalized)
       case Sleep => s.(workers := s.workers[w := Waiting])
       case Leave => s.(workers := s.workers[w := Exited])
       case Dequeue =>
         s.(queue := s.queue[1..], taken := s.taken + [s.queue[0]],
            workers := s.workers[w := Running(|s.taken|)]))
    case Finish(w) =>
      s.(finished := s.finished + {s.workers[w].ticket}, workers := s.workers[w := Seeking])
    case Finalize =>
      s.(queue := [], dropped := s.dropped + s.queue, finalized := true,
         workers := Rouse(s.workers, Sleepers(s.workers)))
  }

  ghost predicate Leads(s: Pool, acts: seq<Action>, t: Pool)
    decreases |acts|
  {
    if acts == [] then s == t
    else Enabled(s, acts[0]) && Leads(Apply(s, acts[0]), acts[1..], t)
  }

  // ---------------------------------------------------------------- sums over the workers

  function Sum(ws: seq<Phase>, f: Phase -> nat): nat {
    if ws == [] then 0 else Sum(ws[..|ws| - 1], f) + f(ws[|ws| - 1])
  }

  function IsSeeking(p: Phase): nat {
    if p.Seeking? then 1 else 0
  }

  /** How many own steps a worker still makes once the pool is finalized. */
  function Weight(p: Phase): nat {
    match p
    case Running(_) => 2
    case Seeking => 1
    case _ => 0
  }

  lemma {:induction false} SumUpdate(ws: seq<Phase>, w: nat, p: Phase, f: Phase -> nat)
    requires w < |ws|
    ensures Sum(ws[w := p], f) == Sum(ws, f) - f(ws[w]) + f(p)
  {
    var n := |ws| - 1;
    if w == n {
      assert ws[w := p][..n] == ws[..n];
    } else {
      SumUpdate(ws[..n], w, p, f);
      assert ws[w := p][..n] == ws[..n][w := p];
    }
  }

  /** Waking sleepers never lowers the number of seekers, and raises it if anyone was woken. */
  lemma {:induction false} RouseRaises(ws: seq<Phase>, woken: set<nat>)
    ensures Sum(Rouse(ws, woken), IsSeeking) >= Sum(ws, IsSeeking)
    ensures (exists w :: 0 <= w < |ws| && w in woken && ws[w].Waiting?) ==>
      Sum(Rouse(ws, woken), IsSeeking) >= Sum(ws, IsSeeking) + 1
  {
    if ws != [] {
      var n := |ws| - 1;
      RouseRaises(ws[..n], woken);
      assert Rouse(ws, woken)[..n] == Rouse(ws[..n], woken);
      if w :| 0 <= w < |ws| && w in woken && ws[w].Waiting? {
        assert w < n ==> ws[..n][w].Waiting?;
      }
    }
  }

  // ---------------------------------------------------------------- the invariant

  /** Every dequeued unit is finished or held by exactly one worker. */
  ghost predicate TicketInv(s: Pool) {
    && (forall w :: 0 <= w < |s.workers| && s.workers[w].Running? ==>
         s.workers[w].ticket < |s.taken| && s.workers[w].ticket !in s.finished)
    && (forall v, w :: 0 <= v < w < |s.workers| && s.workers[v].Running? && s.workers[w].Running? ==>
         s.workers[v].ticket != s.workers[w].ticket)
    && (forall k :: k in s.finished ==> k < |s.taken|)
    && (forall k: nat :: k < |s.taken| && k !in s.finished ==> Held(s, k))
  }

  ghost predicate Held(s: Pool, k: nat) {
    exists w :: 0 <= w < |s.workers| && s.workers[w] == Running(k)
  }

  ghost predicate WakeupInv(s: Pool) {
    && (s.finalized ==> forall w :: 0 <= w < |s.workers| ==> !s.workers[w].Waiting?)
    && (!s.finalized ==> forall w :: 0 <= w < |s.workers| ==> !s.workers[w].Exited?)
    && (!s.finalized && (exists w :: Asleep(s, w)) ==> |s.queue| <= Sum(s.workers, IsSeeking))
  }

  ghost predicate Inv(s: Pool) {
    && s.added == s.taken + s.dropped + s.queue
    && (!s.finalized ==> s.dropped == [])
    && TicketInv(s)
    && WakeupInv(s)
  }

  lemma StepKeepsHeld(s: Pool, a: Action)
    requires TicketInv(s) && Enabled(s, a)
    ensures forall k: nat :: k < |Apply(s, a).taken| && k !in Apply(s, a).finished ==> Held(Apply(s, a), k)
  {
    var t := Apply(s, a);
    forall k: nat | k < |t.taken| && k !in t.finished
      ensures Held(t, k)
    {
      if k < |s.taken| {
        assert Held(s, k);
        var w :| 0 <= w < |s.workers| && s.workers[w] == Running(k);
        assert t.workers[w] == Running(k);
      } else {
        assert t.workers[a.w] == Running(k);
      }
    }
  }

  lemma StepKeepsTickets(s: Pool, a: Action)
    requires TicketInv(s) && Enabled(s, a)
    ensures TicketInv(Apply(s, a))
  {
    StepKeepsHeld(s, a);
  }

  lemma StepKeepsWakeups(s: Pool, a: Action)
    requires WakeupInv(s) && Enabled(s, a)
    ensures WakeupInv(Apply(s, a))
  {
    var t := Apply(s, a);
    match a
    case Add(job, woken) =>
      RouseRaises(s.workers, woken);
      if !t.finalized && exists w :: Asleep(t, w) {
        var w :| Asleep(t, w);
        assert Asleep(s, w);
        var v :| v in woken;
        assert Asleep(s, v);
      }
    case Wake(w) =>
      SumUpdate(s.workers, w, Seeking, IsSeeking);
      assert Asleep(s, w);
      assert forall v :: Asleep(t, v) ==> Asleep(s, v);
    case Check(w) =>
      SumUpdate(s.workers, w, t.workers[w], IsSeeking);
      if Decide(s.queue == [], s.finalized).Dequeue? {
        assert forall v :: Asleep(t, v) ==> Asleep(s, v);
      }
    case Finish(w) =>
      SumUpdate(s.workers, w, Seeking, IsSeeking);
      assert forall v :: Asleep(t, v) ==> Asleep(s, v);
    case Finalize =>
  }

  lemma {:induction false} RunKeepsInv(s: Pool, acts: seq<Action>, t: Pool)
    requires Inv(s) && Leads(s, acts, t)
    ensures Inv(t)
    decreases |acts|
  {
    if acts != [] {
      var m := Apply(s, acts[0]);
      StepKeepsTickets(s, acts[0]);
      StepKeepsWakeups(s, acts[0]);
      assert m.added == m.taken + m.dropped + m.queue;
      RunKeepsInv(m, acts[1..], t);
    }
  }

  // ---------------------------------------------------------------- main results

  /**
   No lost wakeup: before finalize, if any worker sleeps then the queue is no longer than the number
   of awake workers about to look at it.
   */
  lemma NoLostWakeup(s: Pool, acts: seq<Action>, t: Pool, w: nat)
    requires Init(s) && Leads(s, acts, t) && !t.finalized && Asleep(t, w)
    ensures |t.queue| <= Sum(t.workers, IsSeeking)
  {
    RunKeepsInv(s, acts, t);
  }

  /**
   Conservation and order: the units ever added are, in this order, those dequeued, those dropped by
   finalize and those still queued; a dequeued unit is finished or run by one worker, and by no two.
   */
  lemma UnitsAreConserved(s: Pool, acts: seq<Action>, t: Pool)
    requires Init(s) && Leads(s, acts, t)
    ensures t.added == t.taken + t.dropped + t.queue
    ensures t.taken <= t.added
    ensures !t.finalized ==> t.dropped == []
    ensures forall k: nat :: k < |t.taken| ==> (k in t.finished <==> !Held(t, k))
    ensures forall v, w :: 0 <= v < w < |t.workers| && t.workers[v].Running? && t.workers[w].Running? ==>
      t.workers[v].ticket != t.workers[w].ticket
  {
    RunKeepsInv(s, acts, t);
  }

  predicate IsWorkerStep(a: Action) {
    a.Check? || a.Finish?
  }

  ghost predicate WorkersStuck(s: Pool) {
    forall w: nat :: !Enabled(s, Check(w)) && !Enabled(s, Finish(w))
  }

  /** Left alone, the workers take a bounded number of steps. */
  lemma {:induction false} DrainIsBounded(s: Pool, acts: seq<Action>, t: Pool)
    requires !s.finalized && Leads(s, acts, t)
    requires forall i :: 0 <= i < |acts| ==> IsWorkerStep(acts[i])
    ensures !t.finalized && t.added == s.added && |t.workers| == |s.workers|
    ensures |acts| + 3 * |t.queue| + Sum(t.workers, Weight) <= 3 * |s.queue| + Sum(s.workers, Weight)
    decreases |acts|
  {
    if acts != [] {
      var m := Apply(s, acts[0]);
      assert IsWorkerStep(acts[0]);
      SumUpdate(s.workers, acts[0].w, m.workers[acts[0].w], Weight);
      DrainIsBounded(m, acts[1..], t);
    }
  }

  lemma {:induction false} SumZero(ws: seq<Phase>)
    requires forall w :: 0 <= w < |ws| ==> !ws[w].Seeking?
    ensures Sum(ws, IsSeeking) == 0
  {
    if ws != [] {
      SumZero(ws[..|ws| - 1]);
    }
  }

  /**
   Work conservation: before finalize, with at least one worker, once no worker can move every unit
   ever added has been dequeued in order and run to its end, and all workers sleep.
   */
  lemma DrainedPoolIsDone(s: Pool, acts: seq<Action>, t: Pool)
    requires Init(s) && Leads(s, acts, t) && !t.finalized && t.workers != [] && WorkersStuck(t)
    ensures t.queue == [] && t.taken == t.added
    ensures forall k: nat :: k in t.finished <==> k < |t.added|
    ensures forall w :: 0 <= w < |t.workers| ==> t.workers[w].Waiting?
  {
    RunKeepsInv(s, acts, t);
    forall w: nat | w < |t.workers|
      ensures t.workers[w].Waiting?
    {
      assert !Enabled(t, Check(w)) && !Enabled(t, Finish(w));
    }
    SumZero(t.workers);
    assert Asleep(t, 0);
    forall k: nat | k < |t.taken|
      ensures k in t.finished
    {
      assert !Held(t, k);
    }
  }

  function StepsOf(acts: seq<Action>, w: nat): nat {
    if acts == [] then 0
    else (if IsWorkerStep(acts[0]) && acts[0].w == w then 1 else 0) + StepsOf(acts[1..], w)
  }

  /**
   After finalize nothing is dequeued, even if added later, nobody sleeps, and worker `w` takes as
   many further steps as its weight allows: two if it is running a unit, one if it is seeking, then
   it has exited; until then it always has a step to take.
   */
  lemma {:induction false} FinalizedPoolShutsDown(s: Pool, acts: seq<Action>, t: Pool, w: nat)
    requires Inv(s) && s.finalized && Leads(s, acts, t) && w < |s.workers|
    ensures t.finalized && t.taken == s.taken && |t.workers| == |s.workers|
    ensures !t.workers[w].Waiting?
    ensures StepsOf(acts, w) + Weight(t.workers[w]) == Weight(s.workers[w])
    ensures t.workers[w].Exited? || Enabled(t, Check(w)) || Enabled(t, Finish(w))
    decreases |acts|
  {
    if acts != [] {
      assert Leads(Apply(s, acts[0]), [], Apply(s, acts[0]));
      RunKeepsInv(s, [acts[0]], Apply(s, acts[0]));
      FinalizedPoolShutsDown(Apply(s, acts[0]), acts[1..], t, w);
    }
  }

  /** Every state reached from a fresh pool meets the premise of FinalizedPoolShutsDown once finalized. */
  lemma ReachableFinalizedPoolShutsDown(s: Pool, before: seq<Action>, m: Pool, acts: seq<Action>, t: Pool, w: nat)
    requires Init(s) && Leads(s, before, m) && m.finalized && Leads(m, acts, t) && w < |m.workers|
    ensures t.taken == m.taken && |t.workers| == |m.workers|
    ensures forall v :: 0 <= v < |t.workers| ==> !t.workers[v].Waiting?
    ensures StepsOf(acts, w) <= 2
    ensures StepsOf(acts, w) == Weight(m.workers[w]) <==> t.workers[w].Exited?
  {
    RunKeepsInv(s, before, m);
    RunKeepsInv(m, acts, t);
    FinalizedPoolShutsDown(m, acts, t, w);
  }
}
