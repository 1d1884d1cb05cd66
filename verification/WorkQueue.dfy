/**
 The data that the mutex of src/network/queue.c protects: a singly linked list of work units and a
 singly linked list of worker records, edited in place.  The bodies below are the critical sections;
 WorkerPool interleaves them.
 */
module WorkQueue {
  import opened WorkerPool

  class WorkUnit {
    const job: Job
    var next: WorkUnit?

    constructor (job: Job)
      ensures this.job == job
    {
      this.job := job;
      next := null;
    }
  }

  class WorkerData {
    var terminate: bool
    var next: WorkerData?

    constructor (next: WorkerData?)
      ensures !terminate && this.next == next
    {
      terminate, this.next := false, next;
    }
  }

  /** `units` are the nodes found by following `next` from `head`; no node occurs twice, so the list is acyclic. */
  ghost predicate UnitChain(head: WorkUnit?, units: seq<WorkUnit>)
    reads units
  {
    && head == (if units == [] then null else units[0])
    && (units != [] ==> units[|units| - 1].next == null)
    && (forall i, j :: 0 <= i < j < |units| ==>
          units[i] != units[j] && (j == i + 1 ==> units[i].next == units[j]))
  }

  ghost predicate WorkerChain(head: WorkerData?, workers: seq<WorkerData>)
    reads workers
  {
    && head == (if workers == [] then null else workers[0])
    && (workers != [] ==> workers[|workers| - 1].next == null)
    && (forall i, j :: 0 <= i < j < |workers| ==>
          workers[i] != workers[j] && (j == i + 1 ==> workers[i].next == workers[j]))
  }

  function Jobs(units: seq<WorkUnit>): (js: seq<Job>)
    ensures |js| == |units|
    ensures forall i :: 0 <= i < |js| ==> js[i] == units[i].job
  {
    seq(|units|, i requires 0 <= i < |units| => units[i].job)
  }

  function FreshPool(n: nat): (s: Pool)
    ensures WorkerPool.Init(s) && |s.workers| == n
  {
    Pool([], seq(n, _ => Seeking), false, [], [], [], {})
  }

  /** What a pass with this verdict leaves of the list. */
  function Remaining(units: seq<WorkUnit>, verdict: Verdict): seq<WorkUnit> {
    if verdict.Dequeue? && units != [] then units[1..] else units
  }

  /** The step of the pool agrees with what the pass does to the list. */
  lemma CheckAgrees(s: Pool, w: nat, units: seq<WorkUnit>)
    requires Enabled(s, Action.Check(w)) && s.queue == Jobs(units)
    ensures var t := Apply(s, Action.Check(w));
      && t.queue == Jobs(Remaining(units, Decide(units == [], s.finalized)))
      && t.finalized == s.finalized && |t.workers| == |s.workers|
  {
  }

  lemma AddAgrees(s: Pool, unit: WorkUnit, woken: set<nat>, before: seq<WorkUnit>)
    requires Enabled(s, Action.Add(unit.job, woken)) && s.queue == Jobs(before)
    ensures var t := Apply(s, Action.Add(unit.job, woken));
      t.queue == Jobs(before + [unit]) && t.finalized == s.finalized && |t.workers| == |s.workers|
  {
  }

  /**
   The queue.  The ghost fields are the chains behind the two list heads, the records of all workers
   ever created, and the pool of the step system that the queue stands for.
   */
  class Queue {
    var workUnits: WorkUnit?
    var threadData: WorkerData?
    ghost var units: seq<WorkUnit>
    ghost var workers: seq<WorkerData>
    ghost var records: seq<WorkerData>
    ghost var pool: Pool

    /** All workers are linked and unflagged until finalize, unlinked and flagged after it. */
    ghost predicate WorkersValid(finalized: bool)
      reads `threadData, `workers, `records, workers, records
    {
      && WorkerChain(threadData, workers)
      && workers == (if finalized then [] else records)
      && forall i :: 0 <= i < |records| ==> records[i].terminate == finalized
    }

    /** The lists are well formed and hold what the pool says. */
    ghost predicate Valid()
      reads this, units, workers, records
    {
      && UnitChain(workUnits, units) && pool.queue == Jobs(units)
      && WorkersValid(pool.finalized) && |pool.workers| == |records|
    }

    /**
     dynpm_work_queue_init.  `startable` is how many threads the system lets it create; the records of
     all created threads are linked, newest first, also when the call fails part-way.
     */
    method Init(threadCount: int, startable: nat) returns (code: int)
      modifies this
      ensures threadCount < 1 <==> code == -1
      ensures code == -1 ==> unchanged(this)
      ensures code != -1 ==>
        && Valid() && fresh(records) && WorkerPool.Init(pool)
        && (code == 0 <==> threadCount <= startable) && code in {0, 1}
        && |pool.workers| == (if threadCount <= startable then threadCount else startable)
    {
      if threadCount < 1 {
        return -1;
      }
      workUnits, threadData := null, null;
      units, workers, records := [], [], [];
      var i := 0;
      while i < threadCount
        invariant 0 <= i <= threadCount && i <= startable && |records| == i && fresh(records)
        invariant WorkersValid(false) && UnitChain(workUnits, units) && units == []
      {
        if i == startable {
          pool := FreshPool(i);
          return 1;
        }
        LinkWorker();
        i := i + 1;
      }
      pool := FreshPool(i);
      code := 0;
    }

    /** A new worker record, linked first. */
    method LinkWorker()
      requires WorkersValid(false)
      modifies `threadData, `workers, `records
      ensures WorkersValid(false)
      ensures |records| == |old(records)| + 1 && fresh(records[0]) && records[1..] == old(records)
    {
      var data := new WorkerData(threadData);
      threadData := data;
      workers, records := [data] + workers, [data] + records;
    }

    /** dynpm_work_queue_add: walk to the tail and link the unit there; the signal wakes `woken`. */
    method Add(unit: WorkUnit, ghost woken: set<nat>)
      requires Valid() && unit !in units && Enabled(pool, Action.Add(unit.job, woken))
      modifies `workUnits, `units, `pool, units, unit
      ensures Valid() && units == old(units) + [unit]
      ensures pool == Apply(old(pool), Action.Add(unit.job, woken))
    {
      LinkLast(unit);
      AddAgrees(pool, unit, woken, old(units));
      pool := Apply(pool, Action.Add(unit.job, woken));
    }

    /** The walk to the tail. */
    method LinkLast(unit: WorkUnit)
      requires UnitChain(workUnits, units) && unit !in units
      modifies `workUnits, `units, units, unit
      ensures UnitChain(workUnits, units) && units == old(units) + [unit]
    {
      if workUnits != null {
        var current := workUnits;
        ghost var k := 0;
        while current.next != null
          invariant 0 <= k < |units| && current == units[k]
          invariant k + 1 < |units| ==> current.next == units[k + 1]
          decreases |units| - k
        {
          current := current.next;
          k := k + 1;
        }
        current.next := unit;
      } else {
        workUnits := unit;
      }
      unit.next := null;
      units := units + [unit];
    }

    /**
     One pass of queue_thread, run by worker `w`, through its critical section, up to the wait, the
     exit or the call of the work function.
     */
    method Check(data: WorkerData, ghost w: nat) returns (verdict: Verdict, unit: WorkUnit?)
      requires Valid() && w < |records| && records[w] == data && Enabled(pool, Action.Check(w))
      modifies `workUnits, `units, `pool, units
      ensures Valid() && pool == Apply(old(pool), Action.Check(w))
      ensures verdict == Decide(old(units) == [], pool.finalized)
      ensures units == Remaining(old(units), verdict)
      ensures if verdict.Dequeue? then unit == old(units)[0] && unit.next == null else unit == null
    {
      AdvancePool(w);
      verdict, unit := Pass(data, pool.finalized);
    }

    /** The step of the pool that goes with the pass. */
    ghost method AdvancePool(w: nat)
      requires Valid() && Enabled(pool, Action.Check(w))
      modifies `pool
      ensures pool == Apply(old(pool), Action.Check(w)) && pool.finalized == old(pool).finalized
      ensures pool.queue == Jobs(Remaining(units, Decide(units == [], pool.finalized)))
      ensures UnitChain(workUnits, units) && WorkersValid(pool.finalized) && |pool.workers| == |records|
    {
      CheckAgrees(pool, w, units);
      SetPool(Apply(pool, Action.Check(w)), pool.finalized);
    }

    /** The pool is no part of the lists. */
    ghost method SetPool(p: Pool, finalized: bool)
      requires UnitChain(workUnits, units) && WorkersValid(finalized)
      modifies `pool
      ensures pool == p && UnitChain(workUnits, units) && WorkersValid(finalized)
    {
      pool := p;
    }

    /** The tests and the unlinking of that pass. */
    method Pass(data: WorkerData, ghost finalized: bool) returns (verdict: Verdict, unit: WorkUnit?)
      requires UnitChain(workUnits, units) && WorkersValid(finalized) && data in records
      modifies `workUnits, `units, units
      ensures UnitChain(workUnits, units) && WorkersValid(finalized)
      ensures verdict == Decide(old(units) == [], finalized)
      ensures units == Remaining(old(units), verdict)
      ensures if verdict.Dequeue? then unit == old(units)[0] && unit.next == null else unit == null
    {
      if workUnits == null && !data.terminate {
        return Sleep, null;
      }
      if data.terminate {
        return Leave, null;
      }
      unit := UnlinkFirst();
      verdict := Dequeue;
    }

    /** The first unit, taken off the list. */
    method UnlinkFirst() returns (unit: WorkUnit)
      requires UnitChain(workUnits, units) && workUnits != null
      modifies `workUnits, `units, units
      ensures UnitChain(workUnits, units) && unit == old(units)[0] && units == old(units)[1..] && unit.next == null
    {
      unit := workUnits;
      workUnits := unit.next;
      unit.next := null;
      units := units[1..];
    }

    /** dynpm_work_queue_finalize: flag every linked worker, forget both lists and wake all sleepers. */
    method Finalize()
      requires Valid()
      modifies this, workers
      ensures Valid() && records == old(records) && units == []
      ensures pool == Apply(old(pool), Action.Finalize)
    {
      FlagWorkers();
      workUnits, threadData := null, null;
      units, workers := [], [];
      pool := Apply(pool, Action.Finalize);
    }

    /** The walk over the worker records. */
    method FlagWorkers()
      requires WorkerChain(threadData, workers)
      modifies workers
      ensures WorkerChain(threadData, workers)
      ensures forall i :: 0 <= i < |workers| ==> workers[i].terminate
    {
      var data := threadData;
      ghost var k := 0;
      while data != null
        invariant 0 <= k <= |workers| && WorkerChain(threadData, workers)
        invariant data == (if k < |workers| then workers[k] else null)
        invariant forall i :: 0 <= i < k ==> workers[i].terminate
        decreases |workers| - k
      {
        data.terminate := true;
        data := data.next;
        k := k + 1;
      }
    }
  }
}
