/**
 The metadata test of _sync_processes_meta: it compares the counts the other way round than its
 comment describes.  What it detects, what it misses, and when a query acknowledges an update.
 */
module ShmMetadata {
  import opened Word32
  import opened ShmProtocol
  import opened ShmCalls

  /** The test its comment describes: the process is one update ahead of the manager. */
  predicate HasUnreadUpdate(l: ProcessLine, readCount: u32) {
    l.writeCount == Wrap(readCount + 1) && l.payloadBytes == 0
  }

  /** How many mode changes of process `i` the manager has not acknowledged. */
  ghost function Pending(s: State, i: nat): int
    requires i < |s.procs|
  {
    |s.procs[i].modes| - 1 - s.acks
  }

  lemma WrapShift(a: int, b: int)
    ensures Wrap(a) == Wrap(b) <==> Wrap(a - b) == 0
  {
    var p, q, r := a / TWO_32, b / TWO_32, (a - b) / TWO_32;
    assert a == TWO_32 * p + Wrap(a) && b == TWO_32 * q + Wrap(b);
    assert a - b == TWO_32 * r + Wrap(a - b);
  }

  lemma WrapResidue(n: int, acks: int, d: int)
    requires -TWO_32 < d < TWO_32
    ensures Wrap(n) == Wrap(Wrap(acks) + d) <==> Wrap(n - acks) == Wrap(d)
  {
    WrapAdd(acks, d);
    WrapShift(n, acks + d);
    WrapShift(n - acks, d);
  }

  lemma TestsByPending(t: State, i: nat)
    requires Inv(t) && i < |t.procs|
    ensures CountsAsUpdate(t.procs[i].line, t.control.readCount) <==> Wrap(Pending(t, i)) == TWO_32 - 1
    ensures HasUnreadUpdate(t.procs[i].line, t.control.readCount) <==> Wrap(Pending(t, i)) == 1
  {
    assert ProcessInv(t, t.procs[i]);
    WrapResidue(|t.procs[i].modes| - 1, t.acks, -1);
    WrapResidue(|t.procs[i].modes| - 1, t.acks, 1);
  }

  /**
   The test fires exactly when the unacknowledged mode changes number -1 modulo 2^32, the described
   one exactly when they number 1; so the code does what its comment says exactly when neither is so.
   */
  lemma TestIsReversed(s: State, acts: seq<Action>, t: State, i: nat)
    requires Init(s) && Leads(s, acts, t) && i < |t.procs|
    ensures CountsAsUpdate(t.procs[i].line, t.control.readCount) <==> Wrap(Pending(t, i)) == TWO_32 - 1
    ensures HasUnreadUpdate(t.procs[i].line, t.control.readCount) <==> Wrap(Pending(t, i)) == 1
    ensures
      (CountsAsUpdate(t.procs[i].line, t.control.readCount) <==> HasUnreadUpdate(t.procs[i].line, t.control.readCount))
      <==> Wrap(Pending(t, i)) != 1 && Wrap(Pending(t, i)) != TWO_32 - 1
  {
    ReachableInv(s, acts, t);
    TestsByPending(t, i);
  }

  // ---------------------------------------------------------------- one query

  /**
   From every reachable state an uninterrupted query acknowledges an update exactly when the
   unacknowledged changes of every process number -1 modulo 2^32.  It answers "out of sync" (-1)
   exactly when those of some but not all processes do; otherwise, with 0, the mode that all processes
   have published, and if they have published different ones "no agreement" (-2).
   */
  lemma QueryAcknowledgesIff(s: State, acts: seq<Action>, t: State)
    requires Init(s) && Leads(s, acts, t) && t.pc.Idle? && t.procs != []
    ensures var all := forall i :: 0 <= i < |t.procs| ==> Wrap(Pending(t, i)) == TWO_32 - 1;
      var none := forall i :: 0 <= i < |t.procs| ==> Wrap(Pending(t, i)) != TWO_32 - 1;
      && RunQuery(t).acks == t.acks + (if all then 1 else 0)
      && RunQuery(t).reports == t.reports + [
           if !all && !none then Report(-1, 0, 0xFFFF_FFFF)
           else if forall i, j :: 0 <= i < j < |t.procs| ==> t.procs[i].line.mode == t.procs[j].line.mode
           then Report(0, t.procs[0].line.mode, 0)
           else Report(-1, 0, 0xFFFF_FFFE)]
  {
    ReachableInv(s, acts, t);
    QueryByLines(t);
    forall i | 0 <= i < |t.procs|
      ensures Fires(t, i) <==> Wrap(Pending(t, i)) == TWO_32 - 1
    {
      TestsByPending(t, i);
    }
    FiresByLines(t);
  }

  // ---------------------------------------------------------------- every run

  /** The process has changed its mode at least 2^32 - 1 times. */
  predicate Wrapped(q: Process) {
    |q.modes| >= TWO_32
  }

  predicate FirstWrapped(procs: seq<Process>, n: nat) {
    forall j :: 0 <= j < n && j < |procs| ==> Wrapped(procs[j])
  }

  predicate SomeWrapped(procs: seq<Process>) {
    exists j :: 0 <= j < |procs| && Wrapped(procs[j])
  }

  predicate OutOfSync(reports: seq<Report>) {
    exists i :: 0 <= i < |reports| && reports[i].status == Wrap(-1)
  }

  ghost predicate Justified(s: State) {
    && (s.acks > 0 ==> FirstWrapped(s.procs, |s.procs|))
    && (OutOfSync(s.reports) ==> SomeWrapped(s.procs))
    && (s.pc.Scanning? ==>
          && (s.pc.updates == s.pc.next ==> FirstWrapped(s.procs, s.pc.next))
          && (s.pc.updates > 0 ==> SomeWrapped(s.procs)))
  }

  lemma StepKeepsWrapped(s: State, a: Action)
    requires Enabled(s, a)
    ensures var t := Apply(s, a);
      |t.procs| == |s.procs| && forall j :: 0 <= j < |s.procs| && Wrapped(s.procs[j]) ==> Wrapped(t.procs[j])
  {
  }

  lemma WrappedStays(s: State, a: Action)
    requires Enabled(s, a)
    ensures var t := Apply(s, a);
      && (forall n: nat :: FirstWrapped(s.procs, n) ==> FirstWrapped(t.procs, n))
      && (SomeWrapped(s.procs) ==> SomeWrapped(t.procs))
  {
    StepKeepsWrapped(s, a);
    if SomeWrapped(s.procs) {
      var j :| 0 <= j < |s.procs| && Wrapped(s.procs[j]);
      assert Wrapped(Apply(s, a).procs[j]);
    }
  }

  lemma FiringIsWrapped(s: State, i: nat)
    requires Inv(s) && i < |s.procs| && (s.acks > 0 ==> FirstWrapped(s.procs, |s.procs|))
    ensures Fires(s, i) ==> Wrapped(s.procs[i])
  {
    if s.acks == 0 && !Wrapped(s.procs[i]) {
      assert ProcessInv(s, s.procs[i]);
      TestsByPending(s, i);
      WrapInjective(|s.procs[i].modes| - 1, TWO_32 - 1);
    }
  }

  lemma ScanStepJustified(s: State)
    requires Inv(s) && Justified(s) && Enabled(s, ScanProcess)
    ensures Justified(Apply(s, ScanProcess))
  {
    WrappedStays(s, ScanProcess);
    StepKeepsWrapped(s, ScanProcess);
    FiringIsWrapped(s, s.pc.next);
    var t := Apply(s, ScanProcess);
    if Fires(s, s.pc.next) {
      assert Wrapped(t.procs[s.pc.next]);
    }
  }

  lemma EndQueryJustified(s: State)
    requires Inv(s) && Justified(s) && Enabled(s, EndQuery)
    ensures Justified(Apply(s, EndQuery))
  {
    var t := Apply(s, EndQuery);
    if OutOfSync(t.reports) && !OutOfSync(s.reports) {
      assert forall i :: 0 <= i < |s.reports| ==> t.reports[i] == s.reports[i];
      assert s.pc.updates > 0;
    }
  }

  lemma StepJustified(s: State, a: Action)
    requires Inv(s) && Justified(s) && Enabled(s, a)
    ensures Justified(Apply(s, a))
  {
    if a.ScanProcess? {
      ScanStepJustified(s);
    } else if a.EndQuery? {
      EndQueryJustified(s);
    } else {
      WrappedStays(s, a);
    }
  }

  lemma {:induction false} RunJustified(s: State, acts: seq<Action>, t: State)
    requires Inv(s) && Justified(s) && Leads(s, acts, t)
    ensures Justified(t)
    decreases |acts|
  {
    if acts != [] {
      StepKeepsInv(s, acts[0]);
      StepJustified(s, acts[0]);
      RunJustified(Apply(s, acts[0]), acts[1..], t);
    }
  }

  /**
   In every run the manager acknowledges nothing as long as one process has changed its mode fewer
   than 2^32 - 1 times, and no query answers "out of sync" as long as all of them have.
   */
  lemma PendingUpdatesGoUnseen(s: State, acts: seq<Action>, t: State)
    requires Init(s) && Leads(s, acts, t)
    ensures t.acks > 0 ==> forall i :: 0 <= i < |t.procs| ==> |t.procs[i].modes| - 1 >= TWO_32 - 1
    ensures (exists r :: r in t.reports && r.status == Wrap(-1)) ==>
      exists i :: 0 <= i < |t.procs| && |t.procs[i].modes| - 1 >= TWO_32 - 1
  {
    InitHoldsInv(s);
    RunJustified(s, acts, t);
    assert forall i :: 0 <= i < |t.procs| && Wrapped(t.procs[i]) ==> |t.procs[i].modes| - 1 >= TWO_32 - 1;
    if r :| r in t.reports && r.status == Wrap(-1) {
      var i :| 0 <= i < |t.reports| && t.reports[i] == r;
      assert OutOfSync(t.reports);
    }
  }

  // ---------------------------------------------------------------- the bounds are tight

  lemma ReachesSelf(s: State)
    ensures Reaches(s, s)
  {
    assert Leads(s, [], s);
  }

  lemma ReachesStep(s: State, t: State, a: Action)
    requires Reaches(s, t) && Enabled(t, a)
    ensures Reaches(s, Apply(t, a))
  {
    StepReaches(t, a);
    ReachesTransitive(s, t, Apply(t, a));
  }

  /** Between `s` and `t` only process `p` has changed its mode, `k` times. */
  ghost predicate OnlyChanged(s: State, t: State, p: nat, k: nat) {
    && |t.procs| == |s.procs| && t.pc == s.pc && t.acks == s.acks
    && forall i :: 0 <= i < |s.procs| ==>
         && |t.procs[i].modes| == |s.procs[i].modes| + (if i == p then k else 0)
         && (i != p ==> t.procs[i].pc == s.procs[i].pc)
  }

  lemma {:induction false} ChangeModes(s: State, p: nat, k: nat) returns (t: State)
    requires p < |s.procs| && s.procs[p].pc.Ready?
    ensures Reaches(s, t) && OnlyChanged(s, t, p, k) && t.procs[p].pc.Ready?
  {
    if k == 0 {
      ReachesSelf(s);
      t := s;
    } else {
      var u := ChangeModes(s, p, k - 1);
      ReachesStep(s, u, SetMode(p, 0));
      t := Apply(u, SetMode(p, 0));
    }
  }

  lemma AttachAndChange(s: State, p: nat, k: nat) returns (t: State)
    requires p < |s.procs| && s.procs[p].pc.Detached?
    ensures Reaches(s, t) && OnlyChanged(s, t, p, k)
  {
    var u := Apply(s, Attach(p));
    StepReaches(s, Attach(p));
    t := ChangeModes(u, p, k);
    ReachesTransitive(s, u, t);
  }

  /** The first `m` processes have changed their mode `k` times, the others never attached. */
  ghost predicate Prepared(t: State, m: nat, k: nat) {
    && t.pc.Idle? && t.acks == 0
    && forall i :: 0 <= i < |t.procs| ==>
         && |t.procs[i].modes| == 1 + (if i < m then k else 0)
         && (i >= m ==> t.procs[i].pc.Detached?)
  }

  lemma {:induction false} Prepare(s: State, m: nat, k: nat) returns (t: State)
    requires Init(s) && m <= |s.procs|
    ensures Reaches(s, t) && |t.procs| == |s.procs| && Prepared(t, m, k)
  {
    if m == 0 {
      ReachesSelf(s);
      t := s;
    } else {
      var u := Prepare(s, m - 1, k);
      t := AttachAndChange(u, m - 1, k);
      ReachesTransitive(s, u, t);
    }
  }

  lemma PendingWhenPrepared(t: State, m: nat, k: nat, i: nat)
    requires Prepared(t, m, k) && k == TWO_32 - 1 && i < |t.procs|
    ensures Wrap(Pending(t, i)) == TWO_32 - 1 <==> i < m
  {
    WrapSmall(k);
  }

  /**
   Both bounds are tight on a node with any number of processes: if the first `m` of them change
   their mode 2^32 - 1 times and the others never, the next query acknowledges an update when these
   are all, and answers "out of sync" when they are only some.
   */
  lemma DetectionNeedsWrapAround(s: State, m: nat, k: nat) returns (t: State)
    requires Init(s) && 1 <= m <= |s.procs| && k == TWO_32 - 1
    ensures Reaches(s, t) && |t.procs| == |s.procs| && Prepared(t, m, k)
    ensures var u := RunQuery(t);
      && Reaches(s, u) && u.reports != []
      && u.acks == (if m == |s.procs| then 1 else 0)
      && (Last(u.reports).status == Wrap(-1) <==> m < |s.procs|)
  {
    t := Prepare(s, m, k);
    var acts :| Leads(s, acts, t);
    forall i | 0 <= i < |t.procs|
      ensures Wrap(Pending(t, i)) == TWO_32 - 1 <==> i < m
    {
      PendingWhenPrepared(t, m, k, i);
    }
    QueryAcknowledgesIff(s, acts, t);
    assert Wrap(Pending(t, 0)) == TWO_32 - 1;
    assert m < |t.procs| ==> Wrap(Pending(t, m)) != TWO_32 - 1;
    QueryIsRun(t);
    ReachesTransitive(s, t, RunQuery(t));
  }
}
