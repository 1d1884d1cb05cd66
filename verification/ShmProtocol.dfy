/**
 The one-slot broadcast of src/shm/shm.c as a step system: one manager, any number of processes,
 no lock.  A step is one access to shared memory (a 64-byte line copy or one payload byte) together
 with the private work next to it, so a run is an interleaving of the calls of all participants.
 Lines are copied atomically and memory is sequentially consistent; payload copies are not atomic.
 */
module ShmProtocol {
  import opened Word32

  /** The fields of the manager's 64-byte line that change. */
  datatype ManagerLine = ManagerLine(readCount: u32, writeCount: u32, payloadBytes: nat)

  /** The fields of a process's 64-byte line that change. */
  datatype ProcessLine = ProcessLine(readCount: u32, writeCount: u32, mode: u32, payloadBytes: nat)

  datatype ManagerPc =
    | Idle
    | Checking(next: nat, ready: nat, message: seq<byte>)  // in _all_processes_read_ready
    | Copying(done: nat, message: seq<byte>)               // in the payload memcpy of manager_write
    | Scanning(next: nat, updates: nat)                    // in _sync_processes_meta

  datatype ProcessPc =
    | Detached
    | Ready
    | Reading(taken: seq<byte>)                            // in the payload memcpy of process_read
    | Missed                                               // took the "missed message" branch

  /**
   One process: its shared line, the manager's private copy of that line, and its own private
   memory.  The last three fields are histories: messages read, modes published (the initial 0
   first), and which of those modes was current when the manager's latest scan began.
   */
  datatype Process = Process(
    line: ProcessLine, copy: ProcessLine,
    control: ProcessLine, view: ManagerLine, pc: ProcessPc,
    got: seq<seq<byte>>, modes: seq<u32>, scanStart: nat)

  /** What dynpm_shm_manager_get_malleability_mode hands back. */
  datatype Report = Report(code: int, mode: u32, status: u32)

  /**
   The whole node.  `line` and `payload` are shared, `control` is the manager's private struct;
   `writes`, `acks` and `reports` are histories.
   */
  datatype State = State(
    line: ManagerLine, payload: seq<byte>,
    control: ManagerLine, pc: ManagerPc,
    procs: seq<Process>,
    writes: seq<seq<byte>>, acks: nat, reports: seq<Report>)

  datatype Action =
    | BeginWrite(message: seq<byte>) | CheckProcess | EndCheck | CopyByte | PublishWrite
    | BeginQuery | ScanProcess | EndQuery
    | Attach(p: nat) | BeginRead(p: nat) | TakeByte(p: nat) | PublishRead(p: nat)
    | SetMode(p: nat, mode: u32)

  const ZERO_LINE := ProcessLine(0, 0, 0, 0)
  const ZERO_MANAGER := ManagerLine(0, 0, 0)

  /** The state left by dynpm_shm_manager_init; the payload bytes are arbitrary. */
  predicate Init(s: State) {
    && s.line == s.control == ZERO_MANAGER
    && s.pc == Idle
    && s.writes == [] && s.acks == 0 && s.reports == []
    && forall i :: 0 <= i < |s.procs| ==>
         && s.procs[i].line == ZERO_LINE
         && s.procs[i].pc == Detached
         && s.procs[i].got == [] && s.procs[i].modes == [0]
  }

  /** The test of _sync_processes_meta, as written. */
  predicate CountsAsUpdate(l: ProcessLine, readCount: u32) {
    l.writeCount == Wrap(readCount - 1) && l.payloadBytes == 0
  }

  predicate ModesAgree(procs: seq<Process>)
    requires procs != []
  {
    forall i :: 0 <= i < |procs| ==> procs[i].copy.mode == procs[0].copy.mode
  }

  function ReportOf(procs: seq<Process>, updates: nat): Report
    requires procs != []
  {
    if updates == |procs| || updates == 0 then
      if ModesAgree(procs) then Report(0, procs[0].copy.mode, 0) else Report(-1, 0, Wrap(-2))
    else Report(-1, 0, Wrap(-1))
  }

  /** The first part of process_read: copy the manager's line and compare the counts. */
  function Snapshot(q: Process, line: ManagerLine): Process {
    var r := q.(view := line);
    if r.control.readCount == line.writeCount then r
    else if r.control.readCount == Wrap(line.writeCount - 1) then r.(pc := Reading([]))
    else r.(pc := Missed)
  }

  /** Records, for every process, which of its published modes is current. */
  function MarkScanStart(procs: seq<Process>): (marked: seq<Process>)
    ensures |marked| == |procs|
    ensures forall i :: 0 <= i < |procs| ==>
      marked[i] == procs[i].(scanStart := if procs[i].modes == [] then 0 else |procs[i].modes| - 1)
  {
    seq(|procs|, i requires 0 <= i < |procs| =>
      procs[i].(scanStart := if procs[i].modes == [] then 0 else |procs[i].modes| - 1))
  }

  predicate Enabled(s: State, a: Action) {
    match a
    case BeginWrite(m) => s.pc.Idle? && 0 < |m| < |s.payload|
    case CheckProcess => s.pc.Checking? && s.pc.next < |s.procs|
    case EndCheck => s.pc.Checking? && s.pc.next >= |s.procs|
    case CopyByte => s.pc.Copying? && s.pc.done < |s.pc.message| && s.pc.done < |s.payload|
    case PublishWrite => s.pc.Copying? && s.pc.done >= |s.pc.message|
    case BeginQuery => s.pc.Idle? && s.procs != []
    case ScanProcess => s.pc.Scanning? && s.pc.next < |s.procs|
    case EndQuery => s.pc.Scanning? && s.pc.next >= |s.procs| && s.procs != []
    case Attach(p) => p < |s.procs| && s.procs[p].pc.Detached?
    case BeginRead(p) => p < |s.procs| && s.procs[p].pc.Ready?
    case TakeByte(p) =>
      p < |s.procs| && s.procs[p].pc.Reading?
      && |s.procs[p].pc.taken| < s.procs[p].view.payloadBytes && |s.procs[p].pc.taken| < |s.payload|
    case PublishRead(p) =>
      p < |s.procs| && s.procs[p].pc.Reading? && |s.procs[p].pc.taken| >= s.procs[p].view.payloadBytes
    case SetMode(p, _) => p < |s.procs| && s.procs[p].pc.Ready?
  }

  function Apply(s: State, a: Action): State
    requires Enabled(s, a)
  {
    match a
    case BeginWrite(m) => s.(pc := Checking(0, 0, m))
    case CheckProcess =>
      var i := s.pc.next;
      var seen := s.procs[i].line;
      var inSync := seen.readCount == s.control.writeCount;
      s.(procs := s.procs[i := s.procs[i].(copy := seen)],
         pc := Checking(i + 1, if inSync then s.pc.ready + 1 else s.pc.ready, s.pc.message))
    case EndCheck =>
      s.(pc := if s.pc.ready == |s.procs| then Copying(0, s.pc.message) else Idle)
    case CopyByte =>
      s.(payload := s.payload[s.pc.done := s.pc.message[s.pc.done]],
         pc := Copying(s.pc.done + 1, s.pc.message))
    case PublishWrite =>
      var c := s.control.(payloadBytes := |s.pc.message|, writeCount := Wrap(s.control.writeCount + 1));
      s.(control := c, line := c, pc := Idle, writes := s.writes + [s.pc.message])
    case BeginQuery =>
      s.(pc := Scanning(0, 0), procs := MarkScanStart(s.procs))
    case ScanProcess =>
      var i := s.pc.next;
      var seen := s.procs[i].line;
      s.(procs := s.procs[i := s.procs[i].(copy := seen)],
         pc := Scanning(i + 1, if CountsAsUpdate(seen, s.control.readCount) then s.pc.updates + 1 else s.pc.updates))
    case EndQuery =>
      var acked := s.pc.updates == |s.procs| && s.pc.updates > 0;
      var c := if acked then s.control.(readCount := Wrap(s.control.readCount + 1)) else s.control;
      s.(control := c, line := if acked then c else s.line, pc := Idle,
         acks := if acked then s.acks + 1 else s.acks,
         reports := s.reports + [ReportOf(s.procs, s.pc.updates)])
    case Attach(p) =>
      s.(procs := s.procs[p := s.procs[p].(control := s.procs[p].line, view := s.line, pc := Ready)])
    case BeginRead(p) =>
      s.(procs := s.procs[p := Snapshot(s.procs[p], s.line)])
    case TakeByte(p) =>
      var q := s.procs[p];
      s.(procs := s.procs[p := q.(pc := Reading(q.pc.taken + [s.payload[|q.pc.taken|]]))])
    case PublishRead(p) =>
      var q := s.procs[p];
      var c := q.control.(readCount := Wrap(q.control.readCount + 1));
      s.(procs := s.procs[p := q.(control := c, line := c, pc := Ready, got := q.got + [q.pc.taken])])
    case SetMode(p, m) =>
      var q := s.procs[p];
      var c := q.control.(mode := m, writeCount := Wrap(q.control.writeCount + 1), payloadBytes := 0);
      s.(procs := s.procs[p := q.(control := c, line := c, modes := q.modes + [m])])
  }

  /** `acts`, in this order, is an interleaving that takes `s` to `t`. */
  ghost predicate Leads(s: State, acts: seq<Action>, t: State)
    decreases |acts|
  {
    if acts == [] then s == t
    else Enabled(s, acts[0]) && Leads(Apply(s, acts[0]), acts[1..], t)
  }

  lemma {:induction false} LeadsAppend(s: State, acts: seq<Action>, t: State, more: seq<Action>, u: State)
    requires Leads(s, acts, t) && Leads(t, more, u)
    ensures Leads(s, acts + more, u)
    decreases |acts|
  {
    if acts == [] {
      assert acts + more == more;
    } else {
      LeadsAppend(Apply(s, acts[0]), acts[1..], t, more, u);
      assert (acts + more)[1..] == acts[1..] + more;
    }
  }

  ghost predicate Reaches(s: State, t: State) {
    exists acts :: Leads(s, acts, t)
  }

  lemma StepThenReaches(s: State, a: Action, t: State)
    requires Enabled(s, a) && Reaches(Apply(s, a), t)
    ensures Reaches(s, t)
  {
    var acts :| Leads(Apply(s, a), acts, t);
    assert ([a] + acts)[1..] == acts;
    assert Leads(s, [a] + acts, t);
  }

  lemma StepReaches(s: State, a: Action)
    requires Enabled(s, a)
    ensures Reaches(s, Apply(s, a))
  {
    assert Leads(Apply(s, a), [], Apply(s, a));
    StepThenReaches(s, a, Apply(s, a));
  }

  lemma ReachesTransitive(s: State, t: State, u: State)
    requires Reaches(s, t) && Reaches(t, u)
    ensures Reaches(s, u)
  {
    var before :| Leads(s, before, t);
    var after :| Leads(t, after, u);
    LeadsAppend(s, before, t, after, u);
  }

  // ---------------------------------------------------------------- the invariant

  function Last<T>(xs: seq<T>): T
    requires xs != []
  {
    xs[|xs| - 1]
  }

  predicate InSync(s: State, q: Process) {
    |q.got| == |s.writes|
  }

  ghost predicate ProcessInv(s: State, q: Process) {
    && |s.writes| - 1 <= |q.got| <= |s.writes|
    && q.got == s.writes[..|q.got|]
    && q.line.readCount == Wrap(|q.got|)
    && q.modes != [] && Last(q.modes) == q.line.mode
    && q.line.writeCount == Wrap(|q.modes| - 1) && q.line.payloadBytes == 0
    && (q.pc.Detached? || q.control == q.line)
    && !q.pc.Missed?
    && (q.pc.Reading? ==> ReaderInv(s, q))
  }

  ghost predicate ReaderInv(s: State, q: Process)
    requires q.pc.Reading?
  {
    && |q.got| + 1 == |s.writes|
    && q.view.payloadBytes == |Last(s.writes)|
    && q.pc.taken <= Last(s.writes)
  }

  ghost predicate SlotInv(s: State) {
    if s.writes == [] then s.line.payloadBytes == 0
    else
      && s.line.payloadBytes == |Last(s.writes)| < |s.payload|
      && (s.pc.Copying? || Last(s.writes) == s.payload[..|Last(s.writes)|])
  }

  /** `mode` was the published mode of `q` at some point between the start of the latest scan and now. */
  ghost predicate PublishedDuringScan(q: Process, mode: u32) {
    exists t :: q.scanStart <= t < |q.modes| && q.modes[t] == mode
  }

  ghost predicate ManagerInv(s: State) {
    match s.pc
    case Idle => true
    case Checking(next, ready, m) =>
      && 0 < |m| < |s.payload| && ready <= next <= |s.procs|
      && (ready == next ==> forall j :: 0 <= j < next ==> InSync(s, s.procs[j]))
    case Copying(done, m) =>
      && done <= |m| < |s.payload| && 0 < |m|
      && s.payload[..done] == m[..done]
      && forall j :: 0 <= j < |s.procs| ==> InSync(s, s.procs[j])
    case Scanning(next, updates) =>
      && updates <= next <= |s.procs| && s.procs != []
      && (forall j :: 0 <= j < |s.procs| ==> s.procs[j].scanStart < |s.procs[j].modes|)
      && forall j :: 0 <= j < next ==> PublishedDuringScan(s.procs[j], s.procs[j].copy.mode)
  }

  ghost predicate Inv(s: State) {
    && s.control == s.line
    && s.line.writeCount == Wrap(|s.writes|)
    && s.line.readCount == Wrap(s.acks)
    && (forall i :: 0 <= i < |s.procs| ==> ProcessInv(s, s.procs[i]))
    && SlotInv(s)
    && ManagerInv(s)
  }

  /** The wrapped tests of process_read and _all_processes_read_ready decide what the true counts decide. */
  lemma WrappedTestsAreExact(s: State, q: Process)
    requires s.line.writeCount == Wrap(|s.writes|) && q.line.readCount == Wrap(|q.got|)
    requires |s.writes| - 1 <= |q.got| <= |s.writes|
    ensures q.line.readCount == s.line.writeCount <==> |q.got| == |s.writes|
    ensures q.line.readCount == Wrap(s.line.writeCount - 1) <==> |q.got| == |s.writes| - 1
  {
    WrapInjective(|q.got|, |s.writes|);
    WrapAdd(|s.writes|, -1);
    WrapInjective(|q.got|, |s.writes| - 1);
  }

  lemma ManagerStepKeepsInv(s: State, a: Action)
    requires Inv(s) && Enabled(s, a)
    requires a.BeginWrite? || a.CheckProcess? || a.EndCheck? || a.CopyByte? || a.PublishWrite?
    ensures Inv(Apply(s, a))
  {
    var t := Apply(s, a);
    match a
    case BeginWrite(m) =>
    case CheckProcess =>
      WrappedTestsAreExact(s, s.procs[s.pc.next]);
    case EndCheck =>
    case CopyByte =>
    case PublishWrite =>
      WrapAdd(|s.writes|, 1);
      assert s.payload[..|s.pc.message|] == s.pc.message;
  }

  lemma QueryStepKeepsInv(s: State, a: Action)
    requires Inv(s) && Enabled(s, a)
    requires a.BeginQuery? || a.ScanProcess? || a.EndQuery?
    ensures Inv(Apply(s, a))
  {
    var t := Apply(s, a);
    match a
    case BeginQuery =>
      assert forall i :: 0 <= i < |t.procs| ==> ProcessInv(s, s.procs[i]) ==> ProcessInv(t, t.procs[i]);
    case ScanProcess =>
      var q := t.procs[s.pc.next];
      assert ProcessInv(s, s.procs[s.pc.next]);
      assert q.scanStart < |q.modes| ==> q.modes[|q.modes| - 1] == q.copy.mode;
    case EndQuery =>
      WrapAdd(s.acks, 1);
  }

  /** Replacing one process is harmless if it keeps its own part and never falls out of step. */
  lemma ReplaceProcess(s: State, p: nat, q: Process)
    requires Inv(s) && p < |s.procs| && ProcessInv(s, q)
    requires InSync(s, s.procs[p]) ==> InSync(s, q)
    requires q.copy == s.procs[p].copy && q.scanStart == s.procs[p].scanStart && s.procs[p].modes <= q.modes
    ensures Inv(s.(procs := s.procs[p := q]))
  {
    var t := s.(procs := s.procs[p := q]);
    assert forall i :: 0 <= i < |t.procs| ==> ProcessInv(s, t.procs[i]);
    if s.pc.Scanning? && p < s.pc.next {
      var u :| s.procs[p].scanStart <= u < |s.procs[p].modes| && s.procs[p].modes[u] == s.procs[p].copy.mode;
      assert q.modes[u] == q.copy.mode;
    }
  }

  lemma BeginReadKeepsInv(s: State, p: nat)
    requires Inv(s) && Enabled(s, BeginRead(p))
    ensures Inv(Apply(s, BeginRead(p)))
  {
    assert ProcessInv(s, s.procs[p]);
    WrappedTestsAreExact(s, s.procs[p]);
    ReplaceProcess(s, p, Snapshot(s.procs[p], s.line));
  }

  lemma TakeByteKeepsInv(s: State, p: nat)
    requires Inv(s) && Enabled(s, TakeByte(p))
    ensures Inv(Apply(s, TakeByte(p)))
  {
    var q := s.procs[p];
    assert ProcessInv(s, q);
    assert q.pc.taken + [s.payload[|q.pc.taken|]] == Last(s.writes)[..|q.pc.taken| + 1];
    ReplaceProcess(s, p, Apply(s, TakeByte(p)).procs[p]);
  }

  lemma PublishReadKeepsInv(s: State, p: nat)
    requires Inv(s) && Enabled(s, PublishRead(p))
    ensures Inv(Apply(s, PublishRead(p)))
  {
    var q := s.procs[p];
    assert ProcessInv(s, q);
    WrapAdd(|q.got|, 1);
    assert q.pc.taken == Last(s.writes);
    ReplaceProcess(s, p, Apply(s, PublishRead(p)).procs[p]);
  }

  lemma OwnStepKeepsInv(s: State, a: Action)
    requires Inv(s) && Enabled(s, a) && (a.Attach? || a.SetMode?)
    ensures Inv(Apply(s, a))
  {
    var q := s.procs[a.p];
    assert ProcessInv(s, q);
    WrapAdd(|q.modes| - 1, 1);
    ReplaceProcess(s, a.p, Apply(s, a).procs[a.p]);
  }

  lemma StepKeepsInv(s: State, a: Action)
    requires Inv(s) && Enabled(s, a)
    ensures Inv(Apply(s, a))
  {
    match a
    case BeginWrite(_) => ManagerStepKeepsInv(s, a);
    case CheckProcess => ManagerStepKeepsInv(s, a);
    case EndCheck => ManagerStepKeepsInv(s, a);
    case CopyByte => ManagerStepKeepsInv(s, a);
    case PublishWrite => ManagerStepKeepsInv(s, a);
    case BeginQuery => QueryStepKeepsInv(s, a);
    case ScanProcess => QueryStepKeepsInv(s, a);
    case EndQuery => QueryStepKeepsInv(s, a);
    case Attach(_) => OwnStepKeepsInv(s, a);
    case SetMode(_, _) => OwnStepKeepsInv(s, a);
    case BeginRead(p) => BeginReadKeepsInv(s, p);
    case TakeByte(p) => TakeByteKeepsInv(s, p);
    case PublishRead(p) => PublishReadKeepsInv(s, p);
  }

  lemma {:induction false} RunKeepsInv(s: State, acts: seq<Action>, t: State)
    requires Inv(s) && Leads(s, acts, t)
    ensures Inv(t)
    decreases |acts|
  {
    if acts != [] {
      StepKeepsInv(s, acts[0]);
      RunKeepsInv(Apply(s, acts[0]), acts[1..], t);
    }
  }

  lemma InitHoldsInv(s: State)
    requires Init(s)
    ensures Inv(s)
  {
    assert forall i :: 0 <= i < |s.procs| ==> ProcessInv(s, s.procs[i]);
  }

  /** The invariant holds in every reachable state. */
  lemma ReachableInv(s: State, acts: seq<Action>, t: State)
    requires Init(s) && Leads(s, acts, t)
    ensures Inv(t)
  {
    InitHoldsInv(s);
    RunKeepsInv(s, acts, t);
  }

  // ---------------------------------------------------------------- main results

  /** No lock is taken, yet the manager never writes the payload while a process is copying it out. */
  lemma WriterExcludesReaders(s: State, acts: seq<Action>, t: State)
    requires Init(s) && Leads(s, acts, t)
    ensures t.pc.Copying? ==> forall i :: 0 <= i < |t.procs| ==> !t.procs[i].pc.Reading?
  {
    ReachableInv(s, acts, t);
  }

  /**
   What each process has read is a prefix of what the manager has written, message by message and
   byte by byte, at most one message behind; a copy in progress is a prefix of the next message;
   and no process ever takes the "missed message" branch.  Processes may attach at any time.
   */
  lemma ReadersFollowWriter(s: State, acts: seq<Action>, t: State, i: nat)
    requires Init(s) && Leads(s, acts, t) && i < |t.procs|
    ensures t.procs[i].got <= t.writes
    ensures |t.writes| <= |t.procs[i].got| + 1
    ensures !t.procs[i].pc.Missed?
    ensures t.procs[i].pc.Reading? ==>
      |t.procs[i].got| < |t.writes| && t.procs[i].pc.taken <= t.writes[|t.procs[i].got|]
  {
    ReachableInv(s, acts, t);
    assert ProcessInv(t, t.procs[i]);
  }

  /**
   The wrapping 32-bit counters refine unbounded ones in runs of any length: the manager's readiness
   test and both tests of a read answer as they would on the true numbers of messages.
   */
  lemma CountersNeverMislead(s: State, acts: seq<Action>, t: State, i: nat)
    requires Init(s) && Leads(s, acts, t) && i < |t.procs|
    ensures t.procs[i].line.readCount == t.control.writeCount <==> |t.procs[i].got| == |t.writes|
    ensures !t.procs[i].pc.Detached? ==>
      && (t.procs[i].control.readCount == t.line.writeCount <==> |t.procs[i].got| == |t.writes|)
      && (t.procs[i].control.readCount == Wrap(t.line.writeCount - 1) <==> |t.procs[i].got| == |t.writes| - 1)
  {
    ReachableInv(s, acts, t);
    assert ProcessInv(t, t.procs[i]);
    WrappedTestsAreExact(t, t.procs[i]);
  }

  /** No call can get stuck inside a copy: payload accesses stay in bounds and every call has a next step. */
  lemma CallsNeverStuck(s: State, acts: seq<Action>, t: State, i: nat)
    requires Init(s) && Leads(s, acts, t) && i < |t.procs|
    ensures t.pc.Checking? ==> Enabled(t, CheckProcess) || Enabled(t, EndCheck)
    ensures t.pc.Copying? ==> Enabled(t, CopyByte) || Enabled(t, PublishWrite)
    ensures t.pc.Scanning? ==> Enabled(t, ScanProcess) || Enabled(t, EndQuery)
    ensures t.procs[i].pc.Reading? ==> Enabled(t, TakeByte(i)) || Enabled(t, PublishRead(i))
  {
    ReachableInv(s, acts, t);
    assert ProcessInv(t, t.procs[i]);
  }

  /**
   However the others move, a query copies from every process a mode which that process had published
   at some point between the start and the end of the scan.  It answers "out of sync" exactly when it
   counted some but not all processes, otherwise the mode if all copied modes agree, otherwise
   "no agreement"; so a mode that is reported was published by every process during the scan.
   */
  lemma QueryReportsPublishedModes(s: State, acts: seq<Action>, t: State)
    requires Init(s) && Leads(s, acts, t) && Enabled(t, EndQuery)
    ensures forall i :: 0 <= i < |t.procs| ==> PublishedDuringScan(t.procs[i], t.procs[i].copy.mode)
    ensures Apply(t, EndQuery).reports == t.reports + [
      if 0 < t.pc.updates < |t.procs| then Report(-1, 0, 0xFFFF_FFFF)
      else if forall i :: 0 <= i < |t.procs| ==> t.procs[i].copy.mode == t.procs[0].copy.mode
      then Report(0, t.procs[0].copy.mode, 0)
      else Report(-1, 0, 0xFFFF_FFFE)]
    ensures var r := Last(Apply(t, EndQuery).reports);
      r.code == 0 ==> forall i :: 0 <= i < |t.procs| ==> PublishedDuringScan(t.procs[i], r.mode)
  {
    ReachableInv(s, acts, t);
    var r := Last(Apply(t, EndQuery).reports);
    if r.code == 0 {
      assert forall i :: 0 <= i < |t.procs| ==> t.procs[i].copy.mode == r.mode;
    }
  }
}
