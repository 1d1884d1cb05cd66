/**
 The calls of src/shm/shm.c as they are written: loops over processes and bytes that update the
 shared lines in place.  The Run functions take a call's steps one after the other; each is a run of
 the step system, and each method is proved to compute it, so the step system cuts exactly these
 bodies into their shared accesses.
 */
module ShmCalls {
  import opened Word32
  import opened ShmProtocol

  // ---------------------------------------------------------------- uninterrupted calls

  function RunCheck(s: State): (t: State)
    requires s.pc.Checking?
    ensures t.payload == s.payload
    ensures t.pc == Idle || t.pc == Copying(0, s.pc.message)
    decreases |s.procs| - s.pc.next
  {
    if s.pc.next < |s.procs| then RunCheck(Apply(s, CheckProcess)) else Apply(s, EndCheck)
  }

  function RunCopy(s: State): (t: State)
    requires s.pc.Copying? && |s.pc.message| <= |s.payload|
    ensures t.pc == Idle
    decreases |s.pc.message| - s.pc.done
  {
    if s.pc.done < |s.pc.message| then RunCopy(Apply(s, CopyByte)) else Apply(s, PublishWrite)
  }

  function RunWrite(s: State, m: seq<byte>): (t: State)
    requires s.pc.Idle? && 0 < |m| < |s.payload|
    ensures t.pc == Idle
  {
    var t := RunCheck(Apply(s, BeginWrite(m)));
    if t.pc.Copying? then RunCopy(t) else t
  }

  function RunTake(s: State, p: nat): State
    requires p < |s.procs| && s.procs[p].pc.Reading? && s.procs[p].view.payloadBytes <= |s.payload|
    decreases s.procs[p].view.payloadBytes - |s.procs[p].pc.taken|
  {
    if |s.procs[p].pc.taken| < s.procs[p].view.payloadBytes then RunTake(Apply(s, TakeByte(p)), p)
    else Apply(s, PublishRead(p))
  }

  function RunRead(s: State, p: nat): State
    requires p < |s.procs| && s.procs[p].pc.Ready? && s.line.payloadBytes <= |s.payload|
  {
    var t := Apply(s, BeginRead(p));
    if t.procs[p].pc.Reading? then RunTake(t, p) else t
  }

  function RunScan(s: State): (t: State)
    requires s.pc.Scanning? && s.procs != []
    ensures t.pc == Idle
    decreases |s.procs| - s.pc.next
  {
    if s.pc.next < |s.procs| then RunScan(Apply(s, ScanProcess)) else Apply(s, EndQuery)
  }

  function RunQuery(s: State): (t: State)
    requires s.pc.Idle? && s.procs != []
    ensures t.pc == Idle
  {
    RunScan(Apply(s, BeginQuery))
  }

  lemma {:induction false} CheckIsRun(s: State)
    requires s.pc.Checking?
    ensures Reaches(s, RunCheck(s))
    decreases |s.procs| - s.pc.next
  {
    if s.pc.next < |s.procs| {
      CheckIsRun(Apply(s, CheckProcess));
      StepThenReaches(s, CheckProcess, RunCheck(s));
    } else {
      StepReaches(s, EndCheck);
    }
  }

  lemma {:induction false} CopyIsRun(s: State)
    requires s.pc.Copying? && |s.pc.message| <= |s.payload|
    ensures Reaches(s, RunCopy(s))
    decreases |s.pc.message| - s.pc.done
  {
    if s.pc.done < |s.pc.message| {
      CopyIsRun(Apply(s, CopyByte));
      StepThenReaches(s, CopyByte, RunCopy(s));
    } else {
      StepReaches(s, PublishWrite);
    }
  }

  /** A write call that nobody interrupts is one run of the step system. */
  lemma WriteIsRun(s: State, m: seq<byte>)
    requires s.pc.Idle? && 0 < |m| < |s.payload|
    ensures Reaches(s, RunWrite(s, m))
  {
    var b := Apply(s, BeginWrite(m));
    var t := RunCheck(b);
    CheckIsRun(b);
    if t.pc.Copying? {
      CopyIsRun(t);
      ReachesTransitive(b, t, RunCopy(t));
    }
    StepThenReaches(s, BeginWrite(m), RunWrite(s, m));
  }

  lemma {:induction false} TakeIsRun(s: State, p: nat)
    requires p < |s.procs| && s.procs[p].pc.Reading? && s.procs[p].view.payloadBytes <= |s.payload|
    ensures Reaches(s, RunTake(s, p))
    decreases s.procs[p].view.payloadBytes - |s.procs[p].pc.taken|
  {
    if |s.procs[p].pc.taken| < s.procs[p].view.payloadBytes {
      TakeIsRun(Apply(s, TakeByte(p)), p);
      StepThenReaches(s, TakeByte(p), RunTake(s, p));
    } else {
      StepReaches(s, PublishRead(p));
    }
  }

  /** A read call that nobody interrupts is one run of the step system. */
  lemma ReadIsRun(s: State, p: nat)
    requires p < |s.procs| && s.procs[p].pc.Ready? && s.line.payloadBytes <= |s.payload|
    ensures Reaches(s, RunRead(s, p))
  {
    var t := Apply(s, BeginRead(p));
    if t.procs[p].pc.Reading? {
      TakeIsRun(t, p);
      StepThenReaches(s, BeginRead(p), RunRead(s, p));
    } else {
      StepReaches(s, BeginRead(p));
    }
  }

  lemma {:induction false} ScanIsRun(s: State)
    requires s.pc.Scanning? && s.procs != []
    ensures Reaches(s, RunScan(s))
    decreases |s.procs| - s.pc.next
  {
    if s.pc.next < |s.procs| {
      ScanIsRun(Apply(s, ScanProcess));
      StepThenReaches(s, ScanProcess, RunScan(s));
    } else {
      StepReaches(s, EndQuery);
    }
  }

  /** A mode query that nobody interrupts is one run of the step system. */
  lemma QueryIsRun(s: State)
    requires s.pc.Idle? && s.procs != []
    ensures Reaches(s, RunQuery(s))
  {
    ScanIsRun(Apply(s, BeginQuery));
    StepThenReaches(s, BeginQuery, RunQuery(s));
  }

  // ---------------------------------------------------------------- progress

  lemma {:induction false} TakeDeliversOne(s: State, p: nat)
    requires Inv(s) && p < |s.procs| && s.procs[p].pc.Reading? && s.procs[p].view.payloadBytes <= |s.payload|
    ensures Inv(RunTake(s, p)) && RunTake(s, p).writes == s.writes && |RunTake(s, p).procs| == |s.procs|
    ensures |RunTake(s, p).procs[p].got| == |s.procs[p].got| + 1
    decreases s.procs[p].view.payloadBytes - |s.procs[p].pc.taken|
  {
    if |s.procs[p].pc.taken| < s.procs[p].view.payloadBytes {
      StepKeepsInv(s, TakeByte(p));
      TakeDeliversOne(Apply(s, TakeByte(p)), p);
    } else {
      StepKeepsInv(s, PublishRead(p));
    }
  }

  /**
   Readers never wait: from every reachable state, whatever the others are in the middle of, one read
   call of an attached process on its own leaves it with every message written so far.
   */
  lemma ReaderCatchesUp(s: State, acts: seq<Action>, t: State, p: nat)
    requires Init(s) && Leads(s, acts, t) && p < |t.procs| && t.procs[p].pc.Ready?
    ensures t.line.payloadBytes <= |t.payload|
    ensures p < |RunRead(t, p).procs| && RunRead(t, p).procs[p].got == t.writes
  {
    ReachableInv(s, acts, t);
    assert ProcessInv(t, t.procs[p]);
    WrappedTestsAreExact(t, t.procs[p]);
    var u := Apply(t, BeginRead(p));
    StepKeepsInv(t, BeginRead(p));
    if u.procs[p].pc.Reading? {
      TakeDeliversOne(u, p);
      assert ProcessInv(RunTake(u, p), RunTake(u, p).procs[p]);
    }
  }

  lemma {:induction false} CheckOutcome(s: State)
    requires Inv(s) && s.pc.Checking?
    ensures RunCheck(s).writes == s.writes
    ensures RunCheck(s).pc.Copying? <==>
      s.pc.ready == s.pc.next && forall j :: s.pc.next <= j < |s.procs| ==> InSync(s, s.procs[j])
    decreases |s.procs| - s.pc.next
  {
    if s.pc.next < |s.procs| {
      var t := Apply(s, CheckProcess);
      assert ProcessInv(s, s.procs[s.pc.next]);
      WrappedTestsAreExact(s, s.procs[s.pc.next]);
      StepKeepsInv(s, CheckProcess);
      CheckOutcome(t);
      assert forall j :: t.pc.next <= j < |s.procs| ==> t.procs[j] == s.procs[j];
    }
  }

  lemma {:induction false} CopyPublishes(s: State)
    requires s.pc.Copying? && |s.pc.message| <= |s.payload|
    ensures RunCopy(s).writes == s.writes + [s.pc.message]
    decreases |s.pc.message| - s.pc.done
  {
    if s.pc.done < |s.pc.message| {
      CopyPublishes(Apply(s, CopyByte));
    }
  }

  /** An uninterrupted write call publishes its message exactly when every process has read all earlier ones. */
  lemma WriterProceedsIffAllCaughtUp(s: State, acts: seq<Action>, t: State, m: seq<byte>)
    requires Init(s) && Leads(s, acts, t) && t.pc.Idle? && 0 < |m| < |t.payload|
    ensures RunWrite(t, m).writes ==
      if forall i :: 0 <= i < |t.procs| ==> t.procs[i].got == t.writes then t.writes + [m] else t.writes
  {
    ReachableInv(s, acts, t);
    var b := Apply(t, BeginWrite(m));
    StepKeepsInv(t, BeginWrite(m));
    CheckOutcome(b);
    if RunCheck(b).pc.Copying? {
      CopyPublishes(RunCheck(b));
    }
    assert forall i :: 0 <= i < |t.procs| ==> ProcessInv(t, t.procs[i]);
    assert forall i :: 0 <= i < |t.procs| ==> (InSync(t, t.procs[i]) <==> t.procs[i].got == t.writes);
  }

  // ---------------------------------------------------------------- what a query reports

  predicate Fires(s: State, i: nat)
    requires i < |s.procs|
  {
    CountsAsUpdate(s.procs[i].line, s.control.readCount)
  }

  predicate FiresForAll(s: State, from: nat) {
    forall j :: from <= j < |s.procs| ==> Fires(s, j)
  }

  predicate FiresForNone(s: State, from: nat) {
    forall j :: from <= j < |s.procs| ==> !Fires(s, j)
  }

  lemma ScanStepFires(s: State)
    requires s.pc.Scanning? && s.pc.next < |s.procs|
    ensures var t := Apply(s, ScanProcess);
      && t.pc.updates == s.pc.updates + (if Fires(s, s.pc.next) then 1 else 0)
      && (FiresForAll(s, s.pc.next) <==> Fires(s, s.pc.next) && FiresForAll(t, t.pc.next))
      && (FiresForNone(s, s.pc.next) <==> !Fires(s, s.pc.next) && FiresForNone(t, t.pc.next))
  {
    var t := Apply(s, ScanProcess);
    assert forall j :: 0 <= j < |s.procs| ==> (Fires(t, j) <==> Fires(s, j));
  }

  /** The lines copied so far have not changed since. */
  predicate CopiesFresh(s: State)
    requires s.pc.Scanning?
  {
    forall j :: 0 <= j < s.pc.next && j < |s.procs| ==> s.procs[j].copy == s.procs[j].line
  }

  /** All processes have published the same mode. */
  predicate LinesAgree(procs: seq<Process>) {
    forall i, j :: 0 <= i < j < |procs| ==> procs[i].line.mode == procs[j].line.mode
  }

  lemma ConclusionFromLines(s: State)
    requires s.pc.Scanning? && s.procs != [] && s.pc.next >= |s.procs| && CopiesFresh(s)
    ensures Apply(s, EndQuery).reports == s.reports + [
      if 0 < s.pc.updates && s.pc.updates != |s.procs| then Report(-1, 0, 0xFFFF_FFFF)
      else if LinesAgree(s.procs) then Report(0, s.procs[0].line.mode, 0)
      else Report(-1, 0, 0xFFFF_FFFE)]
  {
    assert forall j :: 0 <= j < |s.procs| ==> s.procs[j].copy.mode == s.procs[j].line.mode;
  }

  lemma ScanStepLines(s: State)
    requires s.pc.Scanning? && s.pc.next < |s.procs| && CopiesFresh(s)
    ensures var t := Apply(s, ScanProcess);
      && CopiesFresh(t) && (LinesAgree(t.procs) <==> LinesAgree(s.procs))
      && t.procs[0].line.mode == s.procs[0].line.mode
  {
    var t := Apply(s, ScanProcess);
    assert forall j :: 0 <= j < |s.procs| ==> t.procs[j].line == s.procs[j].line;
  }

  lemma {:induction false} ScanOutcome(s: State)
    requires s.pc.Scanning? && s.procs != [] && s.pc.updates <= s.pc.next <= |s.procs| && CopiesFresh(s)
    ensures var all := s.pc.updates == s.pc.next && FiresForAll(s, s.pc.next);
      var none := s.pc.updates == 0 && FiresForNone(s, s.pc.next);
      && RunScan(s).acks == s.acks + (if all then 1 else 0)
      && RunScan(s).reports == s.reports + [
           if !all && !none then Report(-1, 0, 0xFFFF_FFFF)
           else if LinesAgree(s.procs) then Report(0, s.procs[0].line.mode, 0)
           else Report(-1, 0, 0xFFFF_FFFE)]
    decreases |s.procs| - s.pc.next
  {
    if s.pc.next < |s.procs| {
      ScanStepFires(s);
      ScanStepLines(s);
      ScanOutcome(Apply(s, ScanProcess));
    } else {
      ConclusionFromLines(s);
    }
  }

  lemma QueryStartFires(t: State)
    requires t.pc.Idle? && t.procs != []
    ensures var b := Apply(t, BeginQuery);
      && (FiresForAll(b, 0) <==> FiresForAll(t, 0)) && (FiresForNone(b, 0) <==> FiresForNone(t, 0))
      && (LinesAgree(b.procs) <==> LinesAgree(t.procs)) && b.procs[0].line.mode == t.procs[0].line.mode
  {
    var b := Apply(t, BeginQuery);
    assert forall j :: 0 <= j < |t.procs| ==> b.procs[j].line == t.procs[j].line;
    assert forall j :: 0 <= j < |t.procs| ==> (Fires(b, j) <==> Fires(t, j));
  }

  /** Every line shows the count that the metadata test looks for, and no payload. */
  predicate AllLinesFire(procs: seq<Process>, readCount: u32) {
    forall i :: 0 <= i < |procs| ==>
      procs[i].line.writeCount == Wrap(readCount - 1) && procs[i].line.payloadBytes == 0
  }

  predicate NoLineFires(procs: seq<Process>, readCount: u32) {
    forall i :: 0 <= i < |procs| ==>
      !(procs[i].line.writeCount == Wrap(readCount - 1) && procs[i].line.payloadBytes == 0)
  }

  lemma FiresByLines(t: State)
    ensures FiresForAll(t, 0) <==> AllLinesFire(t.procs, t.control.readCount)
    ensures FiresForNone(t, 0) <==> NoLineFires(t.procs, t.control.readCount)
  {
    assert forall i :: 0 <= i < |t.procs| ==> (Fires(t, i) <==>
      t.procs[i].line.writeCount == Wrap(t.control.readCount - 1) && t.procs[i].line.payloadBytes == 0);
  }

  lemma SameLines(before: seq<Process>, after: seq<Process>, readCount: u32)
    requires |before| == |after| && forall i :: 0 <= i < |before| ==> after[i].line == before[i].line
    ensures AllLinesFire(before, readCount) <==> AllLinesFire(after, readCount)
    ensures NoLineFires(before, readCount) <==> NoLineFires(after, readCount)
    ensures LinesAgree(before) <==> LinesAgree(after)
  {
  }

  lemma LastReport(reports: seq<Report>, r: Report)
    ensures Last(reports + [r]) == r
  {
  }

  /**
   What one uninterrupted query does, by the published lines: an update is acknowledged if all lines
   show the count that the metadata test looks for, and no payload; if only some do the answer is "out
   of sync"; otherwise it is the common mode, or "no agreement".
   */
  lemma QueryByLines(t: State)
    requires t.pc.Idle? && t.procs != []
    ensures var all, none := AllLinesFire(t.procs, t.control.readCount), NoLineFires(t.procs, t.control.readCount);
      && RunQuery(t).acks == t.acks + (if all then 1 else 0)
      && RunQuery(t).reports == t.reports + [
           if !all && !none then Report(-1, 0, 0xFFFF_FFFF)
           else if LinesAgree(t.procs) then Report(0, t.procs[0].line.mode, 0)
           else Report(-1, 0, 0xFFFF_FFFE)]
  {
    QueryStartFires(t);
    ScanOutcome(Apply(t, BeginQuery));
    FiresByLines(t);
  }

  // ---------------------------------------------------------------- the calls in place

  datatype Buffer = Null | Bytes(data: seq<byte>)

  class Segment {
    var line: ManagerLine
    const payload: array<byte>
    var control: ManagerLine
    var procs: seq<Process>
    ghost var writes: seq<seq<byte>>
    ghost var acks: nat
    ghost var reports: seq<Report>

    ghost function View(pc: ManagerPc): State
      reads this, payload
    {
      State(line, payload[..], control, pc, procs, writes, acks, reports)
    }

    /** What dynpm_shm_manager_init leaves; failures of the mapping calls are not modelled. */
    constructor (pages: nat, processCount: nat)
      requires pages > 0
      ensures Init(View(Idle)) && |procs| == processCount && payload.Length == pages * 4096 - 64
      ensures fresh(payload)
    {
      line, control := ZERO_MANAGER, ZERO_MANAGER;
      payload := new byte[pages * 4096 - 64];
      procs := seq(processCount, _ =>
        Process(ZERO_LINE, ZERO_LINE, ZERO_LINE, ZERO_MANAGER, Detached, [], [0], 0));
      writes, acks, reports := [], 0, [];
    }

    method AllProcessesReadReady(ghost m: seq<byte>) returns (ready: bool)
      modifies this`procs
      ensures |procs| == |old(procs)|
      ensures ready <==> forall i :: 0 <= i < |old(procs)| ==> old(procs)[i].line.readCount == control.writeCount
      ensures View(if ready then Copying(0, m) else Idle) == RunCheck(old(View(Checking(0, 0, m))))
    {
      var n, i := 0, 0;
      while i < |procs|
        invariant n <= i <= |procs| == |old(procs)|
        invariant forall j :: 0 <= j < |procs| ==> procs[j].line == old(procs)[j].line
        invariant n == i <==> forall j :: 0 <= j < i ==> old(procs)[j].line.readCount == control.writeCount
        invariant RunCheck(View(Checking(i, n, m))) == RunCheck(old(View(Checking(0, 0, m))))
      {
        ghost var t := View(Checking(i, n, m));
        procs := procs[i := procs[i].(copy := procs[i].line)];
        if procs[i].copy.readCount == control.writeCount {
          n := n + 1;
        }
        i := i + 1;
        assert View(Checking(i, n, m)) == Apply(t, CheckProcess);
      }
      ready := n == |procs|;
    }

    method CopyPayload(data: seq<byte>, bytes: nat)
      requires bytes <= |data| && bytes < payload.Length
      modifies payload
      ensures payload[..bytes] == data[..bytes] && payload[bytes..] == old(payload[bytes..])
      ensures RunCopy(View(Copying(bytes, data[..bytes]))) == RunCopy(old(View(Copying(0, data[..bytes]))))
    {
      var k := 0;
      while k < bytes
        invariant 0 <= k <= bytes
        invariant payload[..k] == data[..k] && payload[k..] == old(payload[k..])
        invariant RunCopy(View(Copying(k, data[..bytes]))) == RunCopy(old(View(Copying(0, data[..bytes]))))
      {
        ghost var t := View(Copying(k, data[..bytes]));
        payload[k] := data[k];
        k := k + 1;
        assert View(Copying(k, data[..bytes])) == Apply(t, CopyByte);
      }
    }

    /** dynpm_shm_manager_write: its four outcomes and, on success, the published message. */
    method ManagerWrite(message: Buffer, bytes: int) returns (code: int)
      requires message.Bytes? ==> bytes <= |message.data|
      modifies this, payload
      ensures code == -1 <==> message.Null?
      ensures code == -3 <==> message.Bytes? && !(0 < bytes < payload.Length)
      ensures code == 0 <==>
        && message.Bytes? && 0 < bytes < payload.Length
        && forall i :: 0 <= i < |old(procs)| ==> old(procs)[i].line.readCount == old(control).writeCount
      ensures code in {0, -1, -2, -3}
      ensures code == 0 ==> payload[..bytes] == message.data[..bytes] && writes == old(writes) + [message.data[..bytes]]
      ensures code == 0 || code == -2 ==> View(Idle) == RunWrite(old(View(Idle)), message.data[..bytes])
      ensures code == -1 || code == -3 ==> View(Idle) == old(View(Idle))
    {
      if message.Null? {
        return -1;
      }
      if 0 < bytes && bytes < payload.Length {
        ghost var m := message.data[..bytes];
        var ready := AllProcessesReadReady(m);
        if !ready {
          return -2;
        }
        CopyPayload(message.data, bytes);
        control := control.(payloadBytes := bytes, writeCount := Wrap(control.writeCount + 1));
        line := control;
        writes := writes + [m];
        code := 0;
      } else {
        code := -3;
      }
    }

    method CopyOut(ghost pc: ManagerPc, p: nat) returns (data: seq<byte>)
      requires p < |procs| && procs[p].pc == Reading([]) && procs[p].view.payloadBytes <= payload.Length
      modifies this`procs
      ensures data == payload[..old(procs)[p].view.payloadBytes]
      ensures procs == old(procs)[p := old(procs)[p].(pc := Reading(data))]
      ensures RunTake(View(pc), p) == RunTake(old(View(pc)), p)
    {
      data := [];
      while |data| < procs[p].view.payloadBytes
        invariant |data| <= old(procs)[p].view.payloadBytes && data == payload[..|data|]
        invariant procs == old(procs)[p := old(procs)[p].(pc := Reading(data))]
        invariant RunTake(View(pc), p) == RunTake(old(View(pc)), p)
      {
        ghost var t := View(pc);
        data := data + [payload[|data|]];
        procs := procs[p := procs[p].(pc := Reading(data))];
        assert View(pc) == Apply(t, TakeByte(p));
      }
    }

    /** dynpm_shm_process_read: nothing new, the next message, or the "missed message" error. */
    method ProcessRead(ghost pc: ManagerPc, p: nat) returns (code: int, data: seq<byte>)
      requires p < |procs| && procs[p].pc.Ready? && line.payloadBytes <= payload.Length
      modifies this`procs
      ensures View(pc) == RunRead(old(View(pc)), p)
      ensures var r := old(procs)[p].control.readCount;
        if r == line.writeCount then code == 0 && data == []
        else if r == Wrap(line.writeCount - 1) then code == 0 && data == payload[..line.payloadBytes]
        else code == -1 && data == []
    {
      data, code := [], 0;
      procs := procs[p := Snapshot(procs[p], line)];
      if procs[p].pc.Reading? {
        data := FinishRead(pc, p);
      } else if procs[p].pc.Missed? {
        code := -1;
      }
    }

    method FinishRead(ghost pc: ManagerPc, p: nat) returns (data: seq<byte>)
      requires p < |procs| && procs[p].pc == Reading([]) && procs[p].view.payloadBytes <= payload.Length
      modifies this`procs
      ensures data == payload[..old(procs)[p].view.payloadBytes]
      ensures View(pc) == RunTake(old(View(pc)), p)
    {
      data := CopyOut(pc, p);
      var q := procs[p];
      var c := q.control.(readCount := Wrap(q.control.readCount + 1));
      procs := procs[p := q.(control := c, line := c, pc := Ready, got := q.got + [q.pc.taken])];
    }

    /** dynpm_shm_process_set_malleability_mode. */
    method SetMalleabilityMode(ghost pc: ManagerPc, p: nat, mode: u32)
      requires p < |procs| && procs[p].pc.Ready?
      modifies this`procs
      ensures View(pc) == Apply(old(View(pc)), SetMode(p, mode))
      ensures procs[p].line == procs[p].control && procs[p].line.mode == mode
      ensures procs[p].line.readCount == old(procs)[p].control.readCount
    {
      var q := procs[p];
      var c := q.control.(mode := mode, writeCount := Wrap(q.control.writeCount + 1), payloadBytes := 0);
      procs := procs[p := q.(control := c, line := c, modes := q.modes + [mode])];
    }

    method SyncProcessesMeta() returns (updates: nat)
      requires procs != []
      modifies this`procs
      ensures |procs| == |old(procs)|
      ensures forall i :: 0 <= i < |procs| ==> procs[i].line == procs[i].copy == old(procs)[i].line
      ensures RunScan(View(Scanning(|procs|, updates))) == RunScan(old(View(Scanning(0, 0))))
    {
      updates := 0;
      var i := 0;
      while i < |procs|
        invariant i <= |procs| == |old(procs)|
        invariant forall j :: 0 <= j < |procs| ==> procs[j].line == old(procs)[j].line
        invariant forall j :: 0 <= j < i ==> procs[j].copy == old(procs)[j].line
        invariant RunScan(View(Scanning(i, updates))) == RunScan(old(View(Scanning(0, 0))))
      {
        ghost var t := View(Scanning(i, updates));
        procs := procs[i := procs[i].(copy := procs[i].line)];
        if CountsAsUpdate(procs[i].copy, control.readCount) {
          updates := updates + 1;
        }
        i := i + 1;
        assert View(Scanning(i, updates)) == Apply(t, ScanProcess);
      }
    }

    /** The comparison loop of dynpm_shm_manager_get_malleability_mode. */
    method FirstModeIfAgreed() returns (agreed: bool, first: u32)
      requires procs != []
      ensures agreed <==> forall i :: 0 <= i < |procs| ==> procs[i].copy.mode == procs[0].copy.mode
      ensures first == procs[0].copy.mode
    {
      first := procs[0].copy.mode;
      var i := 1;
      while i < |procs| && procs[i].copy.mode == first
        invariant 1 <= i <= |procs|
        invariant forall j :: 0 <= j < i ==> procs[j].copy.mode == first
      {
        i := i + 1;
      }
      agreed := i == |procs|;
    }

    /** What dynpm_shm_manager_get_malleability_mode does once the lines are copied. */
    method ConcludeQuery(updates: nat) returns (code: int, mode: u32, status: u32)
      requires procs != []
      modifies this`control, this`line, this`acks, this`reports
      ensures View(Idle) == Apply(old(View(Scanning(|procs|, updates))), EndQuery)
      ensures reports == old(reports) + [Report(code, mode, status)]
      ensures Report(code, mode, status) ==
        if 0 < updates && updates != |procs| then Report(-1, 0, 0xFFFF_FFFF)
        else if forall i :: 0 <= i < |procs| ==> procs[i].copy.mode == procs[0].copy.mode
        then Report(0, procs[0].copy.mode, 0)
        else Report(-1, 0, 0xFFFF_FFFE)
    {
      if updates == |procs| || updates == 0 {
        if updates > 0 {
          control := control.(readCount := Wrap(control.readCount + 1));
          line := control;
          acks := acks + 1;
        }
        var agreed, first := FirstModeIfAgreed();
        if agreed {
          code, mode, status := 0, first, 0;
        } else {
          code, mode, status := -1, 0, Wrap(-2);
        }
      } else {
        code, mode, status := -1, 0, Wrap(-1);
      }
      reports := reports + [Report(code, mode, status)];
    }

    /** dynpm_shm_manager_get_malleability_mode; the return code and both out-parameters are the report. */
    method GetMalleabilityMode() returns (code: int, mode: u32, status: u32)
      requires procs != []
      modifies this
      ensures View(Idle) == RunQuery(old(View(Idle)))
      ensures reports == old(reports) + [Report(code, mode, status)]
      ensures |procs| == |old(procs)| && forall i :: 0 <= i < |procs| ==> procs[i].line == old(procs)[i].line
      ensures
        var all, none := AllLinesFire(procs, old(control).readCount), NoLineFires(procs, old(control).readCount);
        Report(code, mode, status) ==
        if !all && !none then Report(-1, 0, 0xFFFF_FFFF)
        else if LinesAgree(procs) then Report(0, procs[0].line.mode, 0)
        else Report(-1, 0, 0xFFFF_FFFE)
    {
      QueryByLines(View(Idle));
      procs := MarkScanStart(procs);
      var updates := SyncProcessesMeta();
      code, mode, status := ConcludeQuery(updates);
      SameLines(old(procs), procs, old(control).readCount);
      LastReport(old(reports), Report(code, mode, status));
    }

  }
}
