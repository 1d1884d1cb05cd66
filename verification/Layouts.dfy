/**
 The layout of every text message, field by field and byte by byte: which field stands where, what
 separates two fields (32 is a blank) and how the text ends (10 is a line feed).  Programs that print
 or scan these texts in C depend on exactly this.
 */
module Layouts {
  import opened Options
  import opened Word32
  import opened TextFormat
  import opened Messages
  import opened Registration
  import opened PayloadMessages

  /** A field printed by %d. */
  function D(bits: u32): seq<byte> {
    PrintValue(Num(bits))
  }

  // ---------------------------------------------------------------- printing from left to right

  function Front(vals: seq<Value>, k: nat): seq<byte>
    requires 1 <= k <= |vals|
  {
    if k == 1 then PrintValue(vals[0]) else Front(vals, k - 1) + [32] + PrintValue(vals[k - 1])
  }

  lemma {:induction false} PrintsFront(vals: seq<Value>, tail: seq<byte>, k: nat)
    requires 1 <= k < |vals|
    ensures Sprintf(vals, tail) == Front(vals, k) + [32] + Sprintf(vals[k..], tail)
  {
    if k > 1 {
      PrintsFront(vals, tail, k - 1);
      SprintfNext(vals[k - 1..], tail);
      assert vals[k - 1..][1..] == vals[k..];
      Regroup(Front(vals, k - 1) + [32], PrintValue(vals[k - 1]), [32], Sprintf(vals[k..], tail));
    }
  }

  lemma {:induction false} SprintfNext(vals: seq<Value>, tail: seq<byte>)
    requires |vals| > 1
    ensures Sprintf(vals, tail) == PrintValue(vals[0]) + [32] + Sprintf(vals[1..], tail)
  {
  }

  lemma {:induction false} Regroup(a: seq<byte>, b: seq<byte>, c: seq<byte>, d: seq<byte>)
    ensures a + (b + c + d) == (a + b) + c + d
  {
  }

  lemma {:induction false} PrintsAll(vals: seq<Value>, tail: seq<byte>)
    requires vals != []
    ensures Sprintf(vals, tail) == Front(vals, |vals|) + tail
  {
    var n := |vals| - 1;
    if n > 0 {
      PrintsFront(vals, tail, n);
      assert Sprintf(vals[n..], tail) == PrintValue(vals[n]) + tail;
      assert Front(vals, n) + [32] + (PrintValue(vals[n]) + tail) == Front(vals, n) + [32] + PrintValue(vals[n]) + tail;
    }
  }

  lemma {:induction false} Front2(v: seq<Value>)
    requires |v| >= 2
    ensures Front(v, 2) ==
      PrintValue(v[0]) + [32] + PrintValue(v[1])
  {
    assert Front(v, 1) == PrintValue(v[0]);
  }

  lemma {:induction false} Front3(v: seq<Value>)
    requires |v| >= 3
    ensures Front(v, 3) ==
      PrintValue(v[0]) + [32] + PrintValue(v[1]) + [32] + PrintValue(v[2])
  {
    Front2(v);
  }

  lemma {:induction false} Front4(v: seq<Value>)
    requires |v| >= 4
    ensures Front(v, 4) ==
      PrintValue(v[0]) + [32] + PrintValue(v[1]) + [32] + PrintValue(v[2]) + [32] + PrintValue(v[3])
  {
    Front3(v);
  }

  lemma {:induction false} Front5(v: seq<Value>)
    requires |v| >= 5
    ensures Front(v, 5) ==
      PrintValue(v[0]) + [32] + PrintValue(v[1]) + [32] + PrintValue(v[2]) + [32] + PrintValue(v[3]) +
      [32] + PrintValue(v[4])
  {
    Front4(v);
  }

  lemma {:induction false} Front6(v: seq<Value>)
    requires |v| >= 6
    ensures Front(v, 6) ==
      PrintValue(v[0]) + [32] + PrintValue(v[1]) + [32] + PrintValue(v[2]) + [32] + PrintValue(v[3]) +
      [32] + PrintValue(v[4]) + [32] + PrintValue(v[5])
  {
    Front5(v);
  }

  lemma {:induction false} Front7(v: seq<Value>)
    requires |v| >= 7
    ensures Front(v, 7) ==
      PrintValue(v[0]) + [32] + PrintValue(v[1]) + [32] + PrintValue(v[2]) + [32] + PrintValue(v[3]) +
      [32] + PrintValue(v[4]) + [32] + PrintValue(v[5]) + [32] + PrintValue(v[6])
  {
    Front6(v);
  }

  lemma {:induction false} Front8(v: seq<Value>)
    requires |v| >= 8
    ensures Front(v, 8) ==
      PrintValue(v[0]) + [32] + PrintValue(v[1]) + [32] + PrintValue(v[2]) + [32] + PrintValue(v[3]) +
      [32] + PrintValue(v[4]) + [32] + PrintValue(v[5]) + [32] + PrintValue(v[6]) + [32] +
      PrintValue(v[7])
  {
    Front7(v);
  }

  lemma {:induction false} Front11(v: seq<Value>)
    requires |v| >= 11
    ensures Front(v, 11) ==
      PrintValue(v[0]) + [32] + PrintValue(v[1]) + [32] + PrintValue(v[2]) + [32] + PrintValue(v[3]) +
      [32] + PrintValue(v[4]) + [32] + PrintValue(v[5]) + [32] + PrintValue(v[6]) + [32] +
      PrintValue(v[7]) + [32] + PrintValue(v[8]) + [32] + PrintValue(v[9]) + [32] + PrintValue(v[10])
  {
    Front8(v);
    assert Front(v, 9) == Front(v, 8) + [32] + PrintValue(v[8]);
    assert Front(v, 10) == Front(v, 9) + [32] + PrintValue(v[9]);
  }

  // ---------------------------------------------------------------- the fixed-field messages

  lemma {:induction false} HeaderOnlyText(h: Header)
    ensures Serialize(h, HeaderOnly) ==
      D(h.sourceType) + [32] + D(h.messageType)
  {
    var v := ValuesOf(h, HeaderOnly);
    PrintsAll(v, TailOf(KindOf(HeaderOnly)));
    Front2(v);
  }

  lemma {:induction false} RegisterConnectionText(h: Header, pid: u32, host: seq<byte>)
    ensures Serialize(h, RegisterConnection(pid, host)) ==
      D(h.sourceType) + [32] + D(h.messageType) + [32] + D(pid) + [32] + host
  {
    var v := ValuesOf(h, RegisterConnection(pid, host));
    PrintsAll(v, TailOf(KindOf(RegisterConnection(pid, host))));
    Front4(v);
  }

  lemma {:induction false} DeregisterConnectionText(h: Header, pid: u32, host: seq<byte>, code: i32)
    ensures Serialize(h, DeregisterConnection(pid, host, code)) ==
      D(h.sourceType) + [32] + D(h.messageType) + [32] + D(pid) + [32] + host + [32] + D(Wrap(code))
  {
    var v := ValuesOf(h, DeregisterConnection(pid, host, code));
    PrintsAll(v, TailOf(KindOf(DeregisterConnection(pid, host, code))));
    Front5(v);
  }

  lemma {:induction false} CreateTbonText(h: Header, id: u32, degree: u32, total: u32, nodes: seq<byte>)
    ensures Serialize(h, CreateTbon(id, degree, total, nodes)) ==
      D(h.sourceType) + [32] + D(h.messageType) + [32] + D(id) + [32] + D(degree) + [32] + D(total) +
      [32] + nodes
  {
    var v := ValuesOf(h, CreateTbon(id, degree, total, nodes));
    PrintsAll(v, TailOf(KindOf(CreateTbon(id, degree, total, nodes))));
    Front6(v);
  }

  lemma {:induction false} ReadyText(h: Header, id: u32, count: u32, code: u32)
    ensures Serialize(h, Ready(id, count, code)) ==
      D(h.sourceType) + [32] + D(h.messageType) + [32] + D(id) + [32] + D(count) + [32] + D(code)
  {
    var v := ValuesOf(h, Ready(id, count, code));
    PrintsAll(v, TailOf(KindOf(Ready(id, count, code))));
    Front5(v);
  }

  lemma {:induction false} DeregisterProcessManagerText(h: Header, pid: u32, host: seq<byte>, code: i32)
    ensures Serialize(h, DeregisterProcessManager(pid, host, code)) ==
      D(h.sourceType) + [32] + D(h.messageType) + [32] + D(pid) + [32] + host + [32] + D(Wrap(code)) +
      [32, 10]
  {
    var v := ValuesOf(h, DeregisterProcessManager(pid, host, code));
    PrintsAll(v, TailOf(KindOf(DeregisterProcessManager(pid, host, code))));
    Front5(v);
  }

  lemma {:induction false} AllocationRequestText(h: Header, app: u32, partition: u32, operation: u32, count: u32)
    ensures Serialize(h, AllocationRequest(app, partition, operation, count)) ==
      D(h.sourceType) + [32] + D(h.messageType) + [32] + D(app) + [32] + D(partition) + [32] +
      D(operation) + [32] + D(count) + [32, 10]
  {
    var v := ValuesOf(h, AllocationRequest(app, partition, operation, count));
    PrintsAll(v, TailOf(KindOf(AllocationRequest(app, partition, operation, count))));
    Front6(v);
  }

  lemma {:induction false} ReallocationCompleteText(h: Header, app: u32, partition: u32, operation: u32,
                                                       count: u32, nodes: seq<byte>, status: u32)
    ensures Serialize(h, ReallocationComplete(app, partition, operation, count, nodes, status)) ==
      D(h.sourceType) + [32] + D(h.messageType) + [32] + D(app) + [32] + D(partition) + [32] +
      D(operation) + [32] + D(count) + [32] + nodes + [32] + D(status) + [10]
  {
    var v := ValuesOf(h, ReallocationComplete(app, partition, operation, count, nodes, status));
    PrintsAll(v, TailOf(KindOf(ReallocationComplete(app, partition, operation, count, nodes, status))));
    Front8(v);
  }

  lemma {:induction false} ReallocationStartText(h: Header, app: u32, partition: u32, operation: u32,
                                                    cn: u32, current: seq<byte>, dn: u32, delta: seq<byte>,
                                                    un: u32, updated: seq<byte>)
    ensures Serialize(h, ReallocationStart(app, partition, operation, cn, current, dn, delta, un, updated)) ==
      D(h.sourceType) + [32] + D(h.messageType) + [32] + D(app) + [32] + D(partition) + [32] +
      D(operation) + [32] + D(cn) + [32] + current + [32] + D(dn) + [32] + delta + [32] + D(un) + [32] +
      updated + [10]
  {
    var v := ValuesOf(h, ReallocationStart(app, partition, operation, cn, current, dn, delta, un, updated));
    PrintsAll(v, TailOf(KindOf(ReallocationStart(app, partition, operation, cn, current, dn, delta, un, updated))));
    Front11(v);
  }

  /** The string, with its terminator, fits the block and holds none of zero, space and the five control blanks. */
  predicate Storable(s: seq<byte>, block: nat) {
    0 < |s| < block && forall i :: 0 <= i < |s| ==> s[i] != 0 && s[i] != 32 && !(9 <= s[i] <= 13)
  }

  /** What the receivers of the messages with strings can store. */
  lemma {:induction false} ReceiverBlocks(h: Header, m: Message)
    requires ZeroFreeValues(ValuesOf(h, m))
    ensures var returned := Deserialize(KindOf(m), Serialize(h, m)) == Some((h, m));
      && (m.RegisterConnection? ==> (returned <==> Storable(m.hostname, 256)))
      && (m.DeregisterConnection? ==> (returned <==> Storable(m.hostname, 256)))
      && (m.DeregisterProcessManager? ==> (returned <==> Storable(m.hostname, 256)))
      && (m.CreateTbon? ==> (returned <==> Storable(m.nodes, 256)))
      && (m.ReallocationComplete? ==> (returned <==> Storable(m.nodes, 256)))
      && (m.ReallocationStart? ==> (returned <==>
            Storable(m.currentNodes, 1024) && Storable(m.deltaNodes, 1024) && Storable(m.updatedNodes, 1024)))
      && (m.HeaderOnly? || m.Ready? || m.AllocationRequest? ==> returned)
  {
    MessageRoundTrip(h, m);
    StringsPrintable(h, m);
  }

  lemma {:induction false} StringsPrintable(h: Header, m: Message)
    ensures AllPrintable(ValuesOf(h, m)) <==>
      match m
      case RegisterConnection(_, host) => Printable(Text(host))
      case DeregisterConnection(_, host, _) => Printable(Text(host))
      case DeregisterProcessManager(_, host, _) => Printable(Text(host))
      case CreateTbon(_, _, _, nodes) => Printable(Text(nodes))
      case ReallocationComplete(_, _, _, _, nodes, _) => Printable(Text(nodes))
      case ReallocationStart(_, _, _, _, cs, _, ds, _, us) =>
        Printable(Text(cs)) && Printable(Text(ds)) && Printable(Text(us))
      case _ => true
  {
    var v := ValuesOf(h, m);
    if AllPrintable(v) {
      match m
      case RegisterConnection(_, _) => assert Printable(v[3]);
      case DeregisterConnection(_, _, _) => assert Printable(v[3]);
      case DeregisterProcessManager(_, _, _) => assert Printable(v[3]);
      case CreateTbon(_, _, _, _) => assert Printable(v[5]);
      case ReallocationComplete(_, _, _, _, _, _) => assert Printable(v[6]);
      case ReallocationStart(_, _, _, _, _, _, _, _, _) =>
        assert Printable(v[6]) && Printable(v[8]) && Printable(v[10]);
      case _ =>
    }
  }

  // ---------------------------------------------------------------- registrations

  lemma {:induction false} ApplicationLineText(a: Application)
    ensures AppLine(a) ==
      D(a.index) + [32] + D(a.mode) + [32] + D(a.nodeCount) + [32] + a.nodes + [32, 10]
  {
    PrintsAll(AppValues(a), LINE_END);
    Front4(AppValues(a));
  }

  lemma {:induction false} RegistrationLayout(h: Header, r: Registration)
    ensures RegistrationText(h, r) ==
      D(h.sourceType) + [32] + D(h.messageType) + [32] + D(r.pid) + [32] + r.hostname + [32] +
      D(r.jobIndex) + [32] + D(Wrap(|r.applications|)) + [32, 10] +
      Concat(AppLines(r.applications))
  {
    PrintsAll(HeadValues(h, r), LINE_END);
    Front6(HeadValues(h, r));
  }

  lemma {:induction false} LinesAppend(apps: seq<Application>, a: Application)
    ensures Concat(AppLines(apps + [a])) == Concat(AppLines(apps)) + AppLine(a)
  {
    var lines := AppLines(apps + [a]);
    ConcatPrefix(lines, |apps|);
    assert lines[..|apps| + 1] == lines && lines[..|apps|] == AppLines(apps);
  }

  /** The application lines follow each other in order. */
  lemma {:induction false} LinesInOrder(apps: seq<Application>, a: Application)
    ensures Concat(AppLines([])) == []
    ensures Concat(AppLines(apps + [a])) == Concat(AppLines(apps)) +
      (D(a.index) + [32] + D(a.mode) + [32] + D(a.nodeCount) + [32] + a.nodes + [32, 10])
  {
    LinesAppend(apps, a);
    ApplicationLineText(a);
  }

  predicate IsDelimiter(c: byte) {
    c == 10 || c == 13
  }

  /**
   Lines are separated by line feeds and carriage returns: leading ones are skipped, the line ends
   before the next one, and reading goes on behind that one.
   */
  lemma {:induction false} LineOfText(delimiters: seq<byte>, line: seq<byte>, rest: seq<byte>)
    requires forall i :: 0 <= i < |delimiters| ==> IsDelimiter(delimiters[i])
    requires line != [] && forall i :: 0 <= i < |line| ==> !IsDelimiter(line[i])
    requires rest != [] ==> IsDelimiter(rest[0])
    ensures NextLine(delimiters + (line + rest)) == Some((line, if rest == [] then [] else rest[1..]))
  {
    var s := delimiters + (line + rest);
    SkipDelimiters(s, |delimiters|);
    assert s[|delimiters|..] == line + rest;
    TokenFound(line + rest, |line|);
    assert (line + rest)[..|line|] == line && (rest != [] ==> (line + rest)[|line| + 1..] == rest[1..]);
  }

  /** There is no line in delimiters alone. */
  lemma {:induction false} NoLineInDelimiters(delimiters: seq<byte>)
    requires forall i :: 0 <= i < |delimiters| ==> IsDelimiter(delimiters[i])
    ensures NextLine(delimiters) == None
  {
    SkipDelimiters(delimiters, |delimiters|);
  }

  // ---------------------------------------------------------------- payload messages

  lemma {:induction false} LaunchText(h: Header, id: u32, operation: u32, payload: seq<byte>)
    ensures PayloadText(h, Launch(id, operation, payload)) ==
      D(h.sourceType) + [32] + D(h.messageType) + [32] + D(id) + [32] + D(operation) + [32] +
      D(Wrap(|payload|)) + [32, 10]
  {
    PrintsAll(PayloadValues(h, Launch(id, operation, payload)), PayloadTail(KLaunch));
    Front5(PayloadValues(h, Launch(id, operation, payload)));
  }

  lemma {:induction false} IoOutText(h: Header, id: u32, host: seq<byte>, payload: seq<byte>)
    ensures PayloadText(h, IoOut(id, host, payload)) ==
      D(h.sourceType) + [32] + D(h.messageType) + [32] + D(id) + [32] + host + [32] +
      D(Wrap(|payload|)) + [32, 10]
  {
    PrintsAll(PayloadValues(h, IoOut(id, host, payload)), PayloadTail(KIoOut));
    Front5(PayloadValues(h, IoOut(id, host, payload)));
  }

  lemma {:induction false} ReportDataText(h: Header, id: u32, job: u32, app: u32, mode: u32, payload: seq<byte>)
    ensures PayloadText(h, ReportData(id, job, app, mode, payload)) ==
      D(h.sourceType) + [32] + D(h.messageType) + [32] + D(id) + [32] + D(job) + [32] + D(app) + [32] +
      D(mode) + [32] + D(Wrap(|payload|)) + [10]
  {
    PrintsAll(PayloadValues(h, ReportData(id, job, app, mode, payload)), PayloadTail(KReportData));
    Front7(PayloadValues(h, ReportData(id, job, app, mode, payload)));
  }
}
