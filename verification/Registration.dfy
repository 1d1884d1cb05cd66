/**
 The multi-line registration of a process manager: one header line, then one line per application.
 Lines are taken apart as strtok does with the delimiters "\r\n" (section 7.24.5.8 of
 ISO/IEC 9899:2011).  The application loop of the serializer is taken to start at 0.
 */
module Registration {
  import opened Options
  import opened Word32
  import opened TextFormat
  import opened CBuffer
  import opened Messages

  datatype Application = Application(index: u32, mode: u32, nodeCount: u32, nodes: seq<byte>)

  datatype Registration = Registration(pid: u32, hostname: seq<byte>, jobIndex: u32, applications: seq<Application>)

  const LINE_END: seq<byte> := [BLANK, NEWLINE]

  /** The block into which the serializer prints one application line. */
  const SCRATCH: nat := 256

  function AppValues(a: Application): seq<Value> {
    [Num(a.index), Num(a.mode), Num(a.nodeCount), Text(a.nodes)]
  }

  function AppLine(a: Application): seq<byte> {
    Sprintf(AppValues(a), LINE_END)
  }

  function AppLines(apps: seq<Application>): (lines: seq<seq<byte>>)
    ensures |lines| == |apps| && forall i :: 0 <= i < |apps| ==> lines[i] == AppLine(apps[i])
  {
    seq(|apps|, i requires 0 <= i < |apps| => AppLine(apps[i]))
  }

  function Concat(lines: seq<seq<byte>>): seq<byte> {
    if lines == [] then [] else lines[0] + Concat(lines[1..])
  }

  function HeadValues(h: Header, r: Registration): seq<Value> {
    [Num(h.sourceType), Num(h.messageType), Num(r.pid), Text(r.hostname), Num(r.jobIndex), Num(Wrap(|r.applications|))]
  }

  function RegistrationText(h: Header, r: Registration): seq<byte> {
    Sprintf(HeadValues(h, r), LINE_END) + Concat(AppLines(r.applications))
  }

  /** All strings are C strings. */
  predicate ZeroFreeRegistration(h: Header, r: Registration) {
    && ZeroFreeValues(HeadValues(h, r))
    && forall i :: 0 <= i < |r.applications| ==> ZeroFreeValues(AppValues(r.applications[i]))
  }

  predicate PrintableRegistration(h: Header, r: Registration) {
    && |r.applications| < TWO_32
    && AllPrintable(HeadValues(h, r))
    && forall i :: 0 <= i < |r.applications| ==> AllPrintable(AppValues(r.applications[i]))
  }

  /** The host and every node list, with their terminators, fit the blocks of the deserializer. */
  predicate FitsBlocks(r: Registration) {
    && |r.hostname| < 256
    && forall i :: 0 <= i < |r.applications| ==> |r.applications[i].nodes| < 512
  }

  // ---------------------------------------------------------------- reading

  predicate IsNewline(c: byte) {
    c == 10 || c == 13
  }

  predicate NotNewline(c: byte) {
    !IsNewline(c)
  }

  /** What is left after the delimiter at position `m`, if there is one. */
  function Behind(s: seq<byte>, m: nat): seq<byte>
    requires m <= |s|
  {
    if m < |s| then s[m + 1..] else []
  }

  /** One strtok call: the next line and what is left after its delimiter; None is a null pointer. */
  function NextLine(s: seq<byte>): Option<(seq<byte>, seq<byte>)> {
    var n := Span(s, NotNewline);
    if s == [] then None
    else if IsNewline(s[0]) then NextLine(s[1..])
    else Some((s[..n], Behind(s, n)))
  }

  const APP_CONVS: seq<Conv> := [Dec, Dec, Dec, Word(512)]
  const HEAD_CONVS: seq<Conv> := [Dec, Dec, Dec, Word(256), Dec, Dec]

  function ParseApp(line: seq<byte>): Option<Application> {
    var v := Sscanf(APP_CONVS, line);
    if |v| == 4 && Matches(APP_CONVS, v) then Some(Application(v[0].bits, v[1].bits, v[2].bits, v[3].chars)) else None
  }

  /** One turn of the reading loop: the next line, scanned, and what is left. */
  function NextItem<T>(text: seq<byte>, scan: seq<byte> -> Option<T>): Option<(T, seq<byte>)> {
    match NextLine(text)
    case None => None
    case Some((line, rest)) =>
      match scan(line)
      case None => None
      case Some(x) => Some((x, rest))
  }

  function Prepend<T>(x: T, more: Option<seq<T>>): Option<seq<T>> {
    match more
    case None => None
    case Some(xs) => Some([x] + xs)
  }

  /** `count` items, one a line. */
  function Collect<T>(count: nat, text: seq<byte>, scan: seq<byte> -> Option<T>): Option<seq<T>> {
    if count == 0 then Some([])
    else
      match NextItem(text, scan)
      case None => None
      case Some((x, rest)) => Prepend(x, Collect(count - 1, rest, scan))
  }

  function ParseApps(count: nat, text: seq<byte>): Option<seq<Application>> {
    Collect(count, text, ParseApp)
  }

  datatype Head = Head(header: Header, pid: u32, hostname: seq<byte>, jobIndex: u32, count: u32)

  function ParseHead(line: seq<byte>): Option<Head> {
    var v := Sscanf(HEAD_CONVS, line);
    if |v| == 6 && Matches(HEAD_CONVS, v) then
      Some(Head(Header(v[0].bits, v[1].bits), v[2].bits, v[3].chars, v[4].bits, v[5].bits))
    else None
  }

  function ParseRegistration(text: seq<byte>): Option<(Header, Registration)> {
    match NextLine(text)
    case None => None
    case Some((line, rest)) =>
      match ParseHead(line)
      case None => None
      case Some(d) =>
        match ParseApps(d.count, rest)
        case None => None
        case Some(apps) => Some((d.header, Registration(d.pid, d.hostname, d.jobIndex, apps)))
  }

  // ---------------------------------------------------------------- round trip

  lemma {:induction false} LineChars(vals: seq<Value>)
    requires vals != [] && AllPrintable(vals)
    ensures Sprintf(vals, [BLANK]) != []
    ensures forall i :: 0 <= i < |Sprintf(vals, [BLANK])| ==> NotNewline(Sprintf(vals, [BLANK])[i])
  {
    SprintfTail(vals, [BLANK]);
    forall i | 0 <= i < |Sprintf(vals, [BLANK])|
      ensures NotNewline(Sprintf(vals, [BLANK])[i])
    {
      if i < |Sprintf(vals, [BLANK])| - 1 {
        PrintedChars(vals, [BLANK], i);
      }
    }
  }

  lemma {:induction false} LineEnds(vals: seq<Value>)
    ensures Sprintf(vals, LINE_END) == Sprintf(vals, [BLANK]) + [NEWLINE]
  {
    SprintfAbsorbs(vals, [BLANK], [NEWLINE]);
    assert [BLANK] + [NEWLINE] == LINE_END;
  }

  lemma {:induction false} LineSplit(vals: seq<Value>, more: seq<byte>)
    requires vals != [] && AllPrintable(vals)
    ensures NextLine(Sprintf(vals, LINE_END) + more) == Some((Sprintf(vals, [BLANK]), more))
  {
    LineChars(vals);
    LineEnds(vals);
    FindLine(Sprintf(vals, [BLANK]), more);
  }

  lemma {:induction false} FindLine(line: seq<byte>, more: seq<byte>)
    requires line != [] && forall i :: 0 <= i < |line| ==> NotNewline(line[i])
    ensures NextLine(line + [NEWLINE] + more) == Some((line, more))
  {
    var s := line + [NEWLINE] + more;
    assert s == line + ([NEWLINE] + more);
    SpanOf(line, [NEWLINE] + more, NotNewline);
    assert s[..|line|] == line && s[|line| + 1..] == more;
  }

  lemma {:induction false} AppRoundTrip(a: Application)
    requires AllPrintable(AppValues(a)) && |a.nodes| < 512
    ensures ParseApp(Sprintf(AppValues(a), [BLANK])) == Some(a)
  {
    RoundTrip(APP_CONVS, AppValues(a), [BLANK]);
    assert AppValues(a)[..4] == AppValues(a);
  }

  lemma {:induction false} HeadRoundTrip(h: Header, r: Registration)
    requires AllPrintable(HeadValues(h, r)) && |r.hostname| < 256
    ensures ParseHead(Sprintf(HeadValues(h, r), [BLANK])) ==
      Some(Head(h, r.pid, r.hostname, r.jobIndex, Wrap(|r.applications|)))
  {
    RoundTrip(HEAD_CONVS, HeadValues(h, r), [BLANK]);
    assert HeadValues(h, r)[..6] == HeadValues(h, r);
  }

  lemma {:induction false} ParseAppsStep(count: nat, line: seq<byte>, rest: seq<byte>, text: seq<byte>,
                      a: Application, more: seq<Application>)
    requires NextLine(text) == Some((line, rest)) && ParseApp(line) == Some(a)
    requires ParseApps(count, rest) == Some(more)
    ensures ParseApps(count + 1, text) == Some([a] + more)
  {
  }

  lemma {:induction false} AppsRoundTrip(apps: seq<Application>)
    requires forall i :: 0 <= i < |apps| ==> AllPrintable(AppValues(apps[i])) && |apps[i].nodes| < 512
    ensures ParseApps(|apps|, Concat(AppLines(apps))) == Some(apps)
  {
    if apps != [] {
      var rest := Concat(AppLines(apps[1..]));
      assert AppLines(apps)[1..] == AppLines(apps[1..]);
      LineSplit(AppValues(apps[0]), rest);
      AppRoundTrip(apps[0]);
      AppsRoundTrip(apps[1..]);
      var line := Sprintf(AppValues(apps[0]), [BLANK]);
      ParseAppsStep(|apps| - 1, line, rest, Concat(AppLines(apps)), apps[0], apps[1..]);
      assert apps == [apps[0]] + apps[1..];
    }
  }

  lemma {:induction false} ParseParts(text: seq<byte>, line: seq<byte>, rest: seq<byte>, d: Head,
                                      apps: seq<Application>)
    requires NextLine(text) == Some((line, rest)) && ParseHead(line) == Some(d)
    requires ParseApps(d.count, rest) == Some(apps)
    ensures ParseRegistration(text) == Some((d.header, Registration(d.pid, d.hostname, d.jobIndex, apps)))
  {
  }

  lemma {:induction false} GoodRegistrationReturns(h: Header, r: Registration)
    requires PrintableRegistration(h, r) && FitsBlocks(r)
    ensures ParseRegistration(RegistrationText(h, r)) == Some((h, r))
  {
    var vals, rest := HeadValues(h, r), Concat(AppLines(r.applications));
    LineSplit(vals, rest);
    HeadRoundTrip(h, r);
    AppsRoundTrip(r.applications);
    WrapSmall(|r.applications|);
    ParseParts(Sprintf(vals, LINE_END) + rest, Sprintf(vals, [BLANK]), rest,
               Head(h, r.pid, r.hostname, r.jobIndex, Wrap(|r.applications|)), r.applications);
  }

  /** What %s can leave in a block. */
  predicate IsWord(s: seq<byte>, block: nat) {
    s != [] && |s| < block && forall i :: 0 <= i < |s| ==> NotBlank(s[i])
  }

  lemma {:induction false} ParsedHeadHasWord(line: seq<byte>)
    ensures ParseHead(line).Some? ==> IsWord(ParseHead(line).value.hostname, 256)
  {
    SscanfAssigns(HEAD_CONVS, line);
  }

  lemma {:induction false} ParsedAppHasWord(line: seq<byte>)
    ensures ParseApp(line).Some? ==> IsWord(ParseApp(line).value.nodes, 512)
  {
    SscanfAssigns(APP_CONVS, line);
  }

  lemma {:induction false} CollectedAll<T>(count: nat, text: seq<byte>, scan: seq<byte> -> Option<T>, good: T -> bool)
    requires forall line :: scan(line).Some? ==> good(scan(line).value)
    ensures Collect(count, text, scan).Some? ==>
      var xs := Collect(count, text, scan).value;
      |xs| == count && forall i :: 0 <= i < |xs| ==> good(xs[i])
  {
    if count > 0 && NextItem(text, scan).Some? {
      CollectedAll(count - 1, NextItem(text, scan).value.1, scan, good);
    }
  }

  predicate HasWord(a: Application) {
    IsWord(a.nodes, 512)
  }

  lemma {:induction false} CollectedAppsHaveWords(count: nat, text: seq<byte>)
    ensures ParseApps(count, text).Some? ==>
      var apps := ParseApps(count, text).value;
      |apps| == count && forall i :: 0 <= i < |apps| ==> HasWord(apps[i])
  {
    forall line
      ensures ParseApp(line).Some? ==> HasWord(ParseApp(line).value)
    {
      ParsedAppHasWord(line);
    }
    CollectedAll(count, text, ParseApp, HasWord);
  }

  lemma {:induction false} ParsedRegistrationHasWords(text: seq<byte>)
    ensures ParseRegistration(text).Some? ==>
      var r := ParseRegistration(text).value.1;
      && |r.applications| < TWO_32 && IsWord(r.hostname, 256)
      && forall i :: 0 <= i < |r.applications| ==> HasWord(r.applications[i])
  {
    if NextLine(text).Some? {
      var (line, rest) := NextLine(text).value;
      ParsedHeadHasWord(line);
      if ParseHead(line).Some? {
        CollectedAppsHaveWords(ParseHead(line).value.count, rest);
      }
    }
  }

  lemma {:induction false} WordIsPrintable(s: seq<byte>, block: nat)
    requires ZeroFree(s) && IsWord(s, block)
    ensures Printable(Text(s))
  {
  }

  lemma {:induction false} WordsMakeGood(h: Header, r: Registration)
    requires ZeroFreeRegistration(h, r) && |r.applications| < TWO_32 && IsWord(r.hostname, 256)
    requires forall i :: 0 <= i < |r.applications| ==> HasWord(r.applications[i])
    ensures PrintableRegistration(h, r) && FitsBlocks(r)
  {
    assert HeadValues(h, r)[3] == Text(r.hostname);
    WordIsPrintable(r.hostname, 256);
    forall i | 0 <= i < |r.applications|
      ensures AllPrintable(AppValues(r.applications[i])) && |r.applications[i].nodes| < 512
    {
      assert HasWord(r.applications[i]);
      assert AppValues(r.applications[i])[3] == Text(r.applications[i].nodes);
      WordIsPrintable(r.applications[i].nodes, 512);
    }
  }

  lemma {:induction false} ReturnedRegistrationIsGood(h: Header, r: Registration, text: seq<byte>)
    requires ZeroFreeRegistration(h, r) && ParseRegistration(text) == Some((h, r))
    ensures PrintableRegistration(h, r) && FitsBlocks(r)
  {
    ParsedRegistrationHasWords(text);
    WordsMakeGood(h, r);
  }

  /**
   The text of a registration made of C strings is read back whole (header, host, job and applications
   in order) exactly when its strings are non-empty, free of blanks and fit the blocks of the receiver.
   */
  lemma {:induction false} TextRoundTrip(h: Header, r: Registration)
    requires ZeroFreeRegistration(h, r)
    ensures ParseRegistration(RegistrationText(h, r)) == Some((h, r)) <==>
      PrintableRegistration(h, r) && FitsBlocks(r)
  {
    if PrintableRegistration(h, r) && FitsBlocks(r) {
      GoodRegistrationReturns(h, r);
    }
    if ParseRegistration(RegistrationText(h, r)) == Some((h, r)) {
      ReturnedRegistrationIsGood(h, r, RegistrationText(h, r));
    }
  }

  // ---------------------------------------------------------------- the sender's limits

  /** Every application line fits the scratch block, and the whole text the message, terminators included. */
  predicate SenderFits(h: Header, r: Registration) {
    && |RegistrationText(h, r)| < MAX_MESSAGE_SIZE
    && forall i :: 0 <= i < |r.applications| ==> |AppLine(r.applications[i])| < SCRATCH
  }

  lemma {:induction false} AppLineLength(a: Application)
    ensures |AppLine(a)| == |PrintValue(Num(a.index))| + |PrintValue(Num(a.mode))| +
      |PrintValue(Num(a.nodeCount))| + |a.nodes| + 5
  {
    SprintfLength4(AppValues(a), LINE_END);
  }

  /**
   An application line stays below 256 bytes for all numbers exactly when the node list has at most 217,
   so the 512 bytes of the receiver can never be used up.
   */
  lemma {:induction false} AppLineFitsIff(nodes: seq<byte>)
    ensures |nodes| <= 217 <==>
      forall index: u32, mode: u32, count: u32 :: |AppLine(Application(index, mode, count, nodes))| < SCRATCH
  {
    if |nodes| <= 217 {
      forall index: u32, mode: u32, count: u32
        ensures |AppLine(Application(index, mode, count, nodes))| < SCRATCH
      {
        AppLineLength(Application(index, mode, count, nodes));
        NumberLength(index);
        NumberLength(mode);
        NumberLength(count);
      }
    } else {
      var low := 0x8000_0000;
      AppLineLength(Application(low, low, low, nodes));
      LowestIsLong();
      assert |AppLine(Application(low, low, low, nodes))| >= SCRATCH;
    }
  }

  lemma {:induction false} SenderFitsBlocks(h: Header, r: Registration)
    requires SenderFits(h, r)
    ensures forall i :: 0 <= i < |r.applications| ==> |r.applications[i].nodes| < 512
  {
    forall i | 0 <= i < |r.applications|
      ensures |r.applications[i].nodes| < 512
    {
      AppLineLength(r.applications[i]);
    }
  }

  /**
   Sender and receiver together: a registration of C strings that fits the sender's buffers comes back
   whole exactly when its strings are non-empty and free of blanks and the host fits its block.
   */
  lemma {:induction false} RegistrationRoundTrip(h: Header, r: Registration)
    requires ZeroFreeRegistration(h, r) && SenderFits(h, r)
    ensures ParseRegistration(RegistrationText(h, r)) == Some((h, r)) <==>
      PrintableRegistration(h, r) && |r.hostname| < 256
  {
    SenderFitsBlocks(h, r);
    TextRoundTrip(h, r);
  }

  lemma {:induction false} ConcatAtLeast(lines: seq<seq<byte>>)
    requires forall i :: 0 <= i < |lines| ==> |lines[i]| >= 8
    ensures |Concat(lines)| >= 8 * |lines|
  {
    if lines != [] {
      assert |lines[0]| >= 8;
      ConcatAtLeast(lines[1..]);
    }
  }

  /** So many applications never fit a message, whatever they are. */
  lemma {:induction false} ManyApplicationsNeverFit(h: Header, r: Registration)
    requires |r.applications| >= 512
    ensures !SenderFits(h, r)
  {
    var lines := AppLines(r.applications);
    forall i | 0 <= i < |lines|
      ensures |lines[i]| >= 8
    {
      AppLineLength(r.applications[i]);
      NumberLength(r.applications[i].index);
      NumberLength(r.applications[i].mode);
      NumberLength(r.applications[i].nodeCount);
    }
    ConcatAtLeast(lines);
  }

  /** One application with `n` nodes named "a". */
  function LongList(n: nat): Registration {
    Registration(1, [97], 1, [Application(1, 1, 1, seq(n, _ => 97))])
  }

  /**
   The sender's limits are needed: every node list of 256 to 511 bytes gives a registration that the
   receiver alone would read back, but whose line the C sender writes past its scratch block.
   */
  lemma {:induction false} ReceiverAloneIsNotEnough(h: Header, n: nat)
    requires 256 <= n < 512
    ensures ZeroFreeRegistration(h, LongList(n))
    ensures ParseRegistration(RegistrationText(h, LongList(n))) == Some((h, LongList(n)))
    ensures !SenderFits(h, LongList(n))
  {
    var r := LongList(n);
    assert PrintableRegistration(h, r) && FitsBlocks(r);
    TextRoundTrip(h, r);
    AppLineLength(r.applications[0]);
  }

  /** The server routes a registration by its header too. */
  lemma {:induction false} RegistrationDispatch(h: Header, r: Registration)
    ensures Dispatch(RegistrationText(h, r)) ==
      if h.messageType == 1 then ToRegister else if h.messageType == 2 then ToDeregister else ToHandler
  {
    var vals, rest := HeadValues(h, r), Concat(AppLines(r.applications));
    SprintfAbsorbs(vals, LINE_END, rest);
    DispatchFollowsHeader(h, vals, LINE_END + rest);
  }

  // ---------------------------------------------------------------- the C bodies

  lemma {:induction false} ConcatPrefix(lines: seq<seq<byte>>, k: nat)
    requires k < |lines|
    ensures Concat(lines[..k + 1]) == Concat(lines[..k]) + lines[k]
    ensures |Concat(lines[..k + 1])| <= |Concat(lines)|
  {
    if k == 0 {
      assert lines[..1][1..] == [] && lines[..0] == [];
    } else {
      ConcatPrefix(lines[1..], k - 1);
      assert lines[..k + 1][1..] == lines[1..][..k] && lines[..k][1..] == lines[1..][..k - 1];
    }
  }

  /**
   dynpm_serialize_register_process_manager_msg.  The C code checks no sizes, so the caller must leave
   room for the whole text and keep each application line below the size of the scratch block.
   */
  method SerializeRegistration(buf: array<byte>, h: Header, r: Registration)
    requires ZeroFreeRegistration(h, r) && |RegistrationText(h, r)| < buf.Length
    requires forall i :: 0 <= i < |r.applications| ==> |AppLine(r.applications[i])| < SCRATCH
    modifies buf
    ensures CString(buf[..]) == RegistrationText(h, r) && 0 in buf[..]
  {
    var head := Sprintf(HeadValues(h, r), LINE_END);
    PrintedZeroFree(HeadValues(h, r), LINE_END);
    var lines := AppLines(r.applications);
    forall i | 0 <= i < |lines|
      ensures ZeroFree(lines[i])
    {
      PrintedZeroFree(AppValues(r.applications[i]), LINE_END);
    }
    StartText(buf, head);
    AppendLines(buf, head, lines);
  }

  /** The loop over the applications: one strcat per line. */
  method AppendLines(buf: array<byte>, ghost head: seq<byte>, lines: seq<seq<byte>>)
    requires CString(buf[..]) == head && 0 in buf[..] && |head| + |Concat(lines)| < buf.Length
    requires forall i :: 0 <= i < |lines| ==> ZeroFree(lines[i])
    modifies buf
    ensures CString(buf[..]) == head + Concat(lines) && 0 in buf[..]
  {
    var app := 0;
    while app < |lines|
      invariant 0 <= app <= |lines| && 0 in buf[..]
      invariant CString(buf[..]) == head + Concat(lines[..app])
    {
      ConcatPrefix(lines, app);
      Append(buf, lines[app]);
      app := app + 1;
    }
    assert lines[..app] == lines;
  }

  function Extend<T>(xs: seq<T>, more: Option<seq<T>>): Option<seq<T>> {
    match more
    case None => None
    case Some(rest) => Some(xs + rest)
  }

  lemma {:induction false} ExtendNothing<T>(xs: seq<T>, more: Option<seq<T>>)
    ensures Extend([], more) == more && Extend(xs, Some([])) == Some(xs)
  {
    assert xs + [] == xs;
    if more.Some? {
      assert [] + more.value == more.value;
    }
  }

  lemma {:induction false} ExtendStep<T>(xs: seq<T>, x: T, more: Option<seq<T>>)
    ensures Extend(xs, Prepend(x, more)) == Extend(xs + [x], more)
  {
    if more.Some? {
      assert xs + ([x] + more.value) == (xs + [x]) + more.value;
    }
  }

  lemma {:induction false} SpanIs(s: seq<byte>, p: byte -> bool, k: nat)
    requires k <= |s| && (forall i :: 0 <= i < k ==> p(s[i])) && (k < |s| ==> !p(s[k]))
    ensures Span(s, p) == k
  {
    SpanOf(s[..k], s[k..], p);
    assert s[..k] + s[k..] == s;
  }

  lemma {:induction false} SkipDelimiters(s: seq<byte>, k: nat)
    requires k <= |s| && forall i :: 0 <= i < k ==> IsNewline(s[i])
    ensures NextLine(s) == NextLine(s[k..])
  {
    if k > 0 {
      SkipDelimiters(s[1..], k - 1);
      assert s[1..][k - 1..] == s[k..];
    } else {
      assert s[0..] == s;
    }
  }

  lemma {:induction false} TokenFound(t: seq<byte>, n: nat)
    requires 0 < n <= |t| && forall i :: 0 <= i < n ==> NotNewline(t[i])
    requires n < |t| ==> IsNewline(t[n])
    ensures NextLine(t) == Some((t[..n], Behind(t, n)))
  {
    SpanIs(t, NotNewline, n);
  }

  lemma {:induction false} SliceInSlice(b: seq<byte>, pos: nat, start: nat, stop: nat, end: nat)
    requires pos <= start <= stop <= end <= |b|
    ensures b[pos..end][start - pos..] == b[start..end]
    ensures b[start..end][..stop - start] == b[start..stop]
    ensures Behind(b[start..end], stop - start) == Behind(b[..end], stop)
  {
    if stop < end {
      assert b[start..end][stop - start + 1..] == b[..end][stop + 1..];
    }
  }

  /** What a strtok call finds in the string from `pos` to `end`, by the positions at which its scans stop. */
  lemma {:induction false} LineFound(b: seq<byte>, pos: nat, start: nat, stop: nat, end: nat)
    requires pos <= start <= stop <= end <= |b| && (start == stop <==> start == end)
    requires forall i :: pos <= i < start ==> IsNewline(b[i])
    requires forall i :: start <= i < stop ==> NotNewline(b[i])
    requires stop < end ==> IsNewline(b[stop])
    ensures NextLine(b[pos..end]) == if start == end then None else Some((b[start..stop], Behind(b[..end], stop)))
  {
    SkipDelimiters(b[pos..end], start - pos);
    SliceInSlice(b, pos, start, stop, end);
    if start < end {
      TokenFound(b[start..end], stop - start);
    }
  }

  /** The two scans of a strtok call, over the delimiters and over the line, in the string that ends at `end`. */
  method FindToken(buf: array<byte>, pos: nat, ghost end: nat) returns (start: nat, stop: nat)
    requires pos <= end < buf.Length && buf[end] == 0 && forall i :: pos <= i < end ==> buf[i] != 0
    ensures pos <= start <= stop <= end && (start == stop <==> start == end)
    ensures forall i :: pos <= i < start ==> IsNewline(buf[i])
    ensures forall i :: start <= i < stop ==> NotNewline(buf[i])
    ensures stop < end ==> IsNewline(buf[stop])
  {
    start := pos;
    while IsNewline(buf[start])
      invariant pos <= start <= end && forall i :: pos <= i < start ==> IsNewline(buf[i])
      decreases end - start
    {
      start := start + 1;
    }
    stop := start;
    while buf[stop] != 0 && !IsNewline(buf[stop])
      invariant start <= stop <= end && forall i :: start <= i < stop ==> NotNewline(buf[i])
      decreases end - stop
    {
      stop := stop + 1;
    }
  }

  /**
   strtok with the delimiters "\r\n" from position `pos` on: the delimiter behind the line is
   overwritten with a terminator, and `next` is where the following call starts.
   */
  method StrTok(buf: array<byte>, pos: nat) returns (found: bool, start: nat, next: nat)
    requires pos <= buf.Length && 0 in buf[pos..]
    modifies buf
    ensures found <==> NextLine(old(CString(buf[pos..]))).Some?
    ensures found ==> start <= next < buf.Length && 0 in buf[start..] && 0 in buf[next..]
    ensures found ==> NextLine(old(CString(buf[pos..]))) == Some((CString(buf[start..]), CString(buf[next..])))
  {
    ghost var end := pos + |CString(buf[pos..])|;
    CStringShape(buf[pos..]);
    assert buf[..][pos..end] == CString(buf[pos..]);
    assert forall i :: pos <= i < end ==> buf[i] == buf[..][pos..end][i - pos];
    var stop;
    start, stop := FindToken(buf, pos, end);
    LineFound(buf[..], pos, start, stop, end);
    next := stop;
    found := start != stop;
    if found {
      next := EndLine(buf, start, stop, end);
    }
  }

  /** The end of a strtok call that found the line from `start` to `stop`. */
  method EndLine(buf: array<byte>, start: nat, stop: nat, ghost end: nat) returns (next: nat)
    requires start <= stop <= end < buf.Length && buf[end] == 0 && forall i :: start <= i < end ==> buf[i] != 0
    modifies buf
    ensures start <= next < buf.Length && 0 in buf[start..] && 0 in buf[next..]
    ensures CString(buf[start..]) == old(buf[..][start..stop])
    ensures CString(buf[next..]) == Behind(old(buf[..][..end]), stop)
  {
    next := stop;
    if buf[stop] != 0 {
      buf[stop] := 0;
      next := stop + 1;
    }
    CStringAt(buf[..], start, stop);
    CStringAt(buf[..], next, end);
    assert buf[..][start..] == buf[start..] && buf[..][next..] == buf[next..];
  }

  /** The buffer holds the C string `text` from `at` on. */
  ghost predicate HoldsAt(buf: array<byte>, at: nat, text: seq<byte>)
    reads buf
  {
    at <= buf.Length && 0 in buf[at..] && CString(buf[at..]) == text
  }

  /** One turn of the reading loop, in the buffer. */
  method TakeItem<T>(buf: array<byte>, pos: nat, ghost text: seq<byte>, scan: seq<byte> -> Option<T>)
    returns (item: Option<T>, next: nat, ghost rest: seq<byte>)
    requires HoldsAt(buf, pos, text)
    modifies buf
    ensures item.None? ==> NextItem(text, scan) == None
    ensures item.Some? ==> NextItem(text, scan) == Some((item.value, rest)) && HoldsAt(buf, next, rest)
  {
    var found, start;
    found, start, next := StrTok(buf, pos);
    if !found {
      return None, next, [];
    }
    rest := CString(buf[next..]);
    var line := TextFrom(buf, start);
    item := scan(line);
  }

  /** What is read so far, followed by what the remaining lines hold, is `all`. */
  ghost predicate Remains<T>(all: Option<seq<T>>, xs: seq<T>, count: nat, text: seq<byte>, scan: seq<byte> -> Option<T>)
  {
    all == Extend(xs, Collect(count, text, scan))
  }

  lemma {:induction false} RemainsStep<T>(all: Option<seq<T>>, xs: seq<T>, count: nat, text: seq<byte>,
                                          scan: seq<byte> -> Option<T>)
    requires count > 0 && Remains(all, xs, count, text, scan)
    ensures NextItem(text, scan).None? ==> all == None
    ensures NextItem(text, scan).Some? ==>
      var (x, rest) := NextItem(text, scan).value; Remains(all, xs + [x], count - 1, rest, scan)
  {
    if NextItem(text, scan).Some? {
      var (x, rest) := NextItem(text, scan).value;
      ExtendStep(xs, x, Collect(count - 1, rest, scan));
    }
  }

  /** One turn and what it means for the whole. */
  method TakeNext<T>(buf: array<byte>, pos: nat, scan: seq<byte> -> Option<T>, ghost all: Option<seq<T>>,
                     ghost xs: seq<T>, ghost count: nat, ghost text: seq<byte>)
    returns (item: Option<T>, next: nat, ghost rest: seq<byte>)
    requires HoldsAt(buf, pos, text) && count > 0 && Remains(all, xs, count, text, scan)
    modifies buf
    ensures item.None? ==> all == None
    ensures item.Some? ==> HoldsAt(buf, next, rest) && Remains(all, xs + [item.value], count - 1, rest, scan)
  {
    RemainsStep(all, xs, count, text, scan);
    item, next, rest := TakeItem(buf, pos, text, scan);
  }

  lemma {:induction false} RemainsFirst<T>(count: nat, text: seq<byte>, scan: seq<byte> -> Option<T>)
    ensures Remains(Collect(count, text, scan), [], count, text, scan)
  {
    ExtendNothing<T>([], Collect(count, text, scan));
  }

  lemma {:induction false} RemainsLast<T>(all: Option<seq<T>>, xs: seq<T>, text: seq<byte>,
                                          scan: seq<byte> -> Option<T>)
    requires Remains(all, xs, 0, text, scan)
    ensures all == Some(xs)
  {
    ExtendNothing(xs, None);
  }

  /** The strtok and sscanf loop over the lines after the first. */
  method CollectLoop<T>(buf: array<byte>, pos: nat, count: nat, ghost text: seq<byte>, scan: seq<byte> -> Option<T>)
    returns (result: Option<seq<T>>)
    requires HoldsAt(buf, pos, text)
    modifies buf
    ensures result == Collect(count, text, scan)
  {
    ghost var rest := text;
    ghost var all := Collect(count, text, scan);
    var xs: seq<T>, at: nat, i := [], pos, 0;
    RemainsFirst(count, text, scan);
    while i < count
      invariant 0 <= i <= count && HoldsAt(buf, at, rest) && Remains(all, xs, count - i, rest, scan)
    {
      var item;
      item, at, rest := TakeNext(buf, at, scan, all, xs, count - i, rest);
      if item.None? {
        return None;
      }
      xs, i := xs + [item.value], i + 1;
    }
    RemainsLast(all, xs, rest, scan);
    result := Some(xs);
  }

  /** dynpm_deserialize_register_process_manager_msg; strtok cuts the text in the buffer into lines. */
  method DeserializeRegistration(buf: array<byte>) returns (result: Option<(Header, Registration)>)
    requires 0 in buf[..]
    modifies buf
    ensures result == ParseRegistration(old(CString(buf[..])))
  {
    assert buf[0..] == buf[..];
    var found, start, next := StrTok(buf, 0);
    if !found {
      return None;
    }
    var line := TextFrom(buf, start);
    var head := ParseHead(line);
    if head.None? {
      return None;
    }
    var d := head.value;
    var apps := CollectLoop(buf, next, d.count, CString(buf[next..]), ParseApp);
    if apps.None? {
      return None;
    }
    result := Some((d.header, Registration(d.pid, d.hostname, d.jobIndex, apps.value)));
  }
  /** Sender and receiver together, on one buffer. */
  method Transmit(buf: array<byte>, h: Header, r: Registration) returns (result: Option<(Header, Registration)>)
    requires buf.Length == MAX_MESSAGE_SIZE && ZeroFreeRegistration(h, r) && SenderFits(h, r)
    modifies buf
    ensures result == Some((h, r)) <==> PrintableRegistration(h, r) && |r.hostname| < 256
  {
    SerializeRegistration(buf, h, r);
    RegistrationRoundTrip(h, r);
    result := DeserializeRegistration(buf);
  }
}
