/**
 The messages that carry raw bytes: a text line at the start of the 4096-byte buffer and the payload
 at offset 256.  The payload may hold any bytes, zeros included.
 */
module PayloadMessages {
  import opened Options
  import opened Word32
  import opened TextFormat
  import opened CBuffer
  import opened Messages

  const OFFSET: nat := 256
  const MAX_PAYLOAD: nat := 3840

  datatype PayloadMessage =
    | Launch(id: u32, operation: u32, payload: seq<byte>)
    | IoOut(id: u32, host: seq<byte>, payload: seq<byte>)
    | ReportData(id: u32, jobIndex: u32, applicationIndex: u32, mode: u32, payload: seq<byte>)

  datatype PayloadKind = KLaunch | KIoOut | KReportData

  function PayloadKindOf(m: PayloadMessage): PayloadKind {
    match m
    case Launch(_, _, _) => KLaunch
    case IoOut(_, _, _) => KIoOut
    case ReportData(_, _, _, _, _) => KReportData
  }

  function PayloadConvs(k: PayloadKind): seq<Conv> {
    match k
    case KLaunch => [Dec, Dec, Dec, Dec, Dec]
    case KIoOut => [Dec, Dec, Dec, Word(256), Dec]
    case KReportData => [Dec, Dec, Dec, Dec, Dec, Dec, Dec]
  }

  function PayloadTail(k: PayloadKind): seq<byte> {
    if k.KReportData? then [NEWLINE] else [BLANK, NEWLINE]
  }

  /** The arguments of the printing call; the last one is payload_bytes. */
  function PayloadValues(h: Header, m: PayloadMessage): seq<Value> {
    var bytes := Num(Wrap(|m.payload|));
    match m
    case Launch(id, op, _) => [Num(h.sourceType), Num(h.messageType), Num(id), Num(op), bytes]
    case IoOut(id, host, _) => [Num(h.sourceType), Num(h.messageType), Num(id), Text(host), bytes]
    case ReportData(id, j, a, mode, _) =>
      [Num(h.sourceType), Num(h.messageType), Num(id), Num(j), Num(a), Num(mode), bytes]
  }

  function PayloadText(h: Header, m: PayloadMessage): seq<byte> {
    Sprintf(PayloadValues(h, m), PayloadTail(PayloadKindOf(m)))
  }

  function Assemble(k: PayloadKind, v: seq<Value>, payload: seq<byte>): (Header, PayloadMessage)
    requires |v| == |PayloadConvs(k)| && Matches(PayloadConvs(k), v)
  {
    var h := Header(v[0].bits, v[1].bits);
    match k
    case KLaunch => (h, Launch(v[2].bits, v[3].bits, payload))
    case KIoOut => (h, IoOut(v[2].bits, v[3].chars, payload))
    case KReportData => (h, ReportData(v[2].bits, v[3].bits, v[4].bits, v[5].bits, payload))
  }

  /**
   What a payload deserializer makes of its buffer.  None when a conversion fails, when its assert on
   the text length fails, or when the announced payload would reach past the buffer.
   */
  function Decode(k: PayloadKind, buf: seq<byte>): Option<(Header, PayloadMessage)>
    requires |buf| >= OFFSET
  {
    var v := Sscanf(PayloadConvs(k), CString(buf));
    if |v| != |PayloadConvs(k)| || !Matches(PayloadConvs(k), v) || |CString(buf)| >= OFFSET then None
    else
      var n := v[|v| - 1].bits;
      if OFFSET + n > |buf| then None else Some(Assemble(k, v, buf[OFFSET..OFFSET + n]))
  }

  lemma {:induction false} PayloadFormatsAgree(h: Header, m: PayloadMessage)
    requires |m.payload| <= MAX_PAYLOAD
    ensures var k, v := PayloadKindOf(m), PayloadValues(h, m);
      && |v| == |PayloadConvs(k)| && Matches(PayloadConvs(k), v)
      && v[|v| - 1].bits == |m.payload|
      && Assemble(k, v, m.payload) == (h, m)
  {
    WrapSmall(|m.payload|);
  }

  lemma {:induction false} DecodeParts(k: PayloadKind, buf: seq<byte>, v: seq<Value>, payload: seq<byte>)
    requires |buf| >= OFFSET + |payload| && |v| == |PayloadConvs(k)| && Matches(PayloadConvs(k), v)
    requires Sscanf(PayloadConvs(k), CString(buf)) == v && |CString(buf)| < OFFSET
    requires v[|v| - 1].bits == |payload| && buf[OFFSET..OFFSET + |payload|] == payload
    ensures Decode(k, buf) == Some(Assemble(k, v, payload))
  {
  }

  lemma {:induction false} AssembleLosesNothing(k: PayloadKind, v: seq<Value>, payload: seq<byte>)
    requires |v| == |PayloadConvs(k)| && Matches(PayloadConvs(k), v) && v[|v| - 1] == Num(Wrap(|payload|))
    ensures PayloadKindOf(Assemble(k, v, payload).1) == k
    ensures PayloadValues(Assemble(k, v, payload).0, Assemble(k, v, payload).1) == v
  {
  }

  /** A text below 256 bytes leaves room for its host, and its terminator, in a block of 256. */
  lemma {:induction false} ShortTextFitsBlock(h: Header, m: PayloadMessage)
    requires |PayloadText(h, m)| < OFFSET && |m.payload| <= MAX_PAYLOAD
    ensures AllWithin(PayloadConvs(PayloadKindOf(m)), PayloadValues(h, m))
  {
    PayloadFormatsAgree(h, m);
    if m.IoOut? {
      IoOutLength(h, m.id, m.host, m.payload);
    }
  }

  lemma {:induction false} DecodedWasPrintable(h: Header, m: PayloadMessage, buf: seq<byte>)
    requires |buf| == MAX_MESSAGE_SIZE && |m.payload| <= MAX_PAYLOAD && ZeroFreeValues(PayloadValues(h, m))
    requires CString(buf) == PayloadText(h, m)
    requires Decode(PayloadKindOf(m), buf) == Some((h, m))
    ensures AllPrintable(PayloadValues(h, m))
  {
    var k := PayloadKindOf(m);
    var v := Sscanf(PayloadConvs(k), CString(buf));
    PayloadFormatsAgree(h, m);
    WrapSmall(v[|v| - 1].bits);
    AssembleLosesNothing(k, v, m.payload);
    RoundTripIff(PayloadConvs(k), PayloadValues(h, m), PayloadTail(k));
  }

  lemma {:induction false} DecodedWasShort(k: PayloadKind, buf: seq<byte>)
    requires |buf| >= OFFSET
    ensures Decode(k, buf).Some? ==> |CString(buf)| < OFFSET
  {
  }

  lemma {:induction false} ShortPrintableDecodes(h: Header, m: PayloadMessage, buf: seq<byte>)
    requires |buf| == MAX_MESSAGE_SIZE && |m.payload| <= MAX_PAYLOAD && ZeroFreeValues(PayloadValues(h, m))
    requires CString(buf) == PayloadText(h, m) && |PayloadText(h, m)| < OFFSET
    requires buf[OFFSET..OFFSET + |m.payload|] == m.payload && AllPrintable(PayloadValues(h, m))
    ensures Decode(PayloadKindOf(m), buf) == Some((h, m))
  {
    var k, v := PayloadKindOf(m), PayloadValues(h, m);
    PayloadFormatsAgree(h, m);
    ShortTextFitsBlock(h, m);
    RoundTripIff(PayloadConvs(k), v, PayloadTail(k));
    DecodeParts(k, buf, v, m.payload);
  }

  /**
   Whatever else the buffer holds, text and payload come back as they were sent exactly when the host,
   if the message has one, is non-empty and free of blanks and the text is shorter than 256 bytes.
   */
  lemma {:induction false} PayloadRoundTrip(h: Header, m: PayloadMessage, buf: seq<byte>)
    requires |buf| == MAX_MESSAGE_SIZE && |m.payload| <= MAX_PAYLOAD && ZeroFreeValues(PayloadValues(h, m))
    requires CString(buf) == PayloadText(h, m)
    requires |PayloadText(h, m)| < 256 ==> buf[256..256 + |m.payload|] == m.payload
    ensures Decode(PayloadKindOf(m), buf) == Some((h, m)) <==>
      AllPrintable(PayloadValues(h, m)) && |PayloadText(h, m)| < 256
  {
    if AllPrintable(PayloadValues(h, m)) && |PayloadText(h, m)| < OFFSET {
      ShortPrintableDecodes(h, m, buf);
    }
    if Decode(PayloadKindOf(m), buf) == Some((h, m)) {
      DecodedWasPrintable(h, m, buf);
      DecodedWasShort(PayloadKindOf(m), buf);
    }
  }

  lemma {:induction false} PayloadDispatch(h: Header, m: PayloadMessage)
    ensures Dispatch(PayloadText(h, m)) ==
      if h.messageType == 1 then ToRegister else if h.messageType == 2 then ToDeregister else ToHandler
  {
    DispatchFollowsHeader(h, PayloadValues(h, m), PayloadTail(PayloadKindOf(m)));
  }

  // ---------------------------------------------------------------- the text stays below the payload

  /** The text of a launch or report message is always shorter than 256 bytes. */
  lemma {:induction false} NumericTextIsShort(h: Header, m: PayloadMessage)
    requires !m.IoOut?
    ensures |PayloadText(h, m)| < OFFSET
  {
    var v := PayloadValues(h, m);
    LengthBound(v, PayloadTail(PayloadKindOf(m)));
    LengthOf(v, 11);
  }

  lemma {:induction false} SprintfLength5(v: seq<Value>, tail: seq<byte>)
    requires |v| == 5
    ensures |Sprintf(v, tail)| == |PrintValue(v[0])| + |PrintValue(v[1])| + |PrintValue(v[2])| +
      |PrintValue(v[3])| + |PrintValue(v[4])| + 4 + |tail|
  {
    SprintfCons(v, tail);
    SprintfLength4(v[1..], tail);
  }

  lemma {:induction false} CountLength(n: nat)
    requires n <= MAX_PAYLOAD
    ensures |PrintValue(Num(Wrap(n)))| <= 4
    ensures n >= 1000 ==> |PrintValue(Num(Wrap(n)))| == 4
  {
    WrapSmall(n);
    Pow10Values();
    DigitCount(n, 4);
  }

  /** The text of an output message stays below 256 bytes for all fields exactly when the host has at most 212. */
  lemma {:induction false} IoOutTextIsShortIff(host: seq<byte>)
    ensures |host| <= 212 <==>
      forall h: Header, id: u32, payload: seq<byte> :: |payload| <= MAX_PAYLOAD ==>
        |PayloadText(h, IoOut(id, host, payload))| < OFFSET
  {
    if |host| <= 212 {
      forall h: Header, id: u32, payload: seq<byte> | |payload| <= MAX_PAYLOAD
        ensures |PayloadText(h, IoOut(id, host, payload))| < OFFSET
      {
        IoOutLength(h, id, host, payload);
        NumberLength(h.sourceType);
        NumberLength(h.messageType);
        NumberLength(id);
        CountLength(|payload|);
      }
    } else {
      var low := 0x8000_0000;
      var payload := seq(1000, _ => 0);
      IoOutLength(Header(low, low), low, host, payload);
      LowestIsLong();
      CountLength(1000);
      assert |PayloadText(Header(low, low), IoOut(low, host, payload))| >= OFFSET;
    }
  }

  lemma {:induction false} IoOutLength(h: Header, id: u32, host: seq<byte>, payload: seq<byte>)
    ensures |PayloadText(h, IoOut(id, host, payload))| ==
      |PrintValue(Num(h.sourceType))| + |PrintValue(Num(h.messageType))| + |PrintValue(Num(id))| +
      |host| + |PrintValue(Num(Wrap(|payload|)))| + 6
  {
    SprintfLength5(PayloadValues(h, IoOut(id, host, payload)), [BLANK, NEWLINE]);
  }

  // ---------------------------------------------------------------- the C bodies

  /**
   The three payload serializers.  `ok` is false when the assert on the text length aborts; the
   payload and the text must fit the buffer, which the C code does not check.
   */
  method SerializePayload(buf: array<byte>, h: Header, m: PayloadMessage) returns (ok: bool)
    requires buf.Length == MAX_MESSAGE_SIZE && |m.payload| <= MAX_PAYLOAD
    requires ZeroFreeValues(PayloadValues(h, m)) && |PayloadText(h, m)| < MAX_MESSAGE_SIZE
    modifies buf
    ensures ok <==> |PayloadText(h, m)| < 256
    ensures CString(buf[..]) == PayloadText(h, m) && 0 in buf[..]
    ensures ok ==> buf[256..256 + |m.payload|] == m.payload
    ensures ok ==> buf[256 + |m.payload|..] == old(buf[256 + |m.payload|..])
  {
    var text := PayloadText(h, m);
    PrintedZeroFree(PayloadValues(h, m), PayloadTail(PayloadKindOf(m)));
    ok := WriteParts(buf, text, m.payload);
  }

  lemma {:induction false} BehindTheText(tail: seq<byte>, b: seq<byte>, from: nat, at: nat)
    requires from <= at <= |b| && tail == b[from..]
    ensures tail[at - from..] == b[at..]
  {
  }

  method WriteParts(buf: array<byte>, text: seq<byte>, payload: seq<byte>) returns (ok: bool)
    requires |text| < buf.Length && ZeroFree(text) && 256 + |payload| <= buf.Length
    modifies buf
    ensures ok <==> |text| < 256
    ensures CString(buf[..]) == text && 0 in buf[..]
    ensures ok ==> buf[256..256 + |payload|] == payload
    ensures ok ==> buf[256 + |payload|..] == old(buf[256 + |payload|..])
  {
    StartText(buf, text);
    var n := StrLen(buf);
    assert n == |CString(buf[..])|;
    ok := n < OFFSET;
    if ok {
      BehindTheText(old(buf[|text| + 1..]), old(buf[..]), |text| + 1, OFFSET + |payload|);
      BehindTheText(buf[|text| + 1..], buf[..], |text| + 1, OFFSET + |payload|);
      if |payload| > 0 {
        PutBehind(buf, OFFSET, payload, text);
      }
    }
  }

  /** The three payload deserializers; the text must be terminated inside the buffer. */
  method DeserializePayload(k: PayloadKind, buf: array<byte>) returns (result: Option<(Header, PayloadMessage)>)
    requires buf.Length == MAX_MESSAGE_SIZE && 0 in buf[..]
    ensures result == Decode(k, buf[..])
  {
    var n := StrLen(buf);
    var v := Sscanf(PayloadConvs(k), buf[..n]);
    if |v| != |PayloadConvs(k)| || !Matches(PayloadConvs(k), v) || n >= OFFSET {
      return None;
    }
    var bytes := v[|v| - 1].bits;
    if OFFSET + bytes > buf.Length {
      return None;
    }
    result := Some(Assemble(k, v, buf[OFFSET..OFFSET + bytes]));
  }

  /** Sender and receiver together, on one buffer: the message comes back, is refused, or the sender aborts. */
  method Transmit(buf: array<byte>, h: Header, m: PayloadMessage) returns (result: Option<(Header, PayloadMessage)>)
    requires buf.Length == MAX_MESSAGE_SIZE && |m.payload| <= MAX_PAYLOAD
    requires ZeroFreeValues(PayloadValues(h, m)) && |PayloadText(h, m)| < MAX_MESSAGE_SIZE
    modifies buf
    ensures result == Some((h, m)) <==> AllPrintable(PayloadValues(h, m)) && |PayloadText(h, m)| < 256
  {
    var ok := SerializePayload(buf, h, m);
    if !ok {
      return None;
    }
    result := DeserializePayload(PayloadKindOf(m), buf);
    PayloadRoundTrip(h, m, buf[..]);
  }
}
