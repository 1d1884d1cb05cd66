/**
 The fixed-field messages of src/network/protocol.c: their printed text, what the matching
 deserializer reads back, and the header test by which the server chooses a handler.
 */
module Messages {
  import opened Options
  import opened Word32
  import opened TextFormat

  datatype Header = Header(sourceType: u32, messageType: u32)

  /** `Ready` stands for the three messages that share one layout: ready tbon, ready dynamic pm, processes done. */
  datatype Message =
    | HeaderOnly
    | RegisterConnection(pid: u32, hostname: seq<byte>)
    | DeregisterConnection(pid: u32, hostname: seq<byte>, errorCode: i32)
    | CreateTbon(id: u32, degree: u32, total: u32, nodes: seq<byte>)
    | Ready(id: u32, subtreeReadyCount: u32, readyError: u32)
    | DeregisterProcessManager(pid: u32, hostname: seq<byte>, errorCode: i32)
    | AllocationRequest(applicationIndex: u32, partitionIndex: u32, operation: u32, nodeCount: u32)
    | ReallocationStart(applicationIndex: u32, partitionIndex: u32, operation: u32,
                        currentCount: u32, currentNodes: seq<byte>,
                        deltaCount: u32, deltaNodes: seq<byte>,
                        updatedCount: u32, updatedNodes: seq<byte>)
    | ReallocationComplete(applicationIndex: u32, partitionIndex: u32, operation: u32,
                           nodeCount: u32, nodes: seq<byte>, statusCode: u32)

  datatype Kind =
    | KHeaderOnly | KRegisterConnection | KDeregisterConnection | KCreateTbon | KReady
    | KDeregisterProcessManager | KAllocationRequest | KReallocationStart | KReallocationComplete

  function KindOf(m: Message): Kind {
    match m
    case HeaderOnly => KHeaderOnly
    case RegisterConnection(_, _) => KRegisterConnection
    case DeregisterConnection(_, _, _) => KDeregisterConnection
    case CreateTbon(_, _, _, _) => KCreateTbon
    case Ready(_, _, _) => KReady
    case DeregisterProcessManager(_, _, _) => KDeregisterProcessManager
    case AllocationRequest(_, _, _, _) => KAllocationRequest
    case ReallocationStart(_, _, _, _, _, _, _, _, _) => KReallocationStart
    case ReallocationComplete(_, _, _, _, _, _) => KReallocationComplete
  }

  const NEWLINE: byte := 10

  /** What the printing format puts after its last conversion. */
  function TailOf(k: Kind): seq<byte> {
    match k
    case KDeregisterProcessManager => [BLANK, NEWLINE]
    case KAllocationRequest => [BLANK, NEWLINE]
    case KReallocationStart => [NEWLINE]
    case KReallocationComplete => [NEWLINE]
    case _ => []
  }

  /** The conversions of the scanning format, each %s with the size of the block it is given. */
  function ConvsOf(k: Kind): seq<Conv> {
    match k
    case KHeaderOnly => [Dec, Dec]
    case KRegisterConnection => [Dec, Dec, Dec, Word(256)]
    case KDeregisterConnection => [Dec, Dec, Dec, Word(256), Dec]
    case KCreateTbon => [Dec, Dec, Dec, Dec, Dec, Word(256)]
    case KReady => [Dec, Dec, Dec, Dec, Dec]
    case KDeregisterProcessManager => [Dec, Dec, Dec, Word(256), Dec]
    case KAllocationRequest => [Dec, Dec, Dec, Dec, Dec, Dec]
    case KReallocationStart =>
      [Dec, Dec, Dec, Dec, Dec, Dec, Word(1024), Dec, Word(1024), Dec, Word(1024)]
    case KReallocationComplete => [Dec, Dec, Dec, Dec, Dec, Dec, Word(256), Dec]
  }

  /** The arguments of the printing call, in order. */
  function ValuesOf(h: Header, m: Message): seq<Value> {
    var head := [Num(h.sourceType), Num(h.messageType)];
    match m
    case HeaderOnly => head
    case RegisterConnection(pid, host) => head + [Num(pid), Text(host)]
    case DeregisterConnection(pid, host, code) => head + [Num(pid), Text(host), Num(Wrap(code))]
    case CreateTbon(id, degree, total, nodes) => head + [Num(id), Num(degree), Num(total), Text(nodes)]
    case Ready(id, count, code) => head + [Num(id), Num(count), Num(code)]
    case DeregisterProcessManager(pid, host, code) => head + [Num(pid), Text(host), Num(Wrap(code))]
    case AllocationRequest(a, p, op, n) => head + [Num(a), Num(p), Num(op), Num(n)]
    case ReallocationStart(a, p, op, cn, cs, dn, ds, un, us) =>
      head + [Num(a), Num(p), Num(op), Num(cn), Text(cs), Num(dn), Text(ds), Num(un), Text(us)]
    case ReallocationComplete(a, p, op, n, nodes, status) =>
      head + [Num(a), Num(p), Num(op), Num(n), Text(nodes), Num(status)]
  }

  /** The structure that the scanned values fill; the caller makes sure that all of them were assigned. */
  function Rebuild(k: Kind, v: seq<Value>): (Header, Message)
    requires |v| == |ConvsOf(k)| && Matches(ConvsOf(k), v)
  {
    var h := Header(v[0].bits, v[1].bits);
    match k
    case KHeaderOnly => (h, HeaderOnly)
    case KRegisterConnection => (h, RegisterConnection(v[2].bits, v[3].chars))
    case KDeregisterConnection => (h, DeregisterConnection(v[2].bits, v[3].chars, AsSigned(v[4].bits)))
    case KCreateTbon => (h, CreateTbon(v[2].bits, v[3].bits, v[4].bits, v[5].chars))
    case KReady => (h, Ready(v[2].bits, v[3].bits, v[4].bits))
    case KDeregisterProcessManager => (h, DeregisterProcessManager(v[2].bits, v[3].chars, AsSigned(v[4].bits)))
    case KAllocationRequest => (h, AllocationRequest(v[2].bits, v[3].bits, v[4].bits, v[5].bits))
    case KReallocationStart =>
      (h, ReallocationStart(v[2].bits, v[3].bits, v[4].bits, v[5].bits, v[6].chars,
                            v[7].bits, v[8].chars, v[9].bits, v[10].chars))
    case KReallocationComplete =>
      (h, ReallocationComplete(v[2].bits, v[3].bits, v[4].bits, v[5].bits, v[6].chars, v[7].bits))
  }

  function Serialize(h: Header, m: Message): seq<byte> {
    Sprintf(ValuesOf(h, m), TailOf(KindOf(m)))
  }

  /**
   None when a conversion fails.  After a missing or wrong field the C code goes on with fields it never
   set; a string too long for its block it writes past the end.
   */
  function Deserialize(k: Kind, text: seq<byte>): Option<(Header, Message)> {
    var vals := Sscanf(ConvsOf(k), text);
    if |vals| == |ConvsOf(k)| && Matches(ConvsOf(k), vals) then Some(Rebuild(k, vals)) else None
  }

  lemma {:induction false} FormatsAgree(h: Header, m: Message)
    ensures |ValuesOf(h, m)| == |ConvsOf(KindOf(m))| && Matches(ConvsOf(KindOf(m)), ValuesOf(h, m))
    ensures Rebuild(KindOf(m), ValuesOf(h, m)) == (h, m)
  {
  }

  lemma {:induction false} RebuildLosesNothing(k: Kind, v: seq<Value>)
    requires |v| == |ConvsOf(k)| && Matches(ConvsOf(k), v)
    ensures ValuesOf(Rebuild(k, v).0, Rebuild(k, v).1) == v
  {
    if k.KDeregisterConnection? || k.KDeregisterProcessManager? {
      WrapSigned(v[4].bits);
    }
  }

  /** Every string, with its terminator, fits the block its deserializer allocates for it. */
  predicate FitsReceiver(m: Message) {
    match m
    case RegisterConnection(_, host) => |host| < 256
    case DeregisterConnection(_, host, _) => |host| < 256
    case CreateTbon(_, _, _, nodes) => |nodes| < 256
    case DeregisterProcessManager(_, host, _) => |host| < 256
    case ReallocationStart(_, _, _, _, cs, _, ds, _, us) => |cs| < 1024 && |ds| < 1024 && |us| < 1024
    case ReallocationComplete(_, _, _, _, nodes, _) => |nodes| < 256
    case _ => true
  }

  lemma {:induction false} BlocksAgree(h: Header, m: Message)
    ensures |ConvsOf(KindOf(m))| <= |ValuesOf(h, m)|
    ensures FitsReceiver(m) <==> AllWithin(ConvsOf(KindOf(m)), ValuesOf(h, m))
  {
    FormatsAgree(h, m);
    var convs, vals := ConvsOf(KindOf(m)), ValuesOf(h, m);
    if AllWithin(convs, vals) {
      assert forall i :: 0 <= i < |convs| ==> Within(convs[i], vals[i]);
      match m
      case RegisterConnection(_, _) => assert Within(convs[3], vals[3]);
      case DeregisterConnection(_, _, _) => assert Within(convs[3], vals[3]);
      case CreateTbon(_, _, _, _) => assert Within(convs[5], vals[5]);
      case DeregisterProcessManager(_, _, _) => assert Within(convs[3], vals[3]);
      case ReallocationStart(_, _, _, _, _, _, _, _, _) =>
        assert Within(convs[6], vals[6]) && Within(convs[8], vals[8]) && Within(convs[10], vals[10]);
      case ReallocationComplete(_, _, _, _, _, _) => assert Within(convs[6], vals[6]);
      case _ =>
    }
  }

  lemma {:induction false} DeserializesIffAssigned(k: Kind, text: seq<byte>, h: Header, m: Message)
    requires k == KindOf(m)
    ensures Deserialize(k, text) == Some((h, m)) <==> Sscanf(ConvsOf(k), text) == ValuesOf(h, m)
  {
    FormatsAgree(h, m);
    var v := Sscanf(ConvsOf(k), text);
    if |v| == |ConvsOf(k)| && Matches(ConvsOf(k), v) {
      RebuildLosesNothing(k, v);
    }
  }

  /**
   A message made of C strings comes back field by field, numbers of 2^31 and above included, exactly
   when its strings are non-empty and free of blanks and fit the blocks of the receiver.
   */
  lemma {:induction false} MessageRoundTrip(h: Header, m: Message)
    requires ZeroFreeValues(ValuesOf(h, m))
    ensures Deserialize(KindOf(m), Serialize(h, m)) == Some((h, m)) <==>
      AllPrintable(ValuesOf(h, m)) && FitsReceiver(m)
  {
    FormatsAgree(h, m);
    BlocksAgree(h, m);
    DeserializesIffAssigned(KindOf(m), Serialize(h, m), h, m);
    RoundTripIff(ConvsOf(KindOf(m)), ValuesOf(h, m), TailOf(KindOf(m)));
  }

  // ---------------------------------------------------------------- buffer sizes

  const MAX_MESSAGE_SIZE: nat := 4096

  lemma {:induction false} LengthOf(vals: seq<Value>, room: nat)
    requires forall i :: 0 <= i < |vals| && vals[i].Text? ==> |vals[i].chars| < room
    requires room >= 11
    ensures MaxLength(vals) <= (room + 1) * |vals|
  {
    if vals != [] {
      LengthOf(vals[1..], room);
      assert (room + 1) * |vals| == (room + 1) + (room + 1) * |vals[1..]|;
    }
  }

  lemma {:induction false} TailIsShort(m: Message)
    ensures |TailOf(KindOf(m))| <= 2
  {
  }

  lemma {:induction false} OtherMessagesAreShort(h: Header, m: Message)
    requires FitsReceiver(m) && !m.ReallocationStart?
    ensures |ValuesOf(h, m)| <= 8
    ensures forall i :: 0 <= i < |ValuesOf(h, m)| && ValuesOf(h, m)[i].Text? ==> |ValuesOf(h, m)[i].chars| < 256
  {
  }

  lemma {:induction false} StartIsShort(h: Header, m: Message)
    requires FitsReceiver(m) && m.ReallocationStart?
    ensures MaxLength(ValuesOf(h, m)) <= 8 * 12 + 3 * 1024
  {
    StartLength(ValuesOf(h, m));
  }

  /** A message whose strings fit the receiver never overruns the sender's 4096-byte buffer. */
  lemma {:induction false} SenderNeverOverruns(h: Header, m: Message)
    requires FitsReceiver(m)
    ensures |Serialize(h, m)| < MAX_MESSAGE_SIZE
  {
    var vals := ValuesOf(h, m);
    LengthBound(vals, TailOf(KindOf(m)));
    TailIsShort(m);
    if m.ReallocationStart? {
      StartIsShort(h, m);
    } else {
      OtherMessagesAreShort(h, m);
      LengthOf(vals, 256);
    }
  }

  lemma {:induction false} MaxLengthAt(vals: seq<Value>, k: nat)
    requires k < |vals|
    ensures MaxLength(vals[k..]) == (if vals[k].Num? then 12 else |vals[k].chars| + 1) + MaxLength(vals[k + 1..])
  {
    assert vals[k..][1..] == vals[k + 1..];
  }

  /** The longest layout: eight numbers and three node lists. */
  lemma {:induction false} StartLength(vals: seq<Value>)
    requires |vals| == 11
    requires forall i :: 0 <= i < 11 && i != 6 && i != 8 && i != 10 ==> vals[i].Num?
    requires vals[6].Text? && vals[8].Text? && vals[10].Text?
    requires |vals[6].chars| < 1024 && |vals[8].chars| < 1024 && |vals[10].chars| < 1024
    ensures MaxLength(vals) <= 8 * 12 + 3 * 1024
  {
    LengthOf(vals[..6], 11);
    assert forall i :: 0 <= i < 6 ==> vals[..6][i] == vals[i];
    MaxLengthSplit(vals, 6);
    MaxLengthAt(vals, 6);
    MaxLengthAt(vals, 7);
    MaxLengthAt(vals, 8);
    MaxLengthAt(vals, 9);
    MaxLengthAt(vals, 10);
    assert vals[11..] == [];
  }

  lemma {:induction false} MaxLengthSplit(vals: seq<Value>, k: nat)
    requires k <= |vals|
    ensures MaxLength(vals) == MaxLength(vals[..k]) + MaxLength(vals[k..])
    decreases k
  {
    if k > 0 {
      MaxLengthSplit(vals[1..], k - 1);
      assert vals[..k][1..] == vals[1..][..k - 1] && vals[1..][k - 1..] == vals[k..];
    }
  }

  // ---------------------------------------------------------------- dispatch

  datatype Route = ToRegister | ToDeregister | ToHandler | Unreadable

  /** The choice of _dynpm_top_server_handler, which scans only the two header fields. */
  function Dispatch(text: seq<byte>): Route {
    var vals := Sscanf([Dec, Dec], text);
    if |vals| < 2 || !vals[1].Num? then Unreadable
    else if vals[1].bits == 1 then ToRegister
    else if vals[1].bits == 2 then ToDeregister
    else ToHandler
  }

  /** What the printed text holds behind the first two values. */
  function BehindTwo(vals: seq<Value>, tail: seq<byte>): seq<byte>
    requires |vals| >= 2
  {
    if |vals| == 2 then tail else [BLANK] + Sprintf(vals[2..], tail)
  }

  lemma {:induction false} FirstTwo(vals: seq<Value>, tail: seq<byte>)
    requires |vals| >= 2
    ensures Sprintf(vals, tail) == Sprintf(vals[..2], BehindTwo(vals, tail))
  {
    var rest := BehindTwo(vals, tail);
    assert vals[1..][1..] == vals[2..];
    assert Sprintf(vals[1..], tail) == PrintValue(vals[1]) + rest;
    assert vals[..2][1..] == [vals[1]];
    assert Sprintf([vals[1]], rest) == PrintValue(vals[1]) + rest;
  }

  /**
   Whatever follows the header, a printed message is routed by the message type it was sent with: 1 is
   a registration, 2 a deregistration, everything else goes to the handler of the application.
   */
  lemma {:induction false} DispatchFollowsHeader(h: Header, vals: seq<Value>, tail: seq<byte>)
    requires |vals| >= 2 && vals[0] == Num(h.sourceType) && vals[1] == Num(h.messageType)
    requires |vals| > 2 || Ends(tail)
    ensures Sscanf([Dec, Dec], Sprintf(vals, tail)) == [Num(h.sourceType), Num(h.messageType)]
    ensures Dispatch(Sprintf(vals, tail)) ==
      if h.messageType == 1 then ToRegister else if h.messageType == 2 then ToDeregister else ToHandler
  {
    FirstTwo(vals, tail);
    RoundTrip([Dec, Dec], vals[..2], BehindTwo(vals, tail));
    assert vals[..2] == [vals[0], vals[1]];
  }

  lemma {:induction false} MessageDispatch(h: Header, m: Message)
    ensures Dispatch(Serialize(h, m)) ==
      if h.messageType == 1 then ToRegister else if h.messageType == 2 then ToDeregister else ToHandler
  {
    DispatchFollowsHeader(h, ValuesOf(h, m), TailOf(KindOf(m)));
  }
}
