/**
 The table of outgoing connections of src/network/client.c and the cascade with which
 src/network/server.c drops the connections that belong to a lost client.
 */
module Connections {
  import opened Options

  const MAX_CONNECTIONS: nat := 64

  /** A handle names an incoming connection; `target` names the server a slot is connected to. */
  type Handle = nat

  datatype Entry = Entry(target: nat, parent: Option<Handle>, index: nat)

  datatype Table = Table(slots: seq<Option<Entry>>, count: int)

  function Occupied(slots: seq<Option<Entry>>): (n: nat)
    ensures n <= |slots|
  {
    if slots == [] then 0
    else Occupied(slots[..|slots| - 1]) + if slots[|slots| - 1].Some? then 1 else 0
  }

  function FirstFree(slots: seq<Option<Entry>>): (i: nat)
    ensures i <= |slots|
    ensures i < |slots| ==> slots[i].None?
    ensures forall j :: 0 <= j < i ==> slots[j].Some?
  {
    if slots == [] || slots[0].None? then 0 else 1 + FirstFree(slots[1..])
  }

  predicate Shaped(t: Table) {
    && |t.slots| == MAX_CONNECTIONS
    && forall i :: 0 <= i < |t.slots| && t.slots[i].Some? ==> t.slots[i].value.index == i
  }

  predicate Valid(t: Table) {
    Shaped(t) && t.count == Occupied(t.slots)
  }

  const EMPTY: Table := Table(seq(MAX_CONNECTIONS, _ => None), 0)

  // ---------------------------------------------------------------- the operations on values

  datatype Outcome = LimitExceeded | NoNullEntry | Placed(index: nat)

  function OutcomeOf(t: Table): Outcome {
    if t.count > MAX_CONNECTIONS - 1 then LimitExceeded
    else if FirstFree(t.slots) >= |t.slots| then NoNullEntry
    else Placed(FirstFree(t.slots))
  }

  /** The table part of dynpm_connect_to_server: the count grows before a free slot is looked for. */
  function Connect(t: Table, target: nat, parent: Option<Handle>): Table {
    match OutcomeOf(t)
    case LimitExceeded => t
    case NoNullEntry => t.(count := t.count + 1)
    case Placed(i) => Table(t.slots[i := Some(Entry(target, parent, i))], t.count + 1)
  }

  /** The table part of dynpm_disconnect_from_server: slot cleared and count lowered, occupied or not. */
  function Disconnect(t: Table, i: nat): Table
    requires i < |t.slots|
  {
    Table(t.slots[i := None], t.count - 1)
  }

  predicate OwnedBy(slot: Option<Entry>, lost: Handle) {
    slot.Some? && slot.value.parent == Some(lost)
  }

  /** The loop of _server_on_error from slot `i` on. */
  function CascadeFrom(t: Table, lost: Handle, i: nat): (r: Table)
    requires i <= |t.slots|
    ensures |r.slots| == |t.slots|
    decreases |t.slots| - i
  {
    if i == |t.slots| then t
    else CascadeFrom(if OwnedBy(t.slots[i], lost) then Disconnect(t, i) else t, lost, i + 1)
  }

  function Cascade(t: Table, lost: Handle): Table {
    CascadeFrom(t, lost, 0)
  }

  // ---------------------------------------------------------------- counting

  lemma {:induction false} OccupiedUpdate(slots: seq<Option<Entry>>, i: nat, e: Option<Entry>)
    requires i < |slots|
    ensures Occupied(slots[i := e]) ==
      Occupied(slots) - (if slots[i].Some? then 1 else 0) + (if e.Some? then 1 else 0)
  {
    var n := |slots| - 1;
    if i < n {
      OccupiedUpdate(slots[..n], i, e);
      assert slots[i := e][..n] == slots[..n][i := e];
    } else {
      assert slots[i := e][..n] == slots[..n];
    }
  }

  lemma {:induction false} FirstFreeIs(slots: seq<Option<Entry>>, i: nat)
    requires i <= |slots| && (forall j :: 0 <= j < i ==> slots[j].Some?) && (i < |slots| ==> slots[i].None?)
    ensures FirstFree(slots) == i
  {
    if i > 0 {
      FirstFreeIs(slots[1..], i - 1);
    }
  }

  lemma {:induction false} FullMeansNoFree(slots: seq<Option<Entry>>)
    ensures Occupied(slots) == |slots| <==> FirstFree(slots) == |slots|
  {
    if slots != [] {
      var n := |slots| - 1;
      FullMeansNoFree(slots[..n]);
      assert FirstFree(slots) == |slots| ==> forall j :: 0 <= j < |slots| ==> slots[j].Some?;
      assert FirstFree(slots[..n]) == n ==> forall j :: 0 <= j < n ==> slots[..n][j] == slots[j];
      assert FirstFree(slots[..n]) < n ==> slots[FirstFree(slots[..n])].None?;
      assert FirstFree(slots) < n ==> slots[..n][FirstFree(slots)].None?;
    }
  }

  lemma {:induction false} EmptyOccupied(slots: seq<Option<Entry>>)
    requires forall i :: 0 <= i < |slots| ==> slots[i].None?
    ensures Occupied(slots) == 0
  {
    if slots != [] {
      EmptyOccupied(slots[..|slots| - 1]);
    }
  }

  /**
   With a right count the "no NULL entry" branch cannot be reached: a connect is refused or takes the
   first free slot.
   */
  lemma PigeonholeConnect(t: Table)
    requires Valid(t)
    ensures !OutcomeOf(t).NoNullEntry?
    ensures OutcomeOf(t).LimitExceeded? <==> Occupied(t.slots) == MAX_CONNECTIONS
  {
    FullMeansNoFree(t.slots);
  }

  /** A disconnect keeps the count right exactly when the slot was occupied. */
  lemma DisconnectKeepsCountIff(t: Table, i: nat)
    requires Valid(t) && i < |t.slots|
    ensures Valid(Disconnect(t, i)) <==> t.slots[i].Some?
  {
    OccupiedUpdate(t.slots, i, None);
  }

  // ---------------------------------------------------------------- the cascade

  /** How many slots belong to `lost`. */
  function OwnedCount(slots: seq<Option<Entry>>, lost: Handle): nat {
    if slots == [] then 0
    else OwnedCount(slots[..|slots| - 1], lost) + if OwnedBy(slots[|slots| - 1], lost) then 1 else 0
  }

  lemma {:induction false} OwnedUpdate(slots: seq<Option<Entry>>, lost: Handle, i: nat)
    requires i < |slots|
    ensures OwnedCount(slots[i := None], lost) ==
      OwnedCount(slots, lost) - if OwnedBy(slots[i], lost) then 1 else 0
  {
    var n := |slots| - 1;
    if i < n {
      OwnedUpdate(slots[..n], lost, i);
      assert slots[i := None][..n] == slots[..n][i := None];
    } else {
      assert slots[i := None][..n] == slots[..n];
    }
  }

  lemma {:induction false} CascadeSlots(t: Table, lost: Handle, i: nat)
    requires i <= |t.slots|
    ensures forall j :: 0 <= j < |t.slots| ==>
      CascadeFrom(t, lost, i).slots[j] == if j >= i && OwnedBy(t.slots[j], lost) then None else t.slots[j]
    ensures CascadeFrom(t, lost, i).count - Occupied(CascadeFrom(t, lost, i).slots) == t.count - Occupied(t.slots)
    decreases |t.slots| - i
  {
    if i < |t.slots| {
      OccupiedUpdate(t.slots, i, None);
      CascadeSlots(if OwnedBy(t.slots[i], lost) then Disconnect(t, i) else t, lost, i + 1);
    }
  }

  /**
   A cascade empties the slots whose parent is the lost connection, no others, and lowers the count by
   as many; so a right count stays right.
   */
  lemma CascadeRemovesExactlyOwned(t: Table, lost: Handle)
    ensures |Cascade(t, lost).slots| == |t.slots|
    ensures forall j :: 0 <= j < |t.slots| ==>
      Cascade(t, lost).slots[j] ==
      if t.slots[j].Some? && t.slots[j].value.parent == Some(lost) then None else t.slots[j]
    ensures t.count - Cascade(t, lost).count == Occupied(t.slots) - Occupied(Cascade(t, lost).slots)
    ensures Valid(t) ==> Valid(Cascade(t, lost))
  {
    CascadeSlots(t, lost, 0);
  }

  // ---------------------------------------------------------------- one slot

  predicate FirstEmpty(slots: seq<Option<Entry>>, i: nat) {
    i < |slots| && slots[i].None? && forall j :: 0 <= j < i ==> slots[j].Some?
  }

  /**
   A connect is refused, without a trace, when the count is 64 or more; otherwise the count grows, and
   the first empty slot, if there is one, holds the given server and parent, all other slots being as before.
   */
  lemma ConnectFillsFirstFree(t: Table, target: nat, parent: Option<Handle>)
    ensures t.count >= 64 ==> Connect(t, target, parent) == t
    ensures t.count < 64 ==> Connect(t, target, parent).count == t.count + 1
    ensures t.count < 64 && (forall j :: 0 <= j < |t.slots| ==> t.slots[j].Some?) ==>
      Connect(t, target, parent).slots == t.slots
    ensures forall i | 0 <= i < |t.slots| && t.count < 64 && FirstEmpty(t.slots, i) ::
      Connect(t, target, parent).slots == t.slots[i := Some(Entry(target, parent, i))]
  {
    forall i | 0 <= i < |t.slots| && t.count < 64 && FirstEmpty(t.slots, i)
      ensures Connect(t, target, parent).slots == t.slots[i := Some(Entry(target, parent, i))]
    {
      FirstFreeIs(t.slots, i);
    }
  }

  /** With a right count the cascade's asserts hold. */
  lemma {:induction false} OwnedIsOccupied(slots: seq<Option<Entry>>, lost: Handle)
    ensures OwnedCount(slots, lost) <= Occupied(slots)
  {
    if slots != [] {
      OwnedIsOccupied(slots[..|slots| - 1], lost);
    }
  }

  /** Connects to `targets`, one after the other, on behalf of the same parent. */
  function ConnectAll(t: Table, targets: seq<nat>, parent: Handle): Table
    decreases |targets|
  {
    if targets == [] then t else ConnectAll(Connect(t, targets[0], Some(parent)), targets[1..], parent)
  }

  /** The servers connected to on behalf of `owner`. */
  function OwnedTargets(t: Table, owner: Handle): set<nat> {
    set i | 0 <= i < |t.slots| && OwnedBy(t.slots[i], owner) :: t.slots[i].value.target
  }

  /** Some slot holds a connection to `target` whose parent is `owner`. */
  predicate HoldsLink(t: Table, owner: Handle, target: nat) {
    exists i :: 0 <= i < |t.slots| && t.slots[i].Some?
      && t.slots[i].value.parent == Some(owner) && t.slots[i].value.target == target
  }

  lemma OwnedTargetsAreLinks(t: Table, owner: Handle, target: nat)
    ensures target in OwnedTargets(t, owner) <==> HoldsLink(t, owner, target)
  {
    assert forall i :: 0 <= i < |t.slots| ==>
      (OwnedBy(t.slots[i], owner) <==> t.slots[i].Some? && t.slots[i].value.parent == Some(owner));
  }

  lemma OwnedTargetsPlaced(t: Table, target: nat, owner: Handle)
    requires OutcomeOf(t).Placed?
    ensures OwnedTargets(Connect(t, target, Some(owner)), owner) == OwnedTargets(t, owner) + {target}
  {
    var u, i := Connect(t, target, Some(owner)), FirstFree(t.slots);
    assert OwnedBy(u.slots[i], owner) && u.slots[i].value.target == target;
    assert forall j :: 0 <= j < |t.slots| && j != i ==> u.slots[j] == t.slots[j];
  }

  function Elements(xs: seq<nat>): set<nat> {
    set x | x in xs
  }

  function Room(t: Table, n: nat): (k: nat)
    requires Valid(t)
    ensures k <= n
  {
    if n <= MAX_CONNECTIONS - Occupied(t.slots) then n else MAX_CONNECTIONS - Occupied(t.slots)
  }

  lemma {:induction false} FullStaysFull(t: Table, targets: seq<nat>, owner: Handle)
    requires Valid(t) && t.count == MAX_CONNECTIONS
    ensures ConnectAll(t, targets, owner) == t
    decreases |targets|
  {
    if targets != [] {
      FullStaysFull(t, targets[1..], owner);
    }
  }

  /** One connect that finds room, and what it leaves for the following ones. */
  lemma ConnectOne(t: Table, targets: seq<nat>, owner: Handle)
    requires Valid(t) && targets != [] && t.count < MAX_CONNECTIONS
    ensures var u := Connect(t, targets[0], Some(owner));
      && Valid(u) && Room(t, |targets|) == 1 + Room(u, |targets| - 1)
      && OwnedTargets(u, owner) == OwnedTargets(t, owner) + {targets[0]}
  {
    PigeonholeConnect(t);
    StepAccounting(t, DoConnect(targets[0], Some(owner)));
    OwnedTargetsPlaced(t, targets[0], owner);
  }

  lemma ElementsPrefix(xs: seq<nat>, k: nat)
    requires 1 <= k <= |xs|
    ensures Elements(xs[..k]) == {xs[0]} + Elements(xs[1..][..k - 1])
  {
    assert xs[..k] == [xs[0]] + xs[1..][..k - 1];
  }

  /** Connecting to several servers reaches the first ones, as many as there are free slots. */
  lemma {:induction false} ConnectAllTargets(t: Table, targets: seq<nat>, owner: Handle)
    requires Valid(t)
    ensures Valid(ConnectAll(t, targets, owner))
    ensures OwnedTargets(ConnectAll(t, targets, owner), owner) ==
      OwnedTargets(t, owner) + Elements(targets[..Room(t, |targets|)])
    decreases |targets|
  {
    if targets == [] {
    } else if t.count == MAX_CONNECTIONS {
      FullStaysFull(t, targets, owner);
    } else {
      ConnectOne(t, targets, owner);
      ConnectAllTargets(Connect(t, targets[0], Some(owner)), targets[1..], owner);
      ElementsPrefix(targets, Room(t, |targets|));
    }
  }

  // ---------------------------------------------------------------- runs

  datatype Action = DoConnect(target: nat, parent: Option<Handle>) | DoDisconnect(i: nat) | DoLose(lost: Handle)

  /** A disconnect whose assert on the count would fail ends the program. */
  predicate Enabled(t: Table, a: Action) {
    a.DoDisconnect? ==> a.i < |t.slots| && t.count >= 1
  }

  function Apply(t: Table, a: Action): Table
    requires Enabled(t, a)
  {
    match a
    case DoConnect(target, parent) => Connect(t, target, parent)
    case DoDisconnect(i) => Disconnect(t, i)
    case DoLose(lost) => Cascade(t, lost)
  }

  /** How far one action moves the count away from the number of occupied slots. */
  function Drift(t: Table, a: Action): int {
    match a
    case DoConnect(_, _) => if OutcomeOf(t).NoNullEntry? then 1 else 0
    case DoDisconnect(i) => if i < |t.slots| && t.slots[i].None? then -1 else 0
    case DoLose(_) => 0
  }

  ghost predicate Leads(t: Table, acts: seq<Action>, u: Table, drift: int)
    decreases |acts|
  {
    if acts == [] then t == u && drift == 0
    else Enabled(t, acts[0]) && Leads(Apply(t, acts[0]), acts[1..], u, drift - Drift(t, acts[0]))
  }

  lemma StepAccounting(t: Table, a: Action)
    requires Shaped(t) && Enabled(t, a)
    ensures Shaped(Apply(t, a))
    ensures Apply(t, a).count - Occupied(Apply(t, a).slots) == t.count - Occupied(t.slots) + Drift(t, a)
  {
    match a
    case DoConnect(target, parent) =>
      if OutcomeOf(t).Placed? {
        OccupiedUpdate(t.slots, FirstFree(t.slots), Some(Entry(target, parent, FirstFree(t.slots))));
      }
    case DoDisconnect(i) => OccupiedUpdate(t.slots, i, None);
    case DoLose(lost) => CascadeSlots(t, lost, 0);
  }

  lemma {:induction false} RunAccounting(t: Table, acts: seq<Action>, u: Table, drift: int)
    requires Shaped(t) && Leads(t, acts, u, drift)
    ensures Shaped(u)
    ensures u.count - Occupied(u.slots) == t.count - Occupied(t.slots) + drift
    decreases |acts|
  {
    if acts != [] {
      StepAccounting(t, acts[0]);
      RunAccounting(Apply(t, acts[0]), acts[1..], u, drift - Drift(t, acts[0]));
    }
  }

  /**
   In every run of connects, disconnects and cascades whatsoever, the count equals the occupied slots
   plus the failed searches minus the disconnects of empty slots; so it is right exactly when those
   two numbers balance.
   */
  lemma CountIsOccupiedPlusDrift(acts: seq<Action>, u: Table, drift: int)
    requires Leads(EMPTY, acts, u, drift)
    ensures u.count == Occupied(u.slots) + drift
    ensures Valid(u) <==> drift == 0
    ensures forall i :: 0 <= i < |u.slots| && u.slots[i].Some? ==> u.slots[i].value.index == i
  {
    EmptyOccupied(EMPTY.slots);
    RunAccounting(EMPTY, acts, u, drift);
  }

  ghost predicate OnlyOccupied(t: Table, acts: seq<Action>)
    decreases |acts|
  {
    acts == [] || (
      && Enabled(t, acts[0])
      && (acts[0].DoDisconnect? ==> t.slots[acts[0].i].Some?)
      && OnlyOccupied(Apply(t, acts[0]), acts[1..]))
  }

  /** If only occupied slots are disconnected, nothing drifts: the count stays right and no search ever fails. */
  lemma {:induction false} OccupiedDisconnectsNeverDrift(t: Table, acts: seq<Action>, u: Table, drift: int)
    requires Valid(t) && OnlyOccupied(t, acts) && Leads(t, acts, u, drift)
    ensures Valid(u) && drift == 0 && !OutcomeOf(u).NoNullEntry? && u.count >= 0
    decreases |acts|
  {
    PigeonholeConnect(t);
    if acts != [] {
      StepAccounting(t, acts[0]);
      OccupiedDisconnectsNeverDrift(Apply(t, acts[0]), acts[1..], u, drift - Drift(t, acts[0]));
    }
  }

  // ---------------------------------------------------------------- the C bodies

  /** How the part of a connect behind the table work goes. */
  datatype Setup = Started | EventSetupFails | LaterFails

  /** `locked` says that server_connections_mutex was left locked by a call that has returned. */
  class Client {
    const slots: array<Option<Entry>>
    var count: int
    var initialized: bool
    var locked: bool

    ghost function View(): Table
      reads this, slots
    {
      Table(slots[..], count)
    }

    /** The tables as statics: NULL slots, count -1, not initialized. */
    constructor ()
      ensures fresh(slots) && slots.Length == MAX_CONNECTIONS && !initialized && !locked && count == -1
    {
      slots := new Option<Entry>[MAX_CONNECTIONS](_ => None);
      count, initialized, locked := -1, false, false;
    }

    /** dynpm_client_init. */
    method Init()
      requires slots.Length == MAX_CONNECTIONS
      modifies this, slots
      ensures initialized
      ensures old(initialized) ==> View() == old(View()) && locked == old(locked)
      ensures !old(initialized) ==> View() == EMPTY && !locked
    {
      if initialized {
        return;
      }
      count := 0;
      for i := 0 to MAX_CONNECTIONS
        invariant forall j :: 0 <= j < i ==> slots[j] == None
        invariant count == 0
      {
        slots[i] := None;
      }
      assert slots[..] == EMPTY.slots;
      initialized, locked := true, false;
    }

    /**
     dynpm_connect_to_server.  If anything behind the table work fails the call fails but the slot stays
     taken; if it is one of the three event objects the mutex stays locked too, and every later connect
     and disconnect waits forever.
     */
    method ConnectToServer(target: nat, parent: Option<Handle>, setup: Setup) returns (code: int, index: int)
      requires slots.Length == MAX_CONNECTIONS && (initialized ==> !locked)
      modifies this, slots
      ensures initialized == old(initialized)
      ensures !initialized ==> code == -1 && View() == old(View()) && locked == old(locked)
      ensures initialized ==>
        && View() == Connect(old(View()), target, parent)
        && (code == 0 <==> OutcomeOf(old(View())).Placed? && setup.Started?)
        && (locked <==> OutcomeOf(old(View())).Placed? && setup.EventSetupFails?)
        && (OutcomeOf(old(View())).Placed? ==> index == OutcomeOf(old(View())).index)
      ensures code == 0 || code == -1
    {
      index := -1;
      if !initialized || count > MAX_CONNECTIONS - 1 {
        return -1, -1;
      }
      count := count + 1;
      var i := 0;
      while i < MAX_CONNECTIONS && slots[i].Some?
        invariant 0 <= i <= MAX_CONNECTIONS
        invariant forall j :: 0 <= j < i ==> slots[j].Some?
      {
        i := i + 1;
      }
      FirstFreeIs(slots[..], i);
      if i >= MAX_CONNECTIONS {
        return -1, -1;
      }
      index := i;
      slots[i] := Some(Entry(target, parent, i));
      locked := setup.EventSetupFails?;
      code := if setup.Started? then 0 else -1;
    }

    /** dynpm_disconnect_from_server; its assert demands a positive count. */
    method DisconnectFromServer(i: nat) returns (code: int)
      requires i < slots.Length && count >= 1 && !locked
      modifies this`count, slots
      ensures View() == Disconnect(old(View()), i)
      ensures slots[i] == None && count == old(count) - 1
      ensures forall j :: 0 <= j < slots.Length && j != i ==> slots[j] == old(slots[j])
      ensures code == if initialized && old(slots[i]).Some? then 0 else -1
    {
      code := if initialized then 0 else -1;
      if slots[i].None? {
        code := -1;
      }
      slots[i] := None;
      count := count - 1;
    }

    /** The asserts on the count hold, and the mutex can be taken, as often as the cascade disconnects. */
    ghost predicate CanDrop(lost: Handle)
      reads this, slots
    {
      && slots.Length == MAX_CONNECTIONS && OwnedCount(slots[..], lost) <= count
      && (OwnedCount(slots[..], lost) > 0 ==> !locked)
    }

    /** The loop of _server_on_error over the table. */
    method DropOwned(lost: Handle)
      requires CanDrop(lost)
      modifies this`count, slots
      ensures View() == Cascade(old(View()), lost)
      ensures forall j :: 0 <= j < slots.Length ==>
        slots[j] == old(if slots[j].Some? && slots[j].value.parent == Some(lost) then None else slots[j])
    {
      CascadeRemovesExactlyOwned(View(), lost);
      var i := 0;
      while i < MAX_CONNECTIONS
        invariant 0 <= i <= MAX_CONNECTIONS && CanDrop(lost)
        invariant CascadeFrom(View(), lost, i) == CascadeFrom(old(View()), lost, 0)
      {
        if OwnedBy(slots[i], lost) {
          OwnedUpdate(slots[..], lost, i);
          var _ := DisconnectFromServer(i);
        }
        i := i + 1;
      }
    }
  }

  /** A list without its first occurrence of `c`: LIST_REMOVE of the element a search finds. */
  function Without(cs: seq<Handle>, c: Handle): seq<Handle> {
    if cs == [] then [] else if cs[0] == c then cs[1..] else [cs[0]] + Without(cs[1..], c)
  }

  lemma {:induction false} WithoutRemovesOne(cs: seq<Handle>, c: Handle)
    ensures multiset(Without(cs, c)) == multiset(cs) - multiset{c}
  {
    if cs != [] {
      assert cs == [cs[0]] + cs[1..];
      WithoutRemovesOne(cs[1..], c);
    }
  }

  class Server {
    var clients: seq<Handle>
    const client: Client

    constructor (client: Client)
      ensures this.client == client && clients == []
    {
      this.client := client;
      clients := [];
    }

    /** The list part of _client_connection_setup. */
    method Accept(c: Handle)
      modifies this`clients
      ensures clients == [c] + old(clients)
    {
      clients := [c] + clients;
    }

    /** The end-of-file branch of _server_on_error: only a listed connection triggers the cascade. */
    method OnClientLost(c: Handle)
      requires c in clients ==> client.CanDrop(c)
      modifies this`clients, client`count, client.slots
      ensures clients == Without(old(clients), c)
      ensures client.View() == if c in old(clients) then Cascade(old(client.View()), c) else old(client.View())
      ensures forall j :: 0 <= j < client.slots.Length ==>
        client.slots[j] ==
        if c in old(clients) && old(client.slots[j]).Some? && old(client.slots[j]).value.parent == Some(c) then None
        else old(client.slots[j])
    {
      var i := 0;
      while i < |clients| && clients[i] != c
        invariant 0 <= i <= |clients| && c !in clients[..i]
      {
        i := i + 1;
      }
      if i < |clients| {
        client.DropOwned(c);
        WithoutFound(clients, c, i);
        clients := clients[..i] + clients[i + 1..];
      } else {
        assert clients[..i] == clients;
        WithoutMissing(clients, c);
      }
    }
  }

  lemma {:induction false} WithoutFound(cs: seq<Handle>, c: Handle, i: nat)
    requires i < |cs| && cs[i] == c && c !in cs[..i]
    ensures Without(cs, c) == cs[..i] + cs[i + 1..]
  {
    if i > 0 {
      assert cs[..i][0] == cs[0];
      assert cs[1..][..i - 1] == cs[..i][1..];
      WithoutFound(cs[1..], c, i - 1);
      assert cs[..i] == [cs[0]] + cs[1..][..i - 1] && cs[1..][i..] == cs[i + 1..];
    }
  }

  lemma {:induction false} WithoutMissing(cs: seq<Handle>, c: Handle)
    requires c !in cs
    ensures Without(cs, c) == cs
  {
    if cs != [] {
      WithoutMissing(cs[1..], c);
    }
  }
}
