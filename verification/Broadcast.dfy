/**
 A message going down the tree: the root sends it to its children and every vertex that receives it
 sends it on with the loop of src/network/tbon.c, which stops at the first child whose link is down.
 Messages arrive in any order.
 */
module Broadcast {
  import opened Distinct
  import opened Tbon

  /** The tree and, for every non-root vertex, whether the link above it is up. */
  datatype Tree = Tree(degree: nat, total: nat, up: nat -> bool)

  /** How many of the `n` vertices from `first` on the send loop gets through. */
  function UpRun(first: nat, n: nat, up: nat -> bool): (k: nat)
    ensures k <= n
    ensures forall u :: first <= u < first + k ==> up(u)
    ensures k < n ==> !up(first + k)
    decreases n
  {
    if n == 0 || !up(first) then 0 else 1 + UpRun(first + 1, n - 1, up)
  }

  /** The children that vertex `p` sends to. */
  function Targets(g: Tree, p: nat): (ids: seq<nat>)
    ensures |ids| == UpRun(FirstChild(p, g.degree), ChildCount(p, g.degree, g.total), g.up)
    ensures ids <= Children(p, g.degree, g.total)
  {
    Children(p, g.degree, g.total)[..UpRun(FirstChild(p, g.degree), ChildCount(p, g.degree, g.total), g.up)]
  }

  /** The send loop of the parent of `v` gets as far as `v`: the links to `v` and to its elder siblings are up. */
  predicate Served(g: Tree, v: nat)
    requires g.degree >= 1
  {
    1 <= v < g.total && forall u :: FirstChild(Parent(v, g.degree), g.degree) <= u <= v ==> g.up(u)
  }

  /** Every vertex on the way from the root down to `v` is served. */
  predicate Reachable(g: Tree, v: nat)
    requires g.degree >= 1
    decreases v
  {
    Served(g, v) && (ParentDecreases(v, g.degree); Parent(v, g.degree) == 0 || Reachable(g, Parent(v, g.degree)))
  }

  /** Messages under way, by destination; the deliveries so far; how many messages were sent. */
  datatype Net = Net(flying: multiset<nat>, log: seq<nat>, sent: nat)

  function Start(g: Tree): Net {
    Net(multiset(Targets(g, 0)), [], |Targets(g, 0)|)
  }

  function Deliver(s: Net, v: nat, g: Tree): Net
    requires v in s.flying
  {
    Net(s.flying - multiset{v} + multiset(Targets(g, v)), s.log + [v], s.sent + |Targets(g, v)|)
  }

  /** Delivering to `order`, one after the other, takes `s` to `t`. */
  ghost predicate Leads(s: Net, order: seq<nat>, t: Net, g: Tree)
    decreases |order|
  {
    if order == [] then s == t
    else order[0] in s.flying && Leads(Deliver(s, order[0], g), order[1..], t, g)
  }

  /** The message has been sent to `v`. */
  predicate SentTo(s: Net, v: nat, g: Tree)
    requires g.degree >= 1
  {
    Served(g, v) && (Parent(v, g.degree) == 0 || Parent(v, g.degree) in s.log)
  }

  ghost predicate Inv(s: Net, g: Tree)
    requires g.degree >= 1
  {
    && (forall v: nat :: multiset(s.log)[v] + s.flying[v] == if SentTo(s, v, g) then 1 else 0)
    && s.sent == |s.log| + |s.flying|
  }

  // ---------------------------------------------------------------- the targets

  lemma TargetsAreServed(g: Tree, p: nat, c: nat)
    requires g.degree >= 1
    ensures c in Targets(g, p) <==> Served(g, c) && Parent(c, g.degree) == p
  {
    var ids, all := Targets(g, p), Children(p, g.degree, g.total);
    ChildrenInvertParent(p, c, g.degree, g.total);
    if c in ids {
      var i :| 0 <= i < |ids| && ids[i] == c;
      assert all[i] == c;
    }
    if Served(g, c) && Parent(c, g.degree) == p {
      var i :| 0 <= i < |all| && all[i] == c;
      assert i < |ids| ==> ids[i] == c;
    }
  }

  lemma TargetMultiplicity(g: Tree, p: nat, c: nat)
    requires g.degree >= 1
    ensures multiset(Targets(g, p))[c] == if Served(g, c) && Parent(c, g.degree) == p then 1 else 0
  {
    TargetsAreServed(g, p, c);
    assert forall i :: 0 <= i < |Targets(g, p)| ==> Targets(g, p)[i] == Children(p, g.degree, g.total)[i];
    DistinctCount(Targets(g, p), c);
  }

  /** The send loop of vertex `id`, run on links that are up where the tree says so, sends to its targets. */
  method Forward(g: Tree, id: nat, childrenIds: array<int>, links: seq<int>, open: set<int>)
    returns (code: int, sent: seq<int>)
    requires childrenIds.Length == g.degree == |links|
    requires childrenIds[..] == ChildArray(id, g.degree, g.total)
    requires forall i :: 0 <= i < ChildCount(id, g.degree, g.total) ==>
      (links[i] in open <==> g.up(FirstChild(id, g.degree) + i))
    ensures sent == Targets(g, id)
    ensures code == if |Targets(g, id)| == ChildCount(id, g.degree, g.total) then 0 else -1
  {
    code, sent := SendToChildren(id, g.degree, g.total, childrenIds, links, open);
    forall u | FirstChild(id, g.degree) <= u < FirstChild(id, g.degree) + |sent|
      ensures g.up(u)
    {
      assert links[u - FirstChild(id, g.degree)] in open;
    }
    UpRunIs(FirstChild(id, g.degree), ChildCount(id, g.degree, g.total), g.up, |sent|);
    assert sent == Children(id, g.degree, g.total)[..|sent|];
  }

  lemma UpRunIs(first: nat, n: nat, up: nat -> bool, k: nat)
    requires k <= n && (forall u :: first <= u < first + k ==> up(u)) && (k < n ==> !up(first + k))
    ensures UpRun(first, n, up) == k
  {
  }

  // ---------------------------------------------------------------- the invariant

  lemma StartHoldsInv(g: Tree)
    requires g.degree >= 1
    ensures Inv(Start(g), g)
  {
    forall v: nat
      ensures multiset(Targets(g, 0))[v] == if Served(g, v) && Parent(v, g.degree) == 0 then 1 else 0
    {
      TargetMultiplicity(g, 0, v);
    }
  }

  lemma DeliverKeepsInv(s: Net, v: nat, g: Tree)
    requires g.degree >= 1 && Inv(s, g) && v in s.flying
    ensures Inv(Deliver(s, v, g), g)
  {
    var t := Deliver(s, v, g);
    assert v !in s.log by {
      assert multiset(s.log)[v] == 0;
    }
    forall c: nat
      ensures multiset(t.log)[c] + t.flying[c] == if SentTo(t, c, g) then 1 else 0
    {
      TargetMultiplicity(g, v, c);
      assert multiset(s.log)[c] + s.flying[c] == if SentTo(s, c, g) then 1 else 0;
    }
  }

  lemma {:induction false} RunKeepsInv(s: Net, order: seq<nat>, t: Net, g: Tree)
    requires g.degree >= 1 && Inv(s, g) && Leads(s, order, t, g)
    ensures Inv(t, g)
    decreases |order|
  {
    if order != [] {
      DeliverKeepsInv(s, order[0], g);
      RunKeepsInv(Deliver(s, order[0], g), order[1..], t, g);
    }
  }

  lemma {:induction false} LogRecordsOrder(s: Net, order: seq<nat>, t: Net, g: Tree)
    requires Leads(s, order, t, g)
    ensures t.log == s.log + order
    decreases |order|
  {
    if order != [] {
      LogRecordsOrder(Deliver(s, order[0], g), order[1..], t, g);
    }
  }

  lemma ReachedState(order: seq<nat>, t: Net, g: Tree)
    requires g.degree >= 1 && Leads(Start(g), order, t, g)
    ensures Inv(t, g) && t.log == order
  {
    StartHoldsInv(g);
    RunKeepsInv(Start(g), order, t, g);
    LogRecordsOrder(Start(g), order, t, g);
    assert Start(g).log + order == order;
  }

  lemma LogIsDistinct(s: Net, g: Tree)
    requires g.degree >= 1 && Inv(s, g)
    ensures forall i :: 0 <= i < |s.log| ==> 1 <= s.log[i] < g.total
    ensures forall i, j :: 0 <= i < j < |s.log| ==> s.log[i] != s.log[j]
  {
    forall i | 0 <= i < |s.log|
      ensures 1 <= s.log[i] < g.total
    {
      assert s.log[i] in multiset(s.log);
    }
    forall i, j | 0 <= i < j < |s.log|
      ensures s.log[i] != s.log[j]
    {
      RepeatCounts(s.log, i, j);
    }
  }

  /** With nothing under way, a vertex has been reached exactly when the whole way down to it is served. */
  lemma {:induction false} LoggedIffReachable(s: Net, v: nat, g: Tree)
    requires g.degree >= 1 && Inv(s, g) && s.flying == multiset{}
    ensures v in s.log <==> Reachable(g, v)
    decreases v
  {
    assert v in s.log <==> multiset(s.log)[v] > 0;
    assert v in s.log <==> SentTo(s, v, g);
    if Served(g, v) {
      ParentDecreases(v, g.degree);
      LoggedIffReachable(s, Parent(v, g.degree), g);
    }
  }

  // ---------------------------------------------------------------- main results

  /** At every moment of every run no vertex has the message twice, and a run has at most total-1 deliveries. */
  lemma BroadcastTerminates(order: seq<nat>, t: Net, g: Tree)
    requires g.degree >= 1 && g.total >= 1 && Leads(Start(g), order, t, g)
    ensures |order| <= g.total - 1
    ensures forall i, j :: 0 <= i < j < |order| ==> order[i] != order[j]
    ensures forall i :: 0 <= i < |order| ==> 1 <= order[i] < g.total
  {
    ReachedState(order, t, g);
    LogIsDistinct(t, g);
    DistinctIds(order, 1, g.total);
  }

  /**
   When nothing is under way any more, a vertex has received the message, and then once, exactly when
   the links on its way from the root and those to the elder siblings on that way are up.
   */
  lemma BroadcastReachesServed(order: seq<nat>, t: Net, g: Tree, v: nat)
    requires g.degree >= 1 && g.total >= 1 && Leads(Start(g), order, t, g) && t.flying == multiset{}
    ensures multiset(order)[v] == if Reachable(g, v) then 1 else 0
    ensures t.sent == |order|
  {
    ReachedState(order, t, g);
    LogIsDistinct(t, g);
    LoggedIffReachable(t, v, g);
    DistinctCount(order, v);
  }

  lemma RoomLeft(s: Net, g: Tree)
    requires g.degree >= 1 && g.total >= 1 && Inv(s, g)
    ensures |s.log| <= g.total - 1
  {
    LogIsDistinct(s, g);
    DistinctIds(s.log, 1, g.total);
  }

  ghost predicate CanComplete(s: Net, g: Tree) {
    exists more, u :: Leads(s, more, u, g) && u.flying == multiset{}
  }

  lemma CompletesAfter(s: Net, v: nat, g: Tree)
    requires v in s.flying && CanComplete(Deliver(s, v, g), g)
    ensures CanComplete(s, g)
  {
    var more, u :| Leads(Deliver(s, v, g), more, u, g) && u.flying == multiset{};
    assert ([v] + more)[1..] == more;
    assert Leads(s, [v] + more, u, g);
  }

  lemma {:induction false} CompletesFrom(s: Net, g: Tree)
    requires g.degree >= 1 && g.total >= 1 && Inv(s, g)
    ensures CanComplete(s, g)
    decreases g.total - |s.log|
  {
    if s.flying == multiset{} {
      assert Leads(s, [], s, g);
    } else {
      var v :| v in s.flying;
      DeliverKeepsInv(s, v, g);
      RoomLeft(Deliver(s, v, g), g);
      CompletesFrom(Deliver(s, v, g), g);
      CompletesAfter(s, v, g);
    }
  }

  /** From the start, and from every point of every run, the broadcast can be completed. */
  lemma BroadcastCompletes(order: seq<nat>, t: Net, g: Tree)
    requires g.degree >= 1 && g.total >= 1 && Leads(Start(g), order, t, g)
    ensures CanComplete(t, g)
  {
    ReachedState(order, t, g);
    CompletesFrom(t, g);
  }

  lemma {:induction false} AllUpReachesAll(g: Tree, v: nat)
    requires g.degree >= 1 && 1 <= v < g.total
    requires forall u: nat :: 1 <= u < g.total ==> g.up(u)
    ensures Reachable(g, v)
    decreases v
  {
    ParentDecreases(v, g.degree);
    if Parent(v, g.degree) != 0 {
      AllUpReachesAll(g, Parent(v, g.degree));
    }
  }

  lemma ReachedOnce(order: seq<nat>, t: Net, g: Tree, v: nat)
    requires g.degree >= 1 && g.total >= 1 && Leads(Start(g), order, t, g) && t.flying == multiset{}
    requires forall u: nat :: 1 <= u < g.total ==> g.up(u)
    ensures multiset(order)[v] == if 1 <= v < g.total then 1 else 0
    ensures 1 <= v < g.total ==> v in order
  {
    BroadcastReachesServed(order, t, g, v);
    if 1 <= v < g.total {
      AllUpReachesAll(g, v);
      assert v in multiset(order);
    }
  }

  /** With all links up every vertex but the root receives the message exactly once, by total-1 messages. */
  lemma BroadcastReachesAllOnce(order: seq<nat>, t: Net, g: Tree)
    requires g.degree >= 1 && g.total >= 1 && Leads(Start(g), order, t, g) && t.flying == multiset{}
    requires forall u: nat :: 1 <= u < g.total ==> g.up(u)
    ensures forall v: nat :: multiset(order)[v] == if 1 <= v < g.total then 1 else 0
    ensures |order| == g.total - 1 && t.sent == g.total - 1
  {
    BroadcastTerminates(order, t, g);
    forall v: nat
      ensures multiset(order)[v] == if 1 <= v < g.total then 1 else 0
      ensures 1 <= v < g.total ==> v in order
    {
      ReachedOnce(order, t, g, v);
    }
    DistinctIds(order, 1, g.total);
    BroadcastReachesServed(order, t, g, 0);
  }
}
