/**
 Losing a link of the tree.  Every vertex opens the links to its children with its own incoming link
 as their parent, so when that link drops the cascade drops the child links, whose loss is then noticed
 one level further down.  A vertex whose incoming link is no longer listed, because it was deregistered
 before, ignores the loss.  Loss notices are handled in any order.
 */
module Teardown {
  import opened Distinct
  import opened Options
  import opened Tbon
  import opened Connections

  /**
   One connection table per vertex, the vertices whose incoming link is listed at their server, those
   that have yet to notice the loss, and those that did, in order.
   */
  datatype Overlay = Overlay(tables: seq<Table>, listed: set<nat>, pending: set<nat>, log: seq<nat>)

  /** Vertex `v` handles the end of its incoming link, whose handle is `v`, as _server_on_error does. */
  function Notice(s: Overlay, v: nat): Overlay
    requires v in s.pending && v < |s.tables|
  {
    if v in s.listed then
      Overlay(s.tables[v := Cascade(s.tables[v], v)],
              s.listed - {v},
              s.pending - {v} + OwnedTargets(s.tables[v], v),
              s.log + [v])
    else s.(pending := s.pending - {v}, log := s.log + [v])
  }

  ghost predicate Leads(s: Overlay, order: seq<nat>, t: Overlay)
    decreases |order|
  {
    if order == [] then s == t
    else order[0] in s.pending && order[0] < |s.tables| && Leads(Notice(s, order[0]), order[1..], t)
  }

  /** The overlay before the loss, the vertex whose incoming link is lost, and the degree of the tree. */
  datatype Loss = Loss(tables: seq<Table>, listed: set<nat>, root: nat, degree: nat)

  /** Vertex `p` is listed and holds a link to `c` in the name of its own incoming link. */
  predicate Passes(g: Loss, p: nat, c: nat) {
    p in g.listed && p < |g.tables| && HoldsLink(g.tables[p], p, c)
  }

  /** The incoming link of `v` is lost: it is the one lost first, or its parent lost its own and passes that on. */
  predicate Cut(g: Loss, v: nat)
    requires g.degree >= 1
    decreases v
  {
    v == g.root
    || (v > 0 && (ParentDecreases(v, g.degree); Passes(g, Parent(v, g.degree), v) && Cut(g, Parent(v, g.degree))))
  }

  /** In the name of its incoming link vertex `v` holds links to children only, not necessarily to all. */
  ghost predicate HoldsChildLinks(t: Table, v: nat, degree: nat, total: nat) {
    forall c: nat :: HoldsLink(t, v, c) ==> c in Children(v, degree, total)
  }

  /** Every vertex that will react to the loss holds child links only. */
  ghost predicate Wired(g: Loss)
    requires g.degree >= 1
  {
    forall v :: 0 <= v < |g.tables| && v in g.listed && Cut(g, v) ==>
      HoldsChildLinks(g.tables[v], v, g.degree, |g.tables|)
  }

  /** Every vertex holds the links to all of its children, and no others, in the name of its incoming link. */
  ghost predicate FullyWired(g: Loss) {
    forall v, c: nat :: 0 <= v < |g.tables| ==>
      (HoldsLink(g.tables[v], v, c) <==> c in Children(v, g.degree, |g.tables|))
  }

  /** The state in which only the root of the loss has lost its incoming link. */
  function LinkLost(g: Loss): Overlay {
    Overlay(g.tables, g.listed, {g.root}, [])
  }

  // ---------------------------------------------------------------- opening the child links

  lemma FirstChildren(v: nat, degree: nat, total: nat, k: nat, c: nat)
    requires k <= ChildCount(v, degree, total)
    ensures c in Children(v, degree, total)[..k] <==> FirstChild(v, degree) <= c < FirstChild(v, degree) + k
  {
    if FirstChild(v, degree) <= c < FirstChild(v, degree) + k {
      assert Children(v, degree, total)[..k][c - FirstChild(v, degree)] == c;
    }
  }

  /**
   A vertex that connects to its children from a table without links of its own opens exactly its
   child links precisely when the table has a free slot for each.
   */
  lemma OpensChildrenIff(t: Table, v: nat, degree: nat, total: nat)
    requires Valid(t) && forall c: nat :: !HoldsLink(t, v, c)
    ensures
      (forall c: nat :: HoldsLink(ConnectAll(t, Children(v, degree, total), v), v, c) <==>
        c in Children(v, degree, total))
      <==> Occupied(t.slots) + ChildCount(v, degree, total) <= MAX_CONNECTIONS
  {
    var ids := Children(v, degree, total);
    var k := Room(t, |ids|);
    ConnectAllTargets(t, ids, v);
    assert ids[..|ids|] == ids;
    forall c: nat
      ensures HoldsLink(ConnectAll(t, ids, v), v, c) <==> FirstChild(v, degree) <= c < FirstChild(v, degree) + k
      ensures c in ids <==> FirstChild(v, degree) <= c < FirstChild(v, degree) + |ids|
    {
      OwnedTargetsAreLinks(t, v, c);
      OwnedTargetsAreLinks(ConnectAll(t, ids, v), v, c);
      FirstChildren(v, degree, total, k, c);
      FirstChildren(v, degree, total, |ids|, c);
    }
    if k < |ids| {
      assert ids[k] in ids;
    }
  }

  /** If every vertex connects to its children from a table with room for them, the tree is fully wired. */
  lemma OpeningWires(g: Loss, earlier: seq<Table>)
    requires g.degree >= 1 && |earlier| == |g.tables|
    requires forall v :: 0 <= v < |earlier| ==>
      && Valid(earlier[v]) && (forall c: nat :: !HoldsLink(earlier[v], v, c))
      && Occupied(earlier[v].slots) + g.degree <= MAX_CONNECTIONS
      && g.tables[v] == ConnectAll(earlier[v], Children(v, g.degree, |g.tables|), v)
    ensures FullyWired(g) && Wired(g)
  {
    forall v, c: nat | 0 <= v < |g.tables|
      ensures HoldsLink(g.tables[v], v, c) <==> c in Children(v, g.degree, |g.tables|)
    {
      OpensChildrenIff(earlier[v], v, g.degree, |g.tables|);
    }
  }

  // ---------------------------------------------------------------- the invariant

  lemma {:induction false} CutIsBelow(g: Loss, v: nat)
    requires g.degree >= 1 && Cut(g, v)
    ensures InSubtree(g.root, v, g.degree) && v >= g.root
    decreases v
  {
    if v != g.root {
      ParentDecreases(v, g.degree);
      CutIsBelow(g, Parent(v, g.degree));
    }
  }

  /** Vertex `v` has been told: it is the root of the loss, or its parent has handled its own loss and passed it on. */
  predicate Told(s: Overlay, g: Loss, v: nat)
    requires g.degree >= 1
  {
    v < |s.tables| && (v == g.root || (v >= 1 && Passes(g, Parent(v, g.degree), v) && Parent(v, g.degree) in s.log))
  }

  ghost predicate TablesInv(s: Overlay, g: Loss) {
    && |s.tables| == |g.tables|
    && (forall v :: 0 <= v < |g.tables| ==>
          s.tables[v] == if v in g.listed && v in s.log then Cascade(g.tables[v], v) else g.tables[v])
    && (forall v: nat :: v in s.listed <==> v in g.listed && v !in s.log)
  }

  ghost predicate NoticesInv(s: Overlay, g: Loss)
    requires g.degree >= 1
  {
    && (forall v: nat :: v in s.log || v in s.pending <==> Told(s, g, v))
    && (forall v: nat :: v in s.log ==> v !in s.pending)
    && (forall i, j :: 0 <= i < j < |s.log| ==> s.log[i] != s.log[j])
    && (forall v: nat :: v in s.log || v in s.pending ==> Cut(g, v))
  }

  ghost predicate Inv(s: Overlay, g: Loss)
    requires g.degree >= 1
  {
    TablesInv(s, g) && NoticesInv(s, g)
  }

  lemma ChildrenAreNew(s: Overlay, g: Loss, v: nat, c: nat)
    requires g.degree >= 1 && Inv(s, g) && v in s.pending && 1 <= c < |g.tables| && Parent(c, g.degree) == v
    ensures c !in s.log && c !in s.pending && c != v
  {
    ParentDecreases(c, g.degree);
    CutIsBelow(g, v);
    assert !Told(s, g, c);
  }

  /** The vertices told by the notice of a listed vertex are children to which it passes the loss on. */
  lemma OwnedAreChildren(s: Overlay, g: Loss, v: nat, c: nat)
    requires g.degree >= 1 && Wired(g) && Inv(s, g) && v in s.pending && v < |s.tables| && v in s.listed
    ensures s.tables[v] == g.tables[v]
    ensures c in OwnedTargets(s.tables[v], v) <==> 1 <= c < |g.tables| && Parent(c, g.degree) == v && Passes(g, v, c)
  {
    assert Cut(g, v);
    OwnedTargetsAreLinks(g.tables[v], v, c);
    ChildrenInvertParent(v, c, g.degree, |g.tables|);
  }

  lemma NoticeTells(s: Overlay, g: Loss, v: nat)
    requires g.degree >= 1 && Wired(g) && Inv(s, g) && v in s.pending && v < |s.tables|
    ensures NoticesInv(Notice(s, v), g)
  {
    var t := Notice(s, v);
    if v in s.listed {
      forall c: nat
        ensures c in OwnedTargets(s.tables[v], v) <==>
          1 <= c < |g.tables| && Parent(c, g.degree) == v && Passes(g, v, c)
        ensures c in OwnedTargets(s.tables[v], v) ==> c !in s.log && c !in s.pending && c != v && Cut(g, c)
      {
        OwnedAreChildren(s, g, v, c);
        if c in OwnedTargets(s.tables[v], v) {
          ChildrenAreNew(s, g, v, c);
        }
      }
    }
    forall c: nat
      ensures c in t.log || c in t.pending <==> Told(t, g, c)
    {
      assert c in s.log || c in s.pending <==> Told(s, g, c);
    }
  }

  lemma NoticeKeepsInv(s: Overlay, g: Loss, v: nat)
    requires g.degree >= 1 && Wired(g) && Inv(s, g) && v in s.pending && v < |s.tables|
    ensures Inv(Notice(s, v), g)
  {
    NoticeTells(s, g, v);
  }

  lemma {:induction false} RunKeepsInv(s: Overlay, order: seq<nat>, t: Overlay, g: Loss)
    requires g.degree >= 1 && Wired(g) && Inv(s, g) && Leads(s, order, t)
    ensures Inv(t, g)
    decreases |order|
  {
    if order != [] {
      NoticeKeepsInv(s, g, order[0]);
      RunKeepsInv(Notice(s, order[0]), order[1..], t, g);
    }
  }

  lemma {:induction false} LogRecordsOrder(s: Overlay, order: seq<nat>, t: Overlay)
    requires Leads(s, order, t)
    ensures t.log == s.log + order
    decreases |order|
  {
    if order != [] {
      LogRecordsOrder(Notice(s, order[0]), order[1..], t);
    }
  }

  lemma ReachedState(g: Loss, order: seq<nat>, t: Overlay)
    requires g.degree >= 1 && g.root < |g.tables| && Wired(g) && Leads(LinkLost(g), order, t)
    ensures Inv(t, g) && t.log == order
  {
    RunKeepsInv(LinkLost(g), order, t, g);
    LogRecordsOrder(LinkLost(g), order, t);
    assert [] + order == order;
  }

  lemma {:induction false} AllCutNoticed(s: Overlay, g: Loss, v: nat)
    requires g.degree >= 1 && Inv(s, g) && s.pending == {} && Cut(g, v) && v < |g.tables|
    ensures v in s.log
    decreases v
  {
    if v != g.root {
      ParentDecreases(v, g.degree);
      AllCutNoticed(s, g, Parent(v, g.degree));
    }
    assert Told(s, g, v);
  }

  lemma NoticedIsCut(t: Overlay, g: Loss, v: nat)
    requires g.degree >= 1 && Inv(t, g) && v in t.log
    ensures Cut(g, v) && g.root <= v < |g.tables|
  {
    assert Told(t, g, v);
    CutIsBelow(g, v);
  }

  lemma NoticedAreFew(s: Overlay, g: Loss)
    requires g.degree >= 1 && g.root < |g.tables| && Inv(s, g)
    ensures |s.log| <= |g.tables| - g.root
  {
    forall i | 0 <= i < |s.log|
      ensures g.root <= s.log[i] < |g.tables|
    {
      NoticedIsCut(s, g, s.log[i]);
    }
    DistinctIds(s.log, g.root, |g.tables|);
  }

  // ---------------------------------------------------------------- main results

  /** Every run handles each vertex at most once, only vertices that are cut off, and so ends. */
  lemma TeardownTerminates(g: Loss, order: seq<nat>, t: Overlay)
    requires g.degree >= 1 && g.root < |g.tables| && Wired(g) && Leads(LinkLost(g), order, t)
    ensures |order| <= |g.tables| - g.root
    ensures forall i :: 0 <= i < |order| ==> Cut(g, order[i])
    ensures forall i, j :: 0 <= i < j < |order| ==> order[i] != order[j]
  {
    ReachedState(g, order, t);
    NoticedAreFew(t, g);
    forall i | 0 <= i < |order|
      ensures Cut(g, order[i])
    {
      NoticedIsCut(t, g, order[i]);
    }
  }

  lemma {:induction false} CompletesFrom(s: Overlay, g: Loss)
    requires g.degree >= 1 && g.root < |g.tables| && Wired(g) && Inv(s, g)
    ensures exists more, u :: Leads(s, more, u) && u.pending == {}
    decreases |g.tables| - |s.log|
  {
    if s.pending == {} {
      assert Leads(s, [], s);
    } else {
      var v :| v in s.pending;
      assert Told(s, g, v);
      var m := Notice(s, v);
      NoticeKeepsInv(s, g, v);
      NoticedAreFew(m, g);
      CompletesFrom(m, g);
      var more, u :| Leads(m, more, u) && u.pending == {};
      assert ([v] + more)[1..] == more;
      assert Leads(s, [v] + more, u);
    }
  }

  /** From the loss of the link, and from every point of every run, the teardown can be completed. */
  lemma TeardownCompletes(g: Loss, order: seq<nat>, t: Overlay)
    requires g.degree >= 1 && g.root < |g.tables| && Wired(g) && Leads(LinkLost(g), order, t)
    ensures exists more, u :: Leads(t, more, u) && u.pending == {}
  {
    ReachedState(g, order, t);
    CompletesFrom(t, g);
  }

  /**
   When every notice has been handled, the vertices that noticed are exactly those cut off; of these
   the listed ones have dropped exactly the connections owned by their incoming link and are listed no
   longer, and no other table and no other slot has changed.
   */
  lemma TeardownDropsExactlyCut(g: Loss, order: seq<nat>, t: Overlay, v: nat)
    requires g.degree >= 1 && g.root < |g.tables| && Wired(g) && Leads(LinkLost(g), order, t)
    requires t.pending == {} && v < |g.tables|
    ensures |t.tables| == |g.tables| && |t.tables[v].slots| == |g.tables[v].slots|
    ensures v in order <==> Cut(g, v)
    ensures v in t.listed <==> v in g.listed && !Cut(g, v)
    ensures t.tables[v].count - Occupied(t.tables[v].slots) == g.tables[v].count - Occupied(g.tables[v].slots)
    ensures forall j :: 0 <= j < |g.tables[v].slots| ==>
      t.tables[v].slots[j] ==
      if Cut(g, v) && v in g.listed && g.tables[v].slots[j].Some? && g.tables[v].slots[j].value.parent == Some(v)
      then None else g.tables[v].slots[j]
  {
    ReachedState(g, order, t);
    if Cut(g, v) {
      AllCutNoticed(t, g, v);
    }
    CascadeRemovesExactlyOwned(g.tables[v], v);
  }

  lemma {:induction false} ListedSubtreeIsCut(g: Loss, v: nat)
    requires g.degree >= 1 && FullyWired(g) && InSubtree(g.root, v, g.degree)
    requires forall u: nat :: u < |g.tables| && InSubtree(g.root, u, g.degree) ==> u in g.listed
    requires v < |g.tables|
    ensures Cut(g, v)
    decreases v
  {
    if v != g.root {
      ParentDecreases(v, g.degree);
      ListedSubtreeIsCut(g, Parent(v, g.degree));
      ChildrenInvertParent(Parent(v, g.degree), v, g.degree, |g.tables|);
    }
  }

  /**
   As long as all links below the lost one are open and none was deregistered, the vertices cut off are
   the whole subtree: afterwards none of them owns a child link and the tables outside are as they were.
   */
  lemma TeardownDropsExactlySubtree(g: Loss, order: seq<nat>, t: Overlay, v: nat)
    requires g.degree >= 1 && g.root < |g.tables| && FullyWired(g) && Leads(LinkLost(g), order, t)
    requires t.pending == {} && v < |g.tables|
    requires forall u: nat :: u < |g.tables| && InSubtree(g.root, u, g.degree) ==> u in g.listed
    ensures |t.tables| == |g.tables|
    ensures v in order <==> InSubtree(g.root, v, g.degree)
    ensures InSubtree(g.root, v, g.degree) ==> forall c: nat :: !HoldsLink(t.tables[v], v, c)
    ensures !InSubtree(g.root, v, g.degree) ==> t.tables[v] == g.tables[v]
  {
    TeardownDropsExactlyCut(g, order, t, v);
    ReachedState(g, order, t);
    if Cut(g, v) {
      CutIsBelow(g, v);
    }
    if InSubtree(g.root, v, g.degree) {
      ListedSubtreeIsCut(g, v);
    }
  }
  lemma CascadeHoldsLess(t: Table, lost: Handle, owner: Handle, c: nat)
    ensures HoldsLink(Cascade(t, lost), owner, c) ==> HoldsLink(t, owner, c)
  {
    CascadeRemovesExactlyOwned(t, lost);
  }

  /** What one teardown leaves is again an overlay to which these results apply, wherever the next link is lost. */
  lemma TeardownsCanFollow(g: Loss, order: seq<nat>, t: Overlay, next: nat)
    requires g.degree >= 1 && g.root < |g.tables| && Leads(LinkLost(g), order, t)
    requires forall v :: 0 <= v < |g.tables| ==> HoldsChildLinks(g.tables[v], v, g.degree, |g.tables|)
    ensures |t.tables| == |g.tables|
    ensures forall v :: 0 <= v < |t.tables| ==> HoldsChildLinks(t.tables[v], v, g.degree, |t.tables|)
    ensures Wired(Loss(t.tables, t.listed, next, g.degree))
  {
    ReachedState(g, order, t);
    forall v | 0 <= v < |t.tables|
      ensures HoldsChildLinks(t.tables[v], v, g.degree, |t.tables|)
    {
      assert HoldsChildLinks(g.tables[v], v, g.degree, |g.tables|);
      forall c: nat | HoldsLink(t.tables[v], v, c)
        ensures c in Children(v, g.degree, |g.tables|)
      {
        CascadeHoldsLess(g.tables[v], v, v, c);
      }
    }
  }
}
