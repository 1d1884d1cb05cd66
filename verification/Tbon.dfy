/**
 The tree overlay of src/network/tbon.c: vertex ids 0 .. total-1, vertex 0 the root, and the edge
 arithmetic, host scans and downward send of one vertex.
 */
module Tbon {
  import opened Division

  const INT_MAX: int := 0x7fff_ffff

  function Parent(c: nat, degree: nat): nat
    requires c >= 1 && degree >= 1
  {
    (c - 1) / degree
  }

  /** The first id below `p`: the root comes first, then `degree` ids for every vertex before `p`. */
  function FirstChild(p: nat, degree: nat): nat {
    if p == 0 then 1 else FirstChild(p - 1, degree) + degree
  }

  /** The closed form that the C code computes. */
  lemma {:induction false} FirstChildFormula(p: nat, degree: nat)
    ensures FirstChild(p, degree) == degree * p + 1
  {
    if p > 0 {
      FirstChildFormula(p - 1, degree);
      assert degree * p == degree * (p - 1) + degree;
    }
  }

  function ChildCount(p: nat, degree: nat, total: nat): (n: nat)
    ensures n <= degree
  {
    if total <= FirstChild(p, degree) then 0
    else if total - FirstChild(p, degree) < degree then total - FirstChild(p, degree)
    else degree
  }

  /** The ids below `p`, in order. */
  function Children(p: nat, degree: nat, total: nat): (ids: seq<nat>)
    ensures |ids| == ChildCount(p, degree, total)
    ensures forall i :: 0 <= i < |ids| ==> ids[i] == FirstChild(p, degree) + i
  {
    seq(ChildCount(p, degree, total), i => FirstChild(p, degree) + i)
  }

  // ---------------------------------------------------------------- edge arithmetic

  lemma ListedHasParent(p: nat, i: nat, degree: nat, total: nat)
    requires degree >= 1 && i < ChildCount(p, degree, total)
    ensures 1 <= FirstChild(p, degree) + i < total && Parent(FirstChild(p, degree) + i, degree) == p
  {
    FirstChildFormula(p, degree);
    QuotientUnique(degree, p, i);
  }

  lemma ParentLists(c: nat, degree: nat, total: nat)
    requires degree >= 1 && 1 <= c < total
    ensures var p, i := Parent(c, degree), (c - 1) % degree;
      i < ChildCount(p, degree, total) && c == FirstChild(p, degree) + i
  {
    FirstChildFormula(Parent(c, degree), degree);
    assert c - 1 == degree * Parent(c, degree) + (c - 1) % degree;
  }

  /** `c` is listed as a child of `p` exactly when it is a non-root vertex whose parent is `p`. */
  lemma ChildrenInvertParent(p: nat, c: nat, degree: nat, total: nat)
    requires degree >= 1
    ensures c in Children(p, degree, total) <==> 1 <= c < total && Parent(c, degree) == p
  {
    if c in Children(p, degree, total) {
      var i :| 0 <= i < ChildCount(p, degree, total) && Children(p, degree, total)[i] == c;
      ListedHasParent(p, i, degree, total);
    }
    if 1 <= c < total && Parent(c, degree) == p {
      ParentLists(c, degree, total);
      assert Children(p, degree, total)[(c - 1) % degree] == c;
    }
  }

  /** Every non-root id occupies exactly one position over all child lists. */
  lemma ChildrenPartition(c: nat, degree: nat, total: nat)
    requires degree >= 1 && 1 <= c < total
    ensures c in Children(Parent(c, degree), degree, total) && Parent(c, degree) < c
    ensures forall p: nat, q: nat, i, j ::
      (&& 0 <= i < ChildCount(p, degree, total) && 0 <= j < ChildCount(q, degree, total)
       && Children(p, degree, total)[i] == c == Children(q, degree, total)[j]) ==> p == q && i == j
  {
    ChildrenInvertParent(Parent(c, degree), c, degree, total);
    ParentDecreases(c, degree);
    forall p: nat, q: nat, i, j |
      && 0 <= i < ChildCount(p, degree, total) && 0 <= j < ChildCount(q, degree, total)
      && Children(p, degree, total)[i] == c == Children(q, degree, total)[j]
      ensures p == q && i == j
    {
      ChildrenInvertParent(p, c, degree, total);
      ChildrenInvertParent(q, c, degree, total);
    }
  }

  lemma ParentDecreases(c: nat, degree: nat)
    requires c >= 1 && degree >= 1
    ensures Parent(c, degree) < c
  {
    var q := Parent(c, degree);
    assert degree * q <= c - 1;
    assert q <= degree * q;
  }

  function Depth(v: nat, degree: nat): nat
    requires degree >= 1
    decreases v
  {
    if v == 0 then 0 else
      ParentDecreases(v, degree);
      1 + Depth(Parent(v, degree), degree)
  }

  function Power(b: nat, k: nat): nat {
    if k == 0 then 1 else b * Power(b, k - 1)
  }

  /**
   Following parents reaches the root in Depth steps, and the depth is the base-`degree` logarithm:
   d^k <= v(d-1)+1 and (v+1)(d-1)+1 <= d^(k+1).
   */
  lemma {:induction false} DepthIsLogarithmic(v: nat, degree: nat)
    requires degree >= 1
    ensures Power(degree, Depth(v, degree)) <= v * (degree - 1) + 1
    ensures (v + 1) * (degree - 1) + 1 <= Power(degree, Depth(v, degree) + 1)
    decreases v
  {
    if v == 0 {
      assert Power(degree, 1) == degree * Power(degree, 0);
    } else {
      ParentDecreases(v, degree);
      ParentBounds(v, degree);
      var p := Parent(v, degree);
      var k := Depth(p, degree);
      DepthIsLogarithmic(p, degree);
      LogStep(degree, p, v, Power(degree, k), Power(degree, k + 1));
      PowerStep(degree, k);
    }
  }

  lemma PowerStep(b: nat, k: nat)
    ensures Power(b, k + 1) == b * Power(b, k) && Power(b, k + 2) == b * Power(b, k + 1)
  {
  }

  lemma ParentBounds(c: nat, degree: nat)
    requires c >= 1 && degree >= 1
    ensures degree * Parent(c, degree) <= c - 1 < degree * Parent(c, degree) + degree
  {
  }

  lemma LogStep(d: nat, p: nat, v: nat, low: nat, high: nat)
    requires d >= 1 && d * p <= v - 1 < d * p + d
    requires low <= p * (d - 1) + 1 && (p + 1) * (d - 1) + 1 <= high
    ensures d * low <= v * (d - 1) + 1
    ensures (v + 1) * (d - 1) + 1 <= d * high
  {
    var e, x, a := d - 1, p * (d - 1), d * p;
    Associate(d, p, e);
    Distribute(x, 1, d);
    Distribute(a, 1, e);
    Scale(d, low, x + 1);
    Scale(e, a + 1, v);
    Distribute(p, 1, e);
    Distribute(x, d, d);
    Distribute(a, d + 1, e);
    Distribute(d, 1, e);
    Scale(d, x + d, high);
    Scale(e, v + 1, a + d + 1);
    assert d * d == d * e + d by {
      Distribute(e, 1, d);
    }
  }

  lemma Associate(x: int, y: int, z: int)
    ensures (x * y) * z == x * (y * z)
  {
  }

  lemma Distribute(x: int, y: int, k: int)
    ensures (x + y) * k == x * k + y * k == k * (x + y) == k * x + k * y
  {
  }

  lemma Scale(k: int, x: int, y: int)
    requires k >= 0 && x <= y
    ensures k * x <= k * y && x * k <= y * k
  {
    assert k * y == k * x + k * (y - x);
    Multiples(k, y - x);
  }

  /** `v` lies in the subtree below `r`, `r` included. */
  predicate InSubtree(r: nat, v: nat, degree: nat)
    requires degree >= 1
    decreases v
  {
    v == r || (v > 0 && (ParentDecreases(v, degree); InSubtree(r, Parent(v, degree), degree)))
  }

  // ---------------------------------------------------------------- one vertex, in place

  /** The child array as the C code leaves it: the child ids, then -1 up to the degree. */
  function ChildArray(p: nat, degree: nat, total: nat): (ids: seq<int>)
    ensures |ids| == degree
    ensures forall i :: 0 <= i < degree ==>
      ids[i] == if i < ChildCount(p, degree, total) then Children(p, degree, total)[i] else -1
  {
    seq(degree, i requires 0 <= i < degree =>
      if i < ChildCount(p, degree, total) then Children(p, degree, total)[i] as int else -1)
  }

  /** dynpm_compute_local_tbon_edges; the last precondition keeps the C arithmetic inside `int`. */
  method ComputeLocalEdges(localId: nat, degree: nat, total: nat, childrenIds: array<int>) returns (parentId: int)
    requires 1 <= degree <= childrenIds.Length
    requires degree * localId + degree <= INT_MAX
    modifies childrenIds
    ensures parentId == if localId == 0 then -1 else Parent(localId, degree)
    ensures childrenIds[..degree] == ChildArray(localId, degree, total)
    ensures childrenIds[degree..] == old(childrenIds[degree..])
  {
    if localId == 0 {
      parentId := -1;
    } else {
      parentId := (localId - 1) / degree;
    }
    FirstChildFormula(localId, degree);
    for i := 0 to degree
      invariant childrenIds[..i] == ChildArray(localId, degree, total)[..i]
      invariant childrenIds[degree..] == old(childrenIds[degree..])
    {
      var childId := degree * localId + i + 1;
      if childId >= total {
        childrenIds[i] := -1;
      } else {
        childrenIds[i] := childId;
      }
    }
  }

  /** The id loop of dynpm_initialize_tbon_vertex: the last match wins, and with none `id` keeps what it held. */
  method FindLocalId(hosts: seq<string>, localHost: string, unset: int) returns (id: int)
    ensures localHost !in hosts ==> id == unset
    ensures localHost in hosts ==> 0 <= id < |hosts| && hosts[id] == localHost && localHost !in hosts[id + 1..]
  {
    id := unset;
    for n := 0 to |hosts|
      invariant localHost !in hosts[..n] ==> id == unset
      invariant localHost in hosts[..n] ==> 0 <= id < n && hosts[id] == localHost && localHost !in hosts[id + 1..n]
    {
      if hosts[n] == localHost {
        id := n;
      }
    }
    assert hosts[..|hosts|] == hosts;
    assert localHost in hosts ==> hosts[id + 1..|hosts|] == hosts[id + 1..];
  }

  /** The one-pass host scan: it finds what looking up each child id directly would. */
  method ScanChildHosts(hosts: seq<string>, id: nat, degree: nat, childrenIds: array<int>, childrenHosts: array<string>)
    returns (totalChildren: nat)
    requires degree >= 1 && childrenIds.Length >= degree && childrenHosts.Length >= degree
    requires childrenIds[..degree] == ChildArray(id, degree, |hosts|)
    modifies childrenHosts
    ensures totalChildren == ChildCount(id, degree, |hosts|)
    ensures forall i :: 0 <= i < totalChildren ==>
      0 <= childrenIds[i] < |hosts| && childrenHosts[i] == hosts[childrenIds[i]]
    ensures forall i :: totalChildren <= i < childrenHosts.Length ==> childrenHosts[i] == old(childrenHosts[i])
  {
    var first := FirstChild(id, degree);
    var slots := ChildArray(id, degree, |hosts|);
    assert forall i :: 0 <= i < degree ==> childrenIds[i] == slots[i] by {
      assert forall i :: 0 <= i < degree ==> childrenIds[i] == childrenIds[..degree][i];
    }
    var childIndex, node := 0, 0;
    while node < |hosts|
      invariant 0 <= node <= |hosts| && 0 <= childIndex < degree
      invariant childIndex == if node <= first then 0 else node - first
      invariant forall i :: 0 <= i < childIndex ==> childrenHosts[i] == hosts[first + i]
      invariant forall i :: childIndex <= i < childrenHosts.Length ==> childrenHosts[i] == old(childrenHosts[i])
    {
      if node == childrenIds[childIndex] {
        childrenHosts[childIndex] := hosts[node];
        childIndex := childIndex + 1;
      }
      if childIndex >= degree {
        break;
      }
      node := node + 1;
    }
    totalChildren := childIndex;
  }

  /**
   dynpm_initialize_tbon_vertex: the local host must be listed, otherwise the C code uses an id it
   never set, and the child ids computed from its position must fit `int`.
   */
  method InitializeVertex(hosts: seq<string>, degree: nat, localHost: string)
    returns (id: nat, parentId: int, childrenIds: array<int>, childrenHosts: array<string>, totalChildren: nat)
    requires localHost in hosts && degree >= 1
    requires forall n :: 0 <= n < |hosts| && hosts[n] == localHost ==> degree * n + degree <= INT_MAX
    ensures id < |hosts| && hosts[id] == localHost && localHost !in hosts[id + 1..]
    ensures parentId == if id == 0 then -1 else Parent(id, degree)
    ensures childrenIds.Length == childrenHosts.Length == degree
    ensures childrenIds[..] == ChildArray(id, degree, |hosts|) && totalChildren == ChildCount(id, degree, |hosts|)
    ensures forall i :: 0 <= i < totalChildren ==>
      0 <= childrenIds[i] < |hosts| && childrenHosts[i] == hosts[childrenIds[i]]
  {
    id := FindLocalId(hosts, localHost, -1);
    childrenIds := new int[degree];
    childrenHosts := new string[degree](_ => "");
    parentId := ComputeLocalEdges(id, degree, |hosts|, childrenIds);
    assert childrenIds[..] == childrenIds[..degree];
    totalChildren := ScanChildHosts(hosts, id, degree, childrenIds, childrenHosts);
  }

  /**
   dynpm_send_message_to_tbon_children.  `links[i]` is the connection slot of child i and `open` the
   slots that are connected; `sent` lists the children the buffer was queued for.
   */
  method SendToChildren(id: nat, degree: nat, total: nat, childrenIds: array<int>, links: seq<int>, open: set<int>)
    returns (code: int, sent: seq<int>)
    requires childrenIds.Length == degree == |links|
    requires childrenIds[..] == ChildArray(id, degree, total)
    ensures code == 0 <==> forall i :: 0 <= i < ChildCount(id, degree, total) ==> links[i] in open
    ensures sent <= Children(id, degree, total)
    ensures code == 0 ==> sent == Children(id, degree, total)
    ensures code != 0 ==> code == -1 && |sent| < ChildCount(id, degree, total) && links[|sent|] !in open
    ensures forall i :: 0 <= i < |sent| ==> links[i] in open
  {
    sent := [];
    var child := 0;
    assert forall i :: 0 <= i < degree ==> childrenIds[i] == childrenIds[..][i];
    while child < degree && childrenIds[child] != -1
      invariant 0 <= child <= ChildCount(id, degree, total)
      invariant sent == Children(id, degree, total)[..child]
      invariant forall i :: 0 <= i < child ==> links[i] in open
    {
      if links[child] !in open {
        return -1, sent;
      }
      sent := sent + [childrenIds[child]];
      child := child + 1;
    }
    code := 0;
  }
}
