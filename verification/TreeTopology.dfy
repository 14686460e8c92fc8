/** `TreeTopology`: one node's view of the broadcast tree over the list of consensus nodes. */
module TreeTopology {
  import opened Common
  import opened Topology

  /** A node identity: the 512-bit public key as a number. */
  type NodeId = nat

  /** The node list read from the start index on; position `q` of the tree. */
  function Rotated(n: nat, start: nat, q: nat): (m: nat)
    requires n > 0
    ensures m < n
  {
    (q + start) % n
  }

  /** The position of the node with list index `m`. */
  function Position(n: nat, start: nat, m: nat): (q: nat)
    requires m < n
    ensures q < n
  {
    if m >= start then m - start else (m + n - start % n) % n
  }

  lemma Quotient(x: nat, n: nat)
    requires n > 0
    ensures x == x / n * n + x % n
  {
  }

  lemma Residue(x: nat, k: nat, n: nat, a: nat)
    requires a < n && x == a + k * n
    ensures x % n == a
  {
    QuotientIs(x, n, k);
    Quotient(x, n);
  }

  lemma OnePast(a: nat, n: nat)
    requires a < n
    ensures (a + n) % n == a && a % n == a
  {
    Residue(a + n, 1, n, a);
    Residue(a, 0, n, a);
  }

  lemma NextMultiple(k: nat, n: nat)
    ensures (k + 1) * n == k * n + n
  {
  }

  /** The position, without the remainder. */
  lemma PositionIs(n: nat, start: nat, m: nat)
    requires m < n
    ensures var r := start % n;
            Position(n, start, m) == if m >= start then m - start else if m >= r then m - r else m + n - r
  {
    if m < start {
      if m >= start % n {
        OnePast(m - start % n, n);
      } else {
        OnePast(m + n - start % n, n);
      }
    }
  }

  /** Rotating a position that came from an index gives the index back. */
  lemma RotatedPosition(n: nat, start: nat, m: nat)
    requires m < n
    ensures Rotated(n, start, Position(n, start, m)) == m
  {
    var k, q := start / n, Position(n, start, m);
    PositionIs(n, start, m);
    Quotient(start, n);
    NextMultiple(k, n);
    if m >= start {
      OnePast(m, n);
    } else if m >= start % n {
      Residue(q + start, k, n, m);
    } else {
      Residue(q + start, k + 1, n, m);
    }
  }

  /** Different positions of the tree are different nodes. */
  lemma RotatedInjective(n: nat, start: nat, p: nat, q: nat)
    requires p < n && q < n && Rotated(n, start, p) == Rotated(n, start, q)
    ensures p == q
  {
    Quotient(p + start, n);
    Quotient(q + start, n);
    SameResidue(p, q, start, (p + start) / n, (q + start) / n, Rotated(n, start, p), n);
  }

  lemma SameResidue(p: nat, q: nat, start: nat, a: nat, b: nat, r: nat, n: nat)
    requires p < n && q < n && p + start == a * n + r && q + start == b * n + r
    ensures p == q
  {
    if a < b {
      Multiples(a, b, n);
    } else if b < a {
      Multiples(b, a, n);
    }
  }

  lemma PositionRotated(n: nat, start: nat, q: nat)
    requires q < n
    ensures Position(n, start, Rotated(n, start, q)) == q
  {
    RotatedPosition(n, start, Rotated(n, start, q));
    RotatedInjective(n, start, Position(n, start, Rotated(n, start, q)), q);
  }

  /** The node list in the order of the tree's positions. */
  function Ring(nodes: seq<NodeId>, start: nat): (ring: seq<NodeId>)
    ensures IsRing(ring, nodes, start)
  {
    seq(|nodes|, q requires 0 <= q < |nodes| => nodes[Rotated(|nodes|, start, q)])
  }

  ghost predicate IsRing(ring: seq<NodeId>, nodes: seq<NodeId>, start: nat) {
    && |ring| == |nodes|
    && forall q {:trigger Rotated(|nodes|, start, q)} ::
         0 <= q < |nodes| ==> ring[q] == nodes[Rotated(|nodes|, start, q)]
  }

  /** Which positions are held by a peer. */
  function Online(ring: seq<NodeId>, peers: set<NodeId>): (on: seq<bool>)
    ensures |on| == |ring| && forall q :: 0 <= q < |on| ==> on[q] == (ring[q] in peers)
  {
    seq(|ring|, q requires 0 <= q < |ring| => ring[q] in peers)
  }

  function Ids(ring: seq<NodeId>, at: seq<nat>): (ids: seq<NodeId>)
    requires forall k :: 0 <= k < |at| ==> at[k] < |ring|
    ensures |ids| == |at| && forall k :: 0 <= k < |at| ==> ids[k] == ring[at[k]]
  {
    seq(|at|, k requires 0 <= k < |at| => ring[at[k]])
  }

  lemma IdsAppend(ring: seq<NodeId>, a: seq<nat>, b: seq<nat>)
    requires forall k :: 0 <= k < |a| ==> a[k] < |ring|
    requires forall k :: 0 <= k < |b| ==> b[k] < |ring|
    ensures Ids(ring, a + b) == Ids(ring, a) + Ids(ring, b)
  {
  }

  /** The identities selected below a position. */
  function Children(ring: seq<NodeId>, w: nat, peers: set<NodeId>, q: nat, i: nat): seq<NodeId>
    requires i <= w
  {
    if w == 0 then [] else Ids(ring, Select(w, Online(ring, peers), q, i))
  }

  /** The identities selected above a position: the nearest, or all. */
  function Ancestors(ring: seq<NodeId>, w: nat, peers: set<NodeId>, d: nat, all: bool): seq<NodeId>
    requires w >= 1 && d < |ring|
  {
    var above := Above(w, Online(ring, peers), d);
    Ids(ring, if all || above == [] then above else [above[0]])
  }

  /** What `selectNodes` gives at the node with list index `m`. */
  function ChildIds(nodes: seq<NodeId>, w: nat, peers: set<NodeId>, start: nat, m: nat): seq<NodeId>
    requires m < |nodes|
  {
    Children(Ring(nodes, start), w, peers, Position(|nodes|, start, m), 0)
  }

  /** What `selectParent` gives at the node with list index `m`. */
  function ParentIds(nodes: seq<NodeId>, w: nat, peers: set<NodeId>, start: nat, m: nat, all: bool): seq<NodeId>
    requires w >= 1 && m < |nodes|
  {
    Ancestors(Ring(nodes, start), w, peers, Position(|nodes|, start, m), all)
  }

  /** The ring is the list from the start index on, then the part before it. */
  lemma RingIsRotation(nodes: seq<NodeId>, start: nat)
    requires start < |nodes|
    ensures Ring(nodes, start) == nodes[start..] + nodes[..start]
  {
    var ring, n := Ring(nodes, start), |nodes|;
    forall q | 0 <= q < n
      ensures ring[q] == (nodes[start..] + nodes[..start])[q]
    {
      if q + start < n {
        Residue(q + start, 0, n, q + start);
      } else {
        Residue(q + start, 1, n, q + start - n);
      }
      assert ring[q] == nodes[Rotated(n, start, q)];
    }
  }

  /** A start index beyond the list counts from its beginning again. */
  lemma RingRepeats(nodes: seq<NodeId>, start: nat)
    requires nodes != []
    ensures Ring(nodes, start + |nodes|) == Ring(nodes, start)
  {
    var n := |nodes|;
    forall q | 0 <= q < n
      ensures Rotated(n, start + n, q) == Rotated(n, start, q)
    {
      Quotient(q + start, n);
      NextMultiple((q + start) / n, n);
      Residue(q + start + n, (q + start) / n + 1, n, (q + start) % n);
    }
  }

  lemma RingDistinct(nodes: seq<NodeId>, start: nat)
    requires NoDup(nodes)
    ensures NoDup(Ring(nodes, start))
  {
    var ring := Ring(nodes, start);
    forall p, q | 0 <= p < q < |ring|
      ensures ring[p] != ring[q]
    {
      if Rotated(|nodes|, start, p) == Rotated(|nodes|, start, q) {
        RotatedInjective(|nodes|, start, p, q);
      }
    }
  }

  lemma RingPosition(nodes: seq<NodeId>, start: nat, m: nat)
    requires m < |nodes|
    ensures Ring(nodes, start)[Position(|nodes|, start, m)] == nodes[m]
  {
    RotatedPosition(|nodes|, start, m);
  }

  lemma IdSelected(ring: seq<NodeId>, at: seq<nat>, d: nat)
    requires NoDup(ring) && d < |ring| && forall k :: 0 <= k < |at| ==> at[k] < |ring|
    ensures ring[d] in Ids(ring, at) <==> d in at
  {
    if d in at {
      var k :| 0 <= k < |at| && at[k] == d;
      assert Ids(ring, at)[k] == ring[d];
    }
  }

  lemma PositionsDual(ring: seq<NodeId>, w: nat, peers: set<NodeId>, p: nat, d: nat)
    requires NoDup(ring) && w >= 1 && p < |ring| && d < |ring| && ring[p] in peers && ring[d] in peers
    ensures ring[d] in Children(ring, w, peers, p, 0) <==> Ancestors(ring, w, peers, d, false) == [ring[p]]
  {
    var on := Online(ring, peers);
    SelectIsDual(w, on, p, d);
    IdSelected(ring, Select(w, on, p, 0), d);
    var above := Above(w, on, d);
    if above != [] {
      assert Ancestors(ring, w, peers, d, false) == [ring[above[0]]];
    }
  }

  /** An online node selects another as a child exactly when it is the parent the other selects. */
  lemma ChildParentDual(nodes: seq<NodeId>, w: nat, peers: set<NodeId>, start: nat, p: nat, d: nat)
    requires NoDup(nodes) && w >= 1 && p < |nodes| && d < |nodes| && nodes[p] in peers && nodes[d] in peers
    ensures nodes[d] in ChildIds(nodes, w, peers, start, p) <==>
            ParentIds(nodes, w, peers, start, d, false) == [nodes[p]]
  {
    RingDistinct(nodes, start);
    RingPosition(nodes, start, p);
    RingPosition(nodes, start, d);
    PositionsDual(Ring(nodes, start), w, peers, Position(|nodes|, start, p), Position(|nodes|, start, d));
  }

  /** Asked for all parents, a node names exactly its online ancestors. */
  lemma AllParents(nodes: seq<NodeId>, w: nat, peers: set<NodeId>, start: nat, a: nat, d: nat)
    requires NoDup(nodes) && w >= 1 && a < |nodes| && d < |nodes|
    ensures nodes[a] in ParentIds(nodes, w, peers, start, d, true) <==>
            nodes[a] in peers && IsAncestor(w, Position(|nodes|, start, d), Position(|nodes|, start, a))
  {
    var ring, p, q := Ring(nodes, start), Position(|nodes|, start, a), Position(|nodes|, start, d);
    RingDistinct(nodes, start);
    RingPosition(nodes, start, a);
    AboveExact(w, Online(ring, peers), q);
    IdSelected(ring, Above(w, Online(ring, peers), q), p);
  }

  /** In a broadcast run the receiver at position `q` relays to what `selectNodes` gives it. */
  lemma RelayIsSelection(nodes: seq<NodeId>, w: nat, peers: set<NodeId>, start: nat, q: nat)
    requires w >= 1 && q < |nodes|
    ensures var ring := Ring(nodes, start);
            ChildIds(nodes, w, peers, start, Rotated(|nodes|, start, q)) ==
              Ids(ring, Select(w, Online(ring, peers), q, 0))
  {
    PositionRotated(|nodes|, start, q);
  }

  /** The start node is online: every online node gets the message exactly once, in every run. */
  lemma EveryNodeOnce(nodes: seq<NodeId>, w: nat, peers: set<NodeId>, start: nat, run: seq<Net>, m: nat)
    requires w >= 1 && m < |nodes| && nodes[start % |nodes|] in peers
    requires Delivery(w, Online(Ring(nodes, start), peers), run)
    ensures var s, q := run[|run| - 1], Position(|nodes|, start, m);
            && |s.received| == |nodes| && s.received[q] <= (if nodes[m] in peers then 1 else 0)
            && (s.flight == [] ==> s.received[q] == if nodes[m] in peers then 1 else 0)
  {
    RingPosition(nodes, start, m);
    assert Rotated(|nodes|, start, 0) == start % |nodes|;
    BroadcastOnce(w, Online(Ring(nodes, start), peers), run, Position(|nodes|, start, m));
  }

  // ---- The object ------------------------------------------------------------------------------

  /** C++ division: toward zero. */
  function DivideTowardZero(a: int, b: nat): int
    requires b > 0
  {
    if a >= 0 then a / b else -(-a / b)
  }

  class Router {
    const width: nat
    const nodeId: NodeId
    var nodes: seq<NodeId>
    var nodeNum: nat
    var consIndex: int
    var endIndex: int

    constructor (id: NodeId, w: nat)
      ensures nodeId == id && width == w && nodes == [] && Valid()
    {
      nodeId, width := id, w;
      nodes, nodeNum, consIndex, endIndex := [], 0, 0, 0;
    }

    ghost predicate Valid()
      reads this
    {
      && nodeNum == |nodes|
      && (nodes != [] ==> endIndex == |nodes| - 1 && IsIndexOf(nodes, nodeId, consIndex))
      && (nodes == [] ==> endIndex <= 0 && -1 <= consIndex <= 0)
    }

    /** The first occurrence of the identity, or -1. */
    static ghost predicate IsIndexOf(list: seq<NodeId>, id: NodeId, at: int) {
      && -1 <= at < |list|
      && (at >= 0 ==> list[at] == id)
      && forall i :: 0 <= i < (if at < 0 then |list| else at) ==> list[i] != id
    }

    static method GetNodeIndexByNodeId(list: seq<NodeId>, id: NodeId) returns (at: int)
      ensures IsIndexOf(list, id, at)
    {
      at := -1;
      for i := 0 to |list|
        invariant at == -1 && forall j :: 0 <= j < i ==> list[j] != id
      {
        if id == list[i] {
          at := i;
          break;
        }
      }
    }

    method UpdateConsensusNodeInfo(list: seq<NodeId>)
      requires Valid()
      modifies this
      ensures Valid() && nodes == list
    {
      if nodes == list {
        return;
      }
      nodes := list;
      consIndex := GetNodeIndexByNodeId(nodes, nodeId);
      endIndex := |nodes| - 1;
      nodeNum := |nodes|;
    }

    method GetNodeIDByIndex(index: nat) returns (id: Option<NodeId>)
      ensures id == if index < |nodes| then Some(nodes[index]) else None
    {
      id := if index >= |nodes| then None else Some(nodes[index]);
    }

    method GetNodeIndex(start: nat) returns (position: nat)
      requires Valid() && consIndex >= 0 && (nodes == [] ==> start == 0)
      ensures nodes == [] ==> position == 0
      ensures nodes != [] ==> position == Position(|nodes|, start, consIndex)
      ensures nodes != [] ==> Rotated(|nodes|, start, position) == consIndex
    {
      if consIndex >= start {
        position := consIndex - start;
      } else {
        position := (consIndex + nodeNum - start % nodeNum) % nodeNum;
      }
      if nodes != [] {
        RotatedPosition(|nodes|, start, consIndex);
      }
    }

    /** The node at a position of the tree, by rotating the position into the list. */
    method NodeAt(position: nat, start: nat, ghost ring: seq<NodeId>) returns (id: Option<NodeId>)
      requires Valid() && position < |nodes| && IsRing(ring, nodes, start)
      ensures id == Some(ring[position])
    {
      var index := (position + start) % nodeNum;
      assert index == Rotated(|nodes|, start, position);
      id := GetNodeIDByIndex(index);
    }

    /** Appends the identities that selection gives below one position. */
    method RecursiveSelectChildNodes(
      selected: seq<NodeId>, parentIndex: nat, peers: set<NodeId>, start: nat, ghost ring: seq<NodeId>)
      returns (r: seq<NodeId>)
      requires Valid() && IsRing(ring, nodes, start)
      ensures r == selected + Children(ring, width, peers, parentIndex, 0)
      decreases if parentIndex < |nodes| then |nodes| - parentIndex else 0, 1, 0
    {
      BeforeIsProduct(width, parentIndex);
      r := selected;
      var i := 0;
      while i < width
        invariant 0 <= i <= width
        invariant r + Children(ring, width, peers, parentIndex, i) ==
                  selected + Children(ring, width, peers, parentIndex, 0)
      {
        var expected := parentIndex * width + i + 1;
        if expected > endIndex {
          break;
        }
        r := SelectOne(r, parentIndex, i, expected, peers, start, ring);
        i := i + 1;
        if expected == endIndex {
          break;
        }
      }
      NothingLeft(ring, width, peers, parentIndex, i);
      assert r + [] == r;
    }

    /** Appends what child `i` of a position contributes. */
    method SelectOne(
      selected: seq<NodeId>, parentIndex: nat, i: nat, expected: nat, peers: set<NodeId>, start: nat,
      ghost ring: seq<NodeId>)
      returns (r: seq<NodeId>)
      requires Valid() && IsRing(ring, nodes, start)
      requires i < width && expected == Before(width, parentIndex) + i + 1 < |nodes|
      ensures r + Children(ring, width, peers, parentIndex, i + 1) ==
              selected + Children(ring, width, peers, parentIndex, i)
      decreases |nodes| - parentIndex, 0, 0
    {
      ChildBelow(width, parentIndex, i);
      r := SelectChildOrBelow(selected, expected, peers, start, ring);
      SelectedNext(ring, width, peers, parentIndex, i, selected, r);
    }

    /** Appends one child, or what is selected below it when it is offline. */
    method SelectChildOrBelow(
      selected: seq<NodeId>, expected: nat, peers: set<NodeId>, start: nat, ghost ring: seq<NodeId>)
      returns (r: seq<NodeId>)
      requires Valid() && width >= 1 && expected < |nodes| && IsRing(ring, nodes, start)
      ensures r == selected +
                   if ring[expected] in peers then [ring[expected]] else Children(ring, width, peers, expected, 0)
      decreases |nodes| - expected, 2, 0
    {
      var node := NodeAt(expected, start, ring);
      if node.Some? && node.value in peers {
        return selected + [node.value];
      }
      r := selected;
      if expected < endIndex {
        r := RecursiveSelectChildNodes(r, expected, peers, start, ring);
      } else {
        LastSelectsNothing(width, Online(ring, peers), expected);
      }
    }

    /** Appends the nearest online ancestor, or all of them. */
    method SelectParentNodes(
      selected: seq<NodeId>, peers: set<NodeId>, nodeIndex: nat, start: nat, all: bool, ghost ring: seq<NodeId>)
      returns (r: seq<NodeId>)
      requires Valid() && width >= 1 && IsRing(ring, nodes, start)
      requires nodeIndex < |nodes| || (nodes == [] && nodeIndex == 0)
      ensures nodes == [] ==> r == selected
      ensures nodes != [] ==> r == selected + Ancestors(ring, width, peers, nodeIndex, all)
    {
      r := selected;
      var parentIndex := DivideTowardZero(nodeIndex - 1, width);
      TopHasNoParent(width, nodeIndex);
      if parentIndex == nodeIndex {
        return;
      }
      ghost var child := nodeIndex;
      while parentIndex >= 0
        invariant 0 <= child <= nodeIndex && parentIndex == if child == 0 then -1 else Up(width, child)
        invariant nodes == [] ==> r == selected
        invariant nodes != [] ==>
                    r + Ancestors(ring, width, peers, child, all) ==
                    selected + Ancestors(ring, width, peers, nodeIndex, all)
        decreases parentIndex
      {
        ghost var before := r;
        var node := NodeAt(parentIndex, start, ring);
        if node.Some? && node.value in peers {
          r := r + [node.value];
          if !all {
            FoundNearest(ring, width, peers, child);
            return;
          }
        }
        AncestorsNext(ring, width, peers, child, all, before, r);
        child := parentIndex;
        if parentIndex <= 0 {
          break;
        }
        TopHasNoParent(width, child);
        parentIndex := DivideTowardZero(parentIndex - 1, width);
      }
    }

    method SelectNodes(peers: set<NodeId>, start: nat, isTheStartNode: bool) returns (r: seq<NodeId>)
      requires Valid() && (nodes == [] && consIndex >= 0 ==> start == 0)
      ensures nodes == [] ==> r == []
      ensures nodes != [] && consIndex >= 0 ==> r == ChildIds(nodes, width, peers, start, consIndex)
      ensures consIndex < 0 && !isTheStartNode ==> r == []
      ensures consIndex < 0 && isTheStartNode ==>
                r == if start < |nodes| && nodes[start] in peers then [nodes[start]]
                     else Children(Ring(nodes, start), width, peers, start, 0)
    {
      if consIndex < 0 {
        if !isTheStartNode {
          return [];
        }
        var node := GetNodeIDByIndex(start);
        if node.Some? && node.value in peers {
          return [node.value];
        }
        r := RecursiveSelectChildNodes([], start, peers, start, Ring(nodes, start));
        return;
      }
      var position := GetNodeIndex(start);
      r := RecursiveSelectChildNodes([], position, peers, start, Ring(nodes, start));
    }

    method SelectParent(peers: set<NodeId>, start: nat, all: bool) returns (r: seq<NodeId>)
      requires Valid() && (consIndex >= 0 ==> width >= 1 && (nodes == [] ==> start == 0))
      ensures nodes == [] ==> r == []
      ensures nodes != [] && consIndex >= 0 ==> r == ParentIds(nodes, width, peers, start, consIndex, all)
      ensures consIndex < 0 ==> r == []
    {
      if consIndex < 0 {
        return [];
      }
      var position := GetNodeIndex(start);
      r := SelectParentNodes([], peers, position, start, all, Ring(nodes, start));
    }
  }

  /** No child is left from index `i` on. */
  lemma NothingLeft(ring: seq<NodeId>, w: nat, peers: set<NodeId>, q: nat, i: nat)
    requires i <= w && (i == w || Before(w, q) + i + 1 >= |ring|)
    ensures Children(ring, w, peers, q, i) == []
  {
  }

  lemma LastSelectsNothing(w: nat, on: seq<bool>, e: nat)
    requires w >= 1 && e == |on| - 1
    ensures Select(w, on, e, 0) == []
  {
    ChildBelow(w, e, 0);
  }

  lemma SelectedNext(
    ring: seq<NodeId>, w: nat, peers: set<NodeId>, q: nat, i: nat, before: seq<NodeId>, after: seq<NodeId>)
    requires w >= 1 && i < w && Before(w, q) + i + 1 < |ring|
    requires var e := Before(w, q) + i + 1;
             after == before + if ring[e] in peers then [ring[e]] else Children(ring, w, peers, e, 0)
    ensures after + Children(ring, w, peers, q, i + 1) == before + Children(ring, w, peers, q, i)
  {
    var e, on := Before(w, q) + i + 1, Online(ring, peers);
    var first, rest := FromChild(w, on, e), Select(w, on, q, i + 1);
    assert Select(w, on, q, i) == first + rest;
    assert after == before + Ids(ring, first);
    IdsAppend(ring, first, rest);
    Assoc(before, Ids(ring, first), Ids(ring, rest));
  }

  lemma TopHasNoParent(w: nat, q: nat)
    requires w >= 1
    ensures var p := DivideTowardZero(q - 1, w);
            if q == 0 then p == (if w == 1 then -1 else 0) else p == Up(w, q)
  {
    if q > 0 {
      UpIsQuotient(w, q);
    } else if w > 1 {
      QuotientIs(1, w, 0);
    }
  }

  lemma FoundNearest(ring: seq<NodeId>, w: nat, peers: set<NodeId>, d: nat)
    requires w >= 1 && 0 < d < |ring| && ring[Up(w, d)] in peers
    ensures Ancestors(ring, w, peers, d, false) == [ring[Up(w, d)]]
  {
  }

  lemma AncestorsNext(
    ring: seq<NodeId>, w: nat, peers: set<NodeId>, d: nat, all: bool, before: seq<NodeId>, after: seq<NodeId>)
    requires w >= 1 && 0 < d < |ring| && (ring[Up(w, d)] in peers ==> all)
    requires after == before + if ring[Up(w, d)] in peers then [ring[Up(w, d)]] else []
    ensures after + Ancestors(ring, w, peers, Up(w, d), all) == before + Ancestors(ring, w, peers, d, all)
  {
    var p, on := Up(w, d), Online(ring, peers);
    if on[p] {
      assert Above(w, on, d) == [p] + Above(w, on, p);
      IdsAppend(ring, [p], Above(w, on, p));
      assert Ids(ring, [p]) == [ring[p]];
      Assoc(before, [ring[p]], Ids(ring, Above(w, on, p)));
    } else {
      assert Above(w, on, d) == [] + Above(w, on, p) == Above(w, on, p);
      assert after == before;
    }
  }
}
