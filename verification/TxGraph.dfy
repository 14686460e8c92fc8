/**
 * The dependency graph of a block's transactions: `CriticalField`, `DAG` and `TxDAG::init`.
 *
 * Transactions are numbered by their position in the block. Each one carries either no critical
 * list (it conflicts with everything) or a list of critical keys.
 */
module TxGraph {
  import opened Common

  /** `INVALID_ID`, the all-ones 32-bit identifier. */
  const INVALID_ID: nat := 0xFFFF_FFFF

  type Key = string

  /** `None` is the null critical list of a transaction that cannot run in parallel. */
  type Criticals = Option<seq<Key>>

  /** `outEdge` of every vertex; an edge may be listed more than once. */
  type Graph = seq<seq<nat>>

  /** Two critical lists that must not be reordered. A present but empty list conflicts with nothing. */
  predicate Clash(a: Criticals, b: Criticals) {
    match (a, b)
    case (None, None) => true
    case (None, Some(ks)) => ks != []
    case (Some(ks), None) => ks != []
    case (Some(ks), Some(ls)) => exists k :: k in ks && k in ls
  }

  ghost predicate Forward(g: Graph) {
    forall i, k :: 0 <= i < |g| && 0 <= k < |g[i]| ==> i < g[i][k] < |g|
  }

  /** A path of one or more edges from `i` to `j` that visits increasing ids. */
  ghost predicate Reach(g: Graph, i: nat, j: nat)
    decreases j - i
  {
    && i < j < |g|
    && (j in g[i] || exists k :: k in g[i] && i < k < j && Reach(g, k, j))
  }

  /** What the built graph promises: edges go forward and only join transactions that clash,
      and every clashing pair is joined by a path. */
  ghost predicate Faithful(g: Graph, crit: seq<Criticals>) {
    && |g| == |crit|
    && Forward(g)
    && (forall i, k :: 0 <= i < |g| && 0 <= k < |g[i]| ==> g[i][k] < |crit| && Clash(crit[i], crit[g[i][k]]))
    && (forall i, j :: 0 <= i < j < |crit| && Clash(crit[i], crit[j]) ==> Reach(g, i, j))
  }

  // ---- Paths ---------------------------------------------------------------------------------

  ghost predicate Extends(g: Graph, h: Graph) {
    && |g| == |h|
    && forall i :: 0 <= i < |g| ==> g[i] <= h[i]
  }

  lemma ExtendsOn(g: Graph, h: Graph, k: Graph)
    requires Extends(g, h) && Extends(h, k)
    ensures Extends(g, k)
  {
    forall i | 0 <= i < |g|
      ensures g[i] <= k[i]
    {
      assert g[i] <= h[i] <= k[i];
    }
  }

  lemma {:induction false} ReachMonotone(g: Graph, h: Graph, i: nat, j: nat)
    requires Extends(g, h) && Reach(g, i, j)
    ensures Reach(h, i, j)
    decreases j - i
  {
    if j !in g[i] {
      var k :| k in g[i] && i < k < j && Reach(g, k, j);
      ReachMonotone(g, h, k, j);
      assert k in h[i];
    }
  }

  lemma {:induction false} ReachSnoc(g: Graph, i: nat, p: nat, j: nat)
    requires p < j < |g| && j in g[p]
    requires i == p || Reach(g, i, p)
    ensures Reach(g, i, j)
    decreases p - i
  {
    if i != p {
      if p in g[i] {
        assert Reach(g, p, j);
      } else {
        var k :| k in g[i] && i < k < p && Reach(g, k, p);
        ReachSnoc(g, k, p, j);
      }
    }
  }

  // ---- Edge targets with multiplicity ----------------------------------------------------------

  ghost predicate Cursors(g: Graph, done: seq<nat>) {
    |done| == |g| && forall u :: 0 <= u < |g| ==> done[u] <= |g[u]|
  }

  /** Occurrences of `v` in `s[from..]`. */
  ghost function Occ(s: seq<nat>, from: nat, v: nat): nat
    requires from <= |s|
    decreases |s| - from
  {
    if from == |s| then 0 else (if s[from] == v then 1 else 0) + Occ(s, from + 1, v)
  }

  /** Edges into `v` from the first `n` vertices that have not been processed; `done[u]` edges of `u` are. */
  ghost function Pending(g: Graph, done: seq<nat>, v: nat, n: nat): nat
    requires Cursors(g, done) && n <= |g|
  {
    if n == 0 then 0 else Pending(g, done, v, n - 1) + Occ(g[n - 1], done[n - 1], v)
  }

  /** The number of edges that enter `v`, with multiplicity. */
  ghost function EdgesInto(g: Graph, v: nat): nat {
    Pending(g, Zeros(|g|), v, |g|)
  }

  ghost function Zeros(n: nat): (z: seq<nat>)
    ensures |z| == n && forall i :: 0 <= i < n ==> z[i] == 0
  {
    seq(n, _ => 0)
  }

  lemma {:induction false} PendingUpdate(g: Graph, done: seq<nat>, h: Graph, done': seq<nat>, u: nat, v: nat, n: nat)
    requires Cursors(g, done) && Cursors(h, done') && u < n <= |g| == |h|
    requires forall i :: 0 <= i < |g| && i != u ==> g[i] == h[i] && done[i] == done'[i]
    ensures Pending(h, done', v, n) + Occ(g[u], done[u], v) == Pending(g, done, v, n) + Occ(h[u], done'[u], v)
  {
    if n - 1 == u {
      PendingSame(g, done, h, done', v, u);
    } else {
      PendingUpdate(g, done, h, done', u, v, n - 1);
    }
  }

  lemma {:induction false} PendingSame(g: Graph, done: seq<nat>, h: Graph, done': seq<nat>, v: nat, n: nat)
    requires Cursors(g, done) && Cursors(h, done') && n <= |g| == |h|
    requires forall i :: 0 <= i < n ==> g[i] == h[i] && done[i] == done'[i]
    ensures Pending(h, done', v, n) == Pending(g, done, v, n)
  {
    if n > 0 {
      PendingSame(g, done, h, done', v, n - 1);
    }
  }

  lemma {:induction false} OccAt(s: seq<nat>, from: nat, k: nat)
    requires from <= k < |s|
    ensures Occ(s, from, s[k]) > 0
    decreases k - from
  {
    if from < k {
      OccAt(s, from + 1, k);
    }
  }

  lemma {:induction false} PendingHas(g: Graph, done: seq<nat>, u: nat, k: nat, n: nat)
    requires Cursors(g, done) && u < n <= |g| && done[u] <= k < |g[u]|
    ensures Pending(g, done, g[u][k], n) > 0
  {
    if u == n - 1 {
      OccAt(g[u], done[u], k);
    } else {
      PendingHas(g, done, u, k, n - 1);
    }
  }

  /** Where a pending edge comes from. */
  lemma {:induction false} PendingOrigin(g: Graph, done: seq<nat>, v: nat, n: nat) returns (u: nat, k: nat)
    requires Cursors(g, done) && n <= |g| && Pending(g, done, v, n) > 0
    ensures u < n && done[u] <= k < |g[u]| && g[u][k] == v
  {
    if Occ(g[n - 1], done[n - 1], v) > 0 {
      u := n - 1;
      k := done[u];
      while g[u][k] != v
        invariant done[u] <= k < |g[u]| && Occ(g[u], k, v) > 0
        decreases |g[u]| - k
      {
        k := k + 1;
      }
    } else {
      u, k := PendingOrigin(g, done, v, n - 1);
    }
  }

  /** One more processed edge of `u` removes exactly one edge into its target. */
  lemma PendingAdvance(g: Graph, done: seq<nat>, u: nat, v: nat)
    requires Cursors(g, done) && u < |g| && done[u] < |g[u]|
    ensures Pending(g, done[u := done[u] + 1], v, |g|) + (if v == g[u][done[u]] then 1 else 0) ==
            Pending(g, done, v, |g|)
  {
    PendingUpdate(g, done, g, done[u := done[u] + 1], u, v, |g|);
  }

  lemma {:induction false} OccSnoc(s: seq<nat>, from: nat, t: nat, v: nat)
    requires from <= |s|
    ensures Occ(s + [t], from, v) == Occ(s, from, v) + if v == t then 1 else 0
    decreases |s| - from
  {
    if from < |s| {
      OccSnoc(s, from + 1, t, v);
    }
  }

  /** A new edge adds exactly one edge into its target. */
  lemma EdgesIntoAdd(g: Graph, u: nat, t: nat, v: nat)
    requires u < |g|
    ensures EdgesInto(g[u := g[u] + [t]], v) == EdgesInto(g, v) + if v == t then 1 else 0
  {
    var z := Zeros(|g|);
    PendingUpdate(g, z, g[u := g[u] + [t]], z, u, v, |g|);
    OccSnoc(g[u], 0, t, v);
  }

  lemma {:induction false} NoEdges(g: Graph, v: nat, n: nat)
    requires n <= |g| && forall u :: 0 <= u < |g| ==> g[u] == []
    ensures Pending(g, Zeros(|g|), v, n) == 0
  {
    if n > 0 {
      NoEdges(g, v, n - 1);
    }
  }

  // ---- CriticalField ---------------------------------------------------------------------------

  /** The latest transaction per key since the last one that conflicts with everything. */
  class CriticalField {
    var criticals: map<Key, nat>
    var criticalAll: nat

    constructor ()
      ensures criticals == map[] && criticalAll == INVALID_ID
    {
      criticals := map[];
      criticalAll := INVALID_ID;
    }

    method Get(c: Key) returns (id: nat)
      ensures id == Latest(criticals, criticalAll, c)
    {
      if c !in criticals {
        if criticalAll != INVALID_ID {
          return criticalAll;
        }
        return INVALID_ID;
      }
      return criticals[c];
    }

    method Update(c: Key, id: nat)
      modifies this
      ensures criticals == old(criticals)[c := id] && criticalAll == old(criticalAll)
    {
      criticals := criticals[c := id];
    }

    /** The ids handed to the visitor of `foreachField`: one per key in some order, then
        the id that conflicts with everything, if there is one. */
    method ForeachField() returns (ids: seq<nat>)
      ensures forall id :: id in ids <==>
                id in criticals.Values || (criticalAll != INVALID_ID && id == criticalAll)
      ensures |ids| == |criticals| + if criticalAll != INVALID_ID then 1 else 0
    {
      ids := [];
      var rest := criticals.Keys;
      assert |criticals.Keys| == |criticals|;
      while rest != {}
        invariant rest <= criticals.Keys
        invariant |ids| + |rest| == |criticals|
        invariant forall id :: id in ids <==> exists c :: c in criticals && c !in rest && criticals[c] == id
        decreases |rest|
      {
        var c :| c in rest;
        ids := ids + [criticals[c]];
        rest := rest - {c};
      }
      if criticalAll != INVALID_ID {
        ids := ids + [criticalAll];
      }
    }

    method SetCriticalAll(id: nat)
      modifies this
      ensures criticals == map[] && criticalAll == id
    {
      criticalAll := id;
      criticals := map[];
    }
  }

  function Latest(criticals: map<Key, nat>, criticalAll: nat, c: Key): nat {
    if c in criticals then criticals[c] else criticalAll
  }

  /** `m` and `all` summarise the first `upto` transactions. */
  ghost predicate Tracks(crit: seq<Criticals>, upto: nat, m: map<Key, nat>, all: nat)
    requires upto <= |crit| < INVALID_ID
  {
    && (all != INVALID_ID ==> all < upto && crit[all].None?)
    && (forall k :: 0 <= k < upto && After(k, all) ==> crit[k].Some?)
    && (forall c :: c in m ==>
          m[c] < upto && After(m[c], all) && c in crit[m[c]].value)
    && (forall c, k :: c in m && m[c] < k < upto ==> c !in crit[k].value)
    && (forall c, k :: c !in m && 0 <= k < upto && After(k, all) ==> c !in crit[k].value)
  }

  predicate After(k: nat, all: nat) {
    all == INVALID_ID || all < k
  }

  ghost predicate Joined(g: Graph, crit: seq<Criticals>, upto: nat)
    requires upto <= |crit| == |g|
  {
    forall i, j :: 0 <= i < j < upto && Clash(crit[i], crit[j]) ==> Reach(g, i, j)
  }

  /** Whatever clashes with `j` reaches one of the ids that `TxDAG::init` links to `j`. */
  lemma LinkFor(g: Graph, crit: seq<Criticals>, m: map<Key, nat>, all: nat, i: nat, j: nat) returns (p: nat)
    requires i < j < |crit| == |g| < INVALID_ID
    requires Tracks(crit, j, m, all) && Joined(g, crit, j)
    requires Clash(crit[i], crit[j])
    ensures p < j && (i == p || Reach(g, i, p))
    ensures crit[j].Some? ==> exists c :: c in crit[j].value && p == Latest(m, all, c)
    ensures crit[j].None? ==> p in m.Values || p == all
  {
    var c: Key;
    if crit[i].Some? && crit[j].Some? {
      c :| c in crit[i].value && c in crit[j].value;
    } else if crit[j].Some? {
      c := crit[j].value[0];
    } else if crit[i].Some? {
      c := crit[i].value[0];
    } else {
      p := all;
      return;
    }
    p := Latest(m, all, c);
    if c in m {
      assert m[c] in m.Values;
    }
  }

  /** `m'` is `m` with every one of `keys` mapped to `id`. */
  ghost predicate Overwrites(m: map<Key, nat>, keys: seq<Key>, id: nat, m': map<Key, nat>) {
    && (forall c :: c in m' <==> c in m || c in keys)
    && (forall c :: c in m' ==> m'[c] == if c in keys then id else m[c])
  }

  lemma TracksKeys(crit: seq<Criticals>, id: nat, keys: seq<Key>, m: map<Key, nat>, all: nat, m': map<Key, nat>)
    requires id < |crit| < INVALID_ID && crit[id] == Some(keys) && Tracks(crit, id, m, all)
    requires Overwrites(m, keys, id, m')
    ensures Tracks(crit, id + 1, m', all)
  {
  }

  lemma LatestClashes(crit: seq<Criticals>, id: nat, m: map<Key, nat>, all: nat, c: Key)
    requires id < |crit| < INVALID_ID && Tracks(crit, id, m, all) && crit[id].Some? && c in crit[id].value
    requires Latest(m, all, c) != INVALID_ID
    ensures Latest(m, all, c) < id && Clash(crit[Latest(m, all, c)], crit[id])
  {
  }

  /** The latest transaction of each of the keys has an edge to `id`. */
  ghost predicate KeysLinked(g: Graph, keys: seq<Key>, m: map<Key, nat>, all: nat, id: nat)
    requires id <= |g|
  {
    forall c :: c in keys ==>
      var p := Latest(m, all, c);
      p != INVALID_ID ==> p < id && id in g[p]
  }

  lemma KeyLinked(before: Graph, after: Graph, keys: seq<Key>, k: nat, m: map<Key, nat>, all: nat, id: nat)
    requires k < |keys| && id <= |before| && KeysLinked(before, keys[..k], m, all, id) && Extends(before, after)
    requires Latest(m, all, keys[k]) != INVALID_ID ==>
               Latest(m, all, keys[k]) < id && id in after[Latest(m, all, keys[k])]
    ensures KeysLinked(after, keys[..k + 1], m, all, id)
  {
    assert keys[..k + 1] == keys[..k] + [keys[k]];
  }

  /** `after` has every edge of `before` and the new ones into `id`. */
  lemma JoinNext(before: Graph, after: Graph, crit: seq<Criticals>, m: map<Key, nat>, all: nat, id: nat)
    requires id < |crit| == |before| < INVALID_ID
    requires Tracks(crit, id, m, all) && Joined(before, crit, id) && Extends(before, after)
    requires crit[id].Some? ==> KeysLinked(after, crit[id].value, m, all, id)
    requires crit[id].None? ==>
               forall p :: p in m.Values || (all != INVALID_ID && p == all) ==> p < id && id in after[p]
    ensures Joined(after, crit, id + 1)
  {
    forall i, j | 0 <= i < j <= id && Clash(crit[i], crit[j])
      ensures Reach(after, i, j)
    {
      if j < id {
        ReachMonotone(before, after, i, j);
      } else {
        var p := LinkFor(before, crit, m, all, i, id);
        if i != p {
          ReachMonotone(before, after, i, p);
        }
        ReachSnoc(after, i, p, id);
      }
    }
  }

  // ---- DAG -------------------------------------------------------------------------------------

  /** Ids below `upto` whose in-degree is zero, in increasing order. */
  ghost function Roots(inDegree: seq<nat>, upto: nat): seq<nat>
    requires upto <= |inDegree|
  {
    if upto == 0 then []
    else if inDegree[upto - 1] == 0 then Roots(inDegree, upto - 1) + [upto - 1]
    else Roots(inDegree, upto - 1)
  }

  ghost predicate Increasing(s: seq<nat>, bound: nat) {
    && (forall i :: 0 <= i < |s| ==> s[i] < bound)
    && forall i, j :: 0 <= i < j < |s| ==> s[i] < s[j]
  }

  lemma IncreasingSnoc(s: seq<nat>, x: nat)
    requires Increasing(s, x)
    ensures Increasing(s + [x], x + 1)
  {
  }

  /** The roots are queued in increasing order of id. */
  lemma {:induction false} RootsIncrease(inDegree: seq<nat>, upto: nat)
    requires upto <= |inDegree|
    ensures Increasing(Roots(inDegree, upto), upto)
  {
    if upto > 0 {
      RootsIncrease(inDegree, upto - 1);
      IncreasingSnoc(Roots(inDegree, upto - 1), upto - 1);
    }
  }

  class Dag {
    var outEdge: Graph
    var inDegree: seq<nat>
    var topLevel: seq<nat>
    var totalVtxs: nat
    var totalConsume: nat

    constructor ()
      ensures outEdge == [] && inDegree == [] && topLevel == [] && totalVtxs == 0 && totalConsume == 0
    {
      outEdge, inDegree, topLevel, totalVtxs, totalConsume := [], [], [], 0, 0;
    }

    /** Every counter is the number of edges that enter its vertex. */
    ghost predicate Counted()
      reads this
    {
      && |inDegree| == |outEdge| == totalVtxs
      && forall v :: 0 <= v < |inDegree| ==> inDegree[v] == EdgesInto(outEdge, v)
    }

    /** Leaves `topLevel` as it is: the source does not clear that queue. */
    method Init(maxSize: nat)
      modifies this
      ensures Counted() && totalVtxs == maxSize && totalConsume == 0
      ensures forall u :: 0 <= u < maxSize ==> outEdge[u] == []
      ensures topLevel == old(topLevel)
    {
      outEdge, inDegree := [], [];
      for i := 0 to maxSize
        invariant |outEdge| == |inDegree| == i
        invariant forall u :: 0 <= u < i ==> outEdge[u] == [] && inDegree[u] == 0
        invariant topLevel == old(topLevel)
      {
        outEdge, inDegree := outEdge + [[]], inDegree + [0];
      }
      totalVtxs, totalConsume := maxSize, 0;
      forall v | 0 <= v < maxSize
        ensures EdgesInto(outEdge, v) == 0
      {
        NoEdges(outEdge, v, maxSize);
      }
    }

    /** The source tests both ends with `&&`, so exactly one end out of range is not handled. */
    method AddEdge(f: nat, t: nat)
      requires Counted() && (f < totalVtxs <==> t < totalVtxs)
      modifies this`outEdge, this`inDegree
      ensures Counted()
      ensures outEdge == if f < totalVtxs then old(outEdge)[f := old(outEdge)[f] + [t]] else old(outEdge)
      ensures f >= totalVtxs ==> inDegree == old(inDegree)
    {
      if f >= |outEdge| && t >= |outEdge| {
        return;
      }
      forall v | 0 <= v < totalVtxs
        ensures EdgesInto(outEdge[f := outEdge[f] + [t]], v) == EdgesInto(outEdge, v) + if v == t then 1 else 0
      {
        EdgesIntoAdd(outEdge, f, t, v);
      }
      outEdge := outEdge[f := outEdge[f] + [t]];
      inDegree := inDegree[t := inDegree[t] + 1];
    }

    method Generate()
      requires Counted()
      modifies this`topLevel
      ensures topLevel == old(topLevel) + Roots(inDegree, totalVtxs)
    {
      for id := 0 to |outEdge|
        invariant topLevel == old(topLevel) + Roots(inDegree, id)
      {
        if inDegree[id] == 0 {
          topLevel := topLevel + [id];
        }
      }
    }
  }

  // ---- TxDAG::init -----------------------------------------------------------------------------

  class TxDag {
    const dag: Dag
    var totalParaTxs: nat
    var exeCnt: nat

    constructor ()
      ensures fresh(dag) && dag.topLevel == [] && exeCnt == 0
    {
      dag := new Dag();
      totalParaTxs, exeCnt := 0, 0;
    }

    /** Builds the graph, its counters and its ready queue from the critical lists of a block; what an
        earlier block left in the queue stays in front. */
    method Init(crit: seq<Criticals>)
      requires |crit| < INVALID_ID
      requires this as object != dag
      modifies this`totalParaTxs, dag
      ensures Faithful(dag.outEdge, crit)
      ensures dag.Counted() && dag.totalConsume == 0
      ensures dag.topLevel == old(dag.topLevel) + Roots(dag.inDegree, |crit|)
      ensures totalParaTxs == |crit|
    {
      dag.Init(|crit|);
      var latest := new CriticalField();
      var id := 0;
      while id < |crit|
        invariant 0 <= id <= |crit| == dag.totalVtxs
        invariant dag.Counted() && dag.totalConsume == 0 && dag.topLevel == old(dag.topLevel)
        invariant Tracks(crit, id, latest.criticals, latest.criticalAll)
        invariant Linked(dag.outEdge, crit, id)
        invariant Joined(dag.outEdge, crit, id)
        invariant fresh(latest)
      {
        Place(crit, id, latest);
        id := id + 1;
      }
      dag.Generate();
      totalParaTxs := |crit|;
    }

    /** Links transaction `id` to what it must follow and records it as the latest writer. */
    method Place(crit: seq<Criticals>, id: nat, latest: CriticalField)
      requires id < |crit| == dag.totalVtxs < INVALID_ID
      requires dag.Counted() && Linked(dag.outEdge, crit, id) && Joined(dag.outEdge, crit, id)
      requires Tracks(crit, id, latest.criticals, latest.criticalAll)
      requires latest as object != dag
      modifies dag`outEdge, dag`inDegree, latest
      ensures dag.Counted() && Linked(dag.outEdge, crit, id + 1) && Joined(dag.outEdge, crit, id + 1)
      ensures Tracks(crit, id + 1, latest.criticals, latest.criticalAll)
    {
      ghost var before := dag.outEdge;
      ghost var m, all := latest.criticals, latest.criticalAll;
      match crit[id] {
        case Some(keys) => {
          LinkKeys(crit, id, keys, latest);
          Record(latest, keys, id);
          TracksKeys(crit, id, keys, m, all, latest.criticals);
        }
        case None => {
          var ids := latest.ForeachField();
          LinkAll(crit, id, ids);
          latest.SetCriticalAll(id);
        }
      }
      JoinNext(before, dag.outEdge, crit, m, all, id);
    }

    /** Makes `id` the latest transaction of each of its keys. */
    method Record(latest: CriticalField, keys: seq<Key>, id: nat)
      modifies latest
      ensures Overwrites(old(latest.criticals), keys, id, latest.criticals)
      ensures latest.criticalAll == old(latest.criticalAll)
    {
      ghost var m := latest.criticals;
      for k := 0 to |keys|
        invariant Overwrites(m, keys[..k], id, latest.criticals)
        invariant latest.criticalAll == old(latest.criticalAll)
      {
        assert keys[..k + 1] == keys[..k] + [keys[k]];
        latest.Update(keys[k], id);
      }
      assert keys[..|keys|] == keys;
    }

    /** Adds the edges of a transaction with critical keys. */
    method LinkKeys(crit: seq<Criticals>, id: nat, keys: seq<Key>, latest: CriticalField)
      requires id < |crit| == dag.totalVtxs < INVALID_ID && crit[id] == Some(keys)
      requires dag.Counted() && Linked(dag.outEdge, crit, id)
      requires Tracks(crit, id, latest.criticals, latest.criticalAll)
      modifies dag`outEdge, dag`inDegree
      ensures dag.Counted() && Linked(dag.outEdge, crit, id + 1) && Extends(old(dag.outEdge), dag.outEdge)
      ensures KeysLinked(dag.outEdge, keys, latest.criticals, latest.criticalAll, id)
    {
      for k := 0 to |keys|
        invariant dag.Counted() && Linked(dag.outEdge, crit, id + 1) && Extends(old(dag.outEdge), dag.outEdge)
        invariant KeysLinked(dag.outEdge, keys[..k], latest.criticals, latest.criticalAll, id)
      {
        ghost var before := dag.outEdge;
        LinkKey(crit, id, keys, k, latest);
        ExtendsOn(old(dag.outEdge), before, dag.outEdge);
      }
      assert keys[..|keys|] == keys;
    }

    /** Adds the edge for one critical key, if an earlier transaction has that key. */
    method LinkKey(crit: seq<Criticals>, id: nat, keys: seq<Key>, k: nat, latest: CriticalField)
      requires id < |crit| == dag.totalVtxs < INVALID_ID && crit[id] == Some(keys) && k < |keys|
      requires dag.Counted() && Linked(dag.outEdge, crit, id + 1)
      requires Tracks(crit, id, latest.criticals, latest.criticalAll)
      requires KeysLinked(dag.outEdge, keys[..k], latest.criticals, latest.criticalAll, id)
      modifies dag`outEdge, dag`inDegree
      ensures dag.Counted() && Linked(dag.outEdge, crit, id + 1) && Extends(old(dag.outEdge), dag.outEdge)
      ensures KeysLinked(dag.outEdge, keys[..k + 1], latest.criticals, latest.criticalAll, id)
    {
      var p := latest.Get(keys[k]);
      if p != INVALID_ID {
        LatestClashes(crit, id, latest.criticals, latest.criticalAll, keys[k]);
        dag.AddEdge(p, id);
      }
      KeyLinked(old(dag.outEdge), dag.outEdge, keys, k, latest.criticals, latest.criticalAll, id);
    }

    /** Adds the edges of a transaction that conflicts with everything. */
    method LinkAll(crit: seq<Criticals>, id: nat, ids: seq<nat>)
      requires id < |crit| == dag.totalVtxs && crit[id].None?
      requires dag.Counted() && Linked(dag.outEdge, crit, id)
      requires forall p :: p in ids ==> p < id && Clash(crit[p], crit[id])
      modifies dag`outEdge, dag`inDegree
      ensures dag.Counted() && Linked(dag.outEdge, crit, id + 1) && Extends(old(dag.outEdge), dag.outEdge)
      ensures forall p :: p in ids ==> id in dag.outEdge[p]
    {
      for k := 0 to |ids|
        invariant dag.Counted() && Linked(dag.outEdge, crit, id + 1) && Extends(old(dag.outEdge), dag.outEdge)
        invariant forall p :: p in ids[..k] ==> p < |dag.outEdge| && id in dag.outEdge[p]
      {
        assert ids[..k + 1] == ids[..k] + [ids[k]];
        assert ids[k] in ids;
        dag.AddEdge(ids[k], id);
      }
      assert ids[..|ids|] == ids;
    }
  }

  /** All edges so far go forward, end below `upto` and join clashing transactions. */
  ghost predicate Linked(g: Graph, crit: seq<Criticals>, upto: nat) {
    && |g| == |crit| && upto <= |crit|
    && forall i, k :: 0 <= i < |g| && 0 <= k < |g[i]| ==>
         i < g[i][k] < upto && Clash(crit[i], crit[g[i][k]])
  }
}
