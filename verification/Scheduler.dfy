/**
 * Many workers running the dependency graph: `parallelExecuteBlock`, `TxDAG::executeUnit`,
 * `DAG::waitPop` and `DAG::consume` as a step system.
 *
 * Every access to shared memory is one step: a pop, a push, a counter decrement, the increment of
 * the consume count, the publication of a worker's local count, and the execution of a transaction.
 */
module Scheduler {
  import opened Common
  import opened TxGraph
  import opened SerialOrder

  /** Where a worker thread stands. `cnt` is the local `exeCnt` of `executeUnit`. */
  datatype Worker =
    | Checking                                        // about to test hasFinished
    | Popping(cnt: nat)                               // inside waitPop
    | Running(cnt: nat, id: nat)                      // about to execute transaction id
    | Consuming(cnt: nat, id: nat, k: nat, next: Option<nat>)  // consume, at the k-th out edge
    | Pushing(cnt: nat, id: nat, k: nat, kept: nat, ready: nat)  // consume, about to queue ready
    | Counting(cnt: nat)                              // about to add cnt to the shared count
    | Exited

  /** Shared memory and workers. `order` and `done` are history: the executed ids in order, and
      how many out edges of each vertex have been processed. */
  datatype Core = Core(
    inDegree: seq<nat>,
    queue: seq<nat>,
    totalConsume: nat,
    exeCnt: nat,
    shouldExit: bool,
    workers: seq<Worker>,
    order: seq<nat>,
    done: seq<nat>)

  datatype Label =
    | SignalExit
    | Check(w: nat)
    | Pop(w: nat)
    | PopNothing(w: nat)
    | Execute(w: nat)
    | Decrement(w: nat)
    | Push(w: nat)
    | Finish(w: nat)
    | Publish(w: nat)

  predicate Enabled(g: Graph, c: Core, l: Label) {
    match l
    case SignalExit => true
    case Check(w) => w < |c.workers| && c.workers[w].Checking?
    case Pop(w) => w < |c.workers| && c.workers[w].Popping? && c.queue != []
    case PopNothing(w) => w < |c.workers| && c.workers[w].Popping? && c.queue == []
    case Execute(w) => w < |c.workers| && c.workers[w].Running? && c.workers[w].id < |g|
    case Decrement(w) =>
      && w < |c.workers| && c.workers[w].Consuming?
      && c.workers[w].id < |g| == |c.done| && c.workers[w].k < |g[c.workers[w].id]|
      && g[c.workers[w].id][c.workers[w].k] < |c.inDegree|
    case Push(w) => w < |c.workers| && c.workers[w].Pushing?
    case Finish(w) =>
      w < |c.workers| && c.workers[w].Consuming? && c.workers[w].id < |g| && c.workers[w].k == |g[c.workers[w].id]|
    case Publish(w) => w < |c.workers| && c.workers[w].Counting?
  }

  /** `fetch_sub(1)` on a 32-bit unsigned counter. */
  function FetchSub(d: nat): nat {
    if d == 0 then 0xFFFF_FFFF else d - 1
  }

  predicate HasFinished(g: Graph, c: Core) {
    c.exeCnt >= |g| || c.shouldExit
  }

  /** The worker after the decrement that saw `last`: a first ready vertex is kept, later ones are queued. */
  function AfterDecrement(x: Worker, last: nat, target: nat): Worker
    requires x.Consuming?
  {
    if last != 1 then Consuming(x.cnt, x.id, x.k + 1, x.next)
    else match x.next
      case None => Consuming(x.cnt, x.id, x.k + 1, Some(target))
      case Some(kept) => Pushing(x.cnt, x.id, x.k + 1, kept, target)
  }

  function Step(g: Graph, c: Core, l: Label): Core
    requires Enabled(g, c, l)
  {
    match l
    case SignalExit => c.(shouldExit := true)
    case Check(w) =>
      c.(workers := c.workers[w := if HasFinished(g, c) then Exited else Popping(0)])
    case Pop(w) =>
      c.(queue := c.queue[1..], workers := c.workers[w := Running(c.workers[w].cnt, c.queue[0])])
    case PopNothing(w) =>
      c.(workers := c.workers[w := Counting(c.workers[w].cnt)])
    case Execute(w) =>
      var x := c.workers[w];
      c.(order := c.order + [x.id], workers := c.workers[w := Consuming(x.cnt + 1, x.id, 0, None)])
    case Decrement(w) =>
      var x := c.workers[w];
      var target := g[x.id][x.k];
      var last := c.inDegree[target];
      c.(inDegree := c.inDegree[target := FetchSub(last)],
         done := c.done[x.id := x.k + 1],
         workers := c.workers[w := AfterDecrement(x, last, target)])
    case Push(w) =>
      var x := c.workers[w];
      c.(queue := c.queue + [x.ready], workers := c.workers[w := Consuming(x.cnt, x.id, x.k, Some(x.kept))])
    case Finish(w) =>
      var x := c.workers[w];
      c.(totalConsume := c.totalConsume + 1,
         workers := c.workers[w := if x.next.Some? then Running(x.cnt, x.next.value) else Popping(x.cnt)])
    case Publish(w) =>
      c.(exeCnt := c.exeCnt + c.workers[w].cnt, workers := c.workers[w := Checking])
  }

  // ---- Runs ------------------------------------------------------------------------------------

  /** A block under execution: the schedule, and the store with the receipts filed so far. */
  datatype Sys<S, R> = Sys(core: Core, block: Outcome<S, R>)

  function SysStep<S, T, R>(g: Graph, exec: Exec<S, T, R>, txs: seq<T>, s: Sys<S, R>, l: Label): Sys<S, R>
    requires |g| == |txs| && Enabled(g, s.core, l)
  {
    Sys(Step(g, s.core, l), if l.Execute? then PlayOne(exec, txs, s.block, s.core.workers[l.w].id) else s.block)
  }

  /** `ls` is an interleaving that can happen from `s`. */
  predicate Runnable<S, T, R>(g: Graph, exec: Exec<S, T, R>, txs: seq<T>, s: Sys<S, R>, ls: seq<Label>)
    requires |g| == |txs|
    decreases |ls|
  {
    ls == [] || (Enabled(g, s.core, ls[0]) && Runnable(g, exec, txs, SysStep(g, exec, txs, s, ls[0]), ls[1..]))
  }

  function Run<S, T, R>(g: Graph, exec: Exec<S, T, R>, txs: seq<T>, s: Sys<S, R>, ls: seq<Label>): Sys<S, R>
    requires |g| == |txs| && Runnable(g, exec, txs, s, ls)
    decreases |ls|
  {
    if ls == [] then s else Run(g, exec, txs, SysStep(g, exec, txs, s, ls[0]), ls[1..])
  }

  /** What `TxDAG::init` leaves behind and `nWorkers` threads at the head of their loop. */
  ghost predicate Starts(g: Graph, c: Core, nWorkers: nat) {
    && |c.inDegree| == |g|
    && (forall v :: 0 <= v < |g| ==> c.inDegree[v] == EdgesInto(g, v))
    && c.queue == Roots(c.inDegree, |g|)
    && c.totalConsume == 0 && c.exeCnt == 0 && !c.shouldExit
    && |c.workers| == nWorkers && (forall w :: 0 <= w < nWorkers ==> c.workers[w] == Checking)
    && c.order == [] && c.done == Zeros(|g|)
  }

  /** Building the graph for a block and handing it to `nWorkers` threads. */
  method StartBlock(crit: seq<Criticals>, nWorkers: nat) returns (g: Graph, c: Core)
    requires |crit| < INVALID_ID
    ensures Faithful(g, crit) && Starts(g, c, nWorkers)
  {
    var txDag := new TxDag();
    txDag.Init(crit);
    var dag := txDag.dag;
    g := dag.outEdge;
    var workers := seq(nWorkers, _ => Checking);
    c := Core(dag.inDegree, dag.topLevel, dag.totalConsume, 0, false, workers, [], seq(|g|, _ => 0));
  }

  // ---- Sums over workers -----------------------------------------------------------------------

  datatype Tally = Held(v: nat) | Busy(v: nat) | AnyBusy | Local | Effort | Leaving

  /** What one worker contributes to a tally. */
  ghost function Weight(x: Worker, t: Tally): nat {
    match t
    case Held(v) =>
      (match x
       case Running(_, id) => if id == v then 1 else 0
       case Consuming(_, _, _, next) => if next == Some(v) then 1 else 0
       case Pushing(_, _, _, kept, ready) => (if kept == v then 1 else 0) + if ready == v then 1 else 0
       case _ => 0)
    case Busy(v) => if (x.Consuming? || x.Pushing?) && x.id == v then 1 else 0
    case AnyBusy => if x.Consuming? || x.Pushing? then 1 else 0
    case Local => if x.Checking? || x.Exited? then 0 else x.cnt
    case Effort => if x.Consuming? then 1 else if x.Pushing? then 3 else 0
    case Leaving => if x.Popping? then 3 else if x.Counting? then 2 else if x.Checking? then 1 else 0
  }

  ghost function Sum(ws: seq<Worker>, t: Tally, n: nat): nat
    requires n <= |ws|
  {
    if n == 0 then 0 else Sum(ws, t, n - 1) + Weight(ws[n - 1], t)
  }

  ghost function Total(ws: seq<Worker>, t: Tally): nat {
    Sum(ws, t, |ws|)
  }

  lemma {:induction false} SumSame(ws: seq<Worker>, vs: seq<Worker>, t: Tally, n: nat)
    requires n <= |ws| == |vs| && forall i :: 0 <= i < n ==> ws[i] == vs[i]
    ensures Sum(ws, t, n) == Sum(vs, t, n)
  {
    if n > 0 {
      SumSame(ws, vs, t, n - 1);
    }
  }

  lemma {:induction false} SumUpdate(ws: seq<Worker>, w: nat, x: Worker, t: Tally, n: nat)
    requires w < n <= |ws|
    ensures Sum(ws[w := x], t, n) + Weight(ws[w], t) == Sum(ws, t, n) + Weight(x, t)
    ensures Weight(ws[w], t) <= Sum(ws, t, n)
  {
    if w == n - 1 {
      SumSame(ws, ws[w := x], t, w);
    } else {
      SumUpdate(ws, w, x, t, n - 1);
    }
  }

  lemma TotalUpdate(ws: seq<Worker>, w: nat, x: Worker, t: Tally)
    requires w < |ws|
    ensures Total(ws[w := x], t) + Weight(ws[w], t) == Total(ws, t) + Weight(x, t)
    ensures Weight(ws[w], t) <= Total(ws, t)
  {
    SumUpdate(ws, w, x, t, |ws|);
  }

  lemma {:induction false} SumOrigin(ws: seq<Worker>, t: Tally, n: nat) returns (w: nat)
    requires n <= |ws| && Sum(ws, t, n) > 0
    ensures w < n && Weight(ws[w], t) > 0
  {
    if Weight(ws[n - 1], t) > 0 {
      w := n - 1;
    } else {
      w := SumOrigin(ws, t, n - 1);
    }
  }

  // ---- The invariant ---------------------------------------------------------------------------

  /** Every counter equals the number of edges into its vertex that are still to be processed. */
  ghost predicate CountersExact(g: Graph, c: Core) {
    && |c.inDegree| == |g| && Cursors(g, c.done)
    && forall v :: 0 <= v < |g| ==> c.inDegree[v] == Pending(g, c.done, v, |g|)
  }

  /** Places where `v` is queued, held by a worker or already executed. */
  ghost function Places(c: Core, v: nat): nat {
    Occ(c.queue, 0, v) + Total(c.workers, Held(v)) + Occ(c.order, 0, v)
  }

  /** A vertex is in exactly one place once its counter is zero, and in none before. */
  ghost predicate PlacedOnce(c: Core, v: nat) {
    Places(c, v) == if v < |c.inDegree| && c.inDegree[v] == 0 then 1 else 0
  }

  ghost predicate ReadyOnce(g: Graph, c: Core) {
    forall v: nat :: PlacedOnce(c, v)
  }

  /** A worker inside `consume` is at the edge its history says. */
  ghost predicate AtCursor(g: Graph, c: Core, x: Worker) {
    x.Consuming? || x.Pushing? ==> x.id < |g| == |c.done| && x.k == c.done[x.id] <= |g[x.id]|
  }

  ghost predicate AllAtCursor(g: Graph, c: Core) {
    forall w :: 0 <= w < |c.workers| ==> AtCursor(g, c, c.workers[w])
  }

  /** Edges are processed only by the worker that executed their source. */
  ghost predicate EdgesAfterRun(g: Graph, c: Core, v: nat) {
    && Total(c.workers, Busy(v)) <= Occ(c.order, 0, v)
    && (v < |g| == |c.done| && Occ(c.order, 0, v) == 0 ==> c.done[v] == 0)
    && (v < |g| == |c.done| && Total(c.workers, Busy(v)) < Occ(c.order, 0, v) ==> c.done[v] == |g[v]|)
  }

  ghost predicate AllEdgesAfterRun(g: Graph, c: Core) {
    forall v: nat :: EdgesAfterRun(g, c, v)
  }

  ghost predicate CountsAdd(c: Core) {
    && c.totalConsume + Total(c.workers, AnyBusy) == |c.order|
    && c.exeCnt + Total(c.workers, Local) == |c.order|
  }

  /** Each executed id is a vertex whose predecessors were all executed before it. */
  ghost predicate PredecessorsFirst(g: Graph, c: Core) {
    && Within(c.order, |g|)
    && forall q, u :: 0 <= q < |c.order| && 0 <= u < |g| && c.order[q] in g[u] ==> u in c.order[..q]
  }

  ghost predicate ExitJustified(g: Graph, c: Core) {
    forall w :: 0 <= w < |c.workers| && c.workers[w].Exited? ==> HasFinished(g, c)
  }

  ghost predicate Inv(g: Graph, c: Core) {
    && Forward(g) && CountersExact(g, c) && ReadyOnce(g, c)
    && AllAtCursor(g, c) && AllEdgesAfterRun(g, c)
    && CountsAdd(c) && PredecessorsFirst(g, c) && ExitJustified(g, c)
  }

  // ---- It holds at the start -------------------------------------------------------------------

  lemma {:induction false} RootsOnce(inDegree: seq<nat>, upto: nat, v: nat)
    requires upto <= |inDegree|
    ensures Occ(Roots(inDegree, upto), 0, v) == if v < upto && inDegree[v] == 0 then 1 else 0
  {
    if upto > 0 {
      RootsOnce(inDegree, upto - 1, v);
      OccSnoc(Roots(inDegree, upto - 1), 0, upto - 1, v);
    }
  }

  lemma {:induction false} AllCheckingSum(ws: seq<Worker>, t: Tally, n: nat)
    requires n <= |ws| && forall w :: 0 <= w < |ws| ==> ws[w] == Checking
    requires t != Leaving
    ensures Sum(ws, t, n) == 0
  {
    if n > 0 {
      AllCheckingSum(ws, t, n - 1);
    }
  }

  lemma StartKeepsInv(g: Graph, c: Core, nWorkers: nat)
    requires Forward(g) && Starts(g, c, nWorkers)
    ensures Inv(g, c)
  {
    forall t | t != Leaving
      ensures Total(c.workers, t) == 0
    {
      AllCheckingSum(c.workers, t, |c.workers|);
    }
    forall v: nat
      ensures PlacedOnce(c, v)
    {
      RootsOnce(c.inDegree, |g|, v);
    }
  }

  // ---- Every step keeps it ---------------------------------------------------------------------

  /** A vertex that somebody holds is a ready vertex in no other place. */
  lemma HeldIsReady(g: Graph, c: Core, w: nat, v: nat)
    requires ReadyOnce(g, c) && w < |c.workers| && Weight(c.workers[w], Held(v)) > 0
    ensures v < |c.inDegree| && c.inDegree[v] == 0
    ensures Occ(c.queue, 0, v) == 0 && Occ(c.order, 0, v) == 0
    ensures Total(c.workers, Held(v)) == Weight(c.workers[w], Held(v)) == 1
  {
    TotalUpdate(c.workers, w, c.workers[w], Held(v));
    assert PlacedOnce(c, v);
  }

  lemma StepCounters(g: Graph, c: Core, l: Label)
    requires Inv(g, c) && Enabled(g, c, l)
    ensures CountersExact(g, Step(g, c, l))
    ensures l.Decrement? ==> c.inDegree[g[c.workers[l.w].id][c.workers[l.w].k]] > 0
  {
    if l.Decrement? {
      var x := c.workers[l.w];
      assert AtCursor(g, c, x);
      PendingHas(g, c.done, x.id, x.k, |g|);
      forall v | 0 <= v < |g|
        ensures Step(g, c, l).inDegree[v] == Pending(g, Step(g, c, l).done, v, |g|)
      {
        PendingAdvance(g, c.done, x.id, v);
      }
    }
  }

  lemma {:induction false} OccTail(s: seq<nat>, from: nat, v: nat)
    requires 1 <= from <= |s|
    ensures Occ(s[1..], from - 1, v) == Occ(s, from, v)
    decreases |s| - from
  {
    if from < |s| {
      OccTail(s, from + 1, v);
    }
  }

  /** No decrement goes below zero: a step moves a vertex from one place to the next. */
  lemma PlacesKept(g: Graph, c: Core, l: Label, v: nat)
    requires Enabled(g, c, l) && PlacedOnce(c, v)
    requires l.Decrement? ==> c.inDegree[g[c.workers[l.w].id][c.workers[l.w].k]] > 0
    ensures PlacedOnce(Step(g, c, l), v)
  {
    var c' := Step(g, c, l);
    if !l.SignalExit? {
      TotalUpdate(c.workers, l.w, c'.workers[l.w], Held(v));
    }
    match l {
      case Pop(w) => OccTail(c.queue, 1, v);
      case Execute(w) => OccSnoc(c.order, 0, c.workers[w].id, v);
      case Push(w) => OccSnoc(c.queue, 0, c.workers[w].ready, v);
      case _ =>
    }
  }

  lemma StepPlaces(g: Graph, c: Core, l: Label)
    requires Inv(g, c) && Enabled(g, c, l)
    ensures ReadyOnce(g, Step(g, c, l))
  {
    StepCounters(g, c, l);
    forall v: nat
      ensures PlacedOnce(Step(g, c, l), v)
    {
      assert PlacedOnce(c, v);
      PlacesKept(g, c, l, v);
    }
  }

  lemma StepCursors(g: Graph, c: Core, l: Label)
    requires Inv(g, c) && Enabled(g, c, l)
    ensures AllAtCursor(g, Step(g, c, l))
  {
    var c' := Step(g, c, l);
    forall w | 0 <= w < |c'.workers|
      ensures AtCursor(g, c', c'.workers[w])
    {
      assert AtCursor(g, c, c.workers[w]);
      if l.Decrement? && w != l.w && (c.workers[w].Consuming? || c.workers[w].Pushing?) {
        OneBusyWorker(g, c, l.w, w);
      }
      if l.Execute? && w == l.w {
        HeldIsReady(g, c, w, c.workers[w].id);
        assert EdgesAfterRun(g, c, c.workers[w].id);
      }
    }
  }

  /** Two workers are never inside `consume` for the same vertex. */
  lemma OneBusyWorker(g: Graph, c: Core, w: nat, w': nat)
    requires Inv(g, c) && w < |c.workers| && w' < |c.workers| && w != w'
    requires (c.workers[w].Consuming? || c.workers[w].Pushing?) && (c.workers[w'].Consuming? || c.workers[w'].Pushing?)
    ensures c.workers[w].id != c.workers[w'].id
  {
    var v := c.workers[w].id;
    assert EdgesAfterRun(g, c, v) && PlacedOnce(c, v);
    var ws := c.workers[w := Exited];
    TotalUpdate(c.workers, w, Exited, Busy(v));
    TotalUpdate(ws, w', Exited, Busy(v));
  }

  lemma StepEdges(g: Graph, c: Core, l: Label, v: nat)
    requires Inv(g, c) && Enabled(g, c, l)
    ensures EdgesAfterRun(g, Step(g, c, l), v)
  {
    var c' := Step(g, c, l);
    assert EdgesAfterRun(g, c, v) && PlacedOnce(c, v);
    if !l.SignalExit? {
      TotalUpdate(c.workers, l.w, c'.workers[l.w], Busy(v));
      assert AtCursor(g, c, c.workers[l.w]);
    }
    if l.Execute? {
      HeldIsReady(g, c, l.w, c.workers[l.w].id);
      OccSnoc(c.order, 0, c.workers[l.w].id, v);
    }
  }

  lemma StepCounts(g: Graph, c: Core, l: Label)
    requires Inv(g, c) && Enabled(g, c, l)
    ensures CountsAdd(Step(g, c, l)) && ExitJustified(g, Step(g, c, l))
  {
    var c' := Step(g, c, l);
    if !l.SignalExit? {
      TotalUpdate(c.workers, l.w, c'.workers[l.w], AnyBusy);
      TotalUpdate(c.workers, l.w, c'.workers[l.w], Local);
    }
  }

  lemma {:induction false} OccMember(s: seq<nat>, from: nat, v: nat)
    requires from <= |s|
    ensures Occ(s, from, v) > 0 <==> v in s[from..]
    decreases |s| - from
  {
    if from < |s| {
      OccMember(s, from + 1, v);
      assert s[from..] == [s[from]] + s[from + 1..];
    }
  }

  /** A vertex whose counter reached zero has only executed predecessors. */
  lemma ReadyAfterPredecessors(g: Graph, c: Core, v: nat, u: nat)
    requires Inv(g, c) && v < |g| && c.inDegree[v] == 0 && u < |g| && v in g[u]
    ensures u in c.order
  {
    var k :| 0 <= k < |g[u]| && g[u][k] == v;
    if c.done[u] <= k {
      PendingHas(g, c.done, u, k, |g|);
      assert false;
    }
    assert EdgesAfterRun(g, c, u);
    OccMember(c.order, 0, u);
    assert c.order[0..] == c.order;
  }

  lemma StepOrder(g: Graph, c: Core, l: Label)
    requires Inv(g, c) && Enabled(g, c, l)
    ensures PredecessorsFirst(g, Step(g, c, l))
  {
    if l.Execute? {
      var id := c.workers[l.w].id;
      var order' := c.order + [id];
      HeldIsReady(g, c, l.w, id);
      forall q, u | 0 <= q < |order'| && 0 <= u < |g| && order'[q] in g[u]
        ensures u in order'[..q]
      {
        assert order'[..q] == c.order[..q];
        if q == |c.order| {
          ReadyAfterPredecessors(g, c, id, u);
          assert c.order[..q] == c.order;
        } else {
          assert c.order[q] in g[u];
        }
      }
    }
  }

  lemma StepKeepsInv(g: Graph, c: Core, l: Label)
    requires Inv(g, c) && Enabled(g, c, l)
    ensures Inv(g, Step(g, c, l))
  {
    var c' := Step(g, c, l);
    StepCounters(g, c, l);
    StepPlaces(g, c, l);
    StepCursors(g, c, l);
    forall v: nat
      ensures EdgesAfterRun(g, c', v)
    {
      StepEdges(g, c, l, v);
    }
    StepCounts(g, c, l);
    StepOrder(g, c, l);
  }

  /** Over a whole run: the invariant, and a store and receipts that come from executing `order`. */
  lemma {:induction false} RunKeepsInv<S, T, R>(
    g: Graph, exec: Exec<S, T, R>, txs: seq<T>, start: S, s: Sys<S, R>, ls: seq<Label>)
    requires |g| == |txs| && Runnable(g, exec, txs, s, ls)
    requires Inv(g, s.core) && s.block == Play(exec, txs, start, s.core.order)
    ensures var e := Run(g, exec, txs, s, ls);
            Inv(g, e.core) && e.block == Play(exec, txs, start, e.core.order)
    decreases |ls|
  {
    if ls != [] {
      var l, s' := ls[0], SysStep(g, exec, txs, s, ls[0]);
      StepKeepsInv(g, s.core, l);
      if l.Execute? {
        PlaySnoc(exec, txs, start, s.core.order, s.core.workers[l.w].id);
      }
      RunKeepsInv(g, exec, txs, start, s', ls[1..]);
    }
  }

  // ---- What the executed order looks like ------------------------------------------------------

  lemma {:induction false} OccTwice(s: seq<nat>, from: nat, i: nat, j: nat)
    requires from <= i < j < |s| && s[i] == s[j]
    ensures Occ(s, from, s[i]) >= 2
    decreases i - from
  {
    if from == i {
      OccAt(s, from + 1, j);
    } else {
      OccTwice(s, from + 1, i, j);
    }
  }

  /** Each transaction runs at most once. */
  lemma RunsOnce(g: Graph, c: Core)
    requires Inv(g, c)
    ensures NoDup(c.order)
  {
    forall i, j | 0 <= i < j < |c.order|
      ensures c.order[i] != c.order[j]
    {
      assert PlacedOnce(c, c.order[i]);
      if c.order[i] == c.order[j] {
        OccTwice(c.order, 0, i, j);
        assert false;
      }
    }
  }

  /** Along a path, the source runs before the target. */
  lemma {:induction false} PathRunsFirst(g: Graph, c: Core, i: nat, j: nat, y: nat)
    requires PredecessorsFirst(g, c) && Reach(g, i, j) && y < |c.order| && c.order[y] == j
    ensures i in c.order[..y]
    decreases j - i
  {
    if j !in g[i] {
      var k :| k in g[i] && i < k < j && Reach(g, k, j);
      PathRunsFirst(g, c, k, j, y);
      var q :| 0 <= q < y && c.order[..y][q] == k;
      assert c.order[q] == k;
      assert i in c.order[..q];
      var z :| 0 <= z < q && c.order[..q][z] == i;
      assert c.order[..y][z] == i;
    }
  }

  lemma NotEarlier(order: seq<nat>, x: nat, y: nat)
    requires NoDup(order) && x < y < |order|
    ensures order[y] !in order[..x]
  {
    assert forall z :: 0 <= z < x ==> order[..x][z] == order[z] != order[y];
  }

  /** In every reachable state, clashing transactions have run in block order. */
  lemma ClashesInBlockOrder(g: Graph, c: Core, crit: seq<Criticals>)
    requires Inv(g, c) && Faithful(g, crit)
    ensures KeepsClashes(c.order, crit)
  {
    RunsOnce(g, c);
    forall x, y | 0 <= x < y < |c.order| && c.order[y] < c.order[x]
      ensures !Clash(crit[c.order[y]], crit[c.order[x]])
    {
      if Clash(crit[c.order[y]], crit[c.order[x]]) {
        PathRunsFirst(g, c, c.order[y], c.order[x], x);
        NotEarlier(c.order, x, y);
        assert false;
      }
    }
  }

  // ---- Counting executed vertices --------------------------------------------------------------

  ghost function OccBelow(s: seq<nat>, n: nat): nat {
    if n == 0 then 0 else OccBelow(s, n - 1) + Occ(s, 0, n - 1)
  }

  lemma {:induction false} OccBelowSnoc(s: seq<nat>, t: nat, n: nat)
    ensures OccBelow(s + [t], n) == OccBelow(s, n) + if t < n then 1 else 0
  {
    if n > 0 {
      OccBelowSnoc(s, t, n - 1);
      OccSnoc(s, 0, t, n - 1);
    }
  }

  lemma {:induction false} OccBelowNil(n: nat)
    ensures OccBelow([], n) == 0
  {
    if n > 0 {
      OccBelowNil(n - 1);
    }
  }

  lemma {:induction false} OccBelowAll(s: seq<nat>, n: nat)
    requires Within(s, n)
    ensures OccBelow(s, n) == |s|
  {
    if s == [] {
      OccBelowNil(n);
    } else {
      var m := |s| - 1;
      OccBelowAll(s[..m], n);
      OccBelowSnoc(s[..m], s[m], n);
      assert s[..m] + [s[m]] == s;
    }
  }

  lemma {:induction false} OccBelowAtMost(s: seq<nat>, n: nat)
    requires forall v: nat :: Occ(s, 0, v) <= 1
    ensures OccBelow(s, n) <= n
    ensures OccBelow(s, n) == n ==> forall v :: 0 <= v < n ==> Occ(s, 0, v) == 1
  {
    if n > 0 {
      OccBelowAtMost(s, n - 1);
    }
  }

  /** No more transactions run than there are, and when that many have run, all have. */
  lemma RunCount(g: Graph, c: Core)
    requires Inv(g, c)
    ensures |c.order| <= |g|
    ensures |c.order| == |g| ==> Permutation(c.order, |g|)
  {
    forall v: nat
      ensures Occ(c.order, 0, v) <= 1
    {
      assert PlacedOnce(c, v);
    }
    OccBelowAll(c.order, |g|);
    OccBelowAtMost(c.order, |g|);
    RunsOnce(g, c);
    if |c.order| == |g| {
      forall v | 0 <= v < |g|
        ensures v in c.order
      {
        assert Occ(c.order, 0, v) == 1;
        OccMember(c.order, 0, v);
        assert c.order[0..] == c.order;
      }
    }
  }

  // ---- Finish is honest ------------------------------------------------------------------------

  /** Without an exit request, `hasFinished` means that every transaction has run exactly once. */
  lemma FinishedMeansAllRan(g: Graph, c: Core)
    requires Inv(g, c) && HasFinished(g, c) && !c.shouldExit
    ensures Permutation(c.order, |g|)
  {
    RunCount(g, c);
  }

  /** Serial equivalence. Any number of workers, any interleaving: once a worker has left
      its loop without an exit request, the store and every receipt are those of the block order. */
  lemma ParallelEqualsSerial<S(!new), T, R>(
    g: Graph, crit: seq<Criticals>, exec: Exec<S, T, R>, txs: seq<T>, start: S, c: Core, nWorkers: nat,
    ls: seq<Label>, w: nat)
    requires Faithful(g, crit) && ClashSound(exec, txs, crit)
    requires Starts(g, c, nWorkers)
    requires Runnable(g, exec, txs, Sys(c, Outcome(start, map[])), ls)
    requires var e := Run(g, exec, txs, Sys(c, Outcome(start, map[])), ls).core;
             !e.shouldExit && w < |e.workers| && e.workers[w].Exited?
    ensures var o := Run(g, exec, txs, Sys(c, Outcome(start, map[])), ls).block;
            && o == Play(exec, txs, start, BlockOrder(|txs|))
            && o.store == StoreAfter(exec, txs, start, |txs|)
            && (forall i :: i in o.receipts <==> 0 <= i < |txs|)
            && forall i {:trigger o.receipts[i]} :: 0 <= i < |txs| ==>
                 o.receipts[i] == exec(StoreAfter(exec, txs, start, i), txs[i]).1
  {
    var e := Run(g, exec, txs, Sys(c, Outcome(start, map[])), ls);
    StartKeepsInv(g, c, nWorkers);
    RunKeepsInv(g, exec, txs, start, Sys(c, Outcome(start, map[])), ls);
    FinishedMeansAllRan(g, e.core);
    ClashesInBlockOrder(g, e.core, crit);
    SerialEquivalence(exec, txs, crit, start, e.core.order, |txs|);
    PlayBlockOrder(exec, txs, start);
  }

  // ---- Exit requests ---------------------------------------------------------------------------

  /** After an exit request, in every later state, a worker that tests for the end leaves its loop. */
  lemma {:induction false} ExitIsFinal<S, T, R>(
    g: Graph, exec: Exec<S, T, R>, txs: seq<T>, s: Sys<S, R>, ls: seq<Label>, w: nat)
    requires |g| == |txs| && Runnable(g, exec, txs, s, ls) && (s.core.shouldExit || SignalExit in ls)
    requires var e := Run(g, exec, txs, s, ls).core; w < |e.workers| && e.workers[w] == Checking
    ensures var e := Run(g, exec, txs, s, ls).core;
            Enabled(g, e, Check(w)) && Step(g, e, Check(w)).workers[w] == Exited
    decreases |ls|
  {
    if ls != [] {
      assert SignalExit in ls ==> ls[0] == SignalExit || SignalExit in ls[1..];
      ExitIsFinal(g, exec, txs, SysStep(g, exec, txs, s, ls[0]), ls[1..], w);
    }
  }

  /** Without an exit request a worker leaves exactly when every transaction has been counted. */
  lemma LeavesIff(g: Graph, c: Core, w: nat)
    requires Inv(g, c) && !c.shouldExit && w < |c.workers| && c.workers[w] == Checking
    ensures Step(g, c, Check(w)).workers[w] == Exited <==> c.exeCnt == |g|
  {
    RunCount(g, c);
  }

  // ---- No stall --------------------------------------------------------------------------------

  predicate HasWork(x: Worker) {
    x.Running? || x.Consuming? || x.Pushing?
  }

  lemma {:induction false} BusyAtMostAny(ws: seq<Worker>, v: nat, n: nat)
    requires n <= |ws|
    ensures Sum(ws, Busy(v), n) <= Sum(ws, AnyBusy, n)
  {
    if n > 0 {
      BusyAtMostAny(ws, v, n - 1);
    }
  }

  lemma {:induction false} FirstUnrun(order: seq<nat>, n: nat) returns (v: nat)
    requires Within(order, n) && |order| < n
    ensures v < n && v !in order && forall u :: 0 <= u < v ==> u in order
  {
    if forall u :: 0 <= u < n ==> u in order {
      forall u | 0 <= u < n
        ensures Occ(order, 0, u) > 0
      {
        OccMember(order, 0, u);
        assert order[0..] == order;
      }
      OccBelowAtLeast(order, n);
      OccBelowAll(order, n);
      assert false;
    }
    v := 0;
    while v in order
      invariant v < n && (forall u :: 0 <= u < v ==> u in order)
      decreases n - v
    {
      v := v + 1;
    }
  }

  lemma {:induction false} OccBelowAtLeast(s: seq<nat>, n: nat)
    requires forall v :: 0 <= v < n ==> Occ(s, 0, v) > 0
    ensures OccBelow(s, n) >= n
  {
    if n > 0 {
      OccBelowAtLeast(s, n - 1);
    }
  }

  /** With nobody inside `consume`, the first transaction that has not run is ready. */
  lemma FirstUnrunIsReady(g: Graph, c: Core, v: nat)
    requires Inv(g, c) && Total(c.workers, AnyBusy) == 0
    requires v < |g| && v !in c.order && forall u :: 0 <= u < v ==> u in c.order
    ensures c.inDegree[v] == 0
  {
    if Pending(g, c.done, v, |g|) > 0 {
      var u, k := PendingOrigin(g, c.done, v, |g|);
      RanAndConsumed(g, c, u);
      assert false;
    }
  }

  /** With nobody inside `consume`, an executed vertex has processed all its edges. */
  lemma RanAndConsumed(g: Graph, c: Core, u: nat)
    requires Inv(g, c) && Total(c.workers, AnyBusy) == 0 && u < |g| && u in c.order
    ensures c.done[u] == |g[u]|
  {
    OccMember(c.order, 0, u);
    assert c.order[0..] == c.order;
    BusyAtMostAny(c.workers, u, |c.workers|);
    assert EdgesAfterRun(g, c, u);
  }

  /** While some vertex is unconsumed, some vertex is queued or in the hands of a worker. */
  lemma NoStall(g: Graph, c: Core)
    requires Inv(g, c) && c.totalConsume < |g|
    ensures c.queue != [] || exists w :: 0 <= w < |c.workers| && HasWork(c.workers[w])
  {
    if Total(c.workers, AnyBusy) > 0 {
      var w := SumOrigin(c.workers, AnyBusy, |c.workers|);
      assert HasWork(c.workers[w]);
    } else {
      var v := FirstUnrun(c.order, |g|);
      FirstUnrunIsReady(g, c, v);
      OccMember(c.order, 0, v);
      assert c.order[0..] == c.order;
      assert PlacedOnce(c, v);
      if Total(c.workers, Held(v)) > 0 {
        var w := SumOrigin(c.workers, Held(v), |c.workers|);
        assert HasWork(c.workers[w]);
      }
    }
  }

  /** Nothing queued and nobody working: everything has run and has been consumed, and once no
      worker has a count left to publish, the shared count says so. */
  lemma QuiescentMeansComplete(g: Graph, c: Core)
    requires Inv(g, c) && c.queue == []
    requires forall w :: 0 <= w < |c.workers| ==> !HasWork(c.workers[w])
    ensures c.totalConsume == |g| && Permutation(c.order, |g|)
    ensures Total(c.workers, Local) == 0 ==> c.exeCnt == |g|
  {
    if c.totalConsume < |g| {
      NoStall(g, c);
      assert false;
    }
    RunCount(g, c);
  }

  /** A worker that has not left its loop always has a step. */
  lemma NeverStuck(g: Graph, c: Core, w: nat) returns (l: Label)
    requires Inv(g, c) && w < |c.workers| && !c.workers[w].Exited?
    ensures Enabled(g, c, l) && !l.SignalExit? && l.w == w
    ensures HasWork(c.workers[w]) ==> Productive(l)
  {
    var x := c.workers[w];
    assert AtCursor(g, c, x);
    match x {
      case Checking => l := Check(w);
      case Popping(_) => l := if c.queue == [] then PopNothing(w) else Pop(w);
      case Running(_, id) =>
        HeldIsReady(g, c, w, id);
        l := Execute(w);
      case Consuming(_, id, k, _) => l := if k == |g[id]| then Finish(w) else Decrement(w);
      case Pushing(_, _, _, _, _) => l := Push(w);
      case Counting(_) => l := Publish(w);
    }
  }

  // ---- Bounded work ----------------------------------------------------------------------------

  predicate Productive(l: Label) {
    l.Pop? || l.Execute? || l.Decrement? || l.Push? || l.Finish?
  }

  ghost function EdgesLeft(g: Graph, done: seq<nat>, n: nat): nat
    requires Cursors(g, done) && n <= |g|
  {
    if n == 0 then 0 else EdgesLeft(g, done, n - 1) + (|g[n - 1]| - done[n - 1])
  }

  lemma {:induction false} EdgesLeftUpdate(g: Graph, done: seq<nat>, u: nat, n: nat)
    requires Cursors(g, done) && n <= |g| && u < |g| && done[u] < |g[u]|
    ensures EdgesLeft(g, done[u := done[u] + 1], n) == EdgesLeft(g, done, n) - if u < n then 1 else 0
  {
    if n > 0 {
      EdgesLeftUpdate(g, done, u, n - 1);
    }
  }

  /** Work that is left to do. */
  ghost function Remaining(g: Graph, c: Core): int
    requires Cursors(g, c.done)
  {
    4 * (|g| - |c.order|) + 3 * EdgesLeft(g, c.done, |g|) + |c.queue| + Total(c.workers, Effort)
  }

  lemma WorkSpent(g: Graph, c: Core, l: Label)
    requires Cursors(g, c.done) && Enabled(g, c, l)
    requires l.Decrement? ==> AtCursor(g, c, c.workers[l.w])
    ensures Cursors(g, Step(g, c, l).done)
    ensures Remaining(g, Step(g, c, l)) <= Remaining(g, c) - if Productive(l) then 1 else 0
  {
    var c' := Step(g, c, l);
    if !l.SignalExit? {
      TotalUpdate(c.workers, l.w, c'.workers[l.w], Effort);
    }
    if l.Decrement? {
      EdgesLeftUpdate(g, c.done, c.workers[l.w].id, |g|);
    }
  }

  lemma StepSpendsWork(g: Graph, c: Core, l: Label)
    requires Inv(g, c) && Enabled(g, c, l)
    ensures Cursors(g, Step(g, c, l).done)
    ensures 0 <= Remaining(g, Step(g, c, l)) <= Remaining(g, c) - if Productive(l) then 1 else 0
  {
    assert l.Decrement? ==> AtCursor(g, c, c.workers[l.w]);
    WorkSpent(g, c, l);
    StepKeepsInv(g, c, l);
    RunCount(g, Step(g, c, l));
  }

  function ProductiveSteps(ls: seq<Label>): nat {
    if ls == [] then 0 else (if Productive(ls[0]) then 1 else 0) + ProductiveSteps(ls[1..])
  }

  /** No run, however long, does more than the work present at its start. */
  lemma {:induction false} RunDoesBoundedWork<S, T, R>(
    g: Graph, exec: Exec<S, T, R>, txs: seq<T>, s: Sys<S, R>, ls: seq<Label>)
    requires |g| == |txs| && Inv(g, s.core) && Runnable(g, exec, txs, s, ls)
    ensures ProductiveSteps(ls) <= Remaining(g, s.core)
    decreases |ls|
  {
    if ls == [] {
      RunCount(g, s.core);
    } else {
      StepSpendsWork(g, s.core, ls[0]);
      StepKeepsInv(g, s.core, ls[0]);
      RunDoesBoundedWork(g, exec, txs, SysStep(g, exec, txs, s, ls[0]), ls[1..]);
    }
  }

  // ---- The end can be reached ------------------------------------------------------------------

  /** Every worker has left its loop. */
  predicate AllLeft(c: Core) {
    forall w :: 0 <= w < |c.workers| ==> c.workers[w].Exited?
  }

  /** Steps worker 0 needs before it can pop. */
  function Spin(x: Worker): nat {
    if x.Counting? then 2 else if x.Checking? then 1 else 0
  }

  /** Steps that do no work: towards the next pop while something is queued, out of the loops after. */
  ghost function Idling(c: Core): nat
    requires |c.workers| > 0
  {
    if c.queue != [] then Spin(c.workers[0]) else Total(c.workers, Leaving)
  }

  ghost predicate Nearer(g: Graph, c: Core, c': Core)
    requires Cursors(g, c.done) && Cursors(g, c'.done) && |c.workers| == |c'.workers| > 0
  {
    Remaining(g, c') <= Remaining(g, c) && (Remaining(g, c') == Remaining(g, c) ==> Idling(c') < Idling(c))
  }

  /** While something is queued, not everything has run, so nobody may leave. */
  lemma QueuedMeansUnfinished(g: Graph, c: Core)
    requires Inv(g, c) && c.queue != [] && !c.shouldExit
    ensures !HasFinished(g, c)
  {
    var v := c.queue[0];
    OccAt(c.queue, 0, 0);
    assert PlacedOnce(c, v);
    OccMember(c.order, 0, v);
    assert c.order[0..] == c.order;
    RunCount(g, c);
  }

  lemma WorkNearer(g: Graph, c: Core, w: nat) returns (l: Label)
    requires Inv(g, c) && w < |c.workers| && HasWork(c.workers[w])
    ensures Enabled(g, c, l) && !l.SignalExit?
    ensures Cursors(g, Step(g, c, l).done) && Nearer(g, c, Step(g, c, l))
  {
    l := NeverStuck(g, c, w);
    StepSpendsWork(g, c, l);
  }

  lemma PopNearer(g: Graph, c: Core) returns (l: Label)
    requires Inv(g, c) && !c.shouldExit && |c.workers| > 0 && c.queue != [] && !HasWork(c.workers[0])
    ensures Enabled(g, c, l) && !l.SignalExit?
    ensures Cursors(g, Step(g, c, l).done) && Nearer(g, c, Step(g, c, l))
  {
    QueuedMeansUnfinished(g, c);
    l := NeverStuck(g, c, 0);
    StepSpendsWork(g, c, l);
  }

  /** Nothing is left to do: first the local counts are published, then everybody leaves. */
  lemma LeaveNearer(g: Graph, c: Core) returns (l: Label)
    requires Inv(g, c) && !c.shouldExit && |c.workers| > 0 && c.queue == [] && !AllLeft(c)
    requires forall w :: 0 <= w < |c.workers| ==> !HasWork(c.workers[w])
    ensures Enabled(g, c, l) && !l.SignalExit?
    ensures Cursors(g, Step(g, c, l).done) && Nearer(g, c, Step(g, c, l))
  {
    QuiescentMeansComplete(g, c);
    var w;
    if Total(c.workers, Local) > 0 {
      w := SumOrigin(c.workers, Local, |c.workers|);
    } else {
      w :| 0 <= w < |c.workers| && !c.workers[w].Exited?;
    }
    l := NeverStuck(g, c, w);
    StepSpendsWork(g, c, l);
    TotalUpdate(c.workers, w, Step(g, c, l).workers[w], Leaving);
  }

  lemma AlwaysNearer(g: Graph, c: Core) returns (l: Label)
    requires Inv(g, c) && !c.shouldExit && |c.workers| > 0 && !AllLeft(c)
    ensures Enabled(g, c, l) && !l.SignalExit?
    ensures Cursors(g, Step(g, c, l).done) && Nearer(g, c, Step(g, c, l))
  {
    if w :| 0 <= w < |c.workers| && HasWork(c.workers[w]) {
      l := WorkNearer(g, c, w);
    } else if c.queue != [] {
      l := PopNearer(g, c);
    } else {
      l := LeaveNearer(g, c);
    }
  }

  /** Without an exit request and with at least one worker, every reachable state can be run on
      until every transaction has been executed, every count is published and every worker has left. */
  lemma {:induction false} CanAlwaysComplete<S, T, R>(g: Graph, exec: Exec<S, T, R>, txs: seq<T>, s: Sys<S, R>)
    returns (ls: seq<Label>)
    requires |g| == |txs| && Inv(g, s.core) && !s.core.shouldExit && |s.core.workers| > 0
    ensures Runnable(g, exec, txs, s, ls)
    ensures var e := Run(g, exec, txs, s, ls).core;
            && !e.shouldExit && |e.workers| == |s.core.workers| && AllLeft(e)
            && e.exeCnt == |g| && Permutation(e.order, |g|)
    decreases Remaining(g, s.core), Idling(s.core)
  {
    if AllLeft(s.core) {
      AllLeftMeansDone(g, s.core);
      return [];
    }
    var l := AlwaysNearer(g, s.core);
    StepSpendsWork(g, s.core, l);
    StepKeepsInv(g, s.core, l);
    var rest := CanAlwaysComplete(g, exec, txs, SysStep(g, exec, txs, s, l));
    ls := [l] + rest;
    OneStepFirst(g, exec, txs, s, l, rest);
  }

  lemma OneStepFirst<S, T, R>(g: Graph, exec: Exec<S, T, R>, txs: seq<T>, s: Sys<S, R>, l: Label, rest: seq<Label>)
    requires |g| == |txs| && Enabled(g, s.core, l) && Runnable(g, exec, txs, SysStep(g, exec, txs, s, l), rest)
    ensures Runnable(g, exec, txs, s, [l] + rest)
    ensures Run(g, exec, txs, s, [l] + rest) == Run(g, exec, txs, SysStep(g, exec, txs, s, l), rest)
  {
    assert ([l] + rest)[1..] == rest;
  }

  lemma AllLeftMeansDone(g: Graph, c: Core)
    requires Inv(g, c) && !c.shouldExit && |c.workers| > 0 && AllLeft(c)
    ensures c.exeCnt == |g| && Permutation(c.order, |g|)
  {
    assert c.workers[0].Exited?;
    FinishedMeansAllRan(g, c);
    RunCount(g, c);
  }

  /** Every block has an interleaving that ends, and it ends in the outcome of the block order. */
  lemma BlockCompletes<S(!new), T, R>(
    g: Graph, crit: seq<Criticals>, exec: Exec<S, T, R>, txs: seq<T>, start: S, c: Core, nWorkers: nat)
    returns (ls: seq<Label>)
    requires Faithful(g, crit) && ClashSound(exec, txs, crit) && Starts(g, c, nWorkers) && nWorkers > 0
    ensures Runnable(g, exec, txs, Sys(c, Outcome(start, map[])), ls)
    ensures var e := Run(g, exec, txs, Sys(c, Outcome(start, map[])), ls);
            && !e.core.shouldExit && AllLeft(e.core)
            && e.block.store == StoreAfter(exec, txs, start, |txs|)
            && (forall i :: i in e.block.receipts <==> 0 <= i < |txs|)
            && forall i {:trigger e.block.receipts[i]} :: 0 <= i < |txs| ==>
                 e.block.receipts[i] == exec(StoreAfter(exec, txs, start, i), txs[i]).1
  {
    StartKeepsInv(g, c, nWorkers);
    ls := CanAlwaysComplete(g, exec, txs, Sys(c, Outcome(start, map[])));
    ParallelEqualsSerial(g, crit, exec, txs, start, c, nWorkers, ls, 0);
  }
}
