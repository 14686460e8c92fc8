/**
 * Running the transactions of a block one after another, in any order, and when two orders agree.
 */
module SerialOrder {
  import opened Common
  import opened TxGraph

  /** A transaction turns a store into a new store and a receipt. */
  type Exec<!S, !T, !R> = (S, T) -> (S, R)

  datatype Outcome<S, R> = Outcome(store: S, receipts: map<nat, R>)

  ghost predicate Within(order: seq<nat>, n: nat) {
    forall x :: 0 <= x < |order| ==> order[x] < n
  }

  /** Runs `txs[order[0]]`, `txs[order[1]]`, ... and files each receipt under its index in the block. */
  function Play<S, T, R>(exec: Exec<S, T, R>, txs: seq<T>, start: S, order: seq<nat>): Outcome<S, R>
    requires Within(order, |txs|)
  {
    if order == [] then Outcome(start, map[])
    else
      var m := |order| - 1;
      PlayOne(exec, txs, Play(exec, txs, start, order[..m]), order[m])
  }

  function PlayOne<S, T, R>(exec: Exec<S, T, R>, txs: seq<T>, before: Outcome<S, R>, id: nat): Outcome<S, R>
    requires id < |txs|
  {
    var (store, receipt) := exec(before.store, txs[id]);
    Outcome(store, before.receipts[id := receipt])
  }

  /** The store after the first `n` transactions of the block, one after another. */
  function StoreAfter<S, T, R>(exec: Exec<S, T, R>, txs: seq<T>, start: S, n: nat): S
    requires n <= |txs|
  {
    if n == 0 then start else exec(StoreAfter(exec, txs, start, n - 1), txs[n - 1]).0
  }

  /** The block order 0, 1, ..., n-1. */
  function BlockOrder(n: nat): (o: seq<nat>)
    ensures |o| == n && forall i :: 0 <= i < n ==> o[i] == i
  {
    seq(n, i => i)
  }

  /** From `s`, either order of the two transactions gives the same store and the same two receipts. */
  ghost predicate CommuteAt<S, T, R>(exec: Exec<S, T, R>, s: S, a: T, b: T) {
    var (sa, ra) := exec(s, a);
    var (sb, rb) := exec(s, b);
    exec(sa, b).0 == exec(sb, a).0 && exec(sa, b).1 == rb && exec(sb, a).1 == ra
  }

  ghost predicate Commute<S(!new), T, R>(exec: Exec<S, T, R>, a: T, b: T) {
    forall s :: CommuteAt(exec, s, a, b)
  }

  /** The assumption on critical lists: transactions that do not clash commute. */
  ghost predicate ClashSound<S(!new), T, R>(exec: Exec<S, T, R>, txs: seq<T>, crit: seq<Criticals>) {
    && |crit| == |txs|
    && forall i, j :: 0 <= i < j < |txs| && !Clash(crit[i], crit[j]) ==> Commute(exec, txs[i], txs[j])
  }

  /** No two clashing transactions appear out of block order. */
  ghost predicate KeepsClashes(order: seq<nat>, crit: seq<Criticals>) {
    && Within(order, |crit|)
    && forall x, y {:trigger Clash(crit[order[y]], crit[order[x]])} ::
         0 <= x < y < |order| && order[y] < order[x] ==> !Clash(crit[order[y]], crit[order[x]])
  }

  ghost predicate Permutation(order: seq<nat>, n: nat) {
    NoDup(order) && Within(order, n) && forall i :: 0 <= i < n ==> i in order
  }

  lemma PlaySnoc<S, T, R>(exec: Exec<S, T, R>, txs: seq<T>, start: S, order: seq<nat>, id: nat)
    requires Within(order, |txs|) && id < |txs|
    ensures Play(exec, txs, start, order + [id]) == PlayOne(exec, txs, Play(exec, txs, start, order), id)
  {
    assert (order + [id])[..|order|] == order;
  }

  /** The first `n` of a list of receipts, filed by index. */
  ghost predicate Filed<R>(list: seq<R>, n: nat, receipts: map<nat, R>)
    requires n <= |list|
  {
    && (forall i :: i in receipts <==> 0 <= i < n)
    && forall i {:trigger receipts[i]} :: 0 <= i < n ==> receipts[i] == list[i]
  }

  lemma FiledNext<R>(list: seq<R>, n: nat, receipts: map<nat, R>)
    requires n < |list| && Filed(list, n, receipts)
    ensures Filed(list, n + 1, receipts[n := list[n]])
  {
  }

  /** What transaction `i` of the block returns when it meets the store its predecessors left. */
  function Receipt<S, T, R>(exec: Exec<S, T, R>, txs: seq<T>, start: S, i: nat): R
    requires i < |txs|
  {
    exec(StoreAfter(exec, txs, start, i), txs[i]).1
  }

  lemma {:induction false} PlayInOrder<S, T, R>(
    exec: Exec<S, T, R>, txs: seq<T>, start: S, n: nat, list: seq<R>)
    requires n <= |txs| == |list| && forall i :: 0 <= i < |txs| ==> list[i] == Receipt(exec, txs, start, i)
    ensures var o := Play(exec, txs, start, BlockOrder(n));
            o.store == StoreAfter(exec, txs, start, n) && Filed(list, n, o.receipts)
  {
    if n > 0 {
      PlayInOrder(exec, txs, start, n - 1, list);
      FiledNext(list, n - 1, Play(exec, txs, start, BlockOrder(n - 1)).receipts);
      assert BlockOrder(n) == BlockOrder(n - 1) + [n - 1];
      PlaySnoc(exec, txs, start, BlockOrder(n - 1), n - 1);
    }
  }

  /** Playing the block order: each transaction meets the store its predecessors left, and its receipt
      is filed under its own index. */
  lemma PlayBlockOrder<S, T, R>(exec: Exec<S, T, R>, txs: seq<T>, start: S)
    ensures var o := Play(exec, txs, start, BlockOrder(|txs|));
            && o.store == StoreAfter(exec, txs, start, |txs|)
            && (forall i :: i in o.receipts <==> 0 <= i < |txs|)
            && forall i {:trigger o.receipts[i]} :: 0 <= i < |txs| ==>
                 o.receipts[i] == exec(StoreAfter(exec, txs, start, i), txs[i]).1
  {
    PlayInOrder(exec, txs, start, |txs|, seq(|txs|, i requires 0 <= i < |txs| => Receipt(exec, txs, start, i)));
  }

  lemma SwapLast<S(!new), T, R>(exec: Exec<S, T, R>, txs: seq<T>, x: Outcome<S, R>, i: nat, j: nat)
    requires i < |txs| && j < |txs| && i != j && Commute(exec, txs[i], txs[j])
    ensures PlayOne(exec, txs, PlayOne(exec, txs, x, i), j) == PlayOne(exec, txs, PlayOne(exec, txs, x, j), i)
  {
    assert CommuteAt(exec, x.store, txs[i], txs[j]);
    var (si, ri) := exec(x.store, txs[i]);
    var (sj, rj) := exec(x.store, txs[j]);
    assert x.receipts[i := ri][j := rj] == x.receipts[j := rj][i := ri];
  }

  /** A transaction that commutes with everything after it may run last. */
  lemma {:induction false} MoveToEnd<S(!new), T, R>(
    exec: Exec<S, T, R>, txs: seq<T>, start: S, a: seq<nat>, m: nat, b: seq<nat>)
    requires m < |txs| && Within(a, |txs|) && Within(b, |txs|)
    requires forall q :: 0 <= q < |b| ==> b[q] != m && Commute(exec, txs[b[q]], txs[m])
    ensures Play(exec, txs, start, a + [m] + b) == Play(exec, txs, start, a + b + [m])
    decreases |b|
  {
    if b == [] {
      assert a + [m] + b == a + b + [m];
    } else {
      var b', z := b[..|b| - 1], b[|b| - 1];
      assert a + [m] + b == (a + [m] + b') + [z] && a + b == (a + b') + [z];
      MoveToEnd(exec, txs, start, a, m, b');
      PlaySnoc(exec, txs, start, a + [m] + b', z);
      PlaySnoc(exec, txs, start, a + b', m);
      PlaySnoc(exec, txs, start, a + b', z);
      PlaySnoc(exec, txs, start, a + b, m);
      SwapLast(exec, txs, Play(exec, txs, start, a + b'), z, m);
    }
  }

  /** Every order that keeps clashing transactions in block order gives the outcome of the block order. */
  lemma {:induction false} SerialEquivalence<S(!new), T, R>(
    exec: Exec<S, T, R>, txs: seq<T>, crit: seq<Criticals>, start: S, order: seq<nat>, n: nat)
    requires n <= |txs| && ClashSound(exec, txs, crit)
    requires Permutation(order, n) && KeepsClashes(order, crit)
    ensures Play(exec, txs, start, order) == Play(exec, txs, start, BlockOrder(n))
  {
    if order == [] {
      assert n > 0 ==> 0 in order;
    } else {
      assert order[0] < n;
      assert n - 1 in order;
      var p :| 0 <= p < |order| && order[p] == n - 1;
      TakeOutLast(exec, txs, crit, start, order, p, n);
      Without(order, p, n, crit);
      SerialEquivalence(exec, txs, crit, start, order[..p] + order[p + 1..], n - 1);
      assert BlockOrder(n) == BlockOrder(n - 1) + [n - 1];
      PlaySnoc(exec, txs, start, BlockOrder(n - 1), n - 1);
    }
  }

  lemma TakeOutLast<S(!new), T, R>(
    exec: Exec<S, T, R>, txs: seq<T>, crit: seq<Criticals>, start: S, order: seq<nat>, p: nat, n: nat)
    requires n <= |txs| && ClashSound(exec, txs, crit)
    requires Permutation(order, n) && KeepsClashes(order, crit)
    requires p < |order| && order[p] == n - 1
    ensures Within(order[..p] + order[p + 1..], |txs|)
    ensures Play(exec, txs, start, order) ==
            PlayOne(exec, txs, Play(exec, txs, start, order[..p] + order[p + 1..]), n - 1)
  {
    var a, b := order[..p], order[p + 1..];
    Around(order, p);
    CommutesWithLater(exec, txs, crit, order, p, b, n);
    MoveToEnd(exec, txs, start, a, n - 1, b);
    PlaySnoc(exec, txs, start, a + b, n - 1);
  }

  lemma Around(order: seq<nat>, p: nat)
    requires p < |order|
    ensures order == order[..p] + [order[p]] + order[p + 1..]
  {
  }

  /** Nothing that runs after the last transaction of the block clashes with it. */
  lemma CommutesWithLater<S(!new), T, R>(
    exec: Exec<S, T, R>, txs: seq<T>, crit: seq<Criticals>, order: seq<nat>, p: nat, b: seq<nat>, n: nat)
    requires n <= |txs| && ClashSound(exec, txs, crit)
    requires Permutation(order, n) && KeepsClashes(order, crit)
    requires p < |order| && order[p] == n - 1
    requires b == order[p + 1..]
    ensures forall q :: 0 <= q < |b| ==> b[q] != n - 1 && Commute(exec, txs[b[q]], txs[n - 1])
  {
    forall q | 0 <= q < |b|
      ensures b[q] != n - 1 && Commute(exec, txs[b[q]], txs[n - 1])
    {
      assert b[q] == order[p + 1 + q];
      assert !Clash(crit[b[q]], crit[n - 1]);
    }
  }

  lemma Without(order: seq<nat>, p: nat, n: nat, crit: seq<Criticals>)
    requires p < |order| && order[p] == n - 1 && Permutation(order, n) && KeepsClashes(order, crit)
    ensures Permutation(order[..p] + order[p + 1..], n - 1) && KeepsClashes(order[..p] + order[p + 1..], crit)
  {
    var rest := order[..p] + order[p + 1..];
    assert forall x :: 0 <= x < |rest| ==> rest[x] == order[if x < p then x else x + 1];
    forall i | 0 <= i < n - 1
      ensures i in rest
    {
      assert i in order;
      var q :| 0 <= q < |order| && order[q] == i;
      assert rest[if q < p then q else q - 1] == i;
    }
  }
}
