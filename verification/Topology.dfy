/**
 * The broadcast tree. Positions 0, 1, 2, ... form a complete tree of some width; position `q` is
 * held by the consensus node with index `(q + start) % n`, and offline nodes are skipped.
 */
module Topology {
  import opened Common

  // ---- Positions -------------------------------------------------------------------------------

  /** The parent of position `q`: the quotient of `q - 1` by the width, by repeated subtraction. */
  function Up(w: nat, q: nat): (p: nat)
    requires w >= 1 && q >= 1
    ensures p < q
  {
    if q <= w then 0 else 1 + Up(w, q - w)
  }

  /** The children of the positions before `q`: the product of the two, by repeated addition. */
  function Before(w: nat, q: nat): nat {
    if q == 0 then 0 else Before(w, q - 1) + w
  }

  lemma {:induction false} BeforeIsProduct(w: nat, q: nat)
    ensures Before(w, q) == q * w
  {
    if q > 0 {
      BeforeIsProduct(w, q - 1);
    }
  }

  lemma {:induction false} BeforeAtLeast(w: nat, q: nat)
    requires w >= 1
    ensures Before(w, q) >= q && (q > 0 ==> Before(w, q) >= w)
  {
    if q > 0 {
      BeforeAtLeast(w, q - 1);
    }
  }

  /** The children of `q` are the `w` positions after those of the positions before it. */
  lemma {:induction false} UpIff(w: nat, q: nat, d: nat)
    requires w >= 1 && d >= 1
    ensures Up(w, d) == q <==> Before(w, q) + 1 <= d <= Before(w, q) + w
    decreases d
  {
    BeforeAtLeast(w, q);
    if d > w && q > 0 {
      UpIff(w, q - 1, d - w);
    }
  }

  lemma UpIsQuotient(w: nat, d: nat)
    requires w >= 1 && d >= 1
    ensures Up(w, d) == (d - 1) / w
  {
    var q := Up(w, d);
    UpIff(w, q, d);
    BeforeIsProduct(w, q);
    QuotientIs(d - 1, w, q);
  }

  lemma Multiples(a: nat, b: nat, w: nat)
    requires a < b
    ensures a * w + w <= b * w
  {
    assert b * w == a * w + w + (b - a - 1) * w;
  }

  lemma QuotientIs(a: nat, w: nat, q: nat)
    requires w >= 1 && q * w <= a < q * w + w
    ensures a / w == q
  {
    var p := a / w;
    assert a == p * w + a % w;
    if p < q {
      Multiples(p, q, w);
    } else if q < p {
      Multiples(q, p, w);
    }
  }

  lemma ChildBelow(w: nat, q: nat, i: nat)
    requires w >= 1 && i < w
    ensures q < Before(w, q) + i + 1 && Up(w, Before(w, q) + i + 1) == q
  {
    BeforeAtLeast(w, q);
    UpIff(w, q, Before(w, q) + i + 1);
  }

  /** The positions chosen among the children `i`, `i + 1`, ... of `q`; an offline child gives way to its own. */
  function Select(w: nat, on: seq<bool>, q: nat, i: nat): (r: seq<nat>)
    requires w >= 1 && i <= w
    ensures forall k :: 0 <= k < |r| ==> q < r[k] < |on|
    decreases if q < |on| then |on| - q else 0, w - i
  {
    var e := Before(w, q) + i + 1;
    if i == w || e >= |on| then [] else
      ChildBelow(w, q, i);
      (if on[e] then [e] else Select(w, on, e, 0)) + Select(w, on, q, i + 1)
  }

  /** What one child of `q` contributes. */
  function FromChild(w: nat, on: seq<bool>, e: nat): seq<nat>
    requires w >= 1 && e < |on|
  {
    if on[e] then [e] else Select(w, on, e, 0)
  }

  /** The online positions above `d`, nearest first. */
  function Above(w: nat, on: seq<bool>, d: nat): (r: seq<nat>)
    requires w >= 1 && d < |on|
    ensures forall k :: 0 <= k < |r| ==> r[k] < d
  {
    if d == 0 then [] else
      var p := Up(w, d);
      (if on[p] then [p] else []) + Above(w, on, p)
  }

  /** Climbing from `d` over offline positions arrives at `q`. */
  ghost predicate Climbs(w: nat, on: seq<bool>, d: nat, q: nat)
    requires w >= 1 && d < |on|
  {
    d >= 1 && (Up(w, d) == q || (!on[Up(w, d)] && Climbs(w, on, Up(w, d), q)))
  }

  /** The child of `q` that is `d` or above it. */
  ghost function Branch(w: nat, d: nat, q: nat): (b: Option<nat>)
    requires w >= 1
    ensures b.Some? ==> 1 <= b.value <= d && Up(w, b.value) == q
  {
    if d == 0 || Up(w, d) < q then None else if Up(w, d) == q then Some(d) else Branch(w, Up(w, d), q)
  }

  lemma {:induction false} ClimbsAbove(w: nat, on: seq<bool>, d: nat, q: nat)
    requires w >= 1 && d < |on| && Climbs(w, on, d, q)
    ensures q < d
  {
    if Up(w, d) != q {
      ClimbsAbove(w, on, Up(w, d), q);
    }
  }

  /** Climbing to `q` passes through exactly one of its children. */
  lemma {:induction false} ClimbsVia(w: nat, on: seq<bool>, d: nat, q: nat)
    requires w >= 1 && d < |on|
    ensures Climbs(w, on, d, q) <==>
              var b := Branch(w, d, q); b.Some? && (d == b.value || (!on[b.value] && Climbs(w, on, d, b.value)))
  {
    if d >= 1 && Up(w, d) != q {
      var p := Up(w, d);
      if p < q {
        if Climbs(w, on, d, q) {
          ClimbsAbove(w, on, p, q);
        }
      } else {
        ClimbsVia(w, on, p, q);
      }
    }
  }

  lemma {:induction false} BranchOf(w: nat, on: seq<bool>, d: nat, q: nat, e: nat)
    requires w >= 1 && d < |on| && e >= 1 && Up(w, e) == q && (d == e || Climbs(w, on, d, e))
    ensures Branch(w, d, q) == Some(e)
  {
    if d != e {
      var p := Up(w, d);
      if p != e {
        ClimbsAbove(w, on, p, e);
        BranchOf(w, on, p, q, e);
      }
    }
  }

  function Count(s: seq<nat>, x: nat): nat {
    multiset(s)[x]
  }

  /** A way to count `x` in a sequence, known only by how it adds up. */
  ghost predicate Counts(count: seq<nat> -> nat, x: nat) {
    && count([]) == 0
    && (forall e: nat {:trigger count([e])} :: count([e]) == if e == x then 1 else 0)
    && forall a: seq<nat>, b: seq<nat> {:trigger count(a + b)} :: count(a + b) == count(a) + count(b)
  }

  ghost predicate ThroughLater(w: nat, on: seq<bool>, d: nat, q: nat, i: nat)
    requires w >= 1 && d < |on|
  {
    Climbs(w, on, d, q) && Branch(w, d, q).Some? && Branch(w, d, q).value >= Before(w, q) + i + 1
  }

  /** What selection should contain of `d`. */
  ghost function Expected(w: nat, on: seq<bool>, q: nat, i: nat, d: nat): nat
    requires w >= 1 && d < |on|
  {
    if on[d] && ThroughLater(w, on, d, q, i) then 1 else 0
  }

  /** `d` is the child `e`, or climbs to it while it is offline. */
  ghost predicate Here(w: nat, on: seq<bool>, d: nat, e: nat)
    requires w >= 1 && d < |on| && e < |on|
  {
    d == e || (!on[e] && Climbs(w, on, d, e))
  }

  /** What one child should contribute of `d`. */
  ghost function ExpectedOf(w: nat, on: seq<bool>, e: nat, d: nat): nat
    requires w >= 1 && d < |on| && e < |on|
  {
    if on[d] && Here(w, on, d, e) then 1 else 0
  }

  lemma {:induction false} Tally(w: nat, on: seq<bool>, q: nat, i: nat, d: nat, count: seq<nat> -> nat)
    requires w >= 1 && i <= w && d < |on| && Counts(count, d)
    ensures count(Select(w, on, q, i)) == Expected(w, on, q, i, d)
    decreases if q < |on| then |on| - q else 0, w - i, 1
  {
    var e := Before(w, q) + i + 1;
    if i == w || e >= |on| {
      NoLater(w, on, d, q, i);
    } else {
      ChildBelow(w, q, i);
      ChildTally(w, on, e, d, count);
      Tally(w, on, q, i + 1, d, count);
      assert Select(w, on, q, i) == FromChild(w, on, e) + Select(w, on, q, i + 1);
      ExpectedSplit(w, on, q, i, d);
    }
  }

  lemma {:induction false} ChildTally(w: nat, on: seq<bool>, e: nat, d: nat, count: seq<nat> -> nat)
    requires w >= 1 && d < |on| && e < |on| && Counts(count, d)
    ensures count(FromChild(w, on, e)) == ExpectedOf(w, on, e, d)
    decreases |on| - e, w + 1, 0
  {
    if !on[e] {
      Tally(w, on, e, 0, d, count);
      AllLater(w, on, d, e);
    }
  }

  /** Selection picks a position exactly once when it is online and climbs here, and never otherwise. */
  lemma SelectCount(w: nat, on: seq<bool>, q: nat, i: nat, d: nat)
    requires w >= 1 && i <= w && d < |on|
    ensures Count(Select(w, on, q, i), d) == Expected(w, on, q, i, d)
  {
    Tally(w, on, q, i, d, s => Count(s, d));
  }

  /** Only online positions are chosen. */
  lemma SelectOnline(w: nat, on: seq<bool>, q: nat, i: nat, k: nat)
    requires w >= 1 && i <= w && k < |Select(w, on, q, i)|
    ensures on[Select(w, on, q, i)[k]]
  {
    SelectCount(w, on, q, i, Select(w, on, q, i)[k]);
  }

  lemma ExpectedSplit(w: nat, on: seq<bool>, q: nat, i: nat, d: nat)
    requires w >= 1 && i < w && d < |on| && Before(w, q) + i + 1 < |on|
    ensures Expected(w, on, q, i, d) == ExpectedOf(w, on, Before(w, q) + i + 1, d) + Expected(w, on, q, i + 1, d)
  {
    FirstBranch(w, on, d, q, i);
  }

  lemma NoLater(w: nat, on: seq<bool>, d: nat, q: nat, i: nat)
    requires w >= 1 && i <= w && d < |on| && (i == w || Before(w, q) + i + 1 >= |on|)
    ensures !ThroughLater(w, on, d, q, i)
  {
    if Branch(w, d, q).Some? {
      UpIff(w, q, Branch(w, d, q).value);
    }
  }

  lemma AllLater(w: nat, on: seq<bool>, d: nat, e: nat)
    requires w >= 1 && d < |on|
    ensures ThroughLater(w, on, d, e, 0) <==> Climbs(w, on, d, e)
  {
    ClimbsVia(w, on, d, e);
    if Branch(w, d, e).Some? {
      UpIff(w, e, Branch(w, d, e).value);
    }
  }

  /** The branches from `i` on are branch `i` and the later ones, apart from each other. */
  lemma FirstBranch(w: nat, on: seq<bool>, d: nat, q: nat, i: nat)
    requires w >= 1 && i < w && d < |on| && Before(w, q) + i + 1 < |on|
    ensures ThroughLater(w, on, d, q, i) <==> Here(w, on, d, Before(w, q) + i + 1) || ThroughLater(w, on, d, q, i + 1)
    ensures !(Here(w, on, d, Before(w, q) + i + 1) && ThroughLater(w, on, d, q, i + 1))
  {
    var e := Before(w, q) + i + 1;
    ChildBelow(w, q, i);
    ClimbsVia(w, on, d, q);
    if d == e || Climbs(w, on, d, e) {
      BranchOf(w, on, d, q, e);
    }
  }

  // ---- Duality ---------------------------------------------------------------------------------

  lemma {:induction false} NearestClimbs(w: nat, on: seq<bool>, d: nat, q: nat)
    requires w >= 1 && d < |on| && q < |on| && on[q]
    ensures Climbs(w, on, d, q) <==> Above(w, on, d) != [] && Above(w, on, d)[0] == q
  {
    if d >= 1 && Up(w, d) != q && !on[Up(w, d)] {
      NearestClimbs(w, on, Up(w, d), q);
    }
  }

  /** An online position selects exactly those online positions whose nearest online ancestor it is. */
  lemma SelectIsDual(w: nat, on: seq<bool>, q: nat, d: nat)
    requires w >= 1 && d < |on| && q < |on| && on[q] && on[d]
    ensures d in Select(w, on, q, 0) <==> Above(w, on, d) != [] && Above(w, on, d)[0] == q
    ensures Count(Select(w, on, q, 0), d) <= 1
  {
    SelectCount(w, on, q, 0, d);
    AllLater(w, on, d, q);
    NearestClimbs(w, on, d, q);
  }

  lemma SelectExact(w: nat, on: seq<bool>, q: nat, d: nat)
    requires w >= 1 && d < |on| && q < |on| && on[q]
    ensures Count(Select(w, on, q, 0), d) == if on[d] && Above(w, on, d) != [] && Above(w, on, d)[0] == q then 1 else 0
  {
    SelectCount(w, on, q, 0, d);
    AllLater(w, on, d, q);
    NearestClimbs(w, on, d, q);
  }

  // ---- Which positions, in which order ---------------------------------------------------------

  /** `a` lies on the way from `d` to the top. */
  ghost predicate IsAncestor(w: nat, d: nat, a: nat)
    requires w >= 1
    decreases d
  {
    d >= 1 && (Up(w, d) == a || IsAncestor(w, Up(w, d), a))
  }

  /** The positions above `d` are exactly its online ancestors, from the nearest to the top. */
  lemma {:induction false} AboveExact(w: nat, on: seq<bool>, d: nat)
    requires w >= 1 && d < |on|
    ensures forall a :: a in Above(w, on, d) <==> 0 <= a < |on| && on[a] && IsAncestor(w, d, a)
    ensures forall k, l :: 0 <= k < l < |Above(w, on, d)| ==> Above(w, on, d)[k] > Above(w, on, d)[l]
  {
    if d > 0 {
      AboveExact(w, on, Up(w, d));
    }
  }

  lemma FirstIsVia(w: nat, on: seq<bool>, q: nat, i: nat, x: nat)
    requires w >= 1 && i < w && Before(w, q) + i + 1 < |on| && x in FromChild(w, on, Before(w, q) + i + 1)
    ensures x < |on| && Branch(w, x, q) == Some(Before(w, q) + i + 1)
  {
    var e := Before(w, q) + i + 1;
    ChildBelow(w, q, i);
    ChildTally(w, on, e, x, s => Count(s, x));
    BranchOf(w, on, x, q, e);
  }

  lemma LaterIsVia(w: nat, on: seq<bool>, q: nat, i: nat, x: nat)
    requires w >= 1 && i <= w && x in Select(w, on, q, i)
    ensures x < |on| && Branch(w, x, q).Some? && Branch(w, x, q).value >= Before(w, q) + i + 1
  {
    SelectCount(w, on, q, i, x);
  }

  ghost predicate Ordered(r: seq<nat>, via: nat -> nat) {
    forall k, l :: 0 <= k < l < |r| ==> via(r[k]) <= via(r[l])
  }

  lemma OrderedAppend(first: seq<nat>, later: seq<nat>, via: nat -> nat, e: nat)
    requires forall x :: x in first ==> via(x) == e
    requires (forall x :: x in later ==> via(x) > e) && Ordered(later, via)
    ensures Ordered(first + later, via)
  {
    var r := first + later;
    forall k, l | 0 <= k < l < |r|
      ensures via(r[k]) <= via(r[l])
    {
      assert if k < |first| then r[k] in first else r[k] == later[k - |first|];
      assert if l < |first| then r[l] in first else r[l] == later[l - |first|];
    }
  }

  lemma SelectFirst(w: nat, on: seq<bool>, q: nat, i: nat)
    requires w >= 1 && i < w && Before(w, q) + i + 1 < |on|
    ensures Select(w, on, q, i) == FromChild(w, on, Before(w, q) + i + 1) + Select(w, on, q, i + 1)
  {
  }

  /** `via` gives, for what lies below `q`, the child of `q` it lies under. */
  ghost predicate IsVia(w: nat, q: nat, via: nat -> nat)
    requires w >= 1
  {
    forall x {:trigger via(x)} :: Branch(w, x, q).Some? ==> via(x) == Branch(w, x, q).value
  }

  lemma FirstAllVia(w: nat, on: seq<bool>, q: nat, i: nat, via: nat -> nat)
    requires w >= 1 && i < w && Before(w, q) + i + 1 < |on| && IsVia(w, q, via)
    ensures forall x :: x in FromChild(w, on, Before(w, q) + i + 1) ==> via(x) == Before(w, q) + i + 1
  {
    forall x | x in FromChild(w, on, Before(w, q) + i + 1)
      ensures via(x) == Before(w, q) + i + 1
    {
      FirstIsVia(w, on, q, i, x);
    }
  }

  lemma LaterAllVia(w: nat, on: seq<bool>, q: nat, i: nat, via: nat -> nat)
    requires w >= 1 && i <= w && IsVia(w, q, via)
    ensures forall x :: x in Select(w, on, q, i) ==> via(x) > Before(w, q) + i
  {
    forall x | x in Select(w, on, q, i)
      ensures via(x) > Before(w, q) + i
    {
      LaterIsVia(w, on, q, i, x);
    }
  }

  lemma InOrderNext(w: nat, on: seq<bool>, q: nat, i: nat, via: nat -> nat)
    requires w >= 1 && i < w && Before(w, q) + i + 1 < |on| && IsVia(w, q, via)
    requires Ordered(Select(w, on, q, i + 1), via)
    ensures Ordered(Select(w, on, q, i), via)
  {
    FirstAllVia(w, on, q, i, via);
    LaterAllVia(w, on, q, i + 1, via);
    SelectFirst(w, on, q, i);
    OrderedAppend(FromChild(w, on, Before(w, q) + i + 1), Select(w, on, q, i + 1), via, Before(w, q) + i + 1);
  }

  /** What is selected through an earlier child comes before what is selected through a later one. */
  lemma {:induction false} SelectInOrder(w: nat, on: seq<bool>, q: nat, i: nat, via: nat -> nat)
    requires w >= 1 && i <= w && IsVia(w, q, via)
    ensures Ordered(Select(w, on, q, i), via)
    decreases w - i
  {
    if i == w || Before(w, q) + i + 1 >= |on| {
      assert Select(w, on, q, i) == [];
    } else {
      SelectInOrder(w, on, q, i + 1, via);
      InOrderNext(w, on, q, i, via);
    }
  }

  // ---- Broadcast -------------------------------------------------------------------------------

  /** Receipts so far by position, and the destinations of the messages under way. */
  datatype Net = Net(received: seq<nat>, flight: seq<nat>)

  /** The node at position 0 has the message and has relayed it. */
  function Origin(w: nat, on: seq<bool>): Net
    requires w >= 1 && on != []
  {
    Net([1] + seq(|on| - 1, _ => 0), Select(w, on, 0, 0))
  }

  /** Message `k` arrives; its receiver relays to the positions it selects. */
  function Deliver(w: nat, on: seq<bool>, s: Net, k: nat): Net
    requires w >= 1 && k < |s.flight| && s.flight[k] < |s.received|
  {
    var d := s.flight[k];
    Net(s.received[d := s.received[d] + 1], s.flight[..k] + s.flight[k + 1..] + Select(w, on, d, 0))
  }

  /** Every run from the origin, messages arriving in any order. */
  ghost predicate Delivery(w: nat, on: seq<bool>, run: seq<Net>)
    requires w >= 1 && on != []
  {
    && run != [] && run[0] == Origin(w, on)
    && forall i :: 0 < i < |run| ==> Arrives(w, on, run[i - 1], run[i])
  }

  ghost predicate Arrives(w: nat, on: seq<bool>, s: Net, s': Net)
    requires w >= 1
  {
    exists k :: 0 <= k < |s.flight| && s.flight[k] < |s.received| && s' == Deliver(w, on, s, k)
  }

  /** How often position `d` has been sent the message: once for every receipt of its nearest online ancestor. */
  ghost function Sent(w: nat, on: seq<bool>, received: seq<nat>, d: nat): nat
    requires w >= 1 && d < |on| == |received|
  {
    if on[d] && Above(w, on, d) != [] then received[Above(w, on, d)[0]] else 0
  }

  ghost predicate Accounted(w: nat, on: seq<bool>, s: Net)
    requires w >= 1 && on != []
  {
    && |s.received| == |on| && s.received[0] == 1
    && (forall k :: 0 <= k < |s.flight| ==> 0 < s.flight[k] < |on| && on[s.flight[k]])
    && (forall d :: 0 < d < |on| ==> s.received[d] + Count(s.flight, d) == Sent(w, on, s.received, d))
  }

  lemma OriginAccounted(w: nat, on: seq<bool>)
    requires w >= 1 && on != [] && on[0]
    ensures Accounted(w, on, Origin(w, on))
  {
    forall k | 0 <= k < |Select(w, on, 0, 0)|
      ensures on[Select(w, on, 0, 0)[k]]
    {
      SelectOnline(w, on, 0, 0, k);
    }
    forall d | 0 < d < |on|
      ensures Count(Select(w, on, 0, 0), d) == Sent(w, on, Origin(w, on).received, d)
    {
      SelectExact(w, on, 0, d);
    }
  }

  lemma CountRemove(s: seq<nat>, k: nat, t: seq<nat>, x: nat)
    requires k < |s|
    ensures Count(s[..k] + s[k + 1..] + t, x) == Count(s, x) - (if s[k] == x then 1 else 0) + Count(t, x)
  {
    assert s == s[..k] + [s[k]] + s[k + 1..];
  }

  lemma DeliverOnline(w: nat, on: seq<bool>, s: Net, k: nat)
    requires w >= 1 && k < |s.flight| && s.flight[k] < |s.received|
    requires forall i :: 0 <= i < |s.flight| ==> 0 < s.flight[i] < |on| && on[s.flight[i]]
    ensures var to := Deliver(w, on, s, k).flight;
            forall i :: 0 <= i < |to| ==> 0 < to[i] < |on| && on[to[i]]
  {
    var more := Select(w, on, s.flight[k], 0);
    forall i | 0 <= i < |more|
      ensures on[more[i]]
    {
      SelectOnline(w, on, s.flight[k], 0, i);
    }
  }

  lemma DeliverAccounted(w: nat, on: seq<bool>, s: Net, k: nat)
    requires w >= 1 && on != [] && Accounted(w, on, s) && k < |s.flight|
    ensures Accounted(w, on, Deliver(w, on, s, k))
  {
    var x, s' := s.flight[k], Deliver(w, on, s, k);
    DeliverOnline(w, on, s, k);
    forall d | 0 < d < |on|
      ensures s'.received[d] + Count(s'.flight, d) == Sent(w, on, s'.received, d)
    {
      CountRemove(s.flight, k, Select(w, on, x, 0), d);
      SelectExact(w, on, x, d);
    }
  }

  lemma {:induction false} AlwaysAccounted(w: nat, on: seq<bool>, run: seq<Net>)
    requires w >= 1 && on != [] && on[0] && Delivery(w, on, run)
    ensures Accounted(w, on, run[|run| - 1])
  {
    if |run| == 1 {
      OriginAccounted(w, on);
    } else {
      var before := run[..|run| - 1];
      AlwaysAccounted(w, on, before);
      assert Arrives(w, on, run[|run| - 2], run[|run| - 1]);
      var k :| 0 <= k < |run[|run| - 2].flight| && run[|run| - 1] == Deliver(w, on, run[|run| - 2], k);
      DeliverAccounted(w, on, run[|run| - 2], k);
    }
  }

  lemma {:induction false} SentAtMostOnce(w: nat, on: seq<bool>, s: Net, d: nat)
    requires w >= 1 && on != [] && on[0] && Accounted(w, on, s) && d < |on|
    ensures s.received[d] <= 1 && (d > 0 ==> s.received[d] + Count(s.flight, d) <= 1)
    ensures !on[d] ==> s.received[d] == 0
    ensures s.flight == [] && on[d] ==> s.received[d] == 1
  {
    if d > 0 {
      HasAncestor(w, on, d);
      SentAtMostOnce(w, on, s, Above(w, on, d)[0]);
    }
  }

  lemma {:induction false} HasAncestor(w: nat, on: seq<bool>, d: nat)
    requires w >= 1 && 0 < d < |on| && on[0]
    ensures Above(w, on, d) != [] && on[Above(w, on, d)[0]]
  {
    if !on[Up(w, d)] {
      HasAncestor(w, on, Up(w, d));
    }
  }

  /**
   * In every run no online node is sent the message twice and no offline node at all; once nothing
   * is under way, every online node has received it exactly once.
   */
  lemma BroadcastOnce(w: nat, on: seq<bool>, run: seq<Net>, d: nat)
    requires w >= 1 && d < |on| && on[0] && Delivery(w, on, run)
    ensures var s := run[|run| - 1];
            && |s.received| == |on| && s.received[d] <= (if on[d] then 1 else 0)
            && (s.flight == [] ==> s.received[d] == if on[d] then 1 else 0)
  {
    AlwaysAccounted(w, on, run);
    SentAtMostOnce(w, on, run[|run| - 1], d);
  }

  ghost function Sum(s: seq<nat>): nat {
    if s == [] then 0 else Sum(s[..|s| - 1]) + s[|s| - 1]
  }

  lemma {:induction false} SumUpdate(s: seq<nat>, i: nat)
    requires i < |s|
    ensures Sum(s[i := s[i] + 1]) == Sum(s) + 1
  {
    var n, s' := |s| - 1, s[i := s[i] + 1];
    if i < n {
      SumUpdate(s[..n], i);
      assert s'[..n] == s[..n][i := s[i] + 1];
    } else {
      assert s'[..n] == s[..n];
    }
  }

  lemma {:induction false} SumBound(s: seq<nat>)
    requires forall i :: 0 <= i < |s| ==> s[i] <= 1
    ensures Sum(s) <= |s|
  {
    if s != [] {
      SumBound(s[..|s| - 1]);
    }
  }

  lemma {:induction false} SumFirst(n: nat)
    ensures Sum([1] + seq(n, _ => 0)) == 1
  {
    var s: seq<nat> := [1] + seq(n, _ => 0);
    if n > 0 {
      SumFirst(n - 1);
      assert s[..n] == [1] + seq(n - 1, _ => 0);
    }
  }

  lemma {:induction false} ReceiptsCounted(w: nat, on: seq<bool>, run: seq<Net>)
    requires w >= 1 && on != [] && on[0] && Delivery(w, on, run)
    ensures Sum(run[|run| - 1].received) == |run|
  {
    if |run| == 1 {
      SumFirst(|on| - 1);
    } else {
      ReceiptsCounted(w, on, run[..|run| - 1]);
      OneReceipt(w, on, run[|run| - 2], run[|run| - 1]);
    }
  }

  lemma OneReceipt(w: nat, on: seq<bool>, s: Net, s': Net)
    requires w >= 1 && Arrives(w, on, s, s')
    ensures Sum(s'.received) == Sum(s.received) + 1
  {
    var k :| 0 <= k < |s.flight| && s.flight[k] < |s.received| && s' == Deliver(w, on, s, k);
    DeliverSum(w, on, s, k);
  }

  lemma DeliverSum(w: nat, on: seq<bool>, s: Net, k: nat)
    requires w >= 1 && k < |s.flight| && s.flight[k] < |s.received|
    ensures Sum(Deliver(w, on, s, k).received) == Sum(s.received) + 1
  {
    SumUpdate(s.received, s.flight[k]);
  }

  /** Relaying stops: a run has no more states than there are nodes. */
  lemma BroadcastEnds(w: nat, on: seq<bool>, run: seq<Net>)
    requires w >= 1 && on != [] && on[0] && Delivery(w, on, run)
    ensures |run| <= |on|
  {
    var s := run[|run| - 1];
    AlwaysAccounted(w, on, run);
    forall d | 0 <= d < |s.received|
      ensures s.received[d] <= 1
    {
      SentAtMostOnce(w, on, s, d);
    }
    SumBound(s.received);
    ReceiptsCounted(w, on, run);
  }
}
