/** The 16-ary Merkle tree of a block's transactions, and the proofs taken from it. */
module Merkle {
  import opened Common

  // ---- The tree --------------------------------------------------------------------------------

  function ParentCount(n: nat): nat {
    (n + 15) / 16
  }

  /** The children of parent `i`: sixteen neighbours, fewer at the end. */
  function Chunk(level: seq<Bytes>, i: nat): (chunk: seq<Bytes>)
    requires i < ParentCount(|level|)
    ensures chunk != []
  {
    level[16 * i..if 16 * i + 16 <= |level| then 16 * i + 16 else |level|]
  }

  function Parents(h: HashFn, level: seq<Bytes>): (p: seq<Bytes>)
    ensures |p| == ParentCount(|level|)
    ensures forall i :: 0 <= i < |p| ==> p[i] == h(Concat(Chunk(level, i)))
  {
    seq(ParentCount(|level|), i requires 0 <= i < ParentCount(|level|) => h(Concat(Chunk(level, i))))
  }

  /** `getHash256`, as a recursion over the levels. */
  function MerkleRoot(h: HashFn, leaves: seq<Bytes>): Bytes
    decreases |leaves|
  {
    if leaves == [] then h([])
    else if |leaves| == 1 then h(leaves[0])
    else MerkleRoot(h, Parents(h, leaves))
  }

  /** Small trees: the empty list, one leaf, up to sixteen leaves, and the first with two parents. */
  lemma SmallRoots(h: HashFn, leaves: seq<Bytes>)
    ensures leaves == [] ==> MerkleRoot(h, leaves) == h([])
    ensures |leaves| == 1 ==> MerkleRoot(h, leaves) == h(leaves[0])
    ensures 2 <= |leaves| <= 16 ==> MerkleRoot(h, leaves) == h(h(Concat(leaves)))
    ensures |leaves| == 17 ==> MerkleRoot(h, leaves) == h(h(h(Concat(leaves[..16])) + h(leaves[16])))
  {
    if 2 <= |leaves| <= 16 {
      OneParent(h, leaves);
    } else if |leaves| == 17 {
      var up := Parents(h, leaves);
      assert Chunk(leaves, 0) == leaves[..16] && Chunk(leaves, 1) == [leaves[16]];
      ConcatTwo([], leaves[16]);
      OneParent(h, up);
      assert up == [up[0], up[1]];
      ConcatTwo([up[0]], up[1]);
      ConcatTwo([], up[0]);
    }
  }

  lemma OneParent(h: HashFn, level: seq<Bytes>)
    requires 2 <= |level| <= 16
    ensures MerkleRoot(h, level) == h(h(Concat(level)))
  {
    assert Chunk(level, 0) == level;
    assert Parents(h, level) == [h(Concat(level))];
  }

  lemma ConcatTwo(front: seq<Bytes>, last: Bytes)
    ensures Concat(front + [last]) == Concat(front) + last
    ensures front == [] ==> Concat([last]) == last
  {
    ConcatSnoc(front, last);
    assert front == [] ==> front + [last] == [last];
  }

  method GetHash256(h: HashFn, leaves: seq<Bytes>) returns (root: Bytes)
    ensures root == MerkleRoot(h, leaves)
  {
    if leaves == [] {
      return h([]);
    }
    var level := leaves;
    while |level| > 1
      invariant level != [] && MerkleRoot(h, level) == MerkleRoot(h, leaves)
      decreases |level|
    {
      var higher: seq<Bytes> := [];
      for i := 0 to (|level| + 16 - 1) / 16
        invariant higher == Parents(h, level)[..i]
      {
        var value, children := Gather(level, i);
        higher := higher + [h(value)];
      }
      assert higher == Parents(h, level);
      level := higher;
    }
    return h(level[0]);
  }

  /** One parent's children and their concatenation. */
  method Gather(level: seq<Bytes>, i: nat) returns (value: Bytes, children: seq<Bytes>)
    requires i < ParentCount(|level|)
    ensures children == Chunk(level, i) && value == Concat(children)
  {
    value, children := [], [];
    for j := 0 to 16
      invariant |children| == (if 16 * i + j <= |level| then j else |level| - 16 * i)
      invariant children == level[16 * i..16 * i + |children|] && value == Concat(children)
    {
      var index := i * 16 + j;
      if index < |level| {
        ConcatSnoc(children, level[index]);
        value := value + level[index];
        children := children + [level[index]];
      }
    }
  }

  /** Every level from the leaves up to and including the root. */
  ghost function Levels(h: HashFn, leaves: seq<Bytes>): seq<seq<Bytes>>
    requires leaves != []
    decreases |leaves|
  {
    [leaves] + if |leaves| == 1 then [Parents(h, leaves)] else Levels(h, Parents(h, leaves))
  }

  ghost predicate IsTower(h: HashFn, t: seq<seq<Bytes>>) {
    && |t| >= 2 && |t[|t| - 1]| == 1
    && forall k {:trigger Rises(h, t, k)} :: 0 <= k < |t| - 1 ==> Rises(h, t, k)
  }

  /** Level `k` has the parents of level `k - 1`; only the last two have one node. */
  ghost predicate Rises(h: HashFn, t: seq<seq<Bytes>>, k: nat)
    requires k < |t| - 1
  {
    t[k] != [] && t[k + 1] == Parents(h, t[k]) && (|t[k]| == 1 <==> k == |t| - 2)
  }

  lemma {:induction false} LevelsAreTower(h: HashFn, leaves: seq<Bytes>)
    requires leaves != []
    ensures var t := Levels(h, leaves);
            IsTower(h, t) && t[0] == leaves && t[|t| - 1] == [MerkleRoot(h, leaves)]
    decreases |leaves|
  {
    if |leaves| == 1 {
      assert Chunk(leaves, 0) == [leaves[0]];
      assert Concat([leaves[0]]) == leaves[0];
    } else {
      LevelsAreTower(h, Parents(h, leaves));
      var above := Levels(h, Parents(h, leaves));
      forall k | 0 <= k < |above|
        ensures var t := Levels(h, leaves); k < |t| - 1 && Rises(h, t, k)
      {
        if k > 0 {
          assert Rises(h, above, k - 1);
        } else {
          assert Rises(h, above, 0);
        }
      }
    }
  }

  ghost predicate Differ(t: seq<seq<Bytes>>, k: nat, i: nat, l: nat, j: nat)
    requires k < |t| && l < |t| && i < |t[k]| && j < |t[l]|
  {
    t[k][i] != t[l][j]
  }

  /** All the nodes of the tree are pairwise different. */
  ghost predicate Distinct(t: seq<seq<Bytes>>) {
    forall k, i, l, j {:trigger Differ(t, k, i, l, j)} ::
      0 <= k <= l < |t| && 0 <= i < |t[k]| && 0 <= j < |t[l]| && (k < l || i < j) ==> Differ(t, k, i, l, j)
  }

  lemma Different(t: seq<seq<Bytes>>, k: nat, i: nat, l: nat, j: nat)
    requires Distinct(t) && k < |t| && l < |t| && i < |t[k]| && j < |t[l]| && (k != l || i != j)
    ensures t[k][i] != t[l][j]
  {
    if k < l || (k == l && i < j) {
      assert Differ(t, k, i, l, j);
    } else {
      assert Differ(t, l, j, k, i);
    }
  }

  lemma SameNode(t: seq<seq<Bytes>>, k: nat, i: nat, l: nat, j: nat)
    requires Distinct(t) && k < |t| && l < |t| && i < |t[k]| && j < |t[l]| && t[k][i] == t[l][j]
    ensures k == l && i == j
  {
    if k != l || i != j {
      Different(t, k, i, l, j);
    }
  }

  // ---- From parents to children ----------------------------------------------------------------

  type ChildMap = map<Bytes, seq<Bytes>>

  ghost predicate Listed(t: seq<seq<Bytes>>, m: ChildMap, k: nat, i: nat)
    requires k + 1 < |t| && i < |t[k + 1]|
  {
    i < ParentCount(|t[k]|) && t[k + 1][i] in m && m[t[k + 1][i]] == Chunk(t[k], i)
  }

  /** A key of the map is a parent in one of the first `n` steps. */
  ghost predicate IsParent(t: seq<seq<Bytes>>, key: Bytes, n: nat) {
    exists k, i :: 1 <= k <= n && k < |t| && 0 <= i < |t[k]| && t[k][i] == key
  }

  /** The first `n` levels of the map are complete and nothing else is in it. */
  ghost predicate Filled(h: HashFn, t: seq<seq<Bytes>>, m: ChildMap, n: nat)
    requires IsTower(h, t) && n < |t|
  {
    && (forall k, i :: 0 <= k < n && 0 <= i < |t[k + 1]| ==> Listed(t, m, k, i))
    && (forall key {:trigger IsParent(t, key, n)} :: key in m ==> IsParent(t, key, n))
  }

  /** Appends a child list to the entry of one parent, as `operator[]` and `emplace_back` do. */
  function Append(m: ChildMap, parent: Bytes, children: seq<Bytes>): ChildMap {
    m[parent := (if parent in m then m[parent] else []) + children]
  }

  lemma NotYetParent(h: HashFn, t: seq<seq<Bytes>>, m: ChildMap, n: nat, i: nat)
    requires IsTower(h, t) && Distinct(t) && n + 1 < |t| && Filled(h, t, m, n) && i < |t[n + 1]|
    ensures t[n + 1][i] !in m
  {
    if t[n + 1][i] in m {
      assert IsParent(t, t[n + 1][i], n);
      var k, j :| 1 <= k <= n && k < |t| && 0 <= j < |t[k]| && t[k][j] == t[n + 1][i];
      Different(t, k, j, n + 1, i);
    }
  }

  /** One level partly done: the parents still in `todo` are absent, the others are listed. */
  ghost predicate Filling(h: HashFn, t: seq<seq<Bytes>>, m: ChildMap, n: nat, todo: set<nat>)
    requires IsTower(h, t) && n + 1 < |t|
  {
    && (forall k, i :: 0 <= k < n && 0 <= i < |t[k + 1]| ==> Listed(t, m, k, i))
    && (forall i :: 0 <= i < |t[n + 1]| && i !in todo ==> Listed(t, m, n, i))
    && (forall i :: i in todo && i < |t[n + 1]| ==> t[n + 1][i] !in m)
    && (forall key :: key in m ==> IsParent(t, key, n + 1))
  }

  lemma StaysListed(t: seq<seq<Bytes>>, m: ChildMap, k: nat, i: nat, parent: Bytes, children: seq<Bytes>)
    requires k + 1 < |t| && i < |t[k + 1]| && Listed(t, m, k, i) && parent != t[k + 1][i]
    ensures Listed(t, Append(m, parent, children), k, i)
  {
  }

  lemma NowListed(t: seq<seq<Bytes>>, m: ChildMap, k: nat, i: nat)
    requires k + 1 < |t| && i < |t[k + 1]| && i < ParentCount(|t[k]|) && t[k + 1][i] !in m
    ensures Listed(t, Append(m, t[k + 1][i], Chunk(t[k], i)), k, i)
  {
    assert [] + Chunk(t[k], i) == Chunk(t[k], i);
  }

  lemma FillOne(h: HashFn, t: seq<seq<Bytes>>, m: ChildMap, n: nat, todo: set<nat>, i: nat)
    requires IsTower(h, t) && Distinct(t) && n + 1 < |t| && Rises(h, t, n)
    requires i in todo && i < |t[n + 1]| && Filling(h, t, m, n, todo)
    ensures Filling(h, t, Append(m, t[n + 1][i], Chunk(t[n], i)), n, todo - {i})
  {
    forall k, j | 1 <= k <= n && 0 <= j < |t[k]|
      ensures t[k][j] != t[n + 1][i]
    {
      Different(t, k, j, n + 1, i);
    }
    LowerStayListed(h, t, m, n, t[n + 1][i], Chunk(t[n], i));
    LevelStaysListed(h, t, m, n, todo, i);
    OthersAbsent(t, m, n, todo, i, Chunk(t[n], i));
    assert IsParent(t, t[n + 1][i], n + 1);
    StillParents(t, m, n + 1, t[n + 1][i], Chunk(t[n], i));
  }

  lemma OthersAbsent(t: seq<seq<Bytes>>, m: ChildMap, n: nat, todo: set<nat>, i: nat, children: seq<Bytes>)
    requires Distinct(t) && n + 1 < |t| && i < |t[n + 1]|
    requires forall j :: j in todo && j < |t[n + 1]| ==> t[n + 1][j] !in m
    ensures forall j :: j in todo - {i} && j < |t[n + 1]| ==> t[n + 1][j] !in Append(m, t[n + 1][i], children)
  {
    forall j | j in todo - {i} && j < |t[n + 1]|
      ensures t[n + 1][j] !in Append(m, t[n + 1][i], children)
    {
      Different(t, n + 1, j, n + 1, i);
    }
  }

  lemma StillParents(t: seq<seq<Bytes>>, m: ChildMap, n: nat, p: Bytes, children: seq<Bytes>)
    requires IsParent(t, p, n) && forall key :: key in m ==> IsParent(t, key, n)
    ensures forall key :: key in Append(m, p, children) ==> IsParent(t, key, n)
  {
  }

  lemma LevelStaysListed(h: HashFn, t: seq<seq<Bytes>>, m: ChildMap, n: nat, todo: set<nat>, i: nat)
    requires Distinct(t) && n + 1 < |t| && Rises(h, t, n) && i < |t[n + 1]| && t[n + 1][i] !in m
    requires forall j :: 0 <= j < |t[n + 1]| && j !in todo ==> Listed(t, m, n, j)
    ensures forall j :: 0 <= j < |t[n + 1]| && j !in todo - {i} ==>
              Listed(t, Append(m, t[n + 1][i], Chunk(t[n], i)), n, j)
  {
    forall j | 0 <= j < |t[n + 1]| && j !in todo - {i}
      ensures Listed(t, Append(m, t[n + 1][i], Chunk(t[n], i)), n, j)
    {
      if j == i {
        NowListed(t, m, n, i);
      } else {
        Different(t, n + 1, j, n + 1, i);
        StaysListed(t, m, n, j, t[n + 1][i], Chunk(t[n], i));
      }
    }
  }

  lemma LowerStayListed(h: HashFn, t: seq<seq<Bytes>>, m: ChildMap, n: nat, p: Bytes, children: seq<Bytes>)
    requires IsTower(h, t) && n + 1 < |t|
    requires forall k, i :: 0 <= k < n && 0 <= i < |t[k + 1]| ==> Listed(t, m, k, i)
    requires forall k, i :: 1 <= k <= n && 0 <= i < |t[k]| ==> t[k][i] != p
    ensures forall k, i :: 0 <= k < n && 0 <= i < |t[k + 1]| ==> Listed(t, Append(m, p, children), k, i)
  {
    forall k, i | 0 <= k < n && 0 <= i < |t[k + 1]|
      ensures Listed(t, Append(m, p, children), k, i)
    {
      StaysListed(t, m, k, i, p, children);
    }
  }

  /**
   * One level of `getMerkleProof`. The parents are taken in any order; each appends its whole child
   * list under the lock.
   */
  method FillLevel(h: HashFn, level: seq<Bytes>, m: ChildMap, ghost t: seq<seq<Bytes>>, ghost n: nat)
    returns (higher: seq<Bytes>, m': ChildMap)
    requires IsTower(h, t) && n + 1 < |t| && level == t[n]
    ensures higher == t[n + 1]
    ensures Distinct(t) && Filled(h, t, m, n) ==> Filled(h, t, m', n + 1)
  {
    assert Rises(h, t, n);
    ghost var good := Distinct(t) && Filled(h, t, m, n);
    m' := m;
    higher := seq(ParentCount(|level|), _ => []);
    var todo := Indices(ParentCount(|level|));
    if good {
      StartFilling(h, t, m, n, todo);
    }
    while todo != {}
      invariant |higher| == |t[n + 1]| && forall i :: i in todo ==> i < |higher|
      invariant forall i :: 0 <= i < |higher| && i !in todo ==> higher[i] == t[n + 1][i]
      invariant good ==> Filling(h, t, m', n, todo)
      decreases todo
    {
      var i :| i in todo;
      var value, children := Gather(level, i);
      higher := higher[i := h(value)];
      if good {
        FillOne(h, t, m', n, todo, i);
      }
      m' := Append(m', higher[i], children);
      todo := todo - {i};
    }
    assert higher == t[n + 1];
    if good {
      EndFilling(h, t, m', n);
    }
  }

  lemma EndFilling(h: HashFn, t: seq<seq<Bytes>>, m: ChildMap, n: nat)
    requires IsTower(h, t) && n + 1 < |t| && Filling(h, t, m, n, {})
    ensures Filled(h, t, m, n + 1)
  {
    forall k, i | 0 <= k < n + 1 && 0 <= i < |t[k + 1]|
      ensures Listed(t, m, k, i)
    {
    }
  }

  lemma StartFilling(h: HashFn, t: seq<seq<Bytes>>, m: ChildMap, n: nat, todo: set<nat>)
    requires IsTower(h, t) && Distinct(t) && n + 1 < |t| && Filled(h, t, m, n)
    requires forall i :: 0 <= i < |t[n + 1]| ==> i in todo
    ensures Filling(h, t, m, n, todo)
  {
    forall i | i in todo && i < |t[n + 1]|
      ensures t[n + 1][i] !in m
    {
      NotYetParent(h, t, m, n, i);
    }
    forall key | key in m
      ensures IsParent(t, key, n + 1)
    {
      assert IsParent(t, key, n);
      var k, i :| 1 <= k <= n && k < |t| && 0 <= i < |t[k]| && t[k][i] == key;
    }
  }

  /** `getMerkleProof` of the tree: the map from every parent to its children in order. */
  method FillMap(h: HashFn, leaves: seq<Bytes>) returns (m: ChildMap)
    ensures leaves == [] ==> m == map[]
    ensures leaves != [] ==> var t := Levels(h, leaves); IsTower(h, t) && (Distinct(t) ==> Filled(h, t, m, |t| - 1))
  {
    m := map[];
    if leaves == [] {
      return;
    }
    ghost var t, n := Levels(h, leaves), 0;
    LevelsAreTower(h, leaves);
    var level := leaves;
    while |level| > 1
      invariant n + 1 < |t| && level == t[n]
      invariant Distinct(t) ==> Filled(h, t, m, n)
      decreases |t| - n
    {
      assert Rises(h, t, n);
      level, m := FillLevel(h, level, m, t, n);
      n := n + 1;
    }
    assert Rises(h, t, n);
    LastStep(h, t, m, n);
    m := Append(m, h(level[0]), [level[0]]);
  }

  lemma LastStep(h: HashFn, t: seq<seq<Bytes>>, m: ChildMap, n: nat)
    requires IsTower(h, t) && n + 1 < |t| && |t[n]| == 1
    ensures n == |t| - 2
    ensures Distinct(t) && Filled(h, t, m, n) ==> Filled(h, t, Append(m, h(t[n][0]), [t[n][0]]), n + 1)
  {
    assert Rises(h, t, n);
    assert Chunk(t[n], 0) == [t[n][0]];
    assert Concat([t[n][0]]) == t[n][0];
    if Distinct(t) && Filled(h, t, m, n) {
      StartFilling(h, t, m, n, {0});
      FillOne(h, t, m, n, {0}, 0);
    }
  }

  // ---- From children to parents ----------------------------------------------------------------

  type ParentMap = map<Bytes, Bytes>

  /** Every child in `c` is non-empty and listed by the parent recorded for it. */
  ghost predicate ListedBack(c: ParentMap, m: ChildMap) {
    forall child {:trigger ListsBack(c, m, child)} :: child in c ==> ListsBack(c, m, child)
  }

  ghost predicate ListsBack(c: ParentMap, m: ChildMap, child: Bytes)
    requires child in c
  {
    child != [] && c[child] in m && child in m[c[child]]
  }

  /** A place in a child list. */
  datatype Link = Link(parent: Bytes, index: nat)

  ghost predicate IsLink(m: ChildMap, k: Link) {
    k.parent in m && k.index < |m[k.parent]|
  }

  /** Every non-empty child is recorded, except at the places in `todo`. */
  ghost predicate Recorded(c: ParentMap, m: ChildMap, todo: set<Link>) {
    forall k: Link :: IsLink(m, k) && k !in todo && m[k.parent][k.index] != [] ==> m[k.parent][k.index] in c
  }

  /** `c` names, for every non-empty child in some list, a parent that lists it. */
  ghost predicate Inverts(c: ParentMap, m: ChildMap) {
    ListedBack(c, m) && Recorded(c, m, {})
  }

  function Links(m: ChildMap): (links: set<Link>)
    ensures forall k: Link :: k in links <==> IsLink(m, k)
  {
    set p, i | p in m && i in Indices(|m[p]|) :: Link(p, i)
  }

  function Record(c: ParentMap, m: ChildMap, k: Link): ParentMap
    requires IsLink(m, k)
  {
    var child := m[k.parent][k.index];
    if child != [] then c[child := k.parent] else c
  }

  lemma RecordOne(c: ParentMap, m: ChildMap, todo: set<Link>, k: Link)
    requires IsLink(m, k) && ListedBack(c, m) && Recorded(c, m, todo)
    ensures ListedBack(Record(c, m, k), m) && Recorded(Record(c, m, k), m, todo - {k})
  {
    forall child | child in Record(c, m, k)
      ensures ListsBack(Record(c, m, k), m, child)
    {
      assert child in c ==> ListsBack(c, m, child);
    }
  }

  /** `parseMerkleMap`: all the links, taken in any order, across parents too. */
  method ParseMerkleMap(m: ChildMap) returns (c: ParentMap)
    ensures Inverts(c, m)
  {
    c := map[];
    var todo := Links(m);
    while todo != {}
      invariant todo <= Links(m)
      invariant ListedBack(c, m) && Recorded(c, m, todo)
      decreases todo
    {
      var k :| k in todo;
      RecordOne(c, m, todo, k);
      c := Record(c, m, k);
      todo := todo - {k};
    }
  }

  /** A child in the map back is a node below the root, next to its true siblings. */
  lemma FindChild(h: HashFn, t: seq<seq<Bytes>>, m: ChildMap, c: ParentMap, node: Bytes) returns (k: nat, j: nat)
    requires IsTower(h, t) && Filled(h, t, m, |t| - 1) && Inverts(c, m) && node in c
    ensures k < |t| - 1 && j < |t[k]| && t[k][j] == node && node != []
    ensures j / 16 < |t[k + 1]| && c[node] == t[k + 1][j / 16]
  {
    assert ListsBack(c, m, node);
    assert IsParent(t, c[node], |t| - 1);
    var l, i :| 1 <= l < |t| && 0 <= i < |t[l]| && t[l][i] == c[node];
    assert Listed(t, m, l - 1, i);
    k := l - 1;
    j := InChunk(t[k], i, node);
  }

  lemma InChunk(level: seq<Bytes>, i: nat, node: Bytes) returns (j: nat)
    requires i < ParentCount(|level|) && node in Chunk(level, i)
    ensures j < |level| && j / 16 == i && level[j] == node
  {
    var s :| 0 <= s < |Chunk(level, i)| && Chunk(level, i)[s] == node;
    j := 16 * i + s;
  }

  lemma HasParent(h: HashFn, t: seq<seq<Bytes>>, m: ChildMap, c: ParentMap, k: nat, j: nat)
    requires IsTower(h, t) && Filled(h, t, m, |t| - 1) && Inverts(c, m)
    requires k < |t| - 1 && j < |t[k]| && t[k][j] != []
    ensures t[k][j] in c
  {
    assert Rises(h, t, k);
    ChunkAt(t[k], j);
    assert Listed(t, m, k, j / 16);
    assert IsLink(m, Link(t[k + 1][j / 16], j % 16));
  }

  lemma ChunkAt(level: seq<Bytes>, j: nat)
    requires j < |level|
    ensures j / 16 < ParentCount(|level|) && j % 16 < |Chunk(level, j / 16)| && Chunk(level, j / 16)[j % 16] == level[j]
  {
    assert j == 16 * (j / 16) + j % 16;
  }

  /** In a tree of distinct nodes the map back is the tree's own parent relation. */
  lemma ParentOf(h: HashFn, t: seq<seq<Bytes>>, m: ChildMap, c: ParentMap, k: nat, j: nat)
    requires IsTower(h, t) && Distinct(t) && Filled(h, t, m, |t| - 1) && Inverts(c, m)
    requires k < |t| && j < |t[k]|
    ensures t[k][j] in c <==> k < |t| - 1 && t[k][j] != []
    ensures t[k][j] in c ==>
              k + 1 < |t| && j / 16 < |t[k + 1]| && c[t[k][j]] == t[k + 1][j / 16] && Listed(t, m, k, j / 16)
  {
    if t[k][j] in c {
      var l, i := FindChild(h, t, m, c, t[k][j]);
      SameNode(t, k, j, l, i);
    } else if k < |t| - 1 && t[k][j] != [] {
      HasParent(h, t, m, c, k, j);
    }
  }

  // ---- Proofs ----------------------------------------------------------------------------------

  datatype Step = Step(left: seq<Bytes>, right: seq<Bytes>)

  /** What a verifier computes from a node and its proof. */
  function Fold(h: HashFn, node: Bytes, proof: seq<Step>): Bytes
    decreases |proof|
  {
    if proof == [] then node
    else Fold(h, h(Concat(proof[0].left) + node + Concat(proof[0].right)), proof[1..])
  }

  lemma {:induction false} FoldSnoc(h: HashFn, node: Bytes, proof: seq<Step>, s: Step)
    ensures Fold(h, node, proof + [s]) == h(Concat(s.left) + Fold(h, node, proof) + Concat(s.right))
    decreases |proof|
  {
    if proof == [] {
      assert proof + [s] == [s];
    } else {
      FoldSnoc(h, h(Concat(proof[0].left) + node + Concat(proof[0].right)), proof[1..], s);
      assert (proof + [s])[1..] == proof[1..] + [s];
    }
  }

  lemma StepGivesParent(h: HashFn, t: seq<seq<Bytes>>, k: nat, j: nat, at: nat)
    requires k < |t| - 1 && Rises(h, t, k) && j < |t[k]| && j / 16 < |t[k + 1]|
    requires at < |Chunk(t[k], j / 16)| && Chunk(t[k], j / 16)[at] == t[k][j]
    ensures var chunk := Chunk(t[k], j / 16);
            h(Concat(chunk[..at]) + t[k][j] + Concat(chunk[at + 1..])) == t[k + 1][j / 16]
  {
    var chunk := Chunk(t[k], j / 16);
    assert chunk == chunk[..at] + [chunk[at]] + chunk[at + 1..];
    ConcatAppend(chunk[..at] + [chunk[at]], chunk[at + 1..]);
    ConcatSnoc(chunk[..at], chunk[at]);
  }

  method IndexOf(list: seq<Bytes>, node: Bytes) returns (at: nat)
    ensures at <= |list| && (at < |list| <==> node in list)
    ensures at < |list| ==> list[at] == node
    ensures forall i :: 0 <= i < at ==> list[i] != node
  {
    at := 0;
    while at < |list| && list[at] != node
      invariant at <= |list| && forall i :: 0 <= i < at ==> list[i] != node
    {
      at := at + 1;
    }
  }

  /**
   * `getMerkleProof` of a node: climbs from the node while it has a parent. From any non-empty node
   * of the tree the proof folds to the root; anything else has an empty proof.
   */
  method GetMerkleProof(h: HashFn, node: Bytes, m: ChildMap, c: ParentMap, ghost t: seq<seq<Bytes>>)
    returns (proof: seq<Step>)
    requires IsTower(h, t) && Distinct(t) && Filled(h, t, m, |t| - 1) && Inverts(c, m)
    ensures node !in c ==> proof == []
    ensures forall k, j {:trigger IsAt(t, k, j, node)} ::
              0 <= k < |t| && 0 <= j && IsAt(t, k, j, node) && node != [] ==>
              |proof| == |t| - 1 - k && Fold(h, node, proof) == t[|t| - 1][0]
  {
    proof := [];
    ghost var k: nat, j: nat := 0, 0;
    if node in c {
      k, j := FindChild(h, t, m, c, node);
    }
    ghost var begin, first := k, j;
    var current := node;
    while current in c
      invariant node in c ==> begin <= k < |t| && j < |t[k]| && current == t[k][j] && current != []
      invariant node in c ==> |proof| == k - begin && Fold(h, node, proof) == current
      invariant node !in c ==> current == node && proof == []
      decreases |t| - k
    {
      var ok, step, parent := SiblingsOf(h, current, m, c, t, k, j);
      if !ok {
        break;
      }
      FoldSnoc(h, node, proof, step);
      proof := proof + [step];
      current, k, j := parent, k + 1, j / 16;
    }
    forall l, i | 0 <= l < |t| && 0 <= i && IsAt(t, l, i, node) && node != []
      ensures |proof| == |t| - 1 - l && Fold(h, node, proof) == t[|t| - 1][0]
    {
      ProofEnds(h, t, m, c, node, begin, first, k, j, proof, l, i);
    }
  }

  /** One step up: the parent, and the siblings on either side. */
  method SiblingsOf(
    h: HashFn, current: Bytes, m: ChildMap, c: ParentMap, ghost t: seq<seq<Bytes>>, ghost k: nat, ghost j: nat)
    returns (ok: bool, step: Step, parent: Bytes)
    requires IsTower(h, t) && Distinct(t) && Filled(h, t, m, |t| - 1) && Inverts(c, m)
    requires k < |t| && j < |t[k]| && current == t[k][j] && current in c
    ensures ok && k + 1 < |t| && j / 16 < |t[k + 1]| && parent == t[k + 1][j / 16] && parent != []
    ensures h(Concat(step.left) + current + Concat(step.right)) == parent
  {
    ParentOf(h, t, m, c, k, j);
    ok, step, parent := false, Step([], []), c[current];
    if parent !in m {
      return;
    }
    var at := IndexOf(m[parent], current);
    ChunkAt(t[k], j);
    if at == |m[parent]| {
      return;
    }
    assert Rises(h, t, k);
    StepGivesParent(h, t, k, j, at);
    ok, step := true, Step(m[parent][..at], m[parent][at + 1..]);
  }

  lemma ProofEnds(
    h: HashFn, t: seq<seq<Bytes>>, m: ChildMap, c: ParentMap, node: Bytes, begin: nat, first: nat, k: nat, j: nat,
    proof: seq<Step>, l: nat, i: nat)
    requires IsTower(h, t) && Distinct(t) && Filled(h, t, m, |t| - 1) && Inverts(c, m)
    requires node in c ==> begin <= k < |t| && first < |t[begin]| && t[begin][first] == node
    requires node in c ==> j < |t[k]| && t[k][j] !in c && t[k][j] != []
    requires node in c ==> |proof| == k - begin && Fold(h, node, proof) == t[k][j]
    requires node !in c ==> proof == []
    requires l < |t| && i < |t[l]| && t[l][i] == node && node != []
    ensures |proof| == |t| - 1 - l && Fold(h, node, proof) == t[|t| - 1][0]
  {
    ParentOf(h, t, m, c, l, i);
    if node in c {
      ParentOf(h, t, m, c, k, j);
      SameNode(t, l, i, begin, first);
    }
  }

  ghost predicate IsAt(t: seq<seq<Bytes>>, k: nat, j: nat, node: Bytes)
    requires k < |t|
  {
    j < |t[k]| && t[k][j] == node
  }

  /** From the leaves to a checked proof: every non-empty leaf's proof folds to `getHash256`. */
  method ProveLeaf(h: HashFn, leaves: seq<Bytes>, j: nat) returns (proof: seq<Step>, root: Bytes)
    requires j < |leaves| && Distinct(Levels(h, leaves))
    ensures root == MerkleRoot(h, leaves)
    ensures Fold(h, leaves[j], proof) == root <==> leaves[j] != []
  {
    LevelsAreTower(h, leaves);
    var m := FillMap(h, leaves);
    var c := ParseMerkleMap(m);
    ghost var t := Levels(h, leaves);
    proof := GetMerkleProof(h, leaves[j], m, c, t);
    root := GetHash256(h, leaves);
    assert t[0][j] == leaves[j];
    assert IsAt(t, 0, j, leaves[j]);
    if leaves[j] == [] {
      ParentOf(h, t, m, c, 0, j);
      RootIsDigest(h, leaves);
    }
  }

  lemma {:induction false} RootIsDigest(h: HashFn, leaves: seq<Bytes>)
    ensures |MerkleRoot(h, leaves)| == 32
    decreases |leaves|
  {
    if |leaves| > 1 {
      RootIsDigest(h, Parents(h, leaves));
    }
  }
}
