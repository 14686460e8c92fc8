/**
 * The Patricia trie of `hash256rlp` and `hash256aux` (Appendix D of the Ethereum Yellow Paper)
 * over a sorted map from nibble strings to values.
 */
module Trie {
  import opened Common
  import opened BigEndian
  import opened Rlp
  import opened RlpDecoder
  import opened HexPrefix

  datatype Entry = Entry(key: Nibbles, value: Bytes)

  // ---- Lexicographic order ---------------------------------------------------------------------

  /** Length of the common prefix, counted on from `from`. */
  function Shared(a: seq<int>, b: seq<int>, from: nat): (n: nat)
    requires from <= |a| && from <= |b|
    ensures from <= n <= |a| && n <= |b|
    ensures n < |a| && n < |b| ==> a[n] != b[n]
    decreases |a| - from
  {
    if from < |a| && from < |b| && a[from] == b[from] then Shared(a, b, from + 1) else from
  }

  predicate Less(a: seq<int>, b: seq<int>) {
    var n := Shared(a, b, 0);
    n < |b| && (n == |a| || a[n] < b[n])
  }

  lemma {:induction false} SharedEqual(a: seq<int>, b: seq<int>, from: nat, i: nat)
    requires from <= |a| && from <= |b| && from <= i < Shared(a, b, from)
    ensures a[i] == b[i]
    decreases |a| - from
  {
    if from < i {
      SharedEqual(a, b, from + 1, i);
    }
  }

  lemma {:induction false} SharedSkip(a: seq<int>, b: seq<int>, from: nat, to: nat)
    requires from <= to <= |a| && to <= |b| && forall i :: from <= i < to ==> a[i] == b[i]
    ensures Shared(a, b, from) == Shared(a, b, to)
    decreases |a| - from
  {
    if from < to {
      SharedSkip(a, b, from + 1, to);
    }
  }

  lemma {:induction false} SharedSymmetric(a: seq<int>, b: seq<int>, from: nat)
    requires from <= |a| && from <= |b|
    ensures Shared(a, b, from) == Shared(b, a, from)
    decreases |a| - from
  {
    if from < |a| && from < |b| && a[from] == b[from] {
      SharedSymmetric(a, b, from + 1);
    }
  }

  lemma LessAsymmetric(a: seq<int>, b: seq<int>)
    requires Less(a, b)
    ensures !Less(b, a) && a != b
  {
    SharedSymmetric(a, b, 0);
  }

  /** Two ordered keys with `pre` nibbles in common compare by the next one. */
  lemma LessNext(a: seq<int>, b: seq<int>, pre: nat)
    requires Less(a, b) && pre <= |a| && pre <= |b| && a[..pre] == b[..pre]
    ensures pre < |b| && (pre < |a| ==> a[pre] <= b[pre])
  {
    forall i | 0 <= i < pre
      ensures a[i] == b[i]
    {
      assert a[..pre][i] == b[..pre][i];
    }
    SharedSkip(a, b, 0, pre);
    if pre < Shared(a, b, pre) {
      SharedEqual(a, b, pre, pre);
    }
  }

  // ---- Groups of entries -----------------------------------------------------------------------

  /** Distinct sorted keys that agree on their first `pre` nibbles. */
  ghost predicate Group(s: seq<Entry>, pre: nat) {
    && (forall i :: 0 <= i < |s| ==> pre <= |s[i].key|)
    && (forall i, j {:trigger Less(s[i].key, s[j].key)} :: 0 <= i < j < |s| ==> Less(s[i].key, s[j].key))
    && (forall i {:trigger s[i].key[..pre]} :: 0 <= i < |s| ==> s[i].key[..pre] == s[0].key[..pre])
  }

  /** Keys and values that fit in memory. */
  const ENTRY_LIMIT: nat := 0x1000_0000_0000_0000
  /** Key lengths are handed on as 32-bit signed integers. */
  const KEY_LIMIT: nat := 0x8000_0000

  ghost predicate Fits(s: seq<Entry>) {
    forall i :: 0 <= i < |s| ==> |s[i].key| < KEY_LIMIT && |s[i].value| < ENTRY_LIMIT
  }

  /** Nibbles that the first key shares with every one of the first `n` keys. */
  ghost function SharedByAll(s: seq<Entry>, pre: nat, n: nat): (r: nat)
    requires Group(s, pre) && 2 <= n <= |s|
    ensures pre <= r <= |s[0].key|
    ensures forall i :: 1 <= i < n ==> r <= Shared(s[0].key, s[i].key, pre)
    ensures exists i :: 1 <= i < n && r == Shared(s[0].key, s[i].key, pre)
  {
    var last := Shared(s[0].key, s[n - 1].key, pre);
    if n == 2 then last
    else
      var before := SharedByAll(s, pre, n - 1);
      if last < before then last else before
  }

  /** The key ends after `pre` nibbles or goes on with a nibble below `d`. */
  predicate Below(e: Entry, pre: nat, d: nat) {
    |e.key| <= pre || e.key[pre] < d
  }

  /** Index of the first entry that is not below `d`. */
  ghost function Cut(s: seq<Entry>, pre: nat, d: nat): (n: nat)
    ensures n <= |s| && (n < |s| ==> !Below(s[n], pre, d)) && forall i :: 0 <= i < n ==> Below(s[i], pre, d)
  {
    if s != [] && Below(s[0], pre, d) then 1 + Cut(s[1..], pre, d) else 0
  }

  /** In a group, everything from the cut on is not below `d`. */
  lemma CutSplits(s: seq<Entry>, pre: nat, d: nat)
    requires Group(s, pre)
    ensures forall i :: Cut(s, pre, d) <= i < |s| ==> !Below(s[i], pre, d)
    ensures Cut(s, pre, d) <= Cut(s, pre, d + 1)
  {
    var n := Cut(s, pre, d);
    forall i | n <= i < |s|
      ensures !Below(s[i], pre, d)
    {
      if n < i {
        LessNext(s[n].key, s[i].key, pre);
      }
    }
    assert forall i :: 0 <= i < n ==> Below(s[i], pre, d + 1);
  }

  /** The entries that go on with nibble `d`. */
  ghost function Bucket(s: seq<Entry>, pre: nat, d: nat): (t: seq<Entry>)
    requires Group(s, pre)
    ensures Group(t, pre + 1) && |t| <= |s| && (Fits(s) ==> Fits(t))
    ensures forall i :: 0 <= i < |t| ==> pre < |t[i].key| && t[i].key[pre] == d
  {
    CutSplits(s, pre, d);
    var t := s[Cut(s, pre, d)..Cut(s, pre, d + 1)];
    BucketIsGroup(s, pre, d, t);
    t
  }

  lemma BucketIsGroup(s: seq<Entry>, pre: nat, d: nat, t: seq<Entry>)
    requires Group(s, pre) && Cut(s, pre, d) <= Cut(s, pre, d + 1) && t == s[Cut(s, pre, d)..Cut(s, pre, d + 1)]
    ensures Group(t, pre + 1) && forall i :: 0 <= i < |t| ==> pre < |t[i].key| && t[i].key[pre] == d
  {
    CutSplits(s, pre, d);
    var lo := Cut(s, pre, d);
    forall i | 0 <= i < |t|
      ensures pre < |t[i].key| && t[i].key[pre] == d && t[i].key[..pre] == s[0].key[..pre]
    {
      assert t[i] == s[lo + i];
      assert !Below(s[lo + i], pre, d) && Below(s[lo + i], pre, d + 1);
    }
    forall i | 0 <= i < |t|
      ensures t[i].key[..pre + 1] == t[0].key[..pre + 1]
    {
      assert t[i].key[..pre + 1] == t[i].key[..pre] + [d];
      assert t[0].key[..pre + 1] == t[0].key[..pre] + [d];
    }
  }

  /** At least two entries, and no nibble after `pre` is common to all keys. */
  ghost predicate Branches(s: seq<Entry>, pre: nat) {
    Group(s, pre) && |s| >= 2 && SharedByAll(s, pre, |s|) == pre
  }

  lemma BucketSmaller(s: seq<Entry>, pre: nat, d: nat)
    requires Branches(s, pre)
    ensures |Bucket(s, pre, d)| < |s|
  {
    var i :| 1 <= i < |s| && pre == Shared(s[0].key, s[i].key, pre);
    if pre < |s[0].key| && s[0].key[pre] == d {
      LessNext(s[0].key, s[i].key, pre);
      assert !Below(s[i], pre, d + 1);
    } else {
      assert !(Below(s[0], pre, d + 1) && !Below(s[0], pre, d));
    }
  }

  // ---- The trie --------------------------------------------------------------------------------

  const NODE_LIMIT: nat := 0x4000_0000_0000_0000

  /** The value slot of a branch: the value of the key that ends here. */
  ghost function ValueHere(s: seq<Entry>, pre: nat): Bytes
    requires Group(s, pre)
  {
    if s != [] && |s[0].key| == pre then s[0].value else []
  }

  /** `hash256rlp`: the node for a group of entries, of whose keys `pre` nibbles are used up. */
  ghost function Node(h: HashFn, s: seq<Entry>, pre: nat): (it: Item)
    requires Group(s, pre) && Fits(s)
    ensures Size(it) < NODE_LIMIT && (it.List? <==> s != [])
    decreases |s|, (if s == [] then 0 else |s[0].key| - pre), 50
  {
    if s == [] then Data([])
    else if |s| == 1 then
      var path, value := Encoded(s[0].key[pre..], true), s[0].value;
      PairSize(Data(path), Data(value));
      List([Data(path), Data(value)])
    else
      var shared := SharedByAll(s, pre, |s|);
      if shared > pre then
        GroupShared(s, pre);
        var path, child := Encoded(s[0].key[pre..shared], false), Ref(h, s, shared);
        PairSize(Data(path), child);
        List([Data(path), child])
      else
        var slots := Slots(h, s, pre, 16);
        BranchSize(slots, ValueHere(s, pre));
        List(slots + [Data(ValueHere(s, pre))])
  }

  /** `hash256aux`: a short node in place, any other by its hash. */
  ghost function Ref(h: HashFn, s: seq<Entry>, pre: nat): (it: Item)
    requires Group(s, pre) && Fits(s) && s != []
    ensures Size(it) <= 33
    decreases |s|, |s[0].key| - pre, 100
  {
    var node := Node(h, s, pre);
    if Size(node) < 32 then node else Data(h(Encode(node)))
  }

  /** The first `n` of the sixteen children of a branch. */
  ghost function Slots(h: HashFn, s: seq<Entry>, pre: nat, n: nat): (slots: seq<Item>)
    requires Branches(s, pre) && Fits(s) && n <= 16
    ensures |slots| == n && forall d :: 0 <= d < n ==> Size(slots[d]) <= 33 && slots[d] == Slot(h, s, pre, d)
    decreases |s|, |s[0].key| - pre, n + 1
  {
    if n == 0 then [] else Slots(h, s, pre, n - 1) + [Slot(h, s, pre, n - 1)]
  }

  ghost function Slot(h: HashFn, s: seq<Entry>, pre: nat, d: nat): (it: Item)
    requires Branches(s, pre) && Fits(s)
    ensures Size(it) <= 33
    decreases |s|, |s[0].key| - pre, 0
  {
    BucketSmaller(s, pre, d);
    var t := Bucket(s, pre, d);
    if t == [] then Data([]) else Ref(h, t, pre + 1)
  }

  /** A longer common prefix keeps the entries a group. */
  lemma GroupShared(s: seq<Entry>, pre: nat)
    requires Group(s, pre) && |s| >= 2
    ensures Group(s, SharedByAll(s, pre, |s|))
  {
    var shared := SharedByAll(s, pre, |s|);
    forall i | 1 <= i < |s|
      ensures shared <= |s[i].key| && s[i].key[..shared] == s[0].key[..shared]
    {
      forall k | 0 <= k < shared
        ensures s[i].key[k] == s[0].key[k]
      {
        if k < pre {
          assert s[i].key[..pre][k] == s[0].key[..pre][k];
        } else {
          SharedEqual(s[0].key, s[i].key, pre, k);
        }
      }
    }
  }

  lemma SmallHeader(len: nat)
    requires len < SIZE_LIMIT
    ensures HeaderSize(len) <= 9
  {
    SizeBytes(len);
  }

  lemma PairSize(a: Item, b: Item)
    requires a.Data? && |a.bytes| <= ENTRY_LIMIT
    requires Size(b) <= 33 || (b.Data? && |b.bytes| < ENTRY_LIMIT)
    ensures Size(List([a, b])) < NODE_LIMIT
  {
    assert [a, b][1..] == [b] && [b][1..] == [];
    assert SizeAll([b]) == Size(b) + SizeAll([]);
    assert SizeAll([a, b]) == Size(a) + SizeAll([b]);
    SmallHeader(|a.bytes|);
    if b.Data? {
      SmallHeader(|b.bytes|);
    }
    SmallHeader(SizeAll([a, b]));
  }

  lemma {:induction false} SlotsSize(slots: seq<Item>, value: Item)
    requires forall d :: 0 <= d < |slots| ==> Size(slots[d]) <= 33
    ensures SizeAll(slots + [value]) <= 33 * |slots| + Size(value)
  {
    if slots == [] {
      assert slots + [value] == [value] && [value][1..] == [];
    } else {
      SlotsSize(slots[1..], value);
      assert (slots + [value])[1..] == slots[1..] + [value];
    }
  }

  lemma BranchSize(slots: seq<Item>, value: Bytes)
    requires |slots| == 16 && |value| < ENTRY_LIMIT
    requires forall d :: 0 <= d < |slots| ==> Size(slots[d]) <= 33
    ensures Size(List(slots + [Data(value)])) < NODE_LIMIT
  {
    SlotsSize(slots, Data(value));
    SmallHeader(|value|);
    SmallHeader(SizeAll(slots + [Data(value)]));
  }

  // ---- Looking a key up ------------------------------------------------------------------------

  /** What a reference stands for: itself, or the node in the store `db` with that hash. */
  ghost function Resolve(h: HashFn, db: set<Bytes>, ref: Item): Item {
    if ref.Data? && |ref.bytes| == 32 && exists b :: b in db && h(b) == ref.bytes then
      var b :| b in db && h(b) == ref.bytes;
      var r := Decode(Documented, b);
      if r.Ok? then r.value else Data([])
    else ref
  }

  /** The value a trie holds for a key; the empty string when it holds none. */
  ghost function Lookup(h: HashFn, db: set<Bytes>, node: Item, key: Nibbles): Bytes
    decreases |key|
  {
    if node.Data? then []
    else if |node.items| == 2 && node.items[0].Data? && node.items[0].bytes != [] then
      LookupPair(h, db, node.items[0].bytes, node.items[1], key)
    else if |node.items| == 17 then
      if key == [] then ValueOf(node.items[16])
      else Lookup(h, db, Resolve(h, db, node.items[key[0]]), key[1..])
    else []
  }

  ghost function LookupPair(h: HashFn, db: set<Bytes>, path: Bytes, second: Item, key: Nibbles): Bytes
    requires path != []
    decreases |key|, 0
  {
    var p := KeyOf(path);
    if IsLeaf(path) then (if p == key then ValueOf(second) else [])
    else if p != [] && p <= key then Lookup(h, db, Resolve(h, db, second), key[|p|..])
    else []
  }

  ghost function ValueOf(it: Item): Bytes {
    if it.Data? then it.bytes else []
  }

  /** The map's own answer. */
  ghost function Find(s: seq<Entry>, key: Nibbles): Bytes {
    if s == [] then [] else if s[0].key == key then s[0].value else Find(s[1..], key)
  }

  // ---- Lookup gives the map's answer -----------------------------------------------------------

  /** No two stored nodes have the same hash. */
  ghost predicate CollisionFree(h: HashFn, db: set<Bytes>) {
    forall a, b :: a in db && b in db && h(a) == h(b) ==> a == b
  }

  /** `db` holds the encoding of every node that the trie refers to by hash. */
  ghost predicate Stored(h: HashFn, db: set<Bytes>, s: seq<Entry>, pre: nat)
    requires Group(s, pre) && Fits(s)
    decreases |s|, (if s == [] then 0 else |s[0].key| - pre), 50
  {
    |s| >= 2 ==>
      var shared := SharedByAll(s, pre, |s|);
      if shared > pre then GroupShared(s, pre); StoredRef(h, db, s, shared)
      else forall d :: 0 <= d < 16 ==> StoredSlot(h, db, s, pre, d)
  }

  ghost predicate StoredRef(h: HashFn, db: set<Bytes>, s: seq<Entry>, pre: nat)
    requires Group(s, pre) && Fits(s) && s != []
    decreases |s|, |s[0].key| - pre, 100
  {
    Stored(h, db, s, pre) && (Size(Node(h, s, pre)) >= 32 ==> Encode(Node(h, s, pre)) in db)
  }

  ghost predicate StoredSlot(h: HashFn, db: set<Bytes>, s: seq<Entry>, pre: nat, d: nat)
    requires Branches(s, pre) && Fits(s)
    decreases |s|, |s[0].key| - pre, 0
  {
    BucketSmaller(s, pre, d);
    Bucket(s, pre, d) != [] ==> StoredRef(h, db, Bucket(s, pre, d), pre + 1)
  }

  /** A reference to a stored node leads back to the node. */
  lemma ResolveRef(h: HashFn, db: set<Bytes>, s: seq<Entry>, pre: nat)
    requires Group(s, pre) && Fits(s) && s != []
    requires StoredRef(h, db, s, pre) && CollisionFree(h, db)
    ensures Resolve(h, db, Ref(h, s, pre)) == Node(h, s, pre)
  {
    var node := Node(h, s, pre);
    if Size(node) >= 32 {
      DecodeInvertsEncode(Documented, node);
    }
  }

  ghost predicate HasPrefix(s: seq<Entry>, pre: nat, key: Nibbles)
    requires Group(s, pre)
  {
    pre <= |key| && (s != [] ==> key[..pre] == s[0].key[..pre])
  }

  lemma {:induction false} FindNothing(s: seq<Entry>, key: Nibbles)
    requires forall i :: 0 <= i < |s| ==> s[i].key != key
    ensures Find(s, key) == []
  {
    if s != [] {
      FindNothing(s[1..], key);
    }
  }

  lemma {:induction false} FindAppend(a: seq<Entry>, b: seq<Entry>, key: Nibbles)
    requires forall i :: 0 <= i < |a| ==> a[i].key != key
    ensures Find(a + b, key) == Find(b, key)
  {
    if a == [] {
      assert a + b == b;
    } else {
      FindAppend(a[1..], b, key);
      assert (a + b)[1..] == a[1..] + b;
    }
  }

  lemma {:induction false} FindInit(a: seq<Entry>, b: seq<Entry>, key: Nibbles)
    requires forall i :: 0 <= i < |b| ==> b[i].key != key
    ensures Find(a + b, key) == Find(a, key)
  {
    if a == [] {
      assert a + b == b;
      FindNothing(b, key);
    } else {
      FindInit(a[1..], b, key);
      assert (a + b)[1..] == a[1..] + b;
    }
  }

  lemma FindMiddle(a: seq<Entry>, b: seq<Entry>, c: seq<Entry>, key: Nibbles)
    requires forall i :: 0 <= i < |a| ==> a[i].key != key
    requires forall i :: 0 <= i < |c| ==> c[i].key != key
    ensures Find(a + b + c, key) == Find(b, key)
  {
    FindInit(a + b, c, key);
    FindAppend(a, b, key);
  }

  lemma InThree<T>(s: seq<T>, lo: nat, hi: nat)
    requires lo <= hi <= |s|
    ensures s == s[..lo] + s[lo..hi] + s[hi..]
  {
  }

  /** A key that goes on with nibble `d` is answered by the bucket of `d`. */
  lemma FindBucket(s: seq<Entry>, pre: nat, key: Nibbles)
    requires Group(s, pre) && pre < |key|
    ensures Find(s, key) == Find(Bucket(s, pre, key[pre]), key)
  {
    var d: nat := key[pre];
    var lo, hi := Cut(s, pre, d), Cut(s, pre, d + 1);
    CutSplits(s, pre, d);
    CutSplits(s, pre, d + 1);
    forall i | 0 <= i < |s| && !(lo <= i < hi)
      ensures s[i].key != key
    {
      assert Below(s[i], pre, d) || !Below(s[i], pre, d + 1);
    }
    InThree(s, lo, hi);
    FindMiddle(s[..lo], s[lo..hi], s[hi..], key);
  }

  lemma LookupLeaf(h: HashFn, db: set<Bytes>, s: seq<Entry>, pre: nat, key: Nibbles)
    requires Group(s, pre) && Fits(s) && |s| == 1 && HasPrefix(s, pre, key)
    ensures Lookup(h, db, Node(h, s, pre), key[pre..]) == Find(s, key)
  {
    var own := s[0].key;
    KeyOfEncoded(own[pre..], true);
    assert own == own[..pre] + own[pre..] && key == key[..pre] + key[pre..];
    assert Find(s[1..], key) == [];
  }

  /** A key shares a group's longer prefix, or the group does not hold it. */
  lemma PrefixOrAbsent(s: seq<Entry>, pre: nat, shared: nat, key: Nibbles)
    requires Group(s, pre) && Group(s, shared) && pre <= shared && s != [] && HasPrefix(s, pre, key)
    ensures s[0].key[pre..shared] <= key[pre..] <==> HasPrefix(s, shared, key)
    ensures !HasPrefix(s, shared, key) ==> Find(s, key) == []
  {
    var own := s[0].key;
    if own[pre..shared] <= key[pre..] {
      assert key[..shared] == key[..pre] + key[pre..][..shared - pre];
      assert own[..shared] == own[..pre] + own[pre..shared];
    }
    if HasPrefix(s, shared, key) {
      assert key[pre..][..shared - pre] == key[..shared][pre..] == own[..shared][pre..] == own[pre..shared];
    } else {
      forall i | 0 <= i < |s|
        ensures s[i].key != key
      {
        assert s[i].key[..shared] == own[..shared];
      }
      FindNothing(s, key);
    }
  }

  /** In a branch node, a key that ends here is answered by the value slot. */
  lemma FindHere(s: seq<Entry>, pre: nat, key: Nibbles)
    requires Group(s, pre) && HasPrefix(s, pre, key) && |key| == pre
    ensures Find(s, key) == ValueHere(s, pre)
  {
    if s != [] {
      assert key[..pre] == key;
      if |s[0].key| == pre {
        assert s[0].key[..pre] == s[0].key;
      } else {
        forall i | 0 <= i < |s|
          ensures s[i].key != key
        {
          if i > 0 {
            LessNext(s[0].key, s[i].key, pre);
          }
        }
        FindNothing(s, key);
      }
    }
  }

  /** Following the trie for any key gives exactly what the map holds for it. */
  lemma {:induction false} LookupFinds(h: HashFn, db: set<Bytes>, s: seq<Entry>, pre: nat, key: Nibbles)
    requires Group(s, pre) && Fits(s) && HasPrefix(s, pre, key)
    requires Stored(h, db, s, pre) && CollisionFree(h, db)
    ensures Lookup(h, db, Node(h, s, pre), key[pre..]) == Find(s, key)
    decreases |s|, (if s == [] then 0 else |s[0].key| - pre), 2
  {
    if |s| == 1 {
      LookupLeaf(h, db, s, pre, key);
    } else if |s| >= 2 {
      if SharedByAll(s, pre, |s|) > pre {
        LookupExtension(h, db, s, pre, key);
      } else if |key| == pre {
        LookupHere(h, db, s, pre, key);
      } else {
        LookupBranch(h, db, s, pre, key);
      }
    }
  }

  lemma BucketPrefix(s: seq<Entry>, pre: nat, key: Nibbles)
    requires Group(s, pre) && HasPrefix(s, pre, key) && pre < |key| && Bucket(s, pre, key[pre]) != []
    ensures HasPrefix(Bucket(s, pre, key[pre]), pre + 1, key)
  {
    var t := Bucket(s, pre, key[pre]);
    CutSplits(s, pre, key[pre]);
    assert t[0] == s[Cut(s, pre, key[pre])];
    assert key[..pre + 1] == key[..pre] + [key[pre]];
    assert t[0].key[..pre + 1] == t[0].key[..pre] + [key[pre]];
  }

  lemma LookupExtension(h: HashFn, db: set<Bytes>, s: seq<Entry>, pre: nat, key: Nibbles)
    requires Group(s, pre) && Fits(s) && HasPrefix(s, pre, key) && |s| >= 2 && SharedByAll(s, pre, |s|) > pre
    requires Stored(h, db, s, pre) && CollisionFree(h, db)
    ensures Lookup(h, db, Node(h, s, pre), key[pre..]) == Find(s, key)
    decreases |s|, |s[0].key| - pre, 1
  {
    GroupShared(s, pre);
    ExtensionStep(h, db, s, pre, key[pre..]);
    ExtensionAnswer(h, db, s, pre, SharedByAll(s, pre, |s|), key, Lookup(h, db, Node(h, s, pre), key[pre..]));
  }

  /** The node below an extension gives the map's answer to a key that has the path. */
  lemma ExtensionAnswer(h: HashFn, db: set<Bytes>, s: seq<Entry>, pre: nat, shared: nat, key: Nibbles, found: Bytes)
    requires Group(s, pre) && Fits(s) && HasPrefix(s, pre, key) && s != [] && pre < shared && Group(s, shared)
    requires Stored(h, db, s, shared) && CollisionFree(h, db)
    requires found == if s[0].key[pre..shared] <= key[pre..]
                      then Lookup(h, db, Node(h, s, shared), key[pre..][shared - pre..]) else []
    ensures found == Find(s, key)
    decreases |s|, |s[0].key| - pre, 0
  {
    PrefixOrAbsent(s, pre, shared, key);
    if s[0].key[pre..shared] <= key[pre..] {
      SuffixOfSuffix(key, pre, shared);
      LookupFinds(h, db, s, shared, key);
    }
  }

  lemma SuffixOfSuffix(key: Nibbles, pre: nat, shared: nat)
    requires pre <= shared <= |key|
    ensures key[pre..][shared - pre..] == key[shared..]
  {
  }

  /** An extension node passes a key that has its path on to the node below it. */
  lemma ExtensionStep(h: HashFn, db: set<Bytes>, s: seq<Entry>, pre: nat, key: Nibbles)
    requires Group(s, pre) && Fits(s) && |s| >= 2 && SharedByAll(s, pre, |s|) > pre
    requires Stored(h, db, s, pre) && CollisionFree(h, db)
    requires Group(s, SharedByAll(s, pre, |s|))
    ensures Stored(h, db, s, SharedByAll(s, pre, |s|))
    ensures var shared := SharedByAll(s, pre, |s|);
            var path := s[0].key[pre..shared];
            Lookup(h, db, Node(h, s, pre), key) ==
              if path <= key then Lookup(h, db, Node(h, s, shared), key[|path|..]) else []
  {
    var shared := SharedByAll(s, pre, |s|);
    KeyOfEncoded(s[0].key[pre..shared], false);
    ResolveRef(h, db, s, shared);
  }

  lemma LookupHere(h: HashFn, db: set<Bytes>, s: seq<Entry>, pre: nat, key: Nibbles)
    requires Branches(s, pre) && Fits(s) && HasPrefix(s, pre, key) && pre == |key|
    ensures Lookup(h, db, Node(h, s, pre), key[pre..]) == Find(s, key)
  {
    FindHere(s, pre, key);
    assert Node(h, s, pre).items[16] == Data(ValueHere(s, pre));
  }

  lemma LookupBranch(h: HashFn, db: set<Bytes>, s: seq<Entry>, pre: nat, key: Nibbles)
    requires Branches(s, pre) && Fits(s) && HasPrefix(s, pre, key) && pre < |key|
    requires Stored(h, db, s, pre) && CollisionFree(h, db)
    ensures Lookup(h, db, Node(h, s, pre), key[pre..]) == Find(s, key)
    decreases |s|, |s[0].key| - pre, 1
  {
    var d := key[pre];
    assert key[pre..][0] == d && key[pre..][1..] == key[pre + 1..];
    BranchStep(h, db, s, pre, key[pre..]);
    assert StoredSlot(h, db, s, pre, d);
    ResolveSlot(h, db, s, pre, d);
    LookupBucket(h, db, s, pre, key);
  }

  lemma LookupBucket(h: HashFn, db: set<Bytes>, s: seq<Entry>, pre: nat, key: Nibbles)
    requires Branches(s, pre) && Fits(s) && HasPrefix(s, pre, key) && pre < |key|
    requires StoredSlot(h, db, s, pre, key[pre]) && CollisionFree(h, db)
    ensures Lookup(h, db, Node(h, Bucket(s, pre, key[pre]), pre + 1), key[pre + 1..]) == Find(s, key)
    decreases |s|, |s[0].key| - pre, 0
  {
    FindBucket(s, pre, key);
    BucketSmaller(s, pre, key[pre]);
    if Bucket(s, pre, key[pre]) != [] {
      BucketPrefix(s, pre, key);
      LookupFinds(h, db, Bucket(s, pre, key[pre]), pre + 1, key);
    }
  }

  /** A branch node passes a key on to the child for its next nibble. */
  lemma BranchStep(h: HashFn, db: set<Bytes>, s: seq<Entry>, pre: nat, key: Nibbles)
    requires Branches(s, pre) && Fits(s) && key != []
    ensures Lookup(h, db, Node(h, s, pre), key) == Lookup(h, db, Resolve(h, db, Slot(h, s, pre, key[0])), key[1..])
  {
    assert Node(h, s, pre).items[key[0]] == Slot(h, s, pre, key[0]);
  }

  lemma ResolveSlot(h: HashFn, db: set<Bytes>, s: seq<Entry>, pre: nat, d: nat)
    requires Branches(s, pre) && Fits(s) && StoredSlot(h, db, s, pre, d) && CollisionFree(h, db)
    ensures Resolve(h, db, Slot(h, s, pre, d)) == Node(h, Bucket(s, pre, d), pre + 1)
  {
    if Bucket(s, pre, d) != [] {
      ResolveRef(h, db, Bucket(s, pre, d), pre + 1);
    }
  }

  // ---- The root commits to the map -------------------------------------------------------------

  ghost function Root(h: HashFn, s: seq<Entry>): Bytes
    requires Group(s, 0) && Fits(s)
  {
    h(Encode(Node(h, s, 0)))
  }

  /** Every node of the trie, the root included, is in `db`. */
  ghost predicate Archived(h: HashFn, db: set<Bytes>, s: seq<Entry>)
    requires Group(s, 0) && Fits(s)
  {
    Stored(h, db, s, 0) && Encode(Node(h, s, 0)) in db
  }

  /** Equal roots, and no collision among the nodes of the two tries: the maps give the same answers. */
  lemma EqualRootsEqualAnswers(h: HashFn, db: set<Bytes>, s: seq<Entry>, t: seq<Entry>, key: Nibbles)
    requires Group(s, 0) && Fits(s) && Group(t, 0) && Fits(t)
    requires Archived(h, db, s) && Archived(h, db, t) && CollisionFree(h, db)
    requires Root(h, s) == Root(h, t)
    ensures Find(s, key) == Find(t, key)
  {
    EncodeInjective(Node(h, s, 0), Node(h, t, 0));
    LookupFinds(h, db, s, 0, key);
    LookupFinds(h, db, t, 0, key);
  }

  lemma {:induction false} FindAt(s: seq<Entry>, i: nat)
    requires Group(s, 0) && i < |s|
    ensures Find(s, s[i].key) == s[i].value
  {
    if i > 0 {
      LessAsymmetric(s[0].key, s[i].key);
      TailGroup(s);
      FindAt(s[1..], i - 1);
    }
  }

  lemma TailGroup(s: seq<Entry>)
    requires Group(s, 0) && s != []
    ensures Group(s[1..], 0)
  {
    forall i, j | 0 <= i < j < |s[1..]|
      ensures Less(s[1..][i].key, s[1..][j].key)
    {
      assert Less(s[i + 1].key, s[j + 1].key);
    }
  }

  lemma {:induction false} FindIndex(s: seq<Entry>, key: Nibbles) returns (i: nat)
    requires Find(s, key) != []
    ensures i < |s| && s[i].key == key && s[i].value == Find(s, key)
  {
    if s[0].key == key {
      i := 0;
    } else {
      i := FindIndex(s[1..], key);
      i := i + 1;
    }
  }

  /** The smallest keys of two maps with the same answers are the same entry. */
  lemma SameFirst(s: seq<Entry>, t: seq<Entry>)
    requires Group(s, 0) && Group(t, 0) && s != [] && t != []
    requires forall i :: 0 <= i < |s| ==> s[i].value != []
    requires forall i :: 0 <= i < |t| ==> t[i].value != []
    requires forall key: Nibbles :: Find(s, key) == Find(t, key)
    ensures s[0] == t[0]
  {
    FindAt(s, 0);
    FindAt(t, 0);
    assert Find(t, s[0].key) == s[0].value && Find(s, t[0].key) == t[0].value;
    var j := FindIndex(t, s[0].key);
    var i := FindIndex(s, t[0].key);
    if i > 0 && j > 0 {
      assert Less(s[0].key, s[i].key) && Less(t[0].key, t[j].key);
      LessAsymmetric(s[0].key, t[0].key);
      assert false;
    }
  }

  /** Sorted maps without empty values are determined by their answers. */
  lemma {:induction false} SameAnswersSameMap(s: seq<Entry>, t: seq<Entry>)
    requires Group(s, 0) && Group(t, 0)
    requires forall i :: 0 <= i < |s| ==> s[i].value != []
    requires forall i :: 0 <= i < |t| ==> t[i].value != []
    requires forall key: Nibbles :: Find(s, key) == Find(t, key)
    ensures s == t
  {
    assert s != [] ==> Find(s, s[0].key) == s[0].value;
    assert t != [] ==> Find(t, t[0].key) == t[0].value;
    if s != [] && t != [] {
      SameFirst(s, t);
      TailGroup(s);
      TailGroup(t);
      forall key: Nibbles
        ensures Find(s[1..], key) == Find(t[1..], key)
      {
        assert Find(s, key) == Find(t, key);
        if key == s[0].key {
          NotInTail(s);
          NotInTail(t);
        }
      }
      SameAnswersSameMap(s[1..], t[1..]);
      assert s == [s[0]] + s[1..] && t == [t[0]] + t[1..];
    }
  }

  lemma NotInTail(s: seq<Entry>)
    requires Group(s, 0) && s != []
    ensures Find(s[1..], s[0].key) == []
  {
    forall i | 0 <= i < |s[1..]|
      ensures s[1..][i].key != s[0].key
    {
      LessAsymmetric(s[0].key, s[i + 1].key);
    }
    FindNothing(s[1..], s[0].key);
  }

  /** The commitment: equal roots mean equal maps, when no value is empty and no two nodes collide. */
  lemma EqualRootsEqualMaps(h: HashFn, db: set<Bytes>, s: seq<Entry>, t: seq<Entry>)
    requires Group(s, 0) && Fits(s) && Group(t, 0) && Fits(t)
    requires Archived(h, db, s) && Archived(h, db, t) && CollisionFree(h, db)
    requires forall i :: 0 <= i < |s| ==> s[i].value != []
    requires forall i :: 0 <= i < |t| ==> t[i].value != []
    requires Root(h, s) == Root(h, t)
    ensures s == t
  {
    forall key: Nibbles
      ensures Find(s, key) == Find(t, key)
    {
      EqualRootsEqualAnswers(h, db, s, t, key);
    }
    SameAnswersSameMap(s, t);
  }
}
