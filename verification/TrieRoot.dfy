/** `rlp256`, `hash256` and `orderedTrieRoot`: tries over byte-string maps and over lists. */
module TrieRoot {
  import opened Common
  import opened BigEndian
  import opened Rlp
  import opened RlpDecoder
  import opened RlpStream
  import opened HexPrefix
  import opened Trie
  import opened TrieForm
  import opened TrieBuild

  datatype Pair = Pair(key: Bytes, value: Bytes)

  /** A `BytesMap` in iteration order. */
  ghost predicate SortedMap(m: seq<Pair>) {
    && (forall i, j {:trigger Less(m[i].key, m[j].key)} :: 0 <= i < j < |m| ==> Less(m[i].key, m[j].key))
    && (forall i :: 0 <= i < |m| ==> 2 * |m[i].key| < KEY_LIMIT && |m[i].value| < ENTRY_LIMIT)
  }

  /** The map with every key as nibbles. */
  function HexEntries(m: seq<Pair>): (s: seq<Entry>)
    ensures |s| == |m| && forall i :: 0 <= i < |m| ==> s[i] == Entry(Unpack(m[i].key), m[i].value)
  {
    seq(|m|, i requires 0 <= i < |m| => Entry(Unpack(m[i].key), m[i].value))
  }

  lemma SameHalves(a: Bytes, b: Bytes, k: nat)
    requires k <= Shared(a, b, 0)
    ensures forall i :: 0 <= i < 2 * k ==> Unpack(a)[i] == Unpack(b)[i]
  {
    forall i | 0 <= i < 2 * k
      ensures Unpack(a)[i] == Unpack(b)[i]
    {
      SharedEqual(a, b, 0, i / 2);
    }
  }

  /** Nibble strings compare as their bytes do. */
  lemma UnpackLess(a: Bytes, b: Bytes)
    requires Less(a, b)
    ensures Less(Unpack(a), Unpack(b))
  {
    var k := Shared(a, b, 0);
    SameHalves(a, b, k);
    SharedSkip(Unpack(a), Unpack(b), 0, 2 * k);
    if k < |a| {
      Halves(a, k);
      Halves(b, k);
      if a[k] / 16 == b[k] / 16 {
        SharedSkip(Unpack(a), Unpack(b), 2 * k, 2 * k + 1);
      }
    }
  }

  lemma HexEntriesGroup(m: seq<Pair>)
    requires SortedMap(m)
    ensures Group(HexEntries(m), 0) && Fits(HexEntries(m))
  {
    var s := HexEntries(m);
    forall i, j | 0 <= i < j < |s|
      ensures Less(s[i].key, s[j].key)
    {
      UnpackLess(m[i].key, m[j].key);
    }
  }

  /** `rlp256`: the map is turned into nibble keys back to front, then encoded. */
  method Rlp256(h: HashFn, m: seq<Pair>) returns (out: Bytes)
    requires SortedMap(m)
    ensures Group(HexEntries(m), 0) && Fits(HexEntries(m))
    ensures out == Encode(Node(h, HexEntries(m), 0))
  {
    HexEntriesGroup(m);
    var rlp := new Stream();
    if m == [] {
      var done := rlp.Append([], false);
      StreamEqualsRecursive(Data([]));
      return rlp.out;
    }
    var hexMap: seq<Entry> := [];
    var i := |m|;
    while i > 0
      invariant 0 <= i <= |m| && hexMap == HexEntries(m)[i..]
    {
      i := i - 1;
      hexMap := [Entry(Unpack(m[i].key), m[i].value)] + hexMap;
    }
    assert hexMap == HexEntries(m);
    StreamEqualsRecursive(Node(h, HexEntries(m), 0));
    var built := Hash256Rlp(h, hexMap, 0, rlp);
    return rlp.out;
  }

  ghost function MapRoot(h: HashFn, m: seq<Pair>): Bytes
    requires SortedMap(m)
  {
    HexEntriesGroup(m);
    Root(h, HexEntries(m))
  }

  method Hash256(h: HashFn, m: seq<Pair>) returns (root: Bytes)
    requires SortedMap(m)
    ensures root == MapRoot(h, m)
  {
    var out := Rlp256(h, m);
    return h(out);
  }

  ghost predicate MapArchived(h: HashFn, db: set<Bytes>, m: seq<Pair>)
    requires SortedMap(m)
  {
    HexEntriesGroup(m);
    Archived(h, db, HexEntries(m))
  }

  lemma UnpackInjective(a: Bytes, b: Bytes)
    requires Unpack(a) == Unpack(b)
    ensures a == b
  {
    PackUnpack(a);
    PackUnpack(b);
  }

  /** `hash256` commits to the whole map. */
  lemma EqualMapRoots(h: HashFn, db: set<Bytes>, m: seq<Pair>, n: seq<Pair>)
    requires SortedMap(m) && SortedMap(n)
    requires MapArchived(h, db, m) && MapArchived(h, db, n) && CollisionFree(h, db)
    requires forall i :: 0 <= i < |m| ==> m[i].value != []
    requires forall i :: 0 <= i < |n| ==> n[i].value != []
    requires MapRoot(h, m) == MapRoot(h, n)
    ensures m == n
  {
    HexEntriesGroup(m);
    HexEntriesGroup(n);
    EqualRootsEqualMaps(h, db, HexEntries(m), HexEntries(n));
    forall i | 0 <= i < |m|
      ensures m[i] == n[i]
    {
      assert HexEntries(m)[i] == HexEntries(n)[i];
      UnpackInjective(m[i].key, n[i].key);
    }
  }

  // ---- Lists -----------------------------------------------------------------------------------

  lemma SharedWhole(a: seq<int>, b: seq<int>)
    requires |a| == |b| == Shared(a, b, 0)
    ensures a == b
  {
    forall i | 0 <= i < |a|
      ensures a[i] == b[i]
    {
      SharedEqual(a, b, 0, i);
    }
  }

  lemma LessTotal(a: seq<int>, b: seq<int>)
    requires !Less(a, b) && a != b
    ensures Less(b, a)
  {
    SharedSymmetric(a, b, 0);
    if |a| == |b| == Shared(a, b, 0) {
      SharedWhole(a, b);
    }
  }

  lemma LessTransitive(a: seq<int>, b: seq<int>, c: seq<int>)
    requires Less(a, b) && Less(b, c)
    ensures Less(a, c)
  {
    var p, q := Shared(a, b, 0), Shared(b, c, 0);
    var r := if p < q then p else q;
    forall i | 0 <= i < r
      ensures a[i] == c[i]
    {
      SharedEqual(a, b, 0, i);
      SharedEqual(b, c, 0, i);
    }
    SharedSkip(a, c, 0, r);
    if p < q {
      SharedEqual(b, c, 0, p);
    } else if q < p {
      SharedEqual(a, b, 0, q);
    }
  }

  /** Assignment to one key of a sorted map. */
  function Put(m: seq<Pair>, k: Bytes, v: Bytes): (r: seq<Pair>)
    ensures r != []
    ensures r[0].key == k || (m != [] && r[0].key == m[0].key)
  {
    if m == [] || Less(k, m[0].key) then [Pair(k, v)] + m
    else if k == m[0].key then [Pair(k, v)] + m[1..]
    else [m[0]] + Put(m[1..], k, v)
  }

  function Get(m: seq<Pair>, k: Bytes): Bytes {
    if m == [] then [] else if m[0].key == k then m[0].value else Get(m[1..], k)
  }

  lemma {:induction false} GetPut(m: seq<Pair>, k: Bytes, v: Bytes, j: Bytes)
    ensures Get(Put(m, k, v), j) == if j == k then v else Get(m, j)
  {
    if m == [] || Less(k, m[0].key) {
      assert ([Pair(k, v)] + m)[1..] == m;
    } else if k == m[0].key {
      assert ([Pair(k, v)] + m[1..])[1..] == m[1..];
    } else {
      GetPut(m[1..], k, v, j);
      assert ([m[0]] + Put(m[1..], k, v))[1..] == Put(m[1..], k, v);
    }
  }

  ghost predicate FitsPair(k: Bytes, v: Bytes) {
    2 * |k| < KEY_LIMIT && |v| < ENTRY_LIMIT
  }

  lemma ConsSorted(p: Pair, m: seq<Pair>)
    requires SortedMap(m) && FitsPair(p.key, p.value) && (m != [] ==> Less(p.key, m[0].key))
    ensures SortedMap([p] + m)
  {
    var r := [p] + m;
    forall i, j | 0 <= i < j < |r|
      ensures Less(r[i].key, r[j].key)
    {
      if i > 0 {
        assert Less(m[i - 1].key, m[j - 1].key);
      } else if j > 1 {
        assert Less(m[0].key, m[j - 1].key);
        LessTransitive(p.key, m[0].key, m[j - 1].key);
      }
    }
  }

  lemma TailSorted(m: seq<Pair>)
    requires SortedMap(m) && m != []
    ensures SortedMap(m[1..]) && (|m| > 1 ==> Less(m[0].key, m[1].key))
  {
    forall i, j | 0 <= i < j < |m[1..]|
      ensures Less(m[1..][i].key, m[1..][j].key)
    {
      assert Less(m[i + 1].key, m[j + 1].key);
    }
  }

  lemma {:induction false} PutSorted(m: seq<Pair>, k: Bytes, v: Bytes)
    requires SortedMap(m) && FitsPair(k, v)
    ensures SortedMap(Put(m, k, v))
  {
    if m == [] || Less(k, m[0].key) {
      ConsSorted(Pair(k, v), m);
    } else {
      TailSorted(m);
      if k == m[0].key {
        ConsSorted(Pair(k, v), m[1..]);
      } else {
        LessTotal(k, m[0].key);
        PutSorted(m[1..], k, v);
        ConsSorted(m[0], Put(m[1..], k, v));
      }
    }
  }

  /** The key of the j-th list element: the RLP form of the index, a 32-bit unsigned integer. */
  function IndexKey(j: nat): Bytes
    requires j < 0x1_0000_0000
  {
    IndexSize(j);
    Encode(Data(Compact(j)))
  }

  lemma IndexSize(j: nat)
    requires j < 0x1_0000_0000
    ensures Size(Data(Compact(j))) <= 5
  {
    BytesRequiredBound(j, 4);
    assert Pow256(2) == 0x1_0000;
    assert Pow256(4) == 0x1_0000_0000;
  }

  lemma SmallIndex(j: nat)
    requires 0 < j < 0x80
    ensures IndexKey(j) == [j]
  {
    assert Compact(j / 256) == [];
    assert Compact(j) == [j];
    var k := DataForm([j]);
  }

  /** The bytes of an index key: 0x80 for zero, the index itself up to 127, else a length byte and the number. */
  lemma IndexKeyForm(j: nat)
    requires j < 0x1_0000_0000
    ensures j == 0 ==> IndexKey(j) == [0x80]
    ensures 1 <= j <= 127 ==> IndexKey(j) == [j]
    ensures j >= 128 ==>
              var key := IndexKey(j);
              && 2 <= |key| <= 5 && key[0] == 0x80 + |key| - 1
              && key[1] != 0 && Value(key[1..]) == j
  {
    if j == 0 {
      var k := DataForm([]);
    } else if j < 0x80 {
      SmallIndex(j);
    } else {
      IndexSize(j);
      CompactValue(j);
      NotSelfEncoded(j);
      var k := DataForm(Compact(j));
      assert IndexKey(j)[1..] == Compact(j);
    }
  }

  lemma IndexKeyInjective(i: nat, j: nat)
    requires i < 0x1_0000_0000 && j < 0x1_0000_0000 && IndexKey(i) == IndexKey(j)
    ensures i == j
  {
    IndexSize(i);
    IndexSize(j);
    EncodeInjective(Data(Compact(i)), Data(Compact(j)));
    CompactValue(i);
    CompactValue(j);
  }

  ghost predicate FitsList(data: seq<Bytes>) {
    |data| < 0x1_0000_0000 && forall j :: 0 <= j < |data| ==> |data[j]| < ENTRY_LIMIT
  }

  function Keys(n: nat): (keys: seq<Bytes>)
    requires n < 0x1_0000_0000
    ensures |keys| == n && forall j :: 0 <= j < n ==> keys[j] == IndexKey(j)
  {
    seq(n, j requires 0 <= j < n => IndexKey(j))
  }

  lemma KeysDistinct(n: nat)
    requires n < 0x1_0000_0000
    ensures NoDup(Keys(n))
  {
    forall i, j | 0 <= i < j < n
      ensures Keys(n)[i] != Keys(n)[j]
    {
      if IndexKey(i) == IndexKey(j) {
        IndexKeyInjective(i, j);
      }
    }
  }

  /** The map after the first `n` assignments of values to keys. */
  function Indexed(keys: seq<Bytes>, data: seq<Bytes>, n: nat): seq<Pair>
    requires n <= |keys| == |data|
  {
    if n == 0 then [] else Put(Indexed(keys, data, n - 1), keys[n - 1], data[n - 1])
  }

  lemma {:induction false} IndexedSorted(keys: seq<Bytes>, data: seq<Bytes>, n: nat)
    requires n <= |keys| == |data|
    requires forall j :: 0 <= j < |data| ==> FitsPair(keys[j], data[j])
    ensures SortedMap(Indexed(keys, data, n))
  {
    if n > 0 {
      IndexedSorted(keys, data, n - 1);
      PutSorted(Indexed(keys, data, n - 1), keys[n - 1], data[n - 1]);
    }
  }

  lemma {:induction false} IndexedAbsent(keys: seq<Bytes>, data: seq<Bytes>, n: nat, k: Bytes)
    requires n <= |keys| == |data| && k !in keys[..n]
    ensures Get(Indexed(keys, data, n), k) == []
  {
    if n > 0 {
      IndexedAbsent(keys, data, n - 1, k);
      GetPut(Indexed(keys, data, n - 1), keys[n - 1], data[n - 1], k);
    }
  }

  lemma {:induction false} IndexedGet(keys: seq<Bytes>, data: seq<Bytes>, n: nat, j: nat)
    requires j < n <= |keys| == |data| && NoDup(keys)
    ensures Get(Indexed(keys, data, n), keys[j]) == data[j]
  {
    GetPut(Indexed(keys, data, n - 1), keys[n - 1], data[n - 1], keys[j]);
    if j < n - 1 {
      IndexedGet(keys, data, n - 1, j);
    }
  }

  /** The map that `orderedTrieRoot` builds from a list. */
  function ListMap(data: seq<Bytes>): seq<Pair>
    requires |data| < 0x1_0000_0000
  {
    Indexed(Keys(|data|), data, |data|)
  }

  lemma ListMapSorted(data: seq<Bytes>)
    requires FitsList(data)
    ensures SortedMap(ListMap(data))
  {
    var keys := Keys(|data|);
    forall j | 0 <= j < |data|
      ensures FitsPair(keys[j], data[j])
    {
      IndexSize(j);
    }
    IndexedSorted(keys, data, |data|);
  }

  /** The element that a list root commits to at an index: nothing beyond the end. */
  ghost function ElementAt(data: seq<Bytes>, j: nat): Bytes {
    if j < |data| then data[j] else []
  }

  lemma ListMapGet(data: seq<Bytes>, j: nat)
    requires |data| < 0x1_0000_0000 && j < 0x1_0000_0000
    ensures Get(ListMap(data), IndexKey(j)) == ElementAt(data, j)
  {
    var keys := Keys(|data|);
    if j < |data| {
      KeysDistinct(|data|);
      IndexedGet(keys, data, |data|, j);
    } else {
      assert IndexKey(j) !in keys by {
        if i :| 0 <= i < |keys| && keys[i] == IndexKey(j) {
          IndexKeyInjective(i, j);
        }
      }
      IndexedAbsent(keys, data, |data|, IndexKey(j));
    }
  }

  ghost predicate HasKey(m: seq<Pair>, k: Bytes) {
    exists i :: 0 <= i < |m| && m[i].key == k
  }

  lemma {:induction false} PutKeys(m: seq<Pair>, k: Bytes, v: Bytes, j: Bytes)
    ensures HasKey(Put(m, k, v), j) <==> j == k || HasKey(m, j)
  {
    if m == [] || Less(k, m[0].key) {
      ConsKeys(Pair(k, v), m, j);
    } else if k == m[0].key {
      ConsKeys(Pair(k, v), m[1..], j);
      ConsKeys(m[0], m[1..], j);
      assert m == [m[0]] + m[1..];
    } else {
      PutKeys(m[1..], k, v, j);
      ConsKeys(m[0], Put(m[1..], k, v), j);
      ConsKeys(m[0], m[1..], j);
      assert m == [m[0]] + m[1..];
    }
  }

  lemma ConsKeys(p: Pair, m: seq<Pair>, j: Bytes)
    ensures HasKey([p] + m, j) <==> p.key == j || HasKey(m, j)
  {
    if i :| 0 <= i < |m| && m[i].key == j {
      assert ([p] + m)[i + 1].key == j;
    }
    if p.key == j {
      assert ([p] + m)[0].key == j;
    }
  }

  lemma {:induction false} IndexedKeys(keys: seq<Bytes>, data: seq<Bytes>, n: nat, k: Bytes)
    requires n <= |keys| == |data|
    ensures HasKey(Indexed(keys, data, n), k) <==> k in keys[..n]
  {
    if n > 0 {
      IndexedKeys(keys, data, n - 1, k);
      PutKeys(Indexed(keys, data, n - 1), keys[n - 1], data[n - 1], k);
      assert keys[..n] == keys[..n - 1] + [keys[n - 1]];
    }
  }

  /** The map has the keys of the indices below the length, and no other. */
  lemma ListMapKeys(data: seq<Bytes>, k: Bytes)
    requires |data| < 0x1_0000_0000
    ensures HasKey(ListMap(data), k) <==> exists j :: 0 <= j < |data| && k == IndexKey(j)
  {
    var keys := Keys(|data|);
    IndexedKeys(keys, data, |data|, k);
    assert keys[..|data|] == keys;
    if j :| 0 <= j < |data| && k == IndexKey(j) {
      assert keys[j] == k;
    }
  }

  /** The root of the empty map and of the empty list. */
  lemma EmptyRoots(h: HashFn)
    ensures MapRoot(h, []) == h([0x80]) && ListRoot(h, []) == h([0x80])
  {
    assert HexEntries([]) == [];
    EmptyRoot(h);
  }

  method OrderedTrieRoot(h: HashFn, data: seq<Bytes>) returns (root: Bytes)
    requires FitsList(data)
    ensures root == ListRoot(h, data)
  {
    var m: seq<Pair> := [];
    ghost var keys := Keys(|data|);
    for j := 0 to |data|
      invariant m == Indexed(keys, data, j)
    {
      assert keys[j] == IndexKey(j);
      m := Put(m, IndexKey(j), data[j]);
    }
    ListMapSorted(data);
    root := Hash256(h, m);
  }

  lemma {:induction false} FindIsGet(m: seq<Pair>, k: Bytes)
    ensures Find(HexEntries(m), Unpack(k)) == Get(m, k)
  {
    if m != [] {
      FindIsGet(m[1..], k);
      assert HexEntries(m)[1..] == HexEntries(m[1..]);
      if Unpack(m[0].key) == Unpack(k) {
        UnpackInjective(m[0].key, k);
      }
    }
  }

  ghost predicate ListArchived(h: HashFn, db: set<Bytes>, data: seq<Bytes>)
    requires FitsList(data)
  {
    ListMapSorted(data);
    MapArchived(h, db, ListMap(data))
  }

  ghost function ListRoot(h: HashFn, data: seq<Bytes>): Bytes
    requires FitsList(data)
  {
    ListMapSorted(data);
    MapRoot(h, ListMap(data))
  }

  lemma EqualMapAnswers(h: HashFn, db: set<Bytes>, m: seq<Pair>, n: seq<Pair>, k: Bytes)
    requires SortedMap(m) && SortedMap(n)
    requires MapArchived(h, db, m) && MapArchived(h, db, n) && CollisionFree(h, db)
    requires MapRoot(h, m) == MapRoot(h, n)
    ensures Get(m, k) == Get(n, k)
  {
    HexEntriesGroup(m);
    HexEntriesGroup(n);
    EqualRootsEqualAnswers(h, db, HexEntries(m), HexEntries(n), Unpack(k));
    FindIsGet(m, k);
    FindIsGet(n, k);
  }

  lemma EqualElements(h: HashFn, db: set<Bytes>, a: seq<Bytes>, b: seq<Bytes>, j: nat)
    requires FitsList(a) && FitsList(b) && j < 0x1_0000_0000
    requires ListArchived(h, db, a) && ListArchived(h, db, b) && CollisionFree(h, db)
    requires ListRoot(h, a) == ListRoot(h, b)
    ensures ElementAt(a, j) == ElementAt(b, j)
  {
    ListMapSorted(a);
    ListMapSorted(b);
    EqualMapAnswers(h, db, ListMap(a), ListMap(b), IndexKey(j));
    ListMapGet(a, j);
    ListMapGet(b, j);
  }

  lemma SameElements(a: seq<Bytes>, b: seq<Bytes>)
    requires |b| < 0x1_0000_0000
    requires forall j {:trigger ElementAt(a, j)} :: 0 <= j < 0x1_0000_0000 ==> ElementAt(a, j) == ElementAt(b, j)
    requires forall j :: 0 <= j < |b| ==> b[j] != []
    ensures |b| <= |a| && b == a[..|b|]
  {
    assert ElementAt(a, |a|) == [] || |b| <= |a|;
    forall j | 0 <= j < |b|
      ensures j < |a| && b[j] == a[j]
    {
      assert ElementAt(a, j) == ElementAt(b, j);
    }
  }

  /** `orderedTrieRoot` commits to a list of non-empty elements, its length included. */
  lemma EqualListRoots(h: HashFn, db: set<Bytes>, a: seq<Bytes>, b: seq<Bytes>)
    requires FitsList(a) && FitsList(b)
    requires ListArchived(h, db, a) && ListArchived(h, db, b) && CollisionFree(h, db)
    requires forall j :: 0 <= j < |a| ==> a[j] != []
    requires forall j :: 0 <= j < |b| ==> b[j] != []
    requires ListRoot(h, a) == ListRoot(h, b)
    ensures a == b
  {
    forall j | 0 <= j < 0x1_0000_0000
      ensures ElementAt(a, j) == ElementAt(b, j)
    {
      EqualElements(h, db, a, b, j);
    }
    SameElements(a, b);
    SameElements(b, a);
  }
}
