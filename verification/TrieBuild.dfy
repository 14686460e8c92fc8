/** `hash256rlp`, `hash256aux` and `rlp256` as they run: loops over the sorted map, output to a stream. */
module TrieBuild {
  import opened Common
  import opened Rlp
  import opened RlpStream
  import opened HexPrefix
  import opened Trie

  /** The largest 32-bit unsigned integer: no two keys have been compared yet. */
  const NOTHING_SHARED: nat := 0xFFFF_FFFF

  /** The number of leading nibbles that all keys share, by comparing each with the first. */
  method SharedPrefix(s: seq<Entry>, preLen: nat) returns (sharedPre: nat)
    requires Group(s, preLen) && Fits(s) && |s| >= 2
    ensures sharedPre == SharedByAll(s, preLen, |s|)
  {
    sharedPre := NOTHING_SHARED;
    assert |s[0].key| < KEY_LIMIT;
    var i := 1;
    while i < |s| && sharedPre != 0
      invariant 1 <= i <= |s|
      invariant sharedPre == SharedSoFar(s, preLen, i) >= preLen
    {
      var shared := SharedPair(s[0].key, s[i].key, preLen, sharedPre);
      SharedNext(s, preLen, i);
      sharedPre := Min(shared, sharedPre);
      i := i + 1;
    }
    if i < |s| {
      ZeroStays(s, preLen, i);
    }
  }

  /** The running minimum after `i` keys; nothing to compare after one. */
  ghost function SharedSoFar(s: seq<Entry>, pre: nat, i: nat): nat
    requires Group(s, pre) && 1 <= i <= |s|
  {
    if i == 1 then NOTHING_SHARED else SharedByAll(s, pre, i)
  }

  lemma SharedNext(s: seq<Entry>, pre: nat, i: nat)
    requires Group(s, pre) && Fits(s) && 1 <= i < |s|
    ensures SharedSoFar(s, pre, i + 1) == Min(Shared(s[0].key, s[i].key, pre), SharedSoFar(s, pre, i)) >= pre
  {
    assert |s[0].key| < KEY_LIMIT;
  }

  /** The inner loop: nibbles that two keys share, not counted beyond `limit`. */
  method SharedPair(a: Nibbles, b: Nibbles, preLen: nat, limit: nat) returns (shared: nat)
    requires preLen <= |a| && preLen <= |b| && preLen <= limit
    ensures Min(shared, limit) == Min(Shared(a, b, preLen), limit)
  {
    var x := Min(limit, Min(|a|, |b|));
    shared := preLen;
    while shared < x && a[shared] == b[shared]
      invariant preLen <= shared <= x
      invariant Shared(a, b, preLen) == Shared(a, b, shared)
    {
      shared := shared + 1;
    }
  }

  function Min(a: nat, b: nat): nat {
    if a < b then a else b
  }

  lemma {:induction false} ZeroStays(s: seq<Entry>, pre: nat, i: nat)
    requires Group(s, pre) && 2 <= i <= |s| && SharedByAll(s, pre, i) == 0
    ensures SharedByAll(s, pre, |s|) == 0
    decreases |s| - i
  {
    if i < |s| {
      assert SharedByAll(s, pre, i + 1) <= SharedByAll(s, pre, i);
      ZeroStays(s, pre, i + 1);
    }
  }

  /** The stream has taken `it`, or has failed where taking it fails. */
  ghost predicate Took(ok: bool, before: Snap, it: Item, after: Snap) {
    Sound(before) && Size(it) < SIZE_LIMIT && Feed(before, it) == if ok then Ok(after) else Err
  }

  /** Writes the node for the entries `s`, of whose keys `preLen` nibbles are used up. */
  method Hash256Rlp(h: HashFn, s: seq<Entry>, preLen: nat, rlp: Stream) returns (ok: bool)
    requires Group(s, preLen) && Fits(s) && rlp.Valid()
    modifies rlp
    ensures ok ==> rlp.Valid()
    ensures Took(ok, old(rlp.Now()), Node(h, s, preLen), if ok then rlp.Now() else old(rlp.Now()))
    decreases |s|, (if s == [] then 0 else |s[0].key| - preLen), 50
  {
    if s == [] {
      ok := rlp.Append([], false);
    } else if |s| == 1 {
      var path := EncodeVector(s[0].key, true, preLen, -1);
      assert s[0].key[preLen..|s[0].key|] == s[0].key[preLen..];
      assert Node(h, s, preLen) == List([Data(path), Data(s[0].value)]);
      ok := AppendPair(path, s[0].value, rlp);
    } else {
      var sharedPre := SharedPrefix(s, preLen);
      if sharedPre > preLen {
        ok := Extension(h, s, preLen, sharedPre, rlp);
      } else {
        ok := Branch(h, s, preLen, rlp);
      }
    }
  }

  /** `hash256aux`: builds the node apart, then appends it raw or by its hash. */
  method Hash256Aux(h: HashFn, s: seq<Entry>, preLen: nat, rlp: Stream) returns (ok: bool)
    requires Group(s, preLen) && Fits(s) && s != [] && rlp.Valid()
    modifies rlp
    ensures ok ==> rlp.Valid()
    ensures Took(ok, old(rlp.Now()), Ref(h, s, preLen), if ok then rlp.Now() else old(rlp.Now()))
    decreases |s|, |s[0].key| - preLen, 100
  {
    var own := new Stream();
    ghost var node := Node(h, s, preLen);
    StreamEqualsRecursive(node);
    var built := Hash256Rlp(h, s, preLen, own);
    if |own.out| < 32 {
      FeedIsAppend(rlp.Now(), node);
      ok := rlp.AppendRaw(own.out, 1);
    } else {
      ok := rlp.Append(h(own.out), false);
    }
  }

  /** A list of two data items. */
  method AppendPair(first: Bytes, second: Bytes, rlp: Stream) returns (ok: bool)
    requires rlp.Valid() && Size(List([Data(first), Data(second)])) < SIZE_LIMIT
    modifies rlp
    ensures ok ==> rlp.Valid()
    ensures Took(ok, old(rlp.Now()), List([Data(first), Data(second)]), if ok then rlp.Now() else old(rlp.Now()))
  {
    PairSizes(Data(first), Data(second));
    ok := rlp.AppendList(2);
    ok := rlp.Append(first, false);
    if ok {
      ok := rlp.Append(second, false);
    }
  }

  lemma PairSizes(a: Item, b: Item)
    requires Size(List([a, b])) < SIZE_LIMIT
    ensures Size(a) < SIZE_LIMIT && Size(b) < SIZE_LIMIT && SizeAll([b]) < SIZE_LIMIT && SizeAll([a, b]) < SIZE_LIMIT
    ensures forall s: Snap :: Sound(s) ==>
              FeedAll(s, [a, b]) == var r := Feed(s, a); if r.Err? then Err else Feed(r.value, b)
  {
    assert [a, b][1..] == [b] && [b][1..] == [];
    assert SizeAll([b]) == Size(b) + SizeAll([]);
    assert SizeAll([a, b]) == Size(a) + SizeAll([b]);
    forall s: Snap | Sound(s)
      ensures FeedAll(s, [a, b]) == var r := Feed(s, a); if r.Err? then Err else Feed(r.value, b)
    {
      var r := Feed(s, a);
      if r.Ok? {
        assert FeedAll(r.value, [b]) == Feed(r.value, b);
      }
    }
  }

  /** All keys go on alike: the shared nibbles, then the node for the rest. */
  method Extension(h: HashFn, s: seq<Entry>, preLen: nat, sharedPre: nat, rlp: Stream) returns (ok: bool)
    requires Group(s, preLen) && Fits(s) && |s| >= 2 && sharedPre == SharedByAll(s, preLen, |s|) > preLen
    requires rlp.Valid()
    modifies rlp
    ensures ok ==> rlp.Valid()
    ensures Took(ok, old(rlp.Now()), Node(h, s, preLen), if ok then rlp.Now() else old(rlp.Now()))
    decreases |s|, |s[0].key| - preLen, 0
  {
    GroupShared(s, preLen);
    var path := EncodeVector(s[0].key, false, preLen, sharedPre);
    assert Node(h, s, preLen) == List([Data(path), Ref(h, s, sharedPre)]);
    PairSizes(Data(path), Ref(h, s, sharedPre));
    ok := rlp.AppendList(2);
    ok := rlp.Append(path, false);
    if ok {
      ok := Hash256Aux(h, s, sharedPre, rlp);
    }
  }

  /** Sixteen children, found by running through the sorted entries once, and the value of this key. */
  method Branch(h: HashFn, s: seq<Entry>, preLen: nat, rlp: Stream) returns (ok: bool)
    requires Branches(s, preLen) && Fits(s) && rlp.Valid()
    modifies rlp
    ensures ok ==> rlp.Valid()
    ensures Took(ok, old(rlp.Now()), Node(h, s, preLen), if ok then rlp.Now() else old(rlp.Now()))
    decreases |s|, |s[0].key| - preLen, 1
  {
    ghost var node := Node(h, s, preLen);
    BranchItems(h, s, preLen);
    ok := rlp.AppendList(17);
    ghost var begun := rlp.Now();
    var b := if preLen == |s[0].key| then 1 else 0;
    CutAtZero(s, preLen);
    var i := 0;
    while i < 16
      invariant ok && 0 <= i <= 16 && rlp.Valid()
      invariant b == Cut(s, preLen, i)
      invariant FeedFrom(begun, node.items, 0) == FeedFrom(rlp.Now(), node.items, i)
    {
      ok, b := Child(h, s, preLen, i, b, rlp);
      if !ok {
        return;
      }
      i := i + 1;
    }
    ok := rlp.Append(if preLen == |s[0].key| then s[0].value else [], false);
  }

  /** Feeding the items from index `i` on. */
  ghost function FeedFrom(s: Snap, items: seq<Item>, i: nat): Result<Snap>
    requires Sound(s) && i <= |items| && forall k :: 0 <= k < |items| ==> Size(items[k]) < SIZE_LIMIT
    decreases |items| - i
  {
    if i == |items| then Ok(s)
    else
      var r := Feed(s, items[i]);
      if r.Err? then Err else FeedFrom(r.value, items, i + 1)
  }

  lemma {:induction false} FeedFromIsFeedAll(s: Snap, items: seq<Item>, i: nat)
    requires Sound(s) && i <= |items| && SizeAll(items[i..]) < SIZE_LIMIT
    requires forall k :: 0 <= k < |items| ==> Size(items[k]) < SIZE_LIMIT
    ensures FeedFrom(s, items, i) == FeedAll(s, items[i..])
    decreases |items| - i
  {
    if i < |items| {
      assert items[i..][0] == items[i] && items[i..][1..] == items[i + 1..];
      var r := Feed(s, items[i]);
      if r.Ok? {
        FeedFromIsFeedAll(r.value, items, i + 1);
      }
    }
  }

  lemma {:induction false} ItemSizes(items: seq<Item>, k: nat)
    requires k < |items|
    ensures Size(items[k]) <= SizeAll(items)
  {
    if k > 0 {
      ItemSizes(items[1..], k - 1);
    }
  }

  /** A branch node item by item. */
  lemma BranchItems(h: HashFn, s: seq<Entry>, pre: nat)
    requires Branches(s, pre) && Fits(s)
    ensures var items := Node(h, s, pre).items;
            && |items| == 17 && items[16] == Data(ValueHere(s, pre))
            && (forall d :: 0 <= d < 16 ==> items[d] == Slot(h, s, pre, d))
            && (forall k :: 0 <= k < 17 ==> Size(items[k]) < SIZE_LIMIT)
            && (forall t: Snap :: Sound(t) ==> FeedFrom(t, items, 0) == FeedAll(t, items))
  {
    var items := Node(h, s, pre).items;
    forall k | 0 <= k < |items|
      ensures Size(items[k]) < SIZE_LIMIT
    {
      ItemSizes(items, k);
    }
    assert items[0..] == items;
    forall t: Snap | Sound(t)
      ensures FeedFrom(t, items, 0) == FeedAll(t, items)
    {
      FeedFromIsFeedAll(t, items, 0);
    }
  }

  /** One child of a branch: the entries from `b` on that go on with nibble `d`. */
  method Child(h: HashFn, s: seq<Entry>, preLen: nat, d: nat, b: nat, rlp: Stream) returns (ok: bool, n: nat)
    requires Branches(s, preLen) && Fits(s) && d < 16 && b == Cut(s, preLen, d) && rlp.Valid()
    modifies rlp
    ensures ok ==> rlp.Valid()
    ensures Took(ok, old(rlp.Now()), Slot(h, s, preLen, d), if ok then rlp.Now() else old(rlp.Now()))
    ensures n == Cut(s, preLen, d + 1)
    decreases |s|, |s[0].key| - preLen, 0
  {
    n := RunEnd(s, preLen, d, b);
    BucketSmaller(s, preLen, d);
    if b == n {
      ok := rlp.Append([], false);
    } else {
      ok := Hash256Aux(h, s[b..n], preLen + 1, rlp);
    }
  }

  lemma CutAtZero(s: seq<Entry>, pre: nat)
    requires Group(s, pre) && s != []
    ensures Cut(s, pre, 0) == if pre == |s[0].key| then 1 else 0
  {
    if |s| > 1 {
      LessNext(s[0].key, s[1].key, pre);
    }
  }

  /** First entry from `b` on that does not go on with nibble `d`. */
  method RunEnd(s: seq<Entry>, preLen: nat, d: nat, b: nat) returns (n: nat)
    requires Group(s, preLen) && b == Cut(s, preLen, d)
    ensures b <= n <= |s| && n == Cut(s, preLen, d + 1)
  {
    CutSplits(s, preLen, d);
    CutSplits(s, preLen, d + 1);
    n := b;
    while n < |s| && s[n].key[preLen] == d
      invariant b <= n <= Cut(s, preLen, d + 1)
    {
      assert Below(s[n], preLen, d + 1);
      n := n + 1;
    }
  }
}
