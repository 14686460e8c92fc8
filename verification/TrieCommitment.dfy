/**
 * Exactly what a trie root commits to. A branch node does not show a key that ends there with an
 * empty value; every other entry of the map is determined by the root.
 */
module TrieCommitment {
  import opened Common
  import opened Rlp
  import opened RlpDecoder
  import opened HexPrefix
  import opened Trie

  // ---- The entries that a trie shows -----------------------------------------------------------

  /** Two keys that both go on after `key`, with different nibbles. */
  predicate Part(key: Nibbles, a: Nibbles, b: Nibbles) {
    && |key| < |a| && |key| < |b|
    && a[..|key|] == key && b[..|key|] == key
    && a[|key|] != b[|key|]
  }

  /** An empty value under a key after which others part. */
  ghost predicate Silent(s: seq<Entry>, e: Entry) {
    e.value == [] && exists a, b :: a in s && b in s && Part(e.key, a.key, b.key)
  }

  ghost function Visible(s: seq<Entry>): set<Entry> {
    set e | e in s && !Silent(s, e)
  }

  // ---- Buckets ---------------------------------------------------------------------------------

  /** An entry is in the bucket of a nibble just if its key goes on with that nibble. */
  lemma {:induction false} InBucket(s: seq<Entry>, pre: nat, d: nat, e: Entry)
    requires Group(s, pre)
    ensures e in Bucket(s, pre, d) <==> e in s && pre < |e.key| && e.key[pre] == d
  {
    var lo, hi := Cut(s, pre, d), Cut(s, pre, d + 1);
    CutSplits(s, pre, d);
    CutSplits(s, pre, d + 1);
    if e in s && pre < |e.key| && e.key[pre] == d {
      var i :| 0 <= i < |s| && s[i] == e;
      assert lo <= i < hi;
      assert s[lo..hi][i - lo] == s[i];
    }
  }

  lemma {:induction false} SharesPrefix(s: seq<Entry>, pre: nat, e: Entry)
    requires Group(s, pre) && e in s
    ensures pre <= |e.key| && e.key[..pre] == s[0].key[..pre]
  {
  }

  /** Keys that go on after a key of a bucket are in the same bucket. */
  lemma {:induction false} PartInBucket(s: seq<Entry>, pre: nat, d: nat, e: Entry, a: Entry, b: Entry)
    requires Group(s, pre) && e in Bucket(s, pre, d) && Part(e.key, a.key, b.key)
    ensures a in s && b in s <==> a in Bucket(s, pre, d) && b in Bucket(s, pre, d)
  {
    InBucket(s, pre, d, e);
    InBucket(s, pre, d, a);
    InBucket(s, pre, d, b);
    assert a.key[pre] == a.key[..|e.key|][pre] && b.key[pre] == b.key[..|e.key|][pre];
  }

  lemma {:induction false} SilentInBucket(s: seq<Entry>, pre: nat, d: nat, e: Entry)
    requires Group(s, pre) && e in Bucket(s, pre, d)
    ensures Silent(Bucket(s, pre, d), e) <==> Silent(s, e)
  {
    forall a: Entry, b: Entry | Part(e.key, a.key, b.key)
      ensures a in s && b in s <==> a in Bucket(s, pre, d) && b in Bucket(s, pre, d)
    {
      PartInBucket(s, pre, d, e, a, b);
    }
  }

  lemma {:induction false} VisibleInBucket(s: seq<Entry>, pre: nat, d: nat, e: Entry)
    requires Group(s, pre)
    ensures e in Visible(Bucket(s, pre, d)) <==> e in Visible(s) && pre < |e.key| && e.key[pre] == d
  {
    InBucket(s, pre, d, e);
    if e in Bucket(s, pre, d) {
      SilentInBucket(s, pre, d, e);
    }
  }

  lemma {:induction false} PrefixLess(a: Nibbles, b: Nibbles)
    requires |a| < |b| && b[..|a|] == a
    ensures Less(a, b)
  {
    forall i | 0 <= i < |a|
      ensures a[i] == b[i]
    {
      assert b[..|a|][i] == a[i];
    }
    SharedSkip(a, b, 0, |a|);
  }

  lemma {:induction false} NothingAfterLast(s: seq<Entry>, pre: nat, i: nat)
    requires Group(s, pre) && i < |s|
    ensures var e := s[|s| - 1]; !(|e.key| < |s[i].key| && s[i].key[..|e.key|] == e.key)
  {
    var e := s[|s| - 1];
    if i < |s| - 1 {
      LessAsymmetric(s[i].key, e.key);
    }
    if |e.key| < |s[i].key| && s[i].key[..|e.key|] == e.key {
      PrefixLess(e.key, s[i].key);
    }
  }

  /** The largest key is always shown. */
  lemma {:induction false} LastVisible(s: seq<Entry>, pre: nat)
    requires Group(s, pre) && s != []
    ensures s[|s| - 1] in Visible(s)
  {
    forall i | 0 <= i < |s|
      ensures var e := s[|s| - 1]; !(|e.key| < |s[i].key| && s[i].key[..|e.key|] == e.key)
    {
      NothingAfterLast(s, pre, i);
    }
  }

  /** A bucket shows an entry unless it is empty. */
  lemma {:induction false} BucketVisible(s: seq<Entry>, pre: nat, d: nat) returns (e: Entry)
    requires Group(s, pre) && Bucket(s, pre, d) != []
    ensures e in Visible(s) && pre < |e.key| && e.key[pre] == d
  {
    var t := Bucket(s, pre, d);
    LastVisible(t, pre + 1);
    e := t[|t| - 1];
    VisibleInBucket(s, pre, d, e);
  }

  // ---- Branches --------------------------------------------------------------------------------

  /** At least two nibbles follow. */
  ghost predicate Forks(s: seq<Entry>, pre: nat)
    requires Group(s, pre)
  {
    exists c, d :: 0 <= c < d < 16 && Bucket(s, pre, c) != [] && Bucket(s, pre, d) != []
  }

  lemma {:induction false} ForksAt(s: seq<Entry>, pre: nat, a: Entry, b: Entry)
    requires Group(s, pre) && a in s && b in s
    requires pre < |a.key| && pre < |b.key| && a.key[pre] != b.key[pre]
    ensures Forks(s, pre)
  {
    var c: nat, d: nat := a.key[pre], b.key[pre];
    InBucket(s, pre, c, a);
    InBucket(s, pre, d, b);
    assert Bucket(s, pre, c) != [] && Bucket(s, pre, d) != [];
  }

  lemma {:induction false} PartHere(s: seq<Entry>, pre: nat, a: Entry, b: Entry)
    requires Group(s, pre) && s != [] && a in s && b in s && |s[0].key| == pre
    requires pre < |a.key| && pre < |b.key| && a.key[pre] != b.key[pre]
    ensures Part(s[0].key, a.key, b.key)
  {
    assert s[0].key[..pre] == s[0].key;
    SharesPrefix(s, pre, a);
    SharesPrefix(s, pre, b);
  }

  /** The key that ends at a branch is silent just if its value is empty and the branch forks. */
  lemma {:induction false} SilentHere(s: seq<Entry>, pre: nat)
    requires Group(s, pre) && s != [] && |s[0].key| == pre
    ensures Silent(s, s[0]) <==> s[0].value == [] && Forks(s, pre)
  {
    if a, b :| a in s && b in s && Part(s[0].key, a.key, b.key) {
      ForksAt(s, pre, a, b);
    }
    if Forks(s, pre) {
      var c, d :| 0 <= c < d < 16 && Bucket(s, pre, c) != [] && Bucket(s, pre, d) != [];
      var a := BucketVisible(s, pre, c);
      var b := BucketVisible(s, pre, d);
      PartHere(s, pre, a, b);
    }
  }

  /** A branching group has a key that ends here, or forks. */
  lemma {:induction false} BranchesMeans(s: seq<Entry>, pre: nat)
    requires Branches(s, pre)
    ensures |s[0].key| == pre || Forks(s, pre)
  {
    if |s[0].key| != pre {
      var i :| 1 <= i < |s| && pre == Shared(s[0].key, s[i].key, pre);
      LessNext(s[0].key, s[i].key, pre);
      ForksAt(s, pre, s[0], s[i]);
    }
  }

  /** Two shown entries tell where a group branches. */
  lemma {:induction false} BranchVisible(s: seq<Entry>, pre: nat) returns (a: Entry, b: Entry)
    requires Branches(s, pre)
    ensures a in Visible(s) && b in Visible(s) && pre <= |a.key| && pre < |b.key|
    ensures |a.key| == pre || a.key[pre] != b.key[pre]
  {
    BranchesMeans(s, pre);
    if Forks(s, pre) {
      var c, d :| 0 <= c < d < 16 && Bucket(s, pre, c) != [] && Bucket(s, pre, d) != [];
      a := BucketVisible(s, pre, c);
      b := BucketVisible(s, pre, d);
    } else {
      SilentHere(s, pre);
      a := s[0];
      LessNext(s[0].key, s[1].key, pre);
      InBucket(s, pre, s[1].key[pre], s[1]);
      b := BucketVisible(s, pre, s[1].key[pre]);
    }
  }

  /** The nibbles all keys of a group of at least two share. */
  ghost function Fork(s: seq<Entry>, pre: nat): (at: nat)
    requires Group(s, pre) && |s| >= 2
    ensures pre <= at && Branches(s, at)
  {
    GroupShared(s, pre);
    SharedFrom(s, pre, SharedByAll(s, pre, |s|), |s|);
    SharedByAll(s, pre, |s|)
  }

  /** Where counting starts does not matter within the common prefix. */
  lemma {:induction false} SharedFrom(s: seq<Entry>, pre: nat, to: nat, n: nat)
    requires Group(s, pre) && Group(s, to) && pre <= to && 2 <= n <= |s|
    ensures SharedByAll(s, pre, n) == SharedByAll(s, to, n)
  {
    SharedLater(s, pre, to, n - 1);
    if n > 2 {
      SharedFrom(s, pre, to, n - 1);
    }
  }

  lemma {:induction false} SharedLater(s: seq<Entry>, pre: nat, to: nat, i: nat)
    requires Group(s, pre) && Group(s, to) && pre <= to && i < |s|
    ensures Shared(s[0].key, s[i].key, pre) == Shared(s[0].key, s[i].key, to)
  {
    forall k | pre <= k < to
      ensures s[0].key[k] == s[i].key[k]
    {
      assert s[i].key[..to][k] == s[0].key[..to][k];
    }
    SharedSkip(s[0].key, s[i].key, pre, to);
  }

  // ---- The same entries shown, the same node ---------------------------------------------------

  lemma {:induction false} Agree(a: Nibbles, b: Nibbles, to: nat, i: nat)
    requires i < to <= |a| && to <= |b| && a[..to] == b[..to]
    ensures a[i] == b[i]
  {
    assert a[..to][i] == b[..to][i];
  }

  lemma {:induction false} ForkAtMost(s: seq<Entry>, t: seq<Entry>, at: nat, to: nat)
    requires Branches(s, at) && Group(t, to) && forall e :: e in Visible(s) ==> e in t
    ensures to <= at
  {
    var a, b := BranchVisible(s, at);
    SharesPrefix(t, to, a);
    SharesPrefix(t, to, b);
    if at < to {
      Agree(a.key, b.key, to, at);
    }
  }

  lemma {:induction false} SameFork(s: seq<Entry>, t: seq<Entry>, pre: nat)
    requires Group(s, pre) && Group(t, pre) && |s| >= 2 && |t| >= 2 && Visible(s) == Visible(t)
    ensures Fork(s, pre) == Fork(t, pre)
  {
    ForkAtMost(s, t, Fork(s, pre), Fork(t, pre));
    ForkAtMost(t, s, Fork(t, pre), Fork(s, pre));
  }

  lemma {:induction false} SamePrefix(s: seq<Entry>, t: seq<Entry>, pre: nat)
    requires Group(s, pre) && Group(t, pre) && s != [] && t != [] && Visible(s) == Visible(t)
    ensures s[0].key[..pre] == t[0].key[..pre]
  {
    LastVisible(s, pre);
    SharesPrefix(s, pre, s[|s| - 1]);
    SharesPrefix(t, pre, s[|s| - 1]);
  }

  /** The keys that end at a branch show the same value. */
  lemma {:induction false} SameValueHere(s: seq<Entry>, t: seq<Entry>, pre: nat)
    requires Group(s, pre) && Group(t, pre) && s != [] && t != [] && Visible(s) == Visible(t)
    ensures ValueHere(s, pre) != [] ==> ValueHere(t, pre) == ValueHere(s, pre)
  {
    if ValueHere(s, pre) != [] {
      assert s[0] in Visible(t);
      ShortIsFirst(t, pre, s[0]);
    }
  }

  /** Only the first key of a group can be as short as the common prefix. */
  lemma {:induction false} ShortIsFirst(s: seq<Entry>, pre: nat, e: Entry)
    requires Group(s, pre) && e in s && |e.key| == pre
    ensures s[0] == e
  {
    var i :| 0 <= i < |s| && s[i] == e;
    if i > 0 {
      LessNext(s[0].key, s[i].key, pre);
    }
  }

  lemma {:induction false} SameBucketVisible(s: seq<Entry>, t: seq<Entry>, pre: nat, d: nat)
    requires Group(s, pre) && Group(t, pre) && Visible(s) == Visible(t)
    ensures Visible(Bucket(s, pre, d)) == Visible(Bucket(t, pre, d))
  {
    forall e: Entry
      ensures e in Visible(Bucket(s, pre, d)) <==> e in Visible(Bucket(t, pre, d))
    {
      VisibleInBucket(s, pre, d, e);
      VisibleInBucket(t, pre, d, e);
    }
  }

  lemma {:induction false} SameEmpty(s: seq<Entry>, t: seq<Entry>, pre: nat)
    requires Group(s, pre) && Group(t, pre) && Visible(s) == Visible(t)
    ensures s == [] <==> t == []
  {
    if s != [] {
      LastVisible(s, pre);
    }
    if t != [] {
      LastVisible(t, pre);
    }
  }

  lemma {:induction false} OnlyVisible(s: seq<Entry>, e: Entry)
    requires |s| == 1 && e in Visible(s)
    ensures e == s[0]
  {
  }

  lemma {:induction false} SameSingle(s: seq<Entry>, t: seq<Entry>, pre: nat)
    requires Group(s, pre) && Group(t, pre) && Visible(s) == Visible(t) && |s| == 1
    ensures s == t
  {
    SameEmpty(s, t, pre);
    LastVisible(s, pre);
    LastVisible(t, pre);
    if |t| >= 2 {
      var a, b := BranchVisible(t, Fork(t, pre));
      OnlyVisible(s, a);
      OnlyVisible(s, b);
    }
  }

  lemma {:induction false} SameVisibleSameNode(h: HashFn, s: seq<Entry>, t: seq<Entry>, pre: nat)
    requires Group(s, pre) && Fits(s) && Group(t, pre) && Fits(t) && Visible(s) == Visible(t)
    ensures Node(h, s, pre) == Node(h, t, pre)
    decreases |s|, 2
  {
    SameEmpty(s, t, pre);
    if |s| == 1 {
      SameSingle(s, t, pre);
    } else if |t| == 1 {
      SameSingle(t, s, pre);
    } else if s != [] {
      SameFork(s, t, pre);
      SameBranch(h, s, t, Fork(s, pre));
      SameBelow(h, s, t, pre);
    }
  }

  lemma {:induction false} SameSlot(h: HashFn, s: seq<Entry>, t: seq<Entry>, pre: nat, d: nat)
    requires Branches(s, pre) && Fits(s) && Branches(t, pre) && Fits(t) && Visible(s) == Visible(t)
    ensures Slot(h, s, pre, d) == Slot(h, t, pre, d)
    decreases |s|, 0
  {
    BucketSmaller(s, pre, d);
    SameBucketVisible(s, t, pre, d);
    SameEmpty(Bucket(s, pre, d), Bucket(t, pre, d), pre + 1);
    SameVisibleSameNode(h, Bucket(s, pre, d), Bucket(t, pre, d), pre + 1);
  }

  lemma {:induction false} SameBranch(h: HashFn, s: seq<Entry>, t: seq<Entry>, pre: nat)
    requires Branches(s, pre) && Fits(s) && Branches(t, pre) && Fits(t) && Visible(s) == Visible(t)
    ensures Node(h, s, pre) == Node(h, t, pre)
    decreases |s|, 1
  {
    forall d | 0 <= d < 16
      ensures Slot(h, s, pre, d) == Slot(h, t, pre, d)
    {
      SameSlot(h, s, t, pre, d);
    }
    SameValueHere(s, t, pre);
    SameValueHere(t, s, pre);
    BranchItems(h, s, pre);
    BranchItems(h, t, pre);
    assert Slots(h, s, pre, 16) == Slots(h, t, pre, 16);
  }

  lemma {:induction false} BranchItems(h: HashFn, s: seq<Entry>, pre: nat)
    requires Branches(s, pre) && Fits(s)
    ensures Node(h, s, pre) == List(Slots(h, s, pre, 16) + [Data(ValueHere(s, pre))])
  {
  }

  /** Equal branches under the same path. */
  lemma {:induction false} SameBelow(h: HashFn, s: seq<Entry>, t: seq<Entry>, pre: nat)
    requires Group(s, pre) && Fits(s) && Group(t, pre) && Fits(t) && Visible(s) == Visible(t)
    requires |s| >= 2 && |t| >= 2 && Fork(s, pre) == Fork(t, pre)
    requires Node(h, s, Fork(s, pre)) == Node(h, t, Fork(s, pre))
    ensures Node(h, s, pre) == Node(h, t, pre)
  {
    var at := Fork(s, pre);
    if at > pre {
      SamePrefix(s, t, at);
      assert s[0].key[pre..at] == s[0].key[..at][pre..] && t[0].key[pre..at] == t[0].key[..at][pre..];
      ExtensionItems(h, s, pre);
      ExtensionItems(h, t, pre);
    }
  }

  lemma {:induction false} ExtensionItems(h: HashFn, s: seq<Entry>, pre: nat)
    requires Group(s, pre) && Fits(s) && |s| >= 2 && Fork(s, pre) > pre
    ensures Node(h, s, pre) == List([Data(Encoded(s[0].key[pre..Fork(s, pre)], false)), Ref(h, s, Fork(s, pre))])
  {
  }

  // ---- The same node, the same entries shown ---------------------------------------------------

  /** Leaves, extensions and branches differ as nodes. */
  lemma {:induction false} Kinds(h: HashFn, s: seq<Entry>, pre: nat)
    requires Group(s, pre) && Fits(s) && s != []
    ensures var items := Node(h, s, pre).items;
            if Branches(s, pre) then |items| == 17
            else |items| == 2 && items[0].Data? && items[0].bytes != [] && (IsLeaf(items[0].bytes) <==> |s| == 1)
  {
    if |s| == 1 {
      KeyOfEncoded(s[0].key[pre..], true);
    } else if Fork(s, pre) > pre {
      KeyOfEncoded(s[0].key[pre..Fork(s, pre)], false);
      ExtensionItems(h, s, pre);
    } else {
      BranchItems(h, s, pre);
    }
  }

  lemma {:induction false} SameLeaf(h: HashFn, s: seq<Entry>, t: seq<Entry>, pre: nat)
    requires Group(s, pre) && Fits(s) && Group(t, pre) && Fits(t) && |s| == 1 && |t| == 1
    requires s[0].key[..pre] == t[0].key[..pre] && Node(h, s, pre) == Node(h, t, pre)
    ensures s == t
  {
    KeyOfEncoded(s[0].key[pre..], true);
    KeyOfEncoded(t[0].key[pre..], true);
    assert Node(h, s, pre).items[0] == Node(h, t, pre).items[0];
    assert Node(h, s, pre).items[1] == Node(h, t, pre).items[1];
    assert s[0].key == s[0].key[..pre] + s[0].key[pre..] && t[0].key == t[0].key[..pre] + t[0].key[pre..];
  }

  /** What an extension says of the group below it. */
  lemma {:induction false} ExtensionShows(h: HashFn, db: set<Bytes>, s: seq<Entry>, pre: nat)
    requires Group(s, pre) && Fits(s) && |s| >= 2 && Fork(s, pre) > pre
    requires Stored(h, db, s, pre) && CollisionFree(h, db)
    ensures Stored(h, db, s, Fork(s, pre))
    ensures var items := Node(h, s, pre).items;
            && |items| == 2 && items[0].Data? && items[0].bytes != []
            && KeyOf(items[0].bytes) == s[0].key[pre..Fork(s, pre)]
            && Resolve(h, db, items[1]) == Node(h, s, Fork(s, pre))
  {
    KeyOfEncoded(s[0].key[pre..Fork(s, pre)], false);
    ExtensionItems(h, s, pre);
    ResolveRef(h, db, s, Fork(s, pre));
  }

  /** Equal extensions have the same path and the same node below. */
  lemma {:induction false} SameExtension(h: HashFn, db: set<Bytes>, s: seq<Entry>, t: seq<Entry>, pre: nat)
    requires Group(s, pre) && Fits(s) && Group(t, pre) && Fits(t) && |s| >= 2 && |t| >= 2
    requires Fork(s, pre) > pre && Fork(t, pre) > pre
    requires Stored(h, db, s, pre) && Stored(h, db, t, pre) && CollisionFree(h, db)
    requires s[0].key[..pre] == t[0].key[..pre] && Node(h, s, pre) == Node(h, t, pre)
    ensures Fork(s, pre) == Fork(t, pre)
    ensures s[0].key[..Fork(s, pre)] == t[0].key[..Fork(s, pre)]
    ensures Node(h, s, Fork(s, pre)) == Node(h, t, Fork(s, pre))
    ensures Stored(h, db, s, Fork(s, pre)) && Stored(h, db, t, Fork(t, pre))
  {
    var at, to := Fork(s, pre), Fork(t, pre);
    ExtensionShows(h, db, s, pre);
    ExtensionShows(h, db, t, pre);
    SameParts(s[0].key, t[0].key, pre, at, to);
  }

  lemma {:induction false} SameParts(a: Nibbles, b: Nibbles, pre: nat, at: nat, to: nat)
    requires pre <= at <= |a| && pre <= to <= |b| && a[..pre] == b[..pre] && a[pre..at] == b[pre..to]
    ensures at == to && a[..at] == b[..at]
  {
    assert |a[pre..at]| == at - pre && |b[pre..to]| == to - pre;
    assert a[..at] == a[..pre] + a[pre..at] && b[..to] == b[..pre] + b[pre..to];
  }

  lemma {:induction false} BranchStored(h: HashFn, db: set<Bytes>, s: seq<Entry>, pre: nat, d: nat)
    requires Branches(s, pre) && Fits(s) && Stored(h, db, s, pre) && d < 16
    ensures StoredSlot(h, db, s, pre, d)
  {
  }

  lemma {:induction false} SlotStored(h: HashFn, db: set<Bytes>, s: seq<Entry>, pre: nat, d: nat)
    requires Branches(s, pre) && Fits(s) && StoredSlot(h, db, s, pre, d)
    ensures Stored(h, db, Bucket(s, pre, d), pre + 1)
  {
    var t := Bucket(s, pre, d);
    assert t != [] ==> StoredRef(h, db, t, pre + 1);
  }

  lemma {:induction false} BranchItem(h: HashFn, s: seq<Entry>, pre: nat, d: nat)
    requires Branches(s, pre) && Fits(s) && d < 16
    ensures |Node(h, s, pre).items| == 17 && Node(h, s, pre).items[d] == Slot(h, s, pre, d)
  {
    BranchItems(h, s, pre);
  }

  /** What a branch says of the group under a nibble. */
  lemma {:induction false} BranchShows(h: HashFn, db: set<Bytes>, s: seq<Entry>, pre: nat, d: nat)
    requires Branches(s, pre) && Fits(s) && Stored(h, db, s, pre) && CollisionFree(h, db) && d < 16
    ensures Stored(h, db, Bucket(s, pre, d), pre + 1)
    ensures |Node(h, s, pre).items| == 17
    ensures Resolve(h, db, Node(h, s, pre).items[d]) == Node(h, Bucket(s, pre, d), pre + 1)
  {
    BranchStored(h, db, s, pre, d);
    SlotStored(h, db, s, pre, d);
    BranchItem(h, s, pre, d);
    ResolveSlot(h, db, s, pre, d);
  }

  /** Two groups that branch, whose keys start alike and whose buckets show the same entries. */
  ghost predicate AlikeBelow(s: seq<Entry>, t: seq<Entry>, pre: nat) {
    && Branches(s, pre) && Branches(t, pre)
    && s[0].key[..pre] == t[0].key[..pre] && ValueHere(s, pre) == ValueHere(t, pre)
    && forall d :: 0 <= d < 16 ==> Visible(Bucket(s, pre, d)) == Visible(Bucket(t, pre, d))
  }

  lemma {:induction false} AlikeForks(s: seq<Entry>, t: seq<Entry>, pre: nat)
    requires AlikeBelow(s, t, pre) && Forks(s, pre)
    ensures Forks(t, pre)
  {
    var c, d :| 0 <= c < d < 16 && Bucket(s, pre, c) != [] && Bucket(s, pre, d) != [];
    SameEmpty(Bucket(s, pre, c), Bucket(t, pre, c), pre + 1);
    SameEmpty(Bucket(s, pre, d), Bucket(t, pre, d), pre + 1);
  }

  /** The key that ends here is shown by both or by neither. */
  lemma {:induction false} AlikeHere(s: seq<Entry>, t: seq<Entry>, pre: nat)
    requires AlikeBelow(s, t, pre) && |s[0].key| == pre && s[0] in Visible(s)
    ensures s[0] in Visible(t)
  {
    SilentHere(s, pre);
    if Forks(t, pre) {
      AlikeForks(t, s, pre);
    }
    BranchesMeans(t, pre);
    assert |t[0].key| == pre;
    SilentHere(t, pre);
    assert s[0].key == s[0].key[..pre] && t[0].key == t[0].key[..pre];
    assert s[0] == t[0];
  }

  lemma {:induction false} AlikeShown(s: seq<Entry>, t: seq<Entry>, pre: nat, e: Entry)
    requires AlikeBelow(s, t, pre) && e in Visible(s)
    ensures e in Visible(t)
  {
    SharesPrefix(s, pre, e);
    if |e.key| == pre {
      ShortIsFirst(s, pre, e);
      AlikeHere(s, t, pre);
    } else {
      VisibleInBucket(s, pre, e.key[pre], e);
      VisibleInBucket(t, pre, e.key[pre], e);
    }
  }

  lemma {:induction false} AlikeSameVisible(s: seq<Entry>, t: seq<Entry>, pre: nat)
    requires AlikeBelow(s, t, pre)
    ensures Visible(s) == Visible(t)
  {
    forall e: Entry
      ensures e in Visible(s) <==> e in Visible(t)
    {
      if e in Visible(s) {
        AlikeShown(s, t, pre, e);
      }
      if e in Visible(t) {
        AlikeShown(t, s, pre, e);
      }
    }
  }

  lemma {:induction false} BucketsStartAlike(s: seq<Entry>, t: seq<Entry>, pre: nat, d: nat)
    requires Group(s, pre) && Group(t, pre) && s != [] && t != [] && s[0].key[..pre] == t[0].key[..pre]
    ensures StartAlike(Bucket(s, pre, d), Bucket(t, pre, d), pre + 1)
  {
    var a, b := Bucket(s, pre, d), Bucket(t, pre, d);
    if a != [] && b != [] {
      InBucket(s, pre, d, a[0]);
      InBucket(t, pre, d, b[0]);
      SharesPrefix(s, pre, a[0]);
      SharesPrefix(t, pre, b[0]);
      assert a[0].key[..pre + 1] == a[0].key[..pre] + [d];
      assert b[0].key[..pre + 1] == b[0].key[..pre] + [d];
    }
  }

  ghost predicate StartAlike(s: seq<Entry>, t: seq<Entry>, pre: nat)
    requires Group(s, pre) && Group(t, pre)
  {
    s != [] && t != [] ==> s[0].key[..pre] == t[0].key[..pre]
  }

  lemma {:induction false} SameNodeSameVisible(h: HashFn, db: set<Bytes>, s: seq<Entry>, t: seq<Entry>, pre: nat)
    requires Group(s, pre) && Fits(s) && Group(t, pre) && Fits(t) && StartAlike(s, t, pre)
    requires Stored(h, db, s, pre) && Stored(h, db, t, pre) && CollisionFree(h, db)
    requires Node(h, s, pre) == Node(h, t, pre)
    ensures Visible(s) == Visible(t)
    decreases |s|, (if s == [] then 0 else |s[0].key| - pre), 1
  {
    if s != [] {
      Kinds(h, s, pre);
      Kinds(h, t, pre);
      if |s| == 1 {
        SameLeaf(h, s, t, pre);
      } else if Branches(s, pre) {
        SameBuckets(h, db, s, t, pre);
        AlikeSameVisible(s, t, pre);
      } else {
        SameExtension(h, db, s, t, pre);
        SameNodeSameVisible(h, db, s, t, Fork(s, pre));
      }
    }
  }

  lemma {:induction false} SameBuckets(h: HashFn, db: set<Bytes>, s: seq<Entry>, t: seq<Entry>, pre: nat)
    requires Branches(s, pre) && Fits(s) && Branches(t, pre) && Fits(t) && StartAlike(s, t, pre)
    requires Stored(h, db, s, pre) && Stored(h, db, t, pre) && CollisionFree(h, db)
    requires Node(h, s, pre) == Node(h, t, pre)
    ensures AlikeBelow(s, t, pre)
    decreases |s|, |s[0].key| - pre, 0
  {
    BranchItems(h, s, pre);
    BranchItems(h, t, pre);
    assert Node(h, s, pre).items[16] == Node(h, t, pre).items[16];
    forall d | 0 <= d < 16
      ensures Visible(Bucket(s, pre, d)) == Visible(Bucket(t, pre, d))
    {
      BucketSmaller(s, pre, d);
      BucketsStartAlike(s, t, pre, d);
      BranchShows(h, db, s, pre, d);
      BranchShows(h, db, t, pre, d);
      SameNodeSameVisible(h, db, Bucket(s, pre, d), Bucket(t, pre, d), pre + 1);
    }
  }

  /** The commitment, exactly: equal roots if and only if the two maps show the same entries. */
  lemma {:induction false} RootsEqualIff(h: HashFn, db: set<Bytes>, s: seq<Entry>, t: seq<Entry>)
    requires Group(s, 0) && Fits(s) && Group(t, 0) && Fits(t)
    requires Archived(h, db, s) && Archived(h, db, t) && CollisionFree(h, db)
    ensures Root(h, s) == Root(h, t) <==> Visible(s) == Visible(t)
  {
    if Root(h, s) == Root(h, t) {
      EncodeInjective(Node(h, s, 0), Node(h, t, 0));
      SameNodeSameVisible(h, db, s, t, 0);
    }
    if Visible(s) == Visible(t) {
      SameVisibleSameNode(h, s, t, 0);
    }
  }
}
