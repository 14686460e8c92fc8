/** The form of every node: what stands in place, what is replaced by its hash, and the fixed cases. */
module TrieForm {
  import opened Common
  import opened Rlp
  import opened HexPrefix
  import opened Trie

  /** A child stands in place exactly when its encoding is shorter than 32 bytes. */
  lemma RefBySize(h: HashFn, s: seq<Entry>, pre: nat)
    requires Group(s, pre) && Fits(s) && s != []
    ensures |Encode(Node(h, s, pre))| < 32 ==> Ref(h, s, pre) == Node(h, s, pre)
    ensures |Encode(Node(h, s, pre))| >= 32 ==> Ref(h, s, pre) == Data(h(Encode(Node(h, s, pre))))
    ensures Ref(h, s, pre).List? ==> |Encode(Ref(h, s, pre))| < 32
  {
  }

  /** What refers to the node of a group: nothing, the node itself, or its hash, by the node's length. */
  ghost predicate Refers(h: HashFn, it: Item, s: seq<Entry>, pre: nat)
    requires Group(s, pre) && Fits(s)
  {
    it ==
      if s == [] then Data([])
      else if |Encode(Node(h, s, pre))| < 32 then Node(h, s, pre)
      else Data(h(Encode(Node(h, s, pre))))
  }

  /** A leaf: the rest of the key with the leaf flag, and the value. */
  ghost predicate IsLeafOf(it: Item, s: seq<Entry>, pre: nat)
    requires Group(s, pre) && |s| == 1
  {
    it == List([Data(Encoded(s[0].key[pre..], true)), Data(s[0].value)])
  }

  /** An extension: the shared nibbles without the leaf flag, and the node below. */
  ghost predicate IsExtensionOf(h: HashFn, it: Item, s: seq<Entry>, pre: nat, at: nat)
    requires Group(s, pre) && Fits(s) && s != [] && pre <= at
  {
    && it.List? && |it.items| == 2 && Group(s, at)
    && it.items[0] == Data(Encoded(s[0].key[pre..at], false)) && Refers(h, it.items[1], s, at)
  }

  /** A branch: one reference for each nibble, and the value of the key that ends here. */
  ghost predicate IsBranchOf(h: HashFn, it: Item, s: seq<Entry>, pre: nat)
    requires Group(s, pre) && Fits(s)
  {
    && it.List? && |it.items| == 17 && it.items[16] == Data(ValueHere(s, pre))
    && forall d {:trigger it.items[d]} :: 0 <= d < 16 ==> Refers(h, it.items[d], Bucket(s, pre, d), pre + 1)
  }

  /** Every node of every trie: its items, and how it refers to the nodes below it. */
  lemma NodeByRule(h: HashFn, s: seq<Entry>, pre: nat)
    requires Group(s, pre) && Fits(s)
    ensures s == [] ==> Encode(Node(h, s, pre)) == [0x80]
    ensures |s| == 1 ==> IsLeafOf(Node(h, s, pre), s, pre)
    ensures |s| >= 2 && SharedByAll(s, pre, |s|) > pre ==>
              IsExtensionOf(h, Node(h, s, pre), s, pre, SharedByAll(s, pre, |s|))
    ensures Branches(s, pre) ==> IsBranchOf(h, Node(h, s, pre), s, pre)
  {
    if s == [] {
      var k := DataForm([]);
    } else if |s| >= 2 && SharedByAll(s, pre, |s|) > pre {
      ExtensionByRule(h, s, pre);
    } else if |s| >= 2 {
      BranchByRule(h, s, pre);
    }
  }

  lemma ExtensionByRule(h: HashFn, s: seq<Entry>, pre: nat)
    requires Group(s, pre) && Fits(s) && |s| >= 2 && SharedByAll(s, pre, |s|) > pre
    ensures IsExtensionOf(h, Node(h, s, pre), s, pre, SharedByAll(s, pre, |s|))
  {
    GroupShared(s, pre);
    RefBySize(h, s, SharedByAll(s, pre, |s|));
  }

  lemma BranchByRule(h: HashFn, s: seq<Entry>, pre: nat)
    requires Branches(s, pre) && Fits(s)
    ensures IsBranchOf(h, Node(h, s, pre), s, pre)
  {
    var slots := Slots(h, s, pre, 16);
    forall d | 0 <= d < 16
      ensures Refers(h, slots[d], Bucket(s, pre, d), pre + 1)
    {
      SlotByRule(h, s, pre, d);
    }
    SlotsFirst(h, s, pre, slots, Node(h, s, pre));
  }

  lemma SlotsFirst(h: HashFn, s: seq<Entry>, pre: nat, slots: seq<Item>, it: Item)
    requires Group(s, pre) && Fits(s) && |slots| == 16 && it == List(slots + [Data(ValueHere(s, pre))])
    requires forall d :: 0 <= d < 16 ==> Refers(h, slots[d], Bucket(s, pre, d), pre + 1)
    ensures IsBranchOf(h, it, s, pre)
  {
  }

  lemma SlotByRule(h: HashFn, s: seq<Entry>, pre: nat, d: nat)
    requires Branches(s, pre) && Fits(s)
    ensures Refers(h, Slot(h, s, pre, d), Bucket(s, pre, d), pre + 1)
  {
    if Bucket(s, pre, d) != [] {
      RefBySize(h, Bucket(s, pre, d), pre + 1);
    }
  }

  /** Every list inside the item, at any depth, has an encoding shorter than 32 bytes. */
  ghost predicate InlineSmall(it: Item)
    decreases it
  {
    it.List? ==> forall k :: 0 <= k < |it.items| ==>
      && (it.items[k].List? ==> Size(it.items[k]) < SIZE_LIMIT && |Encode(it.items[k])| < 32)
      && InlineSmall(it.items[k])
  }

  /** No node of the trie, at any depth, holds a node of 32 bytes or more in place. */
  lemma {:induction false} NodeInlineSmall(h: HashFn, s: seq<Entry>, pre: nat)
    requires Group(s, pre) && Fits(s)
    ensures InlineSmall(Node(h, s, pre))
    decreases |s|, (if s == [] then 0 else |s[0].key| - pre), 50
  {
    if |s| >= 2 {
      var at := SharedByAll(s, pre, |s|);
      if at > pre {
        GroupShared(s, pre);
        RefInlineSmall(h, s, at);
      } else {
        BranchInlineSmall(h, s, pre);
      }
    }
  }

  lemma {:induction false} RefInlineSmall(h: HashFn, s: seq<Entry>, pre: nat)
    requires Group(s, pre) && Fits(s) && s != []
    ensures InlineSmall(Ref(h, s, pre)) && (Ref(h, s, pre).List? ==> |Encode(Ref(h, s, pre))| < 32)
    decreases |s|, |s[0].key| - pre, 100
  {
    NodeInlineSmall(h, s, pre);
    RefBySize(h, s, pre);
  }

  lemma {:induction false} BranchInlineSmall(h: HashFn, s: seq<Entry>, pre: nat)
    requires Branches(s, pre) && Fits(s)
    ensures InlineSmall(Node(h, s, pre))
    decreases |s|, |s[0].key| - pre, 1
  {
    var slots := Slots(h, s, pre, 16);
    forall d | 0 <= d < 16
      ensures InlineSmall(slots[d]) && (slots[d].List? ==> |Encode(slots[d])| < 32)
    {
      SlotInlineSmall(h, s, pre, d);
    }
    assert Node(h, s, pre).items == slots + [Data(ValueHere(s, pre))];
  }

  lemma {:induction false} SlotInlineSmall(h: HashFn, s: seq<Entry>, pre: nat, d: nat)
    requires Branches(s, pre) && Fits(s)
    ensures var it := Slot(h, s, pre, d); InlineSmall(it) && (it.List? ==> |Encode(it)| < 32)
    decreases |s|, |s[0].key| - pre, 0
  {
    BucketSmaller(s, pre, d);
    if Bucket(s, pre, d) != [] {
      RefInlineSmall(h, Bucket(s, pre, d), pre + 1);
    }
  }

  /** The root of the empty map. */
  lemma EmptyRoot(h: HashFn)
    ensures Root(h, []) == h([0x80])
  {
    NodeByRule(h, [], 0);
  }
}
