/** `BlockCache`: recently used blocks by hash, evicted in the order they were added. */
module BlockCache {
  import opened Common

  type Hash = nat

  datatype Block = Block(hash: Hash, number: int, parentHash: Hash, transactions: seq<nat>)

  const CACHE_SIZE: nat := 10

  datatype Cache = Cache(blocks: map<Hash, Block>, fifo: seq<Hash>)

  /** Every cached block is in the queue, and at most eleven are cached. */
  ghost predicate CacheSound(c: Cache) {
    && |c.blocks| <= CACHE_SIZE + 1
    && (forall h :: h in c.blocks ==> h in c.fifo && c.blocks[h].hash == h)
  }

  lemma FullMeansQueued(c: Cache)
    requires CacheSound(c) && |c.blocks| > CACHE_SIZE
    ensures c.fifo != []
  {
    var h :| h in c.blocks.Keys;
  }

  /** The cache after the eviction that precedes an insertion. */
  function Evicted(c: Cache): Cache
    requires CacheSound(c)
  {
    if |c.blocks| > CACHE_SIZE then
      FullMeansQueued(c);
      var blocks := c.blocks - {c.fifo[0]};
      if |blocks| > CACHE_SIZE then Cache(map[], []) else Cache(blocks, c.fifo[1..])
    else c
  }

  function Added(c: Cache, b: Block): Cache
    requires CacheSound(c)
  {
    var e := Evicted(c);
    Cache(if b.hash in e.blocks then e.blocks else e.blocks[b.hash := b], e.fifo + [b.hash])
  }

  lemma EvictedSound(c: Cache)
    requires CacheSound(c)
    ensures CacheSound(Evicted(c)) && |Evicted(c).blocks| <= CACHE_SIZE
    ensures forall h :: h in Evicted(c).blocks ==> h in c.blocks && Evicted(c).blocks[h] == c.blocks[h]
  {
    if |c.blocks| > CACHE_SIZE {
      FullMeansQueued(c);
      forall h | h in Evicted(c).blocks
        ensures h in Evicted(c).fifo
      {
        assert c.fifo == [c.fifo[0]] + c.fifo[1..];
      }
    }
  }

  /** Adding keeps the cache sound, caches the block under its hash, and invents nothing. */
  lemma AddedSound(c: Cache, b: Block)
    requires CacheSound(c)
    ensures CacheSound(Added(c, b)) && b.hash in Added(c, b).blocks
    ensures forall h :: h in Added(c, b).blocks ==>
              (h == b.hash && Added(c, b).blocks[h] == b) || (h in c.blocks && Added(c, b).blocks[h] == c.blocks[h])
  {
    EvictedSound(c);
    var e, a := Evicted(c), Added(c, b);
    assert a.blocks.Keys == e.blocks.Keys + {b.hash};
  }

  /** Up to ten cached blocks nothing is evicted; beyond that the block queued longest goes first. */
  lemma AddedForm(c: Cache, b: Block)
    requires CacheSound(c)
    ensures |c.blocks| <= 10 ==>
              && Added(c, b).fifo == c.fifo + [b.hash]
              && Added(c, b).blocks == if b.hash in c.blocks then c.blocks else c.blocks[b.hash := b]
    ensures |c.blocks| > 10 && c.fifo != [] && c.fifo[0] in c.blocks ==>
              && Added(c, b).fifo == c.fifo[1..] + [b.hash]
              && (forall h :: h in Added(c, b).blocks <==> (h in c.blocks && h != c.fifo[0]) || h == b.hash)
    ensures |c.blocks| > 10 && c.fifo != [] && c.fifo[0] !in c.blocks ==>
              Added(c, b) == Cache(map[b.hash := b], [b.hash])
  {
    if |c.blocks| > 10 && c.fifo != [] {
      var left := c.blocks - {c.fifo[0]};
      assert left.Keys == c.blocks.Keys - {c.fifo[0]};
    }
  }

  class BlockCache {
    var blockCache: map<Hash, Block>
    var blockCacheFifo: seq<Hash>

    constructor ()
      ensures Now() == Cache(map[], []) && CacheSound(Now())
    {
      blockCache, blockCacheFifo := map[], [];
    }

    function Now(): Cache
      reads this
    {
      Cache(blockCache, blockCacheFifo)
    }

    method Add(b: Block) returns (r: Block)
      requires CacheSound(Now())
      modifies this
      ensures Now() == Added(old(Now()), b) && CacheSound(Now()) && b.hash in blockCache
      ensures r == b
    {
      AddedSound(Now(), b);
      if |blockCache| > CACHE_SIZE {
        FullMeansQueued(Now());
        var firstHash := blockCacheFifo[0];
        blockCacheFifo := blockCacheFifo[1..];
        blockCache := blockCache - {firstHash};
        if |blockCache| > CACHE_SIZE {
          blockCache := map[];
          blockCacheFifo := [];
        }
      }
      if b.hash !in blockCache {
        blockCache := blockCache[b.hash := b];
      }
      blockCacheFifo := blockCacheFifo + [b.hash];
      r := b;
    }

    method Get(h: Hash) returns (r: Option<Block>)
      requires CacheSound(Now())
      ensures r == if h in blockCache then Some(blockCache[h]) else None
      ensures r.Some? ==> r.value.hash == h
    {
      r := if h in blockCache then Some(blockCache[h]) else None;
    }
  }
}
