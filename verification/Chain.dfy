/**
 * Concurrent `commitBlock` and `getBlock` calls over one storage. The number and the parent hash are
 * checked before the commit lock, and only the number is checked again inside it.
 */
module Chain {
  import opened Common
  import opened BlockCache

  /** The system tables: committed atomically with each block. */
  datatype Storage = Storage(
    numberToHash: map<int, Hash>, hashToBlock: map<Hash, Block>, current: int, transactionCount: Option<int>)

  datatype CommitResult = OK | ERROR_NUMBER | ERROR_PARENT_HASH | ERROR_COMMITTING

  /** Where a call stands. `known` records whether the block was stored when a lookup began. */
  datatype Call =
    | Checking(block: Block)
    | ReadingNumber(block: Block)
    | ReadingHash(block: Block, read: int)
    | Locking(block: Block)
    | Rechecking(block: Block)
    | Writing(block: Block)
    | Persisting(block: Block, count: int)
    | Publishing(block: Block)
    | Unlocking(block: Block, result: CommitResult)
    | Caching(block: Block)
    | Returned(block: Block, result: CommitResult)
    | Looking(hash: Hash, known: bool)
    | Loading(hash: Hash, known: bool)
    | Filling(hash: Hash, known: bool, found: Block)
    | Answered(hash: Hash, known: bool, answer: Option<Block>)

  /** `number` is the cached block number, -1 until first used; `chain` lists the blocks ever stored. */
  datatype System = System(
    storage: Storage, number: int, holder: Option<nat>, cache: Cache, calls: seq<Call>, chain: seq<Block>)

  // ---- Steps -----------------------------------------------------------------------------------

  /** `numberHash`: the zero hash when there is no entry. */
  function NumberHash(s: Storage, n: int): Hash {
    if n in s.numberToHash then s.numberToHash[n] else 0
  }

  /** `number()`: loads the stored number the first time. */
  function Number(s: System): int {
    if s.number == -1 then s.storage.current else s.number
  }

  /** `writeTotalTransactionCount`. */
  function NextCount(s: Storage, b: Block): int {
    (if s.transactionCount.Some? then s.transactionCount.value else 0) + |b.transactions|
  }

  function Stored(s: Storage, b: Block, count: int): Storage {
    Storage(s.numberToHash[b.number := b.hash], s.hashToBlock[b.hash := b], b.number, Some(count))
  }

  predicate Enabled(s: System, i: nat) {
    && i < |s.calls|
    && !s.calls[i].Returned? && !s.calls[i].Answered?
    && (s.calls[i].Locking? ==> s.holder.None?)
  }

  function Set(s: System, i: nat, c: Call): System
    requires i < |s.calls|
  {
    s.(calls := s.calls[i := c])
  }

  /** One step of call `i`; `fails` says whether a storage commit throws. */
  function Step(s: System, i: nat, fails: bool): System
    requires Enabled(s, i) && CacheSound(s.cache)
  {
    match s.calls[i]
    case Checking(b) =>
      var n := Number(s);
      Set(s.(number := n), i, if b.number == n + 1 then ReadingNumber(b) else Returned(b, ERROR_NUMBER))
    case ReadingNumber(b) => Set(s.(number := Number(s)), i, ReadingHash(b, Number(s)))
    case ReadingHash(b, n) =>
      Set(s, i, if b.parentHash == NumberHash(s.storage, n) then Locking(b) else Returned(b, ERROR_PARENT_HASH))
    case Locking(b) => Set(s.(holder := Some(i)), i, Rechecking(b))
    case Rechecking(b) =>
      var n := Number(s);
      Set(s.(number := n), i, if b.number == n + 1 then Writing(b) else Unlocking(b, ERROR_PARENT_HASH))
    case Writing(b) => Set(s, i, Persisting(b, NextCount(s.storage, b)))
    case Persisting(b, count) =>
      if fails then Set(s, i, Unlocking(b, ERROR_COMMITTING))
      else Set(s.(storage := Stored(s.storage, b, count), chain := s.chain + [b]), i, Publishing(b))
    case Publishing(b) => Set(s.(number := b.number), i, Unlocking(b, OK))
    case Unlocking(b, r) => Set(s.(holder := None), i, if r == OK then Caching(b) else Returned(b, r))
    case Caching(b) => Set(s.(cache := Added(s.cache, b)), i, Returned(b, OK))
    case Looking(h, k) =>
      Set(s, i, if h in s.cache.blocks then Answered(h, k, Some(s.cache.blocks[h])) else Loading(h, k))
    case Loading(h, k) =>
      Set(s, i, if h in s.storage.hashToBlock then Filling(h, k, s.storage.hashToBlock[h]) else Answered(h, k, None))
    case Filling(h, k, b) => Set(s.(cache := Added(s.cache, b)), i, Answered(h, k, Some(b)))
  }

  datatype Event = Commit(block: Block) | Lookup(hash: Hash) | Advance(call: nat, fails: bool)

  /** A new call arrives, or one call takes a step. */
  ghost predicate Next(pool: set<Block>, s: System, e: Event, s': System) {
    match e
    case Commit(b) => b in pool && s' == s.(calls := s.calls + [Checking(b)])
    case Lookup(h) => s' == s.(calls := s.calls + [Looking(h, h in s.storage.hashToBlock)])
    case Advance(i, fails) => Enabled(s, i) && CacheSound(s.cache) && s' == Step(s, i, fails)
  }

  /** A node starts on a stored chain of any length; nothing has been read or cached yet. */
  ghost predicate Initial(pool: set<Block>, s: System) {
    && Linked(s.chain) && TablesHold(pool, s.storage, s.chain)
    && s.number == -1 && s.holder == None && s.cache == Cache(map[], []) && s.calls == []
  }

  ghost predicate Run(pool: set<Block>, run: seq<System>) {
    && run != [] && Initial(pool, run[0])
    && forall k :: 0 < k < |run| ==> Goes(pool, run[k - 1], run[k])
  }

  ghost predicate Goes(pool: set<Block>, s: System, s': System) {
    exists e :: Next(pool, s, e, s')
  }

  /** Blocks with one header hash have one header, so one number. */
  ghost predicate HashFixesNumber(pool: set<Block>) {
    forall a, b :: a in pool && b in pool && a.hash == b.hash ==> a.number == b.number
  }

  // ---- What holds ------------------------------------------------------------------------------

  function Transactions(chain: seq<Block>): nat {
    if |chain| <= 1 then 0 else Transactions(chain[..|chain| - 1]) + |chain[|chain| - 1].transactions|
  }

  /** The stored chain: numbered without gaps, each block on top of its parent. */
  ghost predicate Linked(chain: seq<Block>) {
    && chain != []
    && (forall n :: 0 <= n < |chain| ==> chain[n].number == n)
    && (forall n {:trigger Follows(chain, n)} :: 0 < n < |chain| ==> Follows(chain, n))
  }

  ghost predicate Follows(chain: seq<Block>, n: nat)
    requires 0 < n < |chain|
  {
    chain[n].parentHash == chain[n - 1].hash
  }

  ghost predicate OnChain(chain: seq<Block>, b: Block) {
    0 <= b.number < |chain| && chain[b.number] == b
  }

  ghost predicate NumbersHold(pool: set<Block>, table: map<int, Hash>, chain: seq<Block>) {
    forall n :: 0 <= n < |chain| ==> chain[n] in pool && n in table && table[n] == chain[n].hash
  }

  ghost predicate BlocksHold(table: map<Hash, Block>, chain: seq<Block>) {
    forall n {:trigger InTable(table, chain[n])} :: 0 <= n < |chain| ==> InTable(table, chain[n])
  }

  ghost predicate InTable(table: map<Hash, Block>, b: Block) {
    b.hash in table && table[b.hash] == b
  }

  ghost predicate NothingElse(table: map<Hash, Block>, chain: seq<Block>) {
    forall h {:trigger OnChain(chain, table[h])} ::
      h in table ==> table[h].hash == h && OnChain(chain, table[h])
  }

  /** The tables hold exactly the chain. */
  ghost predicate TablesHold(pool: set<Block>, st: Storage, chain: seq<Block>) {
    && st.current == |chain| - 1
    && NumbersHold(pool, st.numberToHash, chain)
    && BlocksHold(st.hashToBlock, chain) && NothingElse(st.hashToBlock, chain)
    && st.transactionCount == (if |chain| == 1 then None else Some(Transactions(chain)))
  }

  ghost predicate InCritical(c: Call) {
    c.Rechecking? || c.Writing? || c.Persisting? || c.Publishing? || c.Unlocking?
  }

  ghost predicate Persisted(c: Call) {
    || c.Publishing? || c.Caching?
    || (c.Unlocking? && c.result == OK) || (c.Returned? && c.result == OK)
  }

  /** The parent was checked against a number no greater than the present one. */
  ghost predicate ParentChecked(s: System, b: Block) {
    && 0 <= b.number - 1 <= s.number
    && (s.number == b.number - 1 && s.number < |s.chain| ==> b.parentHash == s.chain[s.number].hash)
  }

  ghost predicate OnTop(s: System, b: Block) {
    s.number == b.number - 1 == |s.chain| - 1 && b.number >= 1 && b.parentHash == s.chain[|s.chain| - 1].hash
  }

  ghost predicate IsStored(s: System, h: Hash, b: Block) {
    h in s.storage.hashToBlock && s.storage.hashToBlock[h] == b
  }

  ghost predicate CallHolds(pool: set<Block>, s: System, i: nat)
    requires i < |s.calls|
  {
    var c := s.calls[i];
    && (InCritical(c) ==> s.holder == Some(i))
    && (Persisted(c) ==> 0 < c.block.number < |s.chain| && s.chain[c.block.number] == c.block)
    && match c
       case Checking(b) => b in pool
       case ReadingNumber(b) => b in pool && 0 <= b.number - 1 <= s.number
       case ReadingHash(b, n) => b in pool && 0 <= b.number - 1 <= n <= s.number
       case Locking(b) => b in pool && ParentChecked(s, b)
       case Rechecking(b) => b in pool && ParentChecked(s, b)
       case Writing(b) => b in pool && OnTop(s, b)
       case Persisting(b, count) => b in pool && OnTop(s, b) && count == NextCount(s.storage, b)
       case Publishing(b) => s.number == b.number - 1 && b.number == |s.chain| - 1
       case Unlocking(b, r) => s.number >= 0
       case Filling(h, k, b) => IsStored(s, h, b)
       case Looking(h, k) => k ==> h in s.storage.hashToBlock
       case Loading(h, k) => k ==> h in s.storage.hashToBlock
       case Answered(h, k, a) => (k ==> a.Some?) && (a.Some? ==> IsStored(s, h, a.value))
       case _ => true
  }

  ghost predicate NumberHolds(s: System) {
    || s.number == -1
    || s.number == |s.chain| - 1
    || (s.number == |s.chain| - 2 && s.holder.Some? && s.holder.value < |s.calls|
        && s.calls[s.holder.value].Publishing?)
  }

  ghost predicate LockHolds(s: System) {
    s.holder.Some? ==> s.holder.value < |s.calls| && InCritical(s.calls[s.holder.value])
  }

  ghost predicate CacheHolds(s: System) {
    && CacheSound(s.cache)
    && forall h :: h in s.cache.blocks ==> IsStored(s, h, s.cache.blocks[h])
  }

  /** Two successful calls committed blocks of different numbers. */
  ghost predicate OncePerNumber(s: System) {
    forall i, j {:trigger s.calls[i], s.calls[j]} ::
      0 <= i < j < |s.calls| && Persisted(s.calls[i]) && Persisted(s.calls[j]) ==>
        s.calls[i].block.number != s.calls[j].block.number
  }

  ghost predicate Inv(pool: set<Block>, s: System) {
    && Linked(s.chain) && TablesHold(pool, s.storage, s.chain)
    && NumberHolds(s) && LockHolds(s) && CacheHolds(s) && OncePerNumber(s)
    && forall i {:trigger CallHolds(pool, s, i)} :: 0 <= i < |s.calls| ==> CallHolds(pool, s, i)
  }

  lemma InitialHolds(pool: set<Block>, s: System)
    requires Initial(pool, s)
    ensures Inv(pool, s)
  {
  }

  // ---- Every step keeps it ---------------------------------------------------------------------

  /** The chain, the number and the stored blocks only grow. */
  ghost predicate Grows(s: System, s': System) {
    && s.chain <= s'.chain && s.number <= s'.number
    && forall h :: h in s.storage.hashToBlock ==> IsStored(s', h, s.storage.hashToBlock[h])
  }

  /** Nothing that the lock protects has changed. */
  ghost predicate Quiet(s: System, s': System) {
    s'.chain == s.chain && s'.number == s.number && s'.storage == s.storage && s'.holder == s.holder
  }

  lemma StableCall(pool: set<Block>, s: System, s': System, j: nat)
    requires j < |s.calls| && j < |s'.calls| && s'.calls[j] == s.calls[j]
    requires Grows(s, s') && NumberHolds(s) && (InCritical(s.calls[j]) ==> Quiet(s, s')) && s.chain != []
    requires CallHolds(pool, s, j)
    ensures CallHolds(pool, s', j)
  {
  }

  /** The call persisted a new number, or had already persisted this block. */
  ghost predicate PersistedNow(s: System, s': System, i: nat)
    requires i < |s.calls| == |s'.calls| && Persisted(s'.calls[i])
  {
    || s'.calls[i].block.number >= |s.chain|
    || (Persisted(s.calls[i]) && s'.calls[i].block == s.calls[i].block)
  }

  lemma OnceKept(pool: set<Block>, s: System, s': System, i: nat)
    requires i < |s.calls| == |s'.calls| && s'.calls == s.calls[i := s'.calls[i]] && OncePerNumber(s)
    requires Persisted(s'.calls[i]) ==> PersistedNow(s, s', i)
    requires forall j :: 0 <= j < |s.calls| && Persisted(s.calls[j]) ==> s.calls[j].block.number < |s.chain|
    ensures OncePerNumber(s')
  {
  }

  /** What a step of call `i` has to show for itself; the other calls follow. */
  ghost predicate StepShows(pool: set<Block>, s: System, s': System, i: nat) {
    && i < |s.calls| == |s'.calls| && s'.calls == s.calls[i := s'.calls[i]]
    && Grows(s, s')
    && (forall j :: 0 <= j < |s.calls| && j != i && InCritical(s.calls[j]) ==> Quiet(s, s'))
    && CallHolds(pool, s', i)
    && (Persisted(s'.calls[i]) ==> PersistedNow(s, s', i))
    && Linked(s'.chain) && TablesHold(pool, s'.storage, s'.chain)
    && NumberHolds(s') && LockHolds(s') && CacheHolds(s')
  }

  lemma CallsKept(pool: set<Block>, s: System, s': System, i: nat)
    requires Inv(pool, s) && StepShows(pool, s, s', i)
    ensures forall j {:trigger CallHolds(pool, s', j)} :: 0 <= j < |s'.calls| ==> CallHolds(pool, s', j)
  {
    forall j | 0 <= j < |s'.calls|
      ensures CallHolds(pool, s', j)
    {
      if j != i {
        StableCall(pool, s, s', j);
      }
    }
  }

  lemma StepShowsInv(pool: set<Block>, s: System, s': System, i: nat)
    requires Inv(pool, s) && StepShows(pool, s, s', i)
    ensures Inv(pool, s')
  {
    CallsKept(pool, s, s', i);
    forall j | 0 <= j < |s.calls| && Persisted(s.calls[j])
      ensures s.calls[j].block.number < |s.chain|
    {
      assert CallHolds(pool, s, j);
    }
    OnceKept(pool, s, s', i);
  }

  /** A step that changes only its own call and perhaps loads the number. */
  lemma LocalStep(pool: set<Block>, s: System, i: nat, n: int, c: Call)
    requires Inv(pool, s) && i < |s.calls| && (n == s.number || (s.number == -1 && n == |s.chain| - 1))
    requires CallHolds(pool, Set(s.(number := n), i, c), i) && InCritical(c) == InCritical(s.calls[i])
    requires s.calls[i].Publishing? ==> c.Publishing?
    requires Persisted(c) ==> Persisted(s.calls[i]) && c.block == s.calls[i].block
    ensures Inv(pool, Set(s.(number := n), i, c))
  {
    var s' := Set(s.(number := n), i, c);
    forall j | 0 <= j < |s.calls| && j != i && InCritical(s.calls[j])
      ensures Quiet(s, s')
    {
      assert CallHolds(pool, s, j);
    }
    assert StepShows(pool, s, s', i);
    StepShowsInv(pool, s, s', i);
  }

  lemma NumberInChain(pool: set<Block>, s: System)
    requires Inv(pool, s)
    ensures 0 <= Number(s) < |s.chain|
    ensures NumberHash(s.storage, Number(s)) == s.chain[Number(s)].hash
  {
    if s.number != -1 && s.number != |s.chain| - 1 {
      assert CallHolds(pool, s, s.holder.value);
    }
  }

  lemma CheckingKeeps(pool: set<Block>, s: System, i: nat)
    requires Inv(pool, s) && Enabled(s, i) && (s.calls[i].Checking? || s.calls[i].ReadingNumber?)
    ensures Inv(pool, Step(s, i, false))
  {
    assert CallHolds(pool, s, i);
    NumberInChain(pool, s);
    LocalStep(pool, s, i, Number(s), Step(s, i, false).calls[i]);
  }

  lemma RecheckingKeeps(pool: set<Block>, s: System, i: nat)
    requires Inv(pool, s) && Enabled(s, i) && s.calls[i].Rechecking?
    ensures Inv(pool, Step(s, i, false))
  {
    assert CallHolds(pool, s, i);
    NumberInChain(pool, s);
    LocalStep(pool, s, i, s.number, Step(s, i, false).calls[i]);
  }

  lemma ParentKeeps(pool: set<Block>, s: System, i: nat)
    requires Inv(pool, s) && Enabled(s, i) && s.calls[i].ReadingHash?
    ensures Inv(pool, Step(s, i, false))
  {
    assert CallHolds(pool, s, i);
    NumberInChain(pool, s);
    LocalStep(pool, s, i, s.number, Step(s, i, false).calls[i]);
  }

  lemma WritingKeeps(pool: set<Block>, s: System, i: nat, fails: bool)
    requires Inv(pool, s) && Enabled(s, i) && (s.calls[i].Writing? || (s.calls[i].Persisting? && fails))
    ensures Inv(pool, Step(s, i, fails))
  {
    assert CallHolds(pool, s, i);
    LocalStep(pool, s, i, s.number, Step(s, i, fails).calls[i]);
  }

  lemma LookingKeeps(pool: set<Block>, s: System, i: nat)
    requires Inv(pool, s) && Enabled(s, i) && s.calls[i].Looking?
    ensures Inv(pool, Step(s, i, false))
  {
    assert CallHolds(pool, s, i);
    LocalStep(pool, s, i, s.number, Step(s, i, false).calls[i]);
  }

  lemma LoadingKeeps(pool: set<Block>, s: System, i: nat)
    requires Inv(pool, s) && Enabled(s, i) && s.calls[i].Loading?
    ensures Inv(pool, Step(s, i, false))
  {
    assert CallHolds(pool, s, i);
    LocalStep(pool, s, i, s.number, Step(s, i, false).calls[i]);
  }

  /** Nobody else is inside, so the step may change what the lock protects. */
  lemma Alone(pool: set<Block>, s: System, i: nat)
    requires Inv(pool, s) && i < |s.calls| && (InCritical(s.calls[i]) || s.holder.None?)
    ensures forall j :: 0 <= j < |s.calls| && j != i ==> !InCritical(s.calls[j])
  {
    assert CallHolds(pool, s, i);
    forall j | 0 <= j < |s.calls| && j != i
      ensures !InCritical(s.calls[j])
    {
      assert CallHolds(pool, s, j);
    }
  }

  lemma LockingKeeps(pool: set<Block>, s: System, i: nat)
    requires Inv(pool, s) && Enabled(s, i) && s.calls[i].Locking?
    ensures Inv(pool, Step(s, i, false))
  {
    assert CallHolds(pool, s, i);
    var s' := Step(s, i, false);
    Alone(pool, s, i);
    StepShowsInv(pool, s, s', i);
  }

  lemma UnlockingKeeps(pool: set<Block>, s: System, i: nat)
    requires Inv(pool, s) && Enabled(s, i) && s.calls[i].Unlocking?
    ensures Inv(pool, Step(s, i, false))
  {
    assert CallHolds(pool, s, i);
    var s' := Step(s, i, false);
    Alone(pool, s, i);
    StepShowsInv(pool, s, s', i);
  }

  lemma PublishingKeeps(pool: set<Block>, s: System, i: nat)
    requires Inv(pool, s) && Enabled(s, i) && s.calls[i].Publishing?
    ensures Inv(pool, Step(s, i, false))
  {
    assert CallHolds(pool, s, i);
    var s' := Step(s, i, false);
    Alone(pool, s, i);
    StepShowsInv(pool, s, s', i);
  }

  lemma CacheGrows(st: Storage, c: Cache, b: Block)
    requires CacheSound(c) && b.hash in st.hashToBlock && st.hashToBlock[b.hash] == b
    requires forall h :: h in c.blocks ==> h in st.hashToBlock && st.hashToBlock[h] == c.blocks[h]
    ensures CacheSound(Added(c, b))
    ensures forall h :: h in Added(c, b).blocks ==> h in st.hashToBlock && st.hashToBlock[h] == Added(c, b).blocks[h]
  {
    AddedSound(c, b);
  }

  lemma CacheHoldsMore(s: System, s': System, b: Block)
    requires CacheHolds(s) && IsStored(s, b.hash, b) && s'.storage == s.storage && s'.cache == Added(s.cache, b)
    ensures CacheHolds(s')
  {
    CacheGrows(s.storage, s.cache, b);
  }

  /** A step that changes only its own call and the cache. */
  lemma CacheStep(pool: set<Block>, s: System, s': System, i: nat, c: Call)
    requires Inv(pool, s) && i < |s.calls| && s' == Set(s.(cache := s'.cache), i, c) && CacheHolds(s')
    requires !InCritical(c) && !InCritical(s.calls[i]) && CallHolds(pool, s', i)
    requires Persisted(c) ==> Persisted(s.calls[i]) && c.block == s.calls[i].block
    ensures Inv(pool, s')
  {
    StepShowsInv(pool, s, s', i);
  }

  lemma CachingKeeps(pool: set<Block>, s: System, i: nat)
    requires Inv(pool, s) && Enabled(s, i) && s.calls[i].Caching?
    ensures Inv(pool, Step(s, i, false))
  {
    assert CallHolds(pool, s, i);
    var b, s' := s.calls[i].block, Step(s, i, false);
    assert InTable(s.storage.hashToBlock, s.chain[b.number]);
    CacheHoldsMore(s, s', b);
    CacheStep(pool, s, s', i, Returned(b, OK));
  }

  lemma FillingKeeps(pool: set<Block>, s: System, i: nat)
    requires Inv(pool, s) && Enabled(s, i) && s.calls[i].Filling?
    ensures Inv(pool, Step(s, i, false))
  {
    assert CallHolds(pool, s, i);
    var s' := Step(s, i, false);
    FillingShows(pool, s, s', i);
    CacheStep(pool, s, s', i, s'.calls[i]);
  }

  lemma FillingShows(pool: set<Block>, s: System, s': System, i: nat)
    requires i < |s.calls| && s.calls[i].Filling? && CallHolds(pool, s, i) && CacheHolds(s)
    requires Linked(s.chain) && TablesHold(pool, s.storage, s.chain)
    requires var c := s.calls[i];
             s' == Set(s.(cache := Added(s.cache, c.found)), i, Answered(c.hash, c.known, Some(c.found)))
    ensures CacheHolds(s') && CallHolds(pool, s', i)
  {
    StoredBelow(pool, s.storage, s.chain, s.calls[i].hash);
    CacheHoldsMore(s, s', s.calls[i].found);
  }

  lemma StoredBelow(pool: set<Block>, st: Storage, chain: seq<Block>, h: Hash)
    requires Linked(chain) && TablesHold(pool, st, chain) && h in st.hashToBlock
    ensures st.hashToBlock[h] in pool && st.hashToBlock[h].hash == h && st.hashToBlock[h].number < |chain|
  {
    assert OnChain(chain, st.hashToBlock[h]);
  }

  /** A block on top of the chain has a hash that no stored block has. */
  lemma FreshHash(pool: set<Block>, st: Storage, chain: seq<Block>, b: Block)
    requires Linked(chain) && TablesHold(pool, st, chain) && HashFixesNumber(pool) && b in pool && b.number == |chain|
    ensures b.hash !in st.hashToBlock
  {
    if b.hash in st.hashToBlock {
      StoredBelow(pool, st, chain, b.hash);
    }
  }

  lemma LinkedGrows(chain: seq<Block>, b: Block)
    requires Linked(chain) && b.number == |chain| && b.parentHash == chain[|chain| - 1].hash
    ensures Linked(chain + [b]) && Transactions(chain + [b]) == Transactions(chain) + |b.transactions|
  {
    var longer := chain + [b];
    assert longer[..|chain|] == chain;
    forall n | 0 < n < |longer|
      ensures Follows(longer, n)
    {
      assert n < |chain| ==> Follows(chain, n);
    }
  }

  lemma NumbersGrow(pool: set<Block>, table: map<int, Hash>, chain: seq<Block>, b: Block)
    requires NumbersHold(pool, table, chain) && b in pool && b.number == |chain|
    ensures NumbersHold(pool, table[b.number := b.hash], chain + [b])
  {
  }

  lemma BlocksGrow(table: map<Hash, Block>, chain: seq<Block>, b: Block)
    requires BlocksHold(table, chain) && b.hash !in table
    ensures BlocksHold(table[b.hash := b], chain + [b])
  {
    forall n | 0 <= n < |chain|
      ensures InTable(table[b.hash := b], chain[n])
    {
      assert InTable(table, chain[n]);
    }
  }

  lemma NothingElseGrows(table: map<Hash, Block>, chain: seq<Block>, b: Block)
    requires NothingElse(table, chain) && b.number == |chain|
    ensures NothingElse(table[b.hash := b], chain + [b])
  {
    forall h | h in table
      ensures table[h].hash == h && OnChain(chain + [b], table[h])
    {
      assert OnChain(chain, table[h]);
    }
  }

  lemma TablesGrow(pool: set<Block>, st: Storage, chain: seq<Block>, b: Block)
    requires chain != [] && TablesHold(pool, st, chain) && b in pool && b.number == |chain| && b.hash !in st.hashToBlock
    requires Transactions(chain + [b]) == NextCount(st, b)
    ensures TablesHold(pool, Stored(st, b, NextCount(st, b)), chain + [b])
  {
    NumbersGrow(pool, st.numberToHash, chain, b);
    BlocksGrow(st.hashToBlock, chain, b);
    NothingElseGrows(st.hashToBlock, chain, b);
  }

  /** Storing a block on top of the chain. */
  lemma ChainGrows(pool: set<Block>, st: Storage, chain: seq<Block>, b: Block)
    requires Linked(chain) && TablesHold(pool, st, chain) && HashFixesNumber(pool) && b in pool
    requires b.number == |chain| && b.parentHash == chain[|chain| - 1].hash
    ensures Linked(chain + [b]) && TablesHold(pool, Stored(st, b, NextCount(st, b)), chain + [b])
    ensures b.hash !in st.hashToBlock
  {
    FreshHash(pool, st, chain, b);
    LinkedGrows(chain, b);
    TablesGrow(pool, st, chain, b);
  }

  lemma PersistingKeeps(pool: set<Block>, s: System, i: nat)
    requires Inv(pool, s) && HashFixesNumber(pool) && Enabled(s, i) && s.calls[i].Persisting?
    ensures Inv(pool, Step(s, i, false))
  {
    assert CallHolds(pool, s, i);
    var b, s' := s.calls[i].block, Step(s, i, false);
    ChainGrows(pool, s.storage, s.chain, b);
    Alone(pool, s, i);
    PersistShows(pool, s, s', i, b);
    StepShowsInv(pool, s, s', i);
  }

  lemma PersistShows(pool: set<Block>, s: System, s': System, i: nat, b: Block)
    requires i < |s.calls| && s.calls[i].Persisting? && CallHolds(pool, s, i)
    requires b == s.calls[i].block && Linked(s.chain)
    requires s'.chain == s.chain + [b] && s'.number == s.number && s'.holder == s.holder && s'.cache == s.cache
    requires s'.calls == s.calls[i := Publishing(b)] && s'.storage.hashToBlock == s.storage.hashToBlock[b.hash := b]
    requires b.hash !in s.storage.hashToBlock && CacheHolds(s)
    ensures CallHolds(pool, s', i) && Grows(s, s') && CacheHolds(s') && NumberHolds(s') && LockHolds(s')
  {
  }

  lemma StepKeepsInv(pool: set<Block>, s: System, i: nat, fails: bool)
    requires Inv(pool, s) && HashFixesNumber(pool) && Enabled(s, i)
    ensures Inv(pool, Step(s, i, fails))
  {
    match s.calls[i]
    case Checking(_) => CheckingKeeps(pool, s, i);
    case ReadingNumber(_) => CheckingKeeps(pool, s, i);
    case Rechecking(_) => RecheckingKeeps(pool, s, i);
    case ReadingHash(_, _) => ParentKeeps(pool, s, i);
    case Locking(_) => LockingKeeps(pool, s, i);
    case Unlocking(_, _) => UnlockingKeeps(pool, s, i);
    case Writing(_) => WritingKeeps(pool, s, i, fails);
    case Persisting(_, _) =>
      if fails {
        WritingKeeps(pool, s, i, fails);
      } else {
        PersistingKeeps(pool, s, i);
      }
    case Publishing(_) => PublishingKeeps(pool, s, i);
    case Looking(_, _) => LookingKeeps(pool, s, i);
    case Loading(_, _) => LoadingKeeps(pool, s, i);
    case Caching(_) => CachingKeeps(pool, s, i);
    case Filling(_, _, _) => FillingKeeps(pool, s, i);
  }

  lemma ArrivalKeepsInv(pool: set<Block>, s: System, c: Call)
    requires Inv(pool, s)
    requires (c.Checking? && c.block in pool) || (c.Looking? && (c.known ==> c.hash in s.storage.hashToBlock))
    ensures Inv(pool, s.(calls := s.calls + [c]))
  {
    var s' := s.(calls := s.calls + [c]);
    forall j | 0 <= j < |s'.calls|
      ensures CallHolds(pool, s', j)
    {
      if j < |s.calls| {
        StableCall(pool, s, s', j);
      }
    }
  }

  /** The invariant holds along every run of any number of concurrent calls. */
  lemma {:induction false} RunKeepsInv(pool: set<Block>, run: seq<System>)
    requires HashFixesNumber(pool) && Run(pool, run)
    ensures Inv(pool, run[|run| - 1])
  {
    if |run| == 1 {
      InitialHolds(pool, run[0]);
    } else {
      RunKeepsInv(pool, run[..|run| - 1]);
      assert Goes(pool, run[|run| - 2], run[|run| - 1]);
      NextKeepsInv(pool, run[|run| - 2], run[|run| - 1]);
    }
  }

  lemma NextKeepsInv(pool: set<Block>, s: System, s': System)
    requires HashFixesNumber(pool) && Inv(pool, s) && Goes(pool, s, s')
    ensures Inv(pool, s')
  {
    var e :| Next(pool, s, e, s');
    match e
    case Commit(b) => ArrivalKeepsInv(pool, s, Checking(b));
    case Lookup(h) => ArrivalKeepsInv(pool, s, Looking(h, h in s.storage.hashToBlock));
    case Advance(i, fails) => StepKeepsInv(pool, s, i, fails);
  }

  // ---- Main results ----------------------------------------------------------------------------

  /**
   * Every interleaving keeps the chain linked: numbers without gaps, each parent hash the stored
   * hash of the predecessor, and the stored transaction count the sum over the committed blocks.
   */
  lemma ChainStaysLinked(pool: set<Block>, run: seq<System>)
    requires HashFixesNumber(pool) && Run(pool, run)
    ensures var s := run[|run| - 1];
            && Linked(s.chain) && s.storage.current == |s.chain| - 1
            && (forall n :: 0 < n < |s.chain| ==> s.chain[n].parentHash == NumberHash(s.storage, n - 1))
            && (|s.chain| > 1 ==> s.storage.transactionCount == Some(Transactions(s.chain)))
  {
    RunKeepsInv(pool, run);
    var s := run[|run| - 1];
    forall n | 0 < n < |s.chain|
      ensures s.chain[n].parentHash == NumberHash(s.storage, n - 1)
    {
      assert Follows(s.chain, n);
    }
  }

  /** A call that returned OK stored its block, and no other call stored that number. */
  lemma CommittedOnce(pool: set<Block>, run: seq<System>, i: nat, j: nat)
    requires HashFixesNumber(pool) && Run(pool, run) && i < |run[|run| - 1].calls|
    requires run[|run| - 1].calls[i].Returned? && run[|run| - 1].calls[i].result == OK
    ensures var s := run[|run| - 1]; var b := s.calls[i].block;
            && 0 < b.number < |s.chain| && s.chain[b.number] == b && IsStored(s, b.hash, b)
            && (j < |s.calls| && i != j && s.calls[j].Returned? && s.calls[j].result == OK ==>
                  s.calls[j].block.number != b.number)
  {
    RunKeepsInv(pool, run);
    var s := run[|run| - 1];
    assert CallHolds(pool, s, i);
    assert InTable(s.storage.hashToBlock, s.chain[s.calls[i].block.number]);
  }

  /**
   * A lookup returns a block only if that block is stored under the hash, finds every block that
   * was stored when it began, and the cache holds at most eleven blocks, all stored.
   */
  lemma LookupAgreesWithStorage(pool: set<Block>, run: seq<System>, i: nat)
    requires HashFixesNumber(pool) && Run(pool, run) && i < |run[|run| - 1].calls|
    requires run[|run| - 1].calls[i].Answered?
    ensures var s := run[|run| - 1]; var c := s.calls[i];
            && (c.answer.Some? ==> IsStored(s, c.hash, c.answer.value))
            && (c.known ==> c.answer.Some?)
            && CacheHolds(s) && |s.cache.blocks| <= 11
  {
    RunKeepsInv(pool, run);
    AnswerHolds(pool, run[|run| - 1], i);
  }

  lemma AnswerHolds(pool: set<Block>, s: System, i: nat)
    requires Inv(pool, s) && i < |s.calls| && s.calls[i].Answered?
    ensures s.calls[i].answer.Some? ==> IsStored(s, s.calls[i].hash, s.calls[i].answer.value)
    ensures s.calls[i].known ==> s.calls[i].answer.Some?
    ensures CacheHolds(s) && |s.cache.blocks| <= 11
  {
    assert CallHolds(pool, s, i);
  }

  /** Calls never deadlock: while one is unfinished, some call can take a step. */
  lemma NoDeadlock(pool: set<Block>, run: seq<System>, i: nat)
    requires HashFixesNumber(pool) && Run(pool, run) && i < |run[|run| - 1].calls|
    requires !run[|run| - 1].calls[i].Returned? && !run[|run| - 1].calls[i].Answered?
    ensures var s := run[|run| - 1]; Enabled(s, if s.calls[i].Locking? && s.holder.Some? then s.holder.value else i)
  {
    RunKeepsInv(pool, run);
  }
}
