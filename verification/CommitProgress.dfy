/** What the results of `commitBlock` mean, and that a block on top of the chain is committed. */
module CommitProgress {
  import opened Common
  import opened BlockCache
  import opened Chain

  // ---- A commit on its own ---------------------------------------------------------------------

  /** A commit call that has not returned. */
  ghost predicate Committing(c: Call) {
    c.Checking? || c.ReadingNumber? || c.ReadingHash? || c.Locking? || InCritical(c) || c.Caching?
  }

  /** No commit call but `i` is under way. */
  ghost predicate Only(s: System, i: nat) {
    forall j :: 0 <= j < |s.calls| && j != i ==> !Committing(s.calls[j])
  }

  /** Block `b` comes next after the stored chain. */
  ghost predicate ComesNext(chain: seq<Block>, b: Block) {
    chain != [] && b.number == |chain| && b.parentHash == chain[|chain| - 1].hash
  }

  /** Where the call that commits `b` may stand: before the block is stored the chain is as it was. */
  ghost predicate OnTrack(chain: seq<Block>, s: System, c: Call, b: Block) {
    match c
    case Checking(x) => x == b && s.chain == chain
    case ReadingNumber(x) => x == b && s.chain == chain
    case ReadingHash(x, n) => x == b && s.chain == chain && n == |chain| - 1
    case Locking(x) => x == b && s.chain == chain
    case Rechecking(x) => x == b && s.chain == chain
    case Writing(x) => x == b && s.chain == chain
    case Persisting(x, _) => x == b && s.chain == chain
    case Publishing(x) => x == b && s.chain == chain + [b]
    case Unlocking(x, r) => x == b && s.chain == chain + [b] && r == OK
    case Caching(x) => x == b && s.chain == chain + [b]
    case Returned(x, r) => x == b && s.chain == chain + [b] && r == OK
    case _ => false
  }

  /** Call `i` is the only commit under way, and on its way to success. */
  ghost predicate Succeeding(pool: set<Block>, chain: seq<Block>, s: System, i: nat, b: Block) {
    Inv(pool, s) && i < |s.calls| && Only(s, i) && OnTrack(chain, s, s.calls[i], b)
  }

  /** Steps until the call returns. */
  function Left(c: Call): nat {
    match c
    case Checking(_) => 10
    case ReadingNumber(_) => 9
    case ReadingHash(_, _) => 8
    case Locking(_) => 7
    case Rechecking(_) => 6
    case Writing(_) => 5
    case Persisting(_, _) => 4
    case Publishing(_) => 3
    case Unlocking(_, _) => 2
    case Caching(_) => 1
    case Looking(_, _) => 3
    case Loading(_, _) => 2
    case Filling(_, _, _) => 1
    case _ => 0
  }

  /** Every call, whatever the others do, returns after at most ten steps of its own. */
  lemma CallEnds(s: System, i: nat, fails: bool)
    requires Enabled(s, i) && CacheSound(s.cache)
    ensures Left(Step(s, i, fails).calls[i]) < Left(s.calls[i]) <= 10
  {
  }

  lemma NoneLeft(c: Call)
    ensures Left(c) == 0 <==> c.Returned? || c.Answered?
  {
  }

  /** A committed block and a block loaded from storage are cached before the call ends. */
  lemma EndsCached(s: System, i: nat, b: Block, fails: bool)
    requires Enabled(s, i) && CacheSound(s.cache)
    requires s.calls[i] == Caching(b) || (s.calls[i].Filling? && s.calls[i].found == b)
    ensures b.hash in Step(s, i, fails).cache.blocks
  {
    AddedSound(s.cache, b);
    CacheAfter(s, i, b, fails);
  }

  lemma CacheAfter(s: System, i: nat, b: Block, fails: bool)
    requires Enabled(s, i) && CacheSound(s.cache)
    requires s.calls[i] == Caching(b) || (s.calls[i].Filling? && s.calls[i].found == b)
    ensures Step(s, i, fails).cache == Added(s.cache, b)
  {
  }

  /** A lookup answers from the cache at once, and else goes to storage. */
  lemma LookupForm(s: System, i: nat, fails: bool)
    requires Enabled(s, i) && CacheSound(s.cache)
    ensures s.calls[i].Looking? ==>
              var h, c := s.calls[i].hash, Step(s, i, fails).calls[i];
              if h in s.cache.blocks then c.Answered? && c.answer == Some(s.cache.blocks[h])
              else c.Loading? && c.hash == h
    ensures s.calls[i].Loading? ==>
              var h, c := s.calls[i].hash, Step(s, i, fails).calls[i];
              if h in s.storage.hashToBlock then c.Filling? && c.found == s.storage.hashToBlock[h]
              else c.Answered? && c.answer == None
  {
  }

  lemma NumberIsCurrent(pool: set<Block>, s: System, i: nat)
    requires Inv(pool, s) && i < |s.calls| && Only(s, i) && !s.calls[i].Publishing?
    ensures Number(s) == |s.chain| - 1
  {
    if s.number == |s.chain| - 2 && s.number != -1 {
      assert Committing(s.calls[s.holder.value]);
    }
  }

  /** Nobody but the call itself can hold the lock. */
  lemma OwnLock(pool: set<Block>, s: System, i: nat)
    requires Inv(pool, s) && i < |s.calls| && Only(s, i) && !InCritical(s.calls[i])
    ensures s.holder == None
  {
    if s.holder.Some? {
      assert Committing(s.calls[s.holder.value]);
    }
  }

  /** What the next step of the call finds. */
  ghost predicate FindsChain(chain: seq<Block>, s: System, i: nat)
    requires i < |s.calls|
  {
    && CacheSound(s.cache) && chain != []
    && (s.calls[i].Locking? ==> s.holder == None)
    && (s.chain == chain ==>
          Number(s) == |chain| - 1 && NumberHash(s.storage, |chain| - 1) == chain[|chain| - 1].hash)
  }

  lemma ChainFound(pool: set<Block>, chain: seq<Block>, s: System, i: nat, b: Block)
    requires Succeeding(pool, chain, s, i, b) && chain != []
    ensures FindsChain(chain, s, i)
  {
    if s.calls[i].Locking? {
      OwnLock(pool, s, i);
    }
    if s.chain == chain {
      NumberIsCurrent(pool, s, i);
      NumberInChain(pool, s);
    }
  }

  lemma TrackedStep(chain: seq<Block>, s: System, i: nat, b: Block)
    requires i < |s.calls| && FindsChain(chain, s, i) && ComesNext(chain, b)
    requires OnTrack(chain, s, s.calls[i], b) && !s.calls[i].Returned?
    ensures Enabled(s, i)
    ensures var s' := Step(s, i, false);
            && s'.calls == s.calls[i := s'.calls[i]] && OnTrack(chain, s', s'.calls[i], b)
            && Left(s'.calls[i]) < Left(s.calls[i])
  {
  }

  /** The call's own step brings it nearer, unless its storage commit fails. */
  lemma OwnStep(pool: set<Block>, chain: seq<Block>, s: System, i: nat, b: Block)
    requires Succeeding(pool, chain, s, i, b) && ComesNext(chain, b) && !s.calls[i].Returned?
    ensures Enabled(s, i) && CacheSound(s.cache)
    ensures var s' := Step(s, i, false);
            && |s'.calls| == |s.calls| && Only(s', i) && OnTrack(chain, s', s'.calls[i], b)
            && Left(s'.calls[i]) < Left(s.calls[i])
  {
    ChainFound(pool, chain, s, i, b);
    TrackedStep(chain, s, i, b);
  }

  /** A lookup changes nothing that the commit depends on. */
  lemma OtherStep(s: System, i: nat, j: nat, fails: bool)
    requires CacheSound(s.cache) && i < |s.calls| && Only(s, i) && j != i && Enabled(s, j)
    ensures var s' := Step(s, j, fails);
            s'.chain == s.chain && |s'.calls| == |s.calls| && s'.calls[i] == s.calls[i] && Only(s', i)
  {
    assert !Committing(s.calls[j]);
  }

  // ---- Every continuation ----------------------------------------------------------------------

  /** No further commit arrives, and the storage commit of call `i` does not fail. */
  ghost predicate Undisturbed(e: Event, i: nat) {
    match e
    case Commit(_) => false
    case Lookup(_) => true
    case Advance(j, fails) => j == i ==> !fails
  }

  ghost predicate GoesUndisturbed(pool: set<Block>, s: System, s': System, i: nat) {
    exists e :: Undisturbed(e, i) && Next(pool, s, e, s')
  }

  lemma StaysTracked(pool: set<Block>, chain: seq<Block>, s: System, s': System, i: nat, b: Block)
    requires Succeeding(pool, chain, s, i, b) && ComesNext(chain, b) && GoesUndisturbed(pool, s, s', i)
    ensures i < |s'.calls| && Only(s', i) && OnTrack(chain, s', s'.calls[i], b)
  {
    var e :| Undisturbed(e, i) && Next(pool, s, e, s');
    match e
    case Commit(_) => assert false;
    case Lookup(h) =>
    case Advance(j, fails) =>
      if j == i {
        OwnStep(pool, chain, s, i, b);
      } else {
        OtherStep(s, i, j, fails);
      }
  }

  lemma StaysSucceeding(pool: set<Block>, chain: seq<Block>, s: System, s': System, i: nat, b: Block)
    requires HashFixesNumber(pool) && Succeeding(pool, chain, s, i, b) && ComesNext(chain, b)
    requires GoesUndisturbed(pool, s, s', i)
    ensures Succeeding(pool, chain, s', i, b)
  {
    StaysTracked(pool, chain, s, s', i, b);
    var e :| Undisturbed(e, i) && Next(pool, s, e, s');
    assert Goes(pool, s, s');
    NextKeepsInv(pool, s, s');
  }

  /** What every step keeps holds at the end. */
  lemma {:induction false} Along(run: seq<System>, p: System -> bool, from: nat, to: nat)
    requires from <= to < |run| && p(run[from])
    requires forall l :: from <= l < to && p(run[l]) ==> p(run[l + 1])
    ensures p(run[to])
  {
    if from < to {
      Along(run, p, from, to - 1);
      assert run[to - 1 + 1] == run[to];
    }
  }

  /** `run[k]` has no commit under way, and the next step is the arrival of a commit of `b`. */
  ghost predicate Arrives(run: seq<System>, k: nat, b: Block) {
    && k + 1 < |run| && Only(run[k], |run[k].calls|)
    && run[k + 1] == run[k].(calls := run[k].calls + [Checking(b)])
  }

  lemma ArrivalSucceeds(pool: set<Block>, s: System, s': System, b: Block)
    requires Inv(pool, s) && Inv(pool, s') && Only(s, |s.calls|) && s' == s.(calls := s.calls + [Checking(b)])
    ensures Succeeding(pool, s.chain, s', |s.calls|, b)
  {
  }

  lemma SucceedsLater(pool: set<Block>, run: seq<System>, k: nat, b: Block, chain: seq<Block>, i: nat)
    requires HashFixesNumber(pool) && ComesNext(chain, b) && k + 1 < |run|
    requires Succeeding(pool, chain, run[k + 1], i, b)
    requires forall l :: k < l < |run| - 1 ==> GoesUndisturbed(pool, run[l], run[l + 1], i)
    ensures Succeeding(pool, chain, run[|run| - 1], i, b)
  {
    forall l | k + 1 <= l < |run| - 1 && Succeeding(pool, chain, run[l], i, b)
      ensures Succeeding(pool, chain, run[l + 1], i, b)
    {
      StaysSucceedingAt(pool, chain, run, l, i, b);
    }
    Along(run, s => Succeeding(pool, chain, s, i, b), k + 1, |run| - 1);
  }

  lemma StaysSucceedingAt(pool: set<Block>, chain: seq<Block>, run: seq<System>, l: nat, i: nat, b: Block)
    requires HashFixesNumber(pool) && l + 1 < |run| && Succeeding(pool, chain, run[l], i, b) && ComesNext(chain, b)
    requires GoesUndisturbed(pool, run[l], run[l + 1], i)
    ensures Succeeding(pool, chain, run[l + 1], i, b)
  {
    StaysSucceeding(pool, chain, run[l], run[l + 1], i, b);
  }

  lemma NextOnChain(pool: set<Block>, s: System, b: Block)
    requires Inv(pool, s) && b.number == s.storage.current + 1
    requires b.parentHash == NumberHash(s.storage, s.storage.current)
    ensures ComesNext(s.chain, b)
  {
  }

  lemma InvAt(pool: set<Block>, run: seq<System>, m: nat)
    requires HashFixesNumber(pool) && Run(pool, run) && m < |run|
    ensures Inv(pool, run[m])
  {
    var prefix := run[..m + 1];
    assert forall k :: 0 < k < |prefix| ==> Goes(pool, prefix[k - 1], prefix[k]);
    RunKeepsInv(pool, prefix);
  }

  /**
   * A commit of the next block, with no other commit under way, in every continuation with any
   * lookups: it never returns anything but OK, and then the block is the last of the chain; until
   * then it can take a step that brings its return nearer.
   */
  lemma CommitSucceeds(pool: set<Block>, run: seq<System>, k: nat, b: Block)
    requires HashFixesNumber(pool) && Run(pool, run) && Arrives(run, k, b)
    requires b.number == run[k].storage.current + 1
    requires b.parentHash == NumberHash(run[k].storage, run[k].storage.current)
    requires forall l :: k < l < |run| - 1 ==> GoesUndisturbed(pool, run[l], run[l + 1], |run[k].calls|)
    ensures var s, i := run[|run| - 1], |run[k].calls|;
            && i < |s.calls|
            && (s.calls[i].Returned? ==>
                  s.calls[i] == Returned(b, OK) && s.chain == run[k].chain + [b] && Holds(run[k].storage, s.storage, b))
            && (!s.calls[i].Returned? ==>
                  Enabled(s, i) && CacheSound(s.cache) && Left(Step(s, i, false).calls[i]) < Left(s.calls[i]))
  {
    InvAt(pool, run, k);
    InvAt(pool, run, k + 1);
    NextOnChain(pool, run[k], b);
    ArrivalSucceeds(pool, run[k], run[k + 1], b);
    SucceedsLater(pool, run, k, b, run[k].chain, |run[k].calls|);
    SucceedingMeans(pool, run[k].chain, run[k].storage, run[|run| - 1], |run[k].calls|, b);
  }

  /** What a storage has gained when `b` is committed. */
  ghost predicate Holds(before: Storage, after: Storage, b: Block) {
    && after.current == b.number && NumberHash(after, b.number) == b.hash
    && b.hash in after.hashToBlock && after.hashToBlock[b.hash] == b
    && after.transactionCount ==
       Some((if before.transactionCount.Some? then before.transactionCount.value else 0) + |b.transactions|)
  }

  lemma GrownHolds(pool: set<Block>, chain: seq<Block>, before: Storage, after: Storage, b: Block)
    requires Linked(chain) && TablesHold(pool, before, chain) && TablesHold(pool, after, chain + [b])
    requires ComesNext(chain, b)
    ensures Holds(before, after, b)
  {
    LinkedGrows(chain, b);
    var longer := chain + [b];
    assert longer[b.number] == b && InTable(after.hashToBlock, longer[b.number]);
    assert |chain| == 1 ==> Transactions(chain) == 0;
  }

  lemma SucceedingMeans(pool: set<Block>, chain: seq<Block>, before: Storage, s: System, i: nat, b: Block)
    requires Succeeding(pool, chain, s, i, b) && ComesNext(chain, b)
    ensures s.calls[i].Returned? ==> s.calls[i] == Returned(b, OK) && s.chain == chain + [b]
    ensures s.calls[i].Returned? && Linked(chain) && TablesHold(pool, before, chain) ==> Holds(before, s.storage, b)
    ensures !s.calls[i].Returned? ==>
              Enabled(s, i) && CacheSound(s.cache) && Left(Step(s, i, false).calls[i]) < Left(s.calls[i])
  {
    if !s.calls[i].Returned? {
      OwnStep(pool, chain, s, i, b);
    } else if Linked(chain) && TablesHold(pool, before, chain) {
      GrownHolds(pool, chain, before, s.storage, b);
    }
  }

  // ---- It can be done --------------------------------------------------------------------------

  ghost predicate Path(pool: set<Block>, path: seq<System>) {
    path != [] && forall k :: 0 < k < |path| ==> Goes(pool, path[k - 1], path[k])
  }

  lemma PathCons(pool: set<Block>, s: System, e: Event, path: seq<System>)
    requires Path(pool, path) && Next(pool, s, e, path[0])
    ensures Path(pool, [s] + path)
  {
    var longer := [s] + path;
    forall k | 0 < k < |longer|
      ensures Goes(pool, longer[k - 1], longer[k])
    {
      if k == 1 {
        assert Next(pool, longer[0], e, longer[1]);
      } else {
        assert Goes(pool, path[k - 2], path[k - 1]);
      }
    }
  }

  lemma RunOn(pool: set<Block>, run: seq<System>, path: seq<System>)
    requires Run(pool, run) && Path(pool, path) && path[0] == run[|run| - 1]
    ensures Run(pool, run + path[1..])
  {
    var longer := run + path[1..];
    forall k | 0 < k < |longer|
      ensures Goes(pool, longer[k - 1], longer[k])
    {
      if k < |run| {
        assert Goes(pool, run[k - 1], run[k]);
      } else {
        assert Goes(pool, path[k - |run|], path[k - |run| + 1]);
      }
    }
  }

  lemma {:induction false} Finishes(pool: set<Block>, chain: seq<Block>, s: System, i: nat, b: Block)
    returns (path: seq<System>)
    requires HashFixesNumber(pool) && Succeeding(pool, chain, s, i, b) && ComesNext(chain, b)
    ensures Path(pool, path) && path[0] == s
    ensures var e := path[|path| - 1];
            i < |e.calls| && e.calls[i] == Returned(b, OK) && e.chain == chain + [b]
    decreases Left(s.calls[i])
  {
    if s.calls[i].Returned? {
      path := [s];
    } else {
      var s' := OneNearer(pool, chain, s, i, b);
      var rest := Finishes(pool, chain, s', i, b);
      PathCons(pool, s, Advance(i, false), rest);
      path := [s] + rest;
    }
  }

  lemma OneNearer(pool: set<Block>, chain: seq<Block>, s: System, i: nat, b: Block) returns (s': System)
    requires HashFixesNumber(pool) && Succeeding(pool, chain, s, i, b) && ComesNext(chain, b)
    requires !s.calls[i].Returned?
    ensures Next(pool, s, Advance(i, false), s') && Succeeding(pool, chain, s', i, b)
    ensures Left(s'.calls[i]) < Left(s.calls[i])
  {
    OwnStep(pool, chain, s, i, b);
    s' := Step(s, i, false);
    StepKeepsInv(pool, s, i, false);
  }

  /** From every reachable state without a commit under way, the next block can be committed. */
  lemma NextBlockCommits(pool: set<Block>, run: seq<System>, b: Block) returns (longer: seq<System>)
    requires HashFixesNumber(pool) && Run(pool, run) && b in pool
    requires Only(run[|run| - 1], |run[|run| - 1].calls|)
    requires b.number == run[|run| - 1].storage.current + 1
    requires b.parentHash == NumberHash(run[|run| - 1].storage, run[|run| - 1].storage.current)
    ensures Run(pool, longer) && run <= longer
    ensures var s, e := run[|run| - 1], longer[|longer| - 1];
            |s.calls| < |e.calls| && e.calls[|s.calls|] == Returned(b, OK) && e.chain == s.chain + [b]
  {
    var s := run[|run| - 1];
    RunKeepsInv(pool, run);
    var path := CommitPath(pool, s, b);
    RunOn(pool, run, path);
    longer := run + path[1..];
  }

  lemma CommitPath(pool: set<Block>, s: System, b: Block) returns (path: seq<System>)
    requires HashFixesNumber(pool) && Inv(pool, s) && b in pool && Only(s, |s.calls|)
    requires b.number == s.storage.current + 1 && b.parentHash == NumberHash(s.storage, s.storage.current)
    ensures Path(pool, path) && path[0] == s && |path| > 1
    ensures var e := path[|path| - 1];
            |s.calls| < |e.calls| && e.calls[|s.calls|] == Returned(b, OK) && e.chain == s.chain + [b]
  {
    var s' := s.(calls := s.calls + [Checking(b)]);
    ArrivalKeepsInv(pool, s, Checking(b));
    NextOnChain(pool, s, b);
    ArrivalSucceeds(pool, s, s', b);
    var rest := Finishes(pool, s.chain, s', |s.calls|, b);
    PathCons(pool, s, Commit(b), rest);
    path := [s] + rest;
  }

  // ---- What a refusal means --------------------------------------------------------------------

  /** The block did not follow the number that the call read. */
  ghost predicate WrongNumber(s: System, i: nat, b: Block) {
    i < |s.calls| && s.calls[i] == Checking(b) && b.number != Number(s) + 1
  }

  /** The stored parent is another block, or a block of that number is already stored. */
  ghost predicate WrongParentOrLate(s: System, i: nat, b: Block) {
    && i < |s.calls| && (s.calls[i].ReadingHash? || s.calls[i].Rechecking?) && s.calls[i].block == b
    && 0 < b.number <= |s.chain|
    && (b.number < |s.chain| || b.parentHash != s.chain[b.number - 1].hash)
  }

  /** The storage commit of call `i` failed in this step. */
  ghost predicate StorageFailed(pool: set<Block>, s: System, s': System, i: nat, b: Block) {
    && i < |s.calls| && s.calls[i].Persisting? && s.calls[i].block == b
    && Next(pool, s, Advance(i, true), s')
  }

  /** Call `i` has result `r` for `b`, perhaps not yet returned. */
  ghost predicate HasResult(s: System, i: nat, b: Block, r: CommitResult) {
    i < |s.calls| && (s.calls[i] == Returned(b, r) || s.calls[i] == Unlocking(b, r))
  }

  /** What happened earlier in the run to give result `r`. */
  ghost predicate Reason(pool: set<Block>, run: seq<System>, i: nat, b: Block, r: CommitResult) {
    match r
    case OK => true
    case ERROR_NUMBER => exists k :: 0 <= k < |run| && WrongNumber(run[k], i, b)
    case ERROR_PARENT_HASH => exists k :: 0 <= k < |run| && WrongParentOrLate(run[k], i, b)
    case ERROR_COMMITTING => exists k :: 0 < k < |run| && StorageFailed(pool, run[k - 1], run[k], i, b)
  }

  lemma ReasonLasts(pool: set<Block>, run: seq<System>, s: System, i: nat, b: Block, r: CommitResult)
    requires Reason(pool, run, i, b, r)
    ensures Reason(pool, run + [s], i, b, r)
  {
    var longer := run + [s];
    match r
    case OK =>
    case ERROR_NUMBER =>
      var k :| 0 <= k < |run| && WrongNumber(run[k], i, b);
      assert WrongNumber(longer[k], i, b);
    case ERROR_PARENT_HASH =>
      var k :| 0 <= k < |run| && WrongParentOrLate(run[k], i, b);
      assert WrongParentOrLate(longer[k], i, b);
    case ERROR_COMMITTING =>
      var k :| 0 < k < |run| && StorageFailed(pool, run[k - 1], run[k], i, b);
      assert StorageFailed(pool, longer[k - 1], longer[k], i, b);
  }

  /** The step from `s` to `s'` is what gave call `i` its result. */
  ghost predicate GivesResult(pool: set<Block>, s: System, s': System, i: nat, b: Block, r: CommitResult) {
    match r
    case OK => true
    case ERROR_NUMBER => WrongNumber(s, i, b)
    case ERROR_PARENT_HASH => WrongParentOrLate(s, i, b)
    case ERROR_COMMITTING => StorageFailed(pool, s, s', i, b)
  }

  /** The numbers that a call may read, and the hashes stored under them. */
  ghost predicate NumbersRead(s: System) {
    && 0 <= Number(s) < |s.chain| && s.number < |s.chain|
    && forall n :: 0 <= n < |s.chain| ==> NumberHash(s.storage, n) == s.chain[n].hash
  }

  lemma InvNumbersRead(pool: set<Block>, s: System)
    requires Inv(pool, s)
    ensures NumbersRead(s) && CacheSound(s.cache)
  {
    NumberInChain(pool, s);
  }

  lemma OwnResult(pool: set<Block>, s: System, i: nat, fails: bool, b: Block, r: CommitResult)
    requires Enabled(s, i) && CacheSound(s.cache) && HasResult(Step(s, i, fails), i, b, r)
    requires CallHolds(pool, s, i) && NumbersRead(s)
    ensures HasResult(s, i, b, r) || GivesResult(pool, s, Step(s, i, fails), i, b, r)
  {
  }

  lemma OtherResult(s: System, i: nat, j: nat, fails: bool)
    requires Enabled(s, j) && CacheSound(s.cache) && i != j
    ensures var s' := Step(s, j, fails); |s'.calls| == |s.calls| && (i < |s.calls| ==> s'.calls[i] == s.calls[i])
  {
  }

  /** Only a failed check, a failed storage commit or an earlier result gives a result. */
  lemma ResultStep(pool: set<Block>, s: System, s': System, i: nat, b: Block, r: CommitResult)
    requires NumbersRead(s) && CacheSound(s.cache) && (i < |s.calls| ==> CallHolds(pool, s, i))
    requires Goes(pool, s, s') && HasResult(s', i, b, r)
    ensures HasResult(s, i, b, r) || GivesResult(pool, s, s', i, b, r)
  {
    var e :| Next(pool, s, e, s');
    if e.Advance? {
      if e.call == i {
        OwnResult(pool, s, i, e.fails, b, r);
      } else {
        OtherResult(s, i, e.call, e.fails);
      }
    }
  }

  /** Every result of every commit in every run has its reason. */
  lemma {:induction false} ResultsMean(pool: set<Block>, run: seq<System>, i: nat, b: Block, r: CommitResult)
    requires HashFixesNumber(pool) && Run(pool, run) && HasResult(run[|run| - 1], i, b, r)
    ensures Reason(pool, run, i, b, r)
    decreases |run|
  {
    if |run| > 1 {
      var before, s, s' := run[..|run| - 1], run[|run| - 2], run[|run| - 1];
      assert run == before + [s'] && before[|before| - 1] == s;
      assert Goes(pool, s, s');
      EarlierReason(pool, before, s', i, b, r);
      if HasResult(s, i, b, r) {
        ResultsMean(pool, before, i, b, r);
        ReasonLasts(pool, before, s', i, b, r);
      } else {
        LastReason(pool, run, i, b, r);
      }
    }
  }

  lemma EarlierReason(pool: set<Block>, before: seq<System>, s': System, i: nat, b: Block, r: CommitResult)
    requires HashFixesNumber(pool) && Run(pool, before) && Goes(pool, before[|before| - 1], s')
    requires HasResult(s', i, b, r)
    ensures var s := before[|before| - 1]; HasResult(s, i, b, r) || GivesResult(pool, s, s', i, b, r)
  {
    var s := before[|before| - 1];
    RunKeepsInv(pool, before);
    InvNumbersRead(pool, s);
    assert i < |s.calls| ==> CallHolds(pool, s, i);
    ResultStep(pool, s, s', i, b, r);
  }

  lemma LastReason(pool: set<Block>, run: seq<System>, i: nat, b: Block, r: CommitResult)
    requires |run| > 1 && GivesResult(pool, run[|run| - 2], run[|run| - 1], i, b, r)
    ensures Reason(pool, run, i, b, r)
  {
    var k := |run| - 1;
    assert r == ERROR_COMMITTING ==> StorageFailed(pool, run[k - 1], run[k], i, b);
  }
}
