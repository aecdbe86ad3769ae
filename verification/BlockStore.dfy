/** Storing each block once (storageNode.ts, BlockStorage.ts): the consumer of the queues and of peer sync. */
module BlockStore {
  import opened Bytes
  import opened Messages
  import opened Crypto
  import BitUtil
  import BlockChecks
  import Inbox
  import MessageIO
  import Signing
  import Queue = ReplicatedQueue

  /** object, object_shards, object_raw and ts of the blocks table; object_hash is the key. */
  datatype BlockRow = BlockRow(block: Block, shards: set<nat>, raw: Bytes)

  type Blocks = map<Bytes, BlockRow>

  /** INSERT ... ON CONFLICT DO NOTHING. */
  function Inserted(t: Blocks, hash: Bytes, row: BlockRow): Blocks { if hash in t then t else t[hash := row] }

  /** The rows of `between` arrive unless their hash is taken. */
  function Merged(t: Blocks, between: Blocks): Blocks { between + t }

  /** Which of the two statements of a save throws, if it is reached. */
  datatype DbFailure = NoFailure | CheckFails | InsertFails

  /** New iff the hash is neither in the table nor inserted in between. */
  function SaveResult(t: Blocks, between: Blocks, hash: Bytes, failure: DbFailure): Option<bool> {
    if failure == CheckFails then None
    else if hash in t then Some(false)
    else if failure == InsertFails then None
    else Some(hash !in between)
  }

  function SavedBlocks(t: Blocks, between: Blocks, hash: Bytes, row: BlockRow, failure: DbFailure): Blocks {
    if failure == CheckFails || hash in t then t
    else if failure == InsertFails then Merged(t, between)
    else Inserted(Merged(t, between), hash, row)
  }

  class BlockStorage {
    var blocks: Blocks

    constructor ()
      ensures blocks == map[]
    {
      blocks := map[];
    }

    /** Between the existence check and the insert, other calls may have inserted `between`; either statement may
        throw, which is None. */
    method SaveBlockWithShardData(
        mb: Block, calculatedHash: Bytes, shardSet: set<nat>, mbRaw: Bytes, between: Blocks, failure: DbFailure)
      returns (isNew: Option<bool>)
      modifies this
      ensures isNew == SaveResult(old(blocks), between, calculatedHash, failure)
      ensures blocks == SavedBlocks(old(blocks), between, calculatedHash, BlockRow(mb, shardSet, mbRaw), failure)
    {
      if failure == CheckFails {
        return None;
      }
      if calculatedHash in blocks {
        return Some(false);
      }
      blocks := Merged(blocks, between);
      if failure == InsertFails {
        return None;
      }
      var requiresProcessing := calculatedHash !in blocks;
      if requiresProcessing {
        blocks := blocks[calculatedHash := BlockRow(mb, shardSet, mbRaw)];
      }
      return Some(requiresProcessing);
    }

    method GetBulkBlockHashes(blockHash: seq<Bytes>) returns (found: set<Bytes>)
      ensures forall h :: h in found <==> h in blockHash && h in blocks
    {
      found := set h | h in blockHash && h in blocks;
    }

    method GetBlockHashMap(blockHashes: seq<Bytes>) returns (r: map<Bytes, bool>)
      ensures r == map h | h in blockHashes :: h in blocks
    {
      var found := GetBulkBlockHashes(blockHashes);
      r := map[];
      for i := 0 to |blockHashes|
        invariant r == map h | h in blockHashes[..i] :: h in blocks
      {
        r := r[blockHashes[i] := blockHashes[i] in found];
      }
      assert blockHashes[..|blockHashes|] == blockHashes;
    }
  }

  // ---------- one block ----------

  datatype Env = Env(c: Scheme, shardCount: nat, validators: set<Bytes>, valPerBlock: nat) {
    function HashOf(raw: Bytes): Bytes { BitUtil.BytesToBase16(c.sha256(raw)) }

    /** The block passes the storage node's checks and its shards can be calculated. */
    ghost predicate Acceptable(b: Block) {
      && BlockChecks.SNodeAccepts(c, validators, valPerBlock, b)
      && forall i | 0 <= i < |b.txObjs| ::
           b.txObjs[i].tx.Some? && Inbox.TxShardsDefined(c, b.txObjs[i].tx.value, shardCount)
    }

    ghost function RowOf(b: Block, raw: Bytes): BlockRow {
      BlockRow(b, Inbox.AffectedShards(c, b, shardCount), BitUtil.BytesToBase16(raw))
    }

    /** The row a queue item asks to store; None for an item that is ignored or throws. */
    ghost function Storable(item: Queue.Row): Option<BlockRow> {
      match BitUtil.Base16ToBytes(item.payload)
      case None => None
      case Some(raw) =>
        if HashOf(raw) == item.hash && DecodeBlock(raw).Some? && Acceptable(DecodeBlock(raw).value) then
          Some(RowOf(DecodeBlock(raw).value, raw))
        else
          None
    }

    /** The inboxes after a node with these shards unpacks the block, and whether nothing threw. */
    ghost function Unpacks(nodeShards: set<nat>, m: Inbox.Inboxes, b: Block, outcome: nat -> Inbox.PutOutcome)
      : (Inbox.Inboxes, bool)
    {
      if nodeShards == {} then
        (m, false)
      else
        Places(nodeShards, b, outcome).Unpacked(m, b.ts, Inbox.Deliveries(b.txObjs))
    }

    ghost function Places(nodeShards: set<nat>, b: Block, outcome: nat -> Inbox.PutOutcome): Inbox.Placement {
      Inbox.Placement(c, shardCount, Inbox.AffectedShards(c, b, shardCount) * nodeShards, outcome)
    }

    /** One item: nothing changes if storing it fails, if it is not storable, or if its block is known. */
    ghost function ConsumeOne(
      nodeShards: set<nat>, s: Consumer, item: Queue.Row, fails: bool, outcome: nat -> Inbox.PutOutcome): Consumer
    {
      match Storable(item)
      case None => s
      case Some(row) =>
        if fails || item.hash in s.blocks then s
        else Consumer(s.blocks[item.hash := row], Unpacks(nodeShards, s.inboxes, row.block, outcome).0)
    }

    /** `failed(k)`: storing item k throws; `outcomes(k)`: how the upserts of its block end. */
    ghost function Consume(
      nodeShards: set<nat>, s: Consumer, items: seq<Queue.Row>, failed: nat -> bool,
      outcomes: nat -> nat -> Inbox.PutOutcome): Consumer
    {
      if items == [] then
        s
      else
        var n := |items| - 1;
        ConsumeOne(nodeShards, Consume(nodeShards, s, items[..n], failed, outcomes), items[n], failed(n), outcomes(n))
    }
  }

  /** What a consumer of queue items keeps. */
  datatype Consumer = Consumer(blocks: Blocks, inboxes: Inbox.Inboxes)

  datatype Handled = Threw | Returned(isNew: bool)

  datatype Accepted = AcceptThrew | AcceptFalse | AcceptTrue | AcceptUndefined

  class StorageNode {
    const env: Env
    const blockStorage: BlockStorage
    const indexStorage: Inbox.IndexStorage

    ghost predicate Valid() {
      indexStorage.c == env.c && indexStorage.shardCount == env.shardCount
    }

    constructor (env: Env, blockStorage: BlockStorage, indexStorage: Inbox.IndexStorage)
      requires indexStorage.c == env.c && indexStorage.shardCount == env.shardCount
      ensures Valid() && this.env == env && this.blockStorage == blockStorage && this.indexStorage == indexStorage
    {
      this.env, this.blockStorage, this.indexStorage := env, blockStorage, indexStorage;
    }

    /** A missing or empty hash is calculated; one that is given is trusted. */
    method HandleBlock(
        parsedBlock: Block, rawBlock: Bytes, hash: Option<Bytes>, between: Blocks, failure: DbFailure,
        outcome: nat -> Inbox.PutOutcome)
      returns (r: Handled)
      requires Valid()
      modifies blockStorage, indexStorage`inboxes
      ensures (var key := if hash.Some? && hash.value != [] then hash.value else env.HashOf(rawBlock);
        var t, m := old(blockStorage.blocks), old(indexStorage.inboxes);
        var saved := SaveResult(t, between, key, failure);
        if !env.Acceptable(parsedBlock) then
          r == Threw && blockStorage.blocks == t && indexStorage.inboxes == m
        else
          && blockStorage.blocks == SavedBlocks(t, between, key, env.RowOf(parsedBlock, rawBlock), failure)
          && (saved == None ==> r == Threw && indexStorage.inboxes == m)
          && (saved == Some(false) ==> r == Returned(false) && indexStorage.inboxes == m)
          && (saved == Some(true) ==>
               var (inboxes, unpacked) := Unpacks(m, parsedBlock, outcome);
               r == (if unpacked then Returned(true) else Threw) && indexStorage.inboxes == inboxes))
    {
      hide BlockChecks.SNodeAccepts;
      var key := if hash.Some? && hash.value != [] then hash.value else env.HashOf(rawBlock);
      var checkResult := BlockChecks.CheckBlockAsSNode(env.c, env.validators, env.valPerBlock, parsedBlock);
      if !checkResult.Ok? {
        return Threw;
      }
      var shardSet := Inbox.CalculateAffectedShards(env.c, parsedBlock, env.shardCount);
      if shardSet.None? {
        return Threw;
      }
      Inbox.AffectedIsUnique(env.c, parsedBlock, env.shardCount, shardSet.value);
      var isNew := blockStorage.SaveBlockWithShardData(
        parsedBlock, key, shardSet.value, BitUtil.BytesToBase16(rawBlock), between, failure);
      if isNew.None? {
        return Threw;
      }
      if !isNew.value {
        return Returned(false);
      }
      var unpacked := indexStorage.UnpackBlockToInboxes(parsedBlock, shardSet.value, outcome);
      return if unpacked then Returned(true) else Threw;
    }

    ghost function Unpacks(m: Inbox.Inboxes, b: Block, outcome: nat -> Inbox.PutOutcome): (Inbox.Inboxes, bool)
      reads indexStorage
    {
      env.Unpacks(indexStorage.nodeShards, m, b, outcome)
    }

    /** The result of handleBlock is dropped: an item that is stored returns what a known one returns. */
    method Accept(item: Queue.Row, between: Blocks, failure: DbFailure, outcome: nat -> Inbox.PutOutcome)
      returns (r: Accepted)
      requires Valid()
      modifies blockStorage, indexStorage`inboxes
      ensures r != AcceptTrue
      ensures (var mb := BitUtil.Base16ToBytes(item.payload);
        r == AcceptFalse <==> mb.Some? && env.HashOf(mb.value) != item.hash)
      ensures env.Storable(item).None? ==>
        r != AcceptUndefined && blockStorage.blocks == old(blockStorage.blocks)
        && indexStorage.inboxes == old(indexStorage.inboxes)
      ensures env.Storable(item).Some? ==>
        (var t, m, row := old(blockStorage.blocks), old(indexStorage.inboxes), env.Storable(item).value;
         var saved := SaveResult(t, between, item.hash, failure);
         && blockStorage.blocks == SavedBlocks(t, between, item.hash, row, failure)
         && (saved == None ==> r == AcceptThrew && indexStorage.inboxes == m)
         && (saved == Some(false) ==> r == AcceptUndefined && indexStorage.inboxes == m)
         && (saved == Some(true) ==>
              var (inboxes, unpacked) := Unpacks(m, row.block, outcome);
              r == (if unpacked then AcceptUndefined else AcceptThrew) && indexStorage.inboxes == inboxes))
    {
      hide BlockChecks.SNodeAccepts, env.Acceptable, env.Unpacks;
      var mb := BitUtil.Base16ToBytes(item.payload);
      if mb.None? {
        return AcceptThrew;
      }
      if env.HashOf(mb.value) != item.hash {
        return AcceptFalse;
      }
      var parsedBlock := MessageIO.DeserializeFromReader(ApplyBlock, EMPTY_BLOCK, mb.value);
      if parsedBlock.None? {
        return AcceptThrew;
      }
      var handled := HandleBlock(parsedBlock.value, mb.value, Some(item.hash), between, failure, outcome);
      return if handled.Threw? then AcceptThrew else AcceptUndefined;
    }

    /** The consumer's side of a poll: every item is offered once, an error is logged, and the next item follows. */
    method ConsumeItems(items: seq<Queue.Row>, failed: nat -> bool, outcomes: nat -> nat -> Inbox.PutOutcome)
      returns (newItems: nat)
      requires Valid()
      modifies blockStorage, indexStorage`inboxes
      ensures newItems == 0
      ensures Consumer(blockStorage.blocks, indexStorage.inboxes) ==
        env.Consume(indexStorage.nodeShards, old(Consumer(blockStorage.blocks, indexStorage.inboxes)), items, failed,
          outcomes)
    {
      hide env.Storable, env.Unpacks;
      ghost var s := Consumer(blockStorage.blocks, indexStorage.inboxes);
      newItems := 0;
      for k := 0 to |items|
        invariant newItems == 0
        invariant Consumer(blockStorage.blocks, indexStorage.inboxes) ==
          env.Consume(indexStorage.nodeShards, s, items[..k], failed, outcomes)
      {
        var failure := if failed(k) then CheckFails else NoFailure;
        assert items[..k + 1][..k] == items[..k];
        assert Merged(blockStorage.blocks, map[]) == blockStorage.blocks;
        var accepted := Accept(items[k], map[], failure, outcomes(k));
        newItems := newItems + if accepted == AcceptTrue then 1 else 0;
      }
      assert items[..|items|] == items;
    }
  }

  // ---------- many calls at once ----------

  datatype Pc = Checking | Selecting | Inserting | Unpacking | Done(isNew: bool) | Failed(inserted: bool)

  datatype Call = Call(hash: Bytes, row: BlockRow, acceptable: bool, pc: Pc)

  datatype System = System(blocks: Blocks, calls: seq<Call>)

  /** One database statement or one local step of one call. `Break` stands for any error a step may raise. */
  datatype Step = Begin(hash: Bytes, row: BlockRow, acceptable: bool) | Proceed(i: nat) | Break(i: nat)

  function Next(s: System, e: Step): System {
    match e
    case Begin(hash, row, acceptable) => s.(calls := s.calls + [Call(hash, row, acceptable, Checking)])
    case Break(i) =>
      if i >= |s.calls| || s.calls[i].pc.Done? || s.calls[i].pc.Failed? then s
      else s.(calls := s.calls[i := s.calls[i].(pc := Failed(s.calls[i].pc == Unpacking))])
    case Proceed(i) =>
      if i >= |s.calls| then
        s
      else
        var c := s.calls[i];
        match c.pc
        case Checking => s.(calls := s.calls[i := c.(pc := if c.acceptable then Selecting else Failed(false))])
        case Selecting => s.(calls := s.calls[i := c.(pc := if c.hash in s.blocks then Done(false) else Inserting)])
        case Inserting =>
          System(Inserted(s.blocks, c.hash, c.row),
            s.calls[i := c.(pc := if c.hash in s.blocks then Done(false) else Unpacking)])
        case Unpacking => s.(calls := s.calls[i := c.(pc := Done(true))])
        case Done(_) => s
        case Failed(_) => s
  }

  function RunOf(s: System, es: seq<Step>): System {
    if es == [] then s else Next(RunOf(s, es[..|es| - 1]), es[|es| - 1])
  }

  /** The call whose insert stored the row. */
  predicate Inserter(s: System, i: nat) {
    i < |s.calls| && (s.calls[i].pc == Unpacking || s.calls[i].pc == Done(true) || s.calls[i].pc == Failed(true))
  }

  /** Rows of the start are kept, and each later row was stored by exactly one call, an acceptable one. */
  ghost predicate OneInserterEach(start: Blocks, s: System) {
    && (forall h | h in start :: h in s.blocks && s.blocks[h] == start[h])
    && (forall i: nat | Inserter(s, i) ::
         s.calls[i].acceptable && s.calls[i].hash !in start && s.calls[i].hash in s.blocks
         && s.blocks[s.calls[i].hash] == s.calls[i].row)
    && (forall i: nat, j: nat | Inserter(s, i) && Inserter(s, j) && s.calls[i].hash == s.calls[j].hash :: i == j)
    && (forall h | h in s.blocks && h !in start :: exists i: nat :: Inserter(s, i) && s.calls[i].hash == h)
  }

  /** A call past its checks is acceptable, and one that was told the block is not new is right. */
  ghost predicate CallsAreSound(s: System) {
    && (forall i: nat | i < |s.calls| && s.calls[i].pc == Done(false) :: s.calls[i].hash in s.blocks)
    && (forall i: nat | i < |s.calls| && !s.calls[i].pc.Checking? && !s.calls[i].pc.Failed? :: s.calls[i].acceptable)
  }

  ghost predicate OnceEach(start: Blocks, s: System) { OneInserterEach(start, s) && CallsAreSound(s) }

  function WithPc(s: System, i: nat, pc: Pc): System
    requires i < |s.calls|
  {
    s.(calls := s.calls[i := s.calls[i].(pc := pc)])
  }

  // The same rows and the same inserters, perhaps with more calls.
  lemma {:induction false} SameInserters(start: Blocks, s: System, r: System)
    requires OneInserterEach(start, s) && r.blocks == s.blocks && |s.calls| <= |r.calls|
    requires forall k: nat :: Inserter(r, k) == Inserter(s, k)
    requires forall k: nat | k < |s.calls| :: r.calls[k] == s.calls[k].(pc := r.calls[k].pc)
    ensures OneInserterEach(start, r)
  {
    hide Inserter;
    forall k: nat | Inserter(r, k) ensures k < |s.calls| && r.calls[k].hash == s.calls[k].hash {
      InserterInRange(s, k);
    }
    forall h | h in r.blocks && h !in start ensures exists k: nat :: Inserter(r, k) && r.calls[k].hash == h {
      var k: nat :| Inserter(s, k) && s.calls[k].hash == h;
      assert Inserter(r, k) && r.calls[k].hash == h;
    }
  }

  lemma InserterInRange(s: System, k: nat)
    ensures Inserter(s, k) ==> k < |s.calls|
  {
  }

  lemma {:induction false} InsertingStep(start: Blocks, s: System, i: nat)
    requires OneInserterEach(start, s) && i < |s.calls| && s.calls[i].acceptable
    requires s.calls[i].pc == Inserting && s.calls[i].hash !in s.blocks
    ensures OneInserterEach(start, Next(s, Proceed(i)))
  {
    var c := s.calls[i];
    var r := System(s.blocks[c.hash := c.row], s.calls[i := c.(pc := Unpacking)]);
    assert r == Next(s, Proceed(i));
    assert forall k: nat :: Inserter(r, k) == (k == i || Inserter(s, k));
    forall h | h in r.blocks && h !in start ensures exists k: nat :: Inserter(r, k) && r.calls[k].hash == h {
      if h == c.hash {
        assert Inserter(r, i) && r.calls[i].hash == h;
      } else {
        var k: nat :| Inserter(s, k) && s.calls[k].hash == h;
        assert Inserter(r, k) && r.calls[k].hash == h;
      }
    }
  }

  function PcAfter(s: System, e: Step): Pc
    requires !e.Begin? && e.i < |s.calls|
  {
    var c := s.calls[e.i];
    if e.Break? then Failed(c.pc == Unpacking)
    else match c.pc
      case Checking => if c.acceptable then Selecting else Failed(false)
      case Selecting => if c.hash in s.blocks then Done(false) else Inserting
      case Inserting => if c.hash in s.blocks then Done(false) else Unpacking
      case _ => Done(true)
  }

  lemma {:induction false} NextKeepsSound(s: System, e: Step)
    requires CallsAreSound(s)
    ensures CallsAreSound(Next(s, e))
  {
    if !e.Begin? && e.i < |s.calls| && !s.calls[e.i].pc.Done? && !s.calls[e.i].pc.Failed? {
      assert Next(s, e).calls == WithPc(s, e.i, PcAfter(s, e)).calls;
    }
  }

  lemma {:induction false} NextKeepsOnceEach(start: Blocks, s: System, e: Step)
    requires OnceEach(start, s)
    ensures OnceEach(start, Next(s, e))
  {
    NextKeepsSound(s, e);
    NextKeepsInserters(start, s, e);
  }

  lemma {:induction false} NextKeepsInserters(start: Blocks, s: System, e: Step)
    requires OneInserterEach(start, s)
    requires !e.Begin? && e.i < |s.calls| && s.calls[e.i].pc == Inserting ==> s.calls[e.i].acceptable
    ensures OneInserterEach(start, Next(s, e))
  {
    hide OneInserterEach;
    if e.Begin? {
      assert forall k: nat :: Inserter(Next(s, e), k) == Inserter(s, k);
      SameInserters(start, s, Next(s, e));
    } else if e.i < |s.calls| && !s.calls[e.i].pc.Done? && !s.calls[e.i].pc.Failed? {
      var c := s.calls[e.i];
      if e.Proceed? && c.pc == Inserting && c.hash !in s.blocks {
        InsertingStep(start, s, e.i);
      } else {
        assert Next(s, e) == WithPc(s, e.i, PcAfter(s, e));
        assert forall k: nat :: Inserter(Next(s, e), k) == Inserter(s, k);
        SameInserters(start, s, Next(s, e));
      }
    }
  }

  /** Any number of calls, interleaved in any way, with errors anywhere: every row that appears was stored by
      exactly one call, and rows never change. */
  lemma {:induction false} StoredOnce(start: Blocks, es: seq<Step>)
    ensures OnceEach(start, RunOf(System(start, []), es))
  {
    if es != [] {
      StoredOnce(start, es[..|es| - 1]);
      NextKeepsOnceEach(start, RunOf(System(start, []), es[..|es| - 1]), es[|es| - 1]);
    }
  }

  /** Every call for the hash has returned or thrown. */
  predicate Ended(s: System, h: Bytes) {
    forall i: nat | i < |s.calls| && s.calls[i].hash == h :: s.calls[i].pc.Done? || s.calls[i].pc.Failed?
  }

  /** Call i reports a new block, its row is the stored one, and no other call for the hash does so. */
  predicate OnlyNew(s: System, h: Bytes, i: nat) {
    && i < |s.calls| && s.calls[i].hash == h && s.calls[i].pc == Done(true)
    && h in s.blocks && s.blocks[h] == s.calls[i].row
    && forall j: nat | j < |s.calls| && s.calls[j].hash == h && j != i ::
         s.calls[j].pc == Done(false) || s.calls[j].pc == Failed(false)
  }

  predicate NoneFailedInserted(s: System, h: Bytes) {
    forall i: nat | i < |s.calls| && s.calls[i].hash == h :: s.calls[i].pc != Failed(true)
  }

  /** When all calls for a hash have ended, in whatever way: exactly one of them says the block is new iff the block
      is stored, was not before, and no call failed after its insert. */
  lemma {:induction false} ExactlyOneNew(start: Blocks, es: seq<Step>, h: Bytes)
    requires Ended(RunOf(System(start, []), es), h)
    ensures (var s := RunOf(System(start, []), es);
      (exists i: nat :: OnlyNew(s, h, i)) <==> h in s.blocks && h !in start && NoneFailedInserted(s, h))
  {
    var s := RunOf(System(start, []), es);
    StoredOnce(start, es);
    if i: nat :| OnlyNew(s, h, i) {
      assert Inserter(s, i);
    }
    if h in s.blocks && h !in start && NoneFailedInserted(s, h) {
      var i: nat :| Inserter(s, i) && s.calls[i].hash == h;
      forall j: nat | j < |s.calls| && s.calls[j].hash == h && j != i
        ensures s.calls[j].pc == Done(false) || s.calls[j].pc == Failed(false)
      {
        assert !Inserter(s, j);
      }
      assert OnlyNew(s, h, i);
    }
  }

  /** A call that returned leaves its block stored; if the block was there before the run, no call says it is new. */
  lemma {:induction false} ReturnedIsStored(start: Blocks, es: seq<Step>, i: nat)
    requires i < |RunOf(System(start, []), es).calls| && RunOf(System(start, []), es).calls[i].pc.Done?
    ensures (var s := RunOf(System(start, []), es);
      && s.calls[i].hash in s.blocks && s.calls[i].acceptable
      && (s.calls[i].hash in start ==> s.calls[i].pc == Done(false)))
  {
    StoredOnce(start, es);
    var s := RunOf(System(start, []), es);
    assert Inserter(s, i) || s.calls[i].pc == Done(false);
  }

  /** A call that stored the block and then failed to unpack it is the last chance: no other call for that hash
      ever unpacks. */
  lemma {:induction false} FailedUnpackIsNotRetried(start: Blocks, es: seq<Step>, i: nat, j: nat)
    requires (var s := RunOf(System(start, []), es);
      i < |s.calls| && j < |s.calls| && i != j && s.calls[i].hash == s.calls[j].hash && s.calls[i].pc == Failed(true))
    ensures !Inserter(RunOf(System(start, []), es), j)
  {
    StoredOnce(start, es);
    assert Inserter(RunOf(System(start, []), es), i);
  }

  // ---------- a save among other calls ----------

  /** Steps of the other calls only. */
  predicate Others(es: seq<Step>, i: nat) { forall k | 0 <= k < |es| :: es[k].Begin? || es[k].i != i }

  lemma {:induction false} OthersKeepCall(s: System, es: seq<Step>, i: nat)
    requires i < |s.calls| && Others(es, i)
    ensures (var r := RunOf(s, es);
      && i < |r.calls| && r.calls[i] == s.calls[i]
      && forall h | h in s.blocks :: h in r.blocks && r.blocks[h] == s.blocks[h])
  {
    if es != [] {
      OthersKeepCall(s, es[..|es| - 1], i);
    }
  }

  /** One statement of call i, which throws if `fails`. */
  function Statement(i: nat, fails: bool): Step { if fails then Break(i) else Proceed(i) }

  /** The save is the call's two statements with any steps of other calls in between. For a call about to look the hash
      up: when the save returns true the call goes on to unpack, when it returns false the call is done and the block is
      not new, and when it throws the call has failed without having inserted; the tables are the same. What arrived in
      between is what the other calls added. */
  lemma {:induction false} SaveRefinesSteps(s: System, i: nat, es: seq<Step>, failure: DbFailure)
    requires i < |s.calls| && s.calls[i].pc == Selecting && Others(es, i)
    ensures (var c, looked := s.calls[i], Next(s, Statement(i, failure == CheckFails));
      var late := RunOf(looked, es);
      var ended := Next(late, Statement(i, failure == InsertFails));
      var between := late.blocks - s.blocks.Keys;
      var saved, table := SaveResult(s.blocks, between, c.hash, failure),
        SavedBlocks(s.blocks, between, c.hash, c.row, failure);
      && i < |looked.calls| && i < |ended.calls|
      && ended.calls[i].pc ==
           (match saved case None => Failed(false) case Some(false) => Done(false) case Some(true) => Unpacking)
      && table == (if looked.calls[i].pc == Inserting then ended.blocks else looked.blocks))
  {
    var looked := Next(s, Statement(i, failure == CheckFails));
    OthersKeepCall(looked, es, i);
    var late := RunOf(looked, es);
    var between := late.blocks - s.blocks.Keys;
    assert Merged(s.blocks, between) == late.blocks;
  }

  /** Two saves of one hash, the second look-up before the first insert: one of them returns true, the other false. */
  lemma SecondInsertIsNotNew(t: Blocks, hash: Bytes, row: BlockRow)
    requires hash !in t
    ensures (var first := SavedBlocks(t, map[], hash, row, NoFailure);
      && SaveResult(t, map[], hash, NoFailure) == Some(true)
      && SaveResult(t, first - t.Keys, hash, NoFailure) == Some(false))
  {
  }

  // ---------- what a consumer has stored ----------

  ghost predicate HasRow(t: Blocks, h: Bytes, row: BlockRow) { h in t && t[h] == row }

  ghost function AfterItem(env: Env, t: Blocks, item: Queue.Row): Blocks {
    match env.Storable(item) case None => t case Some(row) => Inserted(t, item.hash, row)
  }

  ghost function AfterItems(env: Env, t: Blocks, items: seq<Queue.Row>): Blocks {
    if items == [] then t else AfterItem(env, AfterItems(env, t, items[..|items| - 1]), items[|items| - 1])
  }

  /** The item's text is that of a block under its own hash: signed by the right number of registered nodes, every
      transaction there and, unless it is an INIT_DID, every wallet of it with an address that can be placed. */
  ghost predicate Carries(env: Env, item: Queue.Row, bytes: Bytes) {
    && BitUtil.Base16ToBytes(item.payload) == Some(bytes)
    && item.hash == BitUtil.BytesToBase16(env.c.sha256(bytes))
    && DecodeBlock(bytes).Some?
    && (var b := DecodeBlock(bytes).value;
        && 0 < |b.signers| == env.valPerBlock
        && (forall i: nat | i < |b.signers| ::
              Signing.RecoverSigner(env.c, b, i).Some? && Signing.RecoverSigner(env.c, b, i).value in env.validators)
        && forall i | 0 <= i < |b.txObjs| :: b.txObjs[i].tx.Some? && Placeable(env, b.txObjs[i].tx.value))
  }

  ghost predicate Placeable(env: Env, tx: Transaction) {
    tx.category == [73, 78, 73, 84, 95, 68, 73, 68]
    || forall wallet | wallet == tx.sender || wallet in tx.recipients ::
         Inbox.ShardOf(env.c, wallet, env.shardCount) != Inbox.Throws
  }

  /** Such items are stored and no others, each as the block its bytes read as, with the shards of its wallets and the
      bytes as text. */
  lemma {:induction false} StorableIff(env: Env, item: Queue.Row)
    ensures env.Storable(item).Some? <==> exists bytes: Bytes :: Carries(env, item, bytes)
    ensures forall bytes: Bytes | Carries(env, item, bytes) && env.Storable(item).Some? ::
      (var row := env.Storable(item).value;
       && Some(row.block) == DecodeBlock(bytes) && row.raw == BitUtil.BytesToBase16(bytes)
       && forall s: nat :: (s in row.shards <==>
            exists i | 0 <= i < |row.block.txObjs| && row.block.txObjs[i].tx.Some? ::
              Inbox.TxAffects(env.c, row.block.txObjs[i].tx.value, env.shardCount, s)))
  {
    hide Inbox.ShardOf, Inbox.TxShardsDefined, Inbox.AffectedShards, Signing.RecoverSigner, Inbox.TxAffects;
    var read := BitUtil.Base16ToBytes(item.payload);
    if read.Some? && DecodeBlock(read.value).Some? {
      var b := DecodeBlock(read.value).value;
      AcceptableIff(env, b);
      forall s: nat ensures s in Inbox.AffectedShards(env.c, b, env.shardCount) <==>
        exists i :: 0 <= i < |b.txObjs| && b.txObjs[i].tx.Some?
          && Inbox.TxAffects(env.c, b.txObjs[i].tx.value, env.shardCount, s)
      {
        Inbox.AffectedIff(env.c, b, env.shardCount, s);
      }
      assert env.Storable(item).Some? ==> Carries(env, item, read.value);
    }
  }

  lemma {:induction false} AcceptableIff(env: Env, b: Block)
    ensures env.Acceptable(b) <==>
      && 0 < |b.signers| == env.valPerBlock
      && (forall i: nat | i < |b.signers| ::
            Signing.RecoverSigner(env.c, b, i).Some? && Signing.RecoverSigner(env.c, b, i).value in env.validators)
      && forall i | 0 <= i < |b.txObjs| :: b.txObjs[i].tx.Some? && Placeable(env, b.txObjs[i].tx.value)
  {
    hide Inbox.ShardOf, Signing.RecoverSigner;
    assert forall i: nat {:trigger Signing.RecoverSigner(env.c, b, i)} ::
      (BlockChecks.SignerRegistered(env.c, env.validators, b, i) ==
       (Signing.RecoverSigner(env.c, b, i).Some? && Signing.RecoverSigner(env.c, b, i).value in env.validators));
    forall i | 0 <= i < |b.txObjs| && b.txObjs[i].tx.Some?
      ensures Inbox.TxShardsDefined(env.c, b.txObjs[i].tx.value, env.shardCount) <==>
        Placeable(env, b.txObjs[i].tx.value)
    {
      Inbox.TouchesIff(env.c, b.txObjs[i].tx.value, env.shardCount, 0);
    }
  }

  /** Items with one hash carry one block, whichever validator they come from. */
  lemma SameHashSameRow(env: Env, a: Queue.Row, b: Queue.Row)
    requires env.c.CollisionFree()
    requires a.hash == b.hash && env.Storable(a).Some? && env.Storable(b).Some?
    ensures env.Storable(a) == env.Storable(b)
  {
    hide BlockChecks.SNodeAccepts;
    var x, y := BitUtil.Base16ToBytes(a.payload).value, BitUtil.Base16ToBytes(b.payload).value;
    BitUtil.HexInjective(env.c.sha256(x), env.c.sha256(y));
  }

  /** Some item asks to store the row under the hash. */
  ghost predicate Offers(env: Env, items: seq<Queue.Row>, h: Bytes, row: BlockRow) {
    exists k :: 0 <= k < |items| && items[k].hash == h && env.Storable(items[k]) == Some(row)
  }

  lemma OffersOne(env: Env, items: seq<Queue.Row>, h: Bytes, row: BlockRow)
    requires items != []
    ensures (var n := |items| - 1;
      Offers(env, items, h, row) <==>
        Offers(env, items[..n], h, row) || (items[n].hash == h && env.Storable(items[n]) == Some(row)))
  {
    hide BlockChecks.SNodeAccepts;
    assert forall k | 0 <= k < |items| - 1 :: items[..|items| - 1][k] == items[k];
  }

  /** Items with one hash, when storable, carry one row. */
  ghost predicate Consistent(env: Env, items: seq<Queue.Row>) {
    forall i, j | 0 <= i < |items| && 0 <= j < |items| && items[i].hash == items[j].hash ::
      env.Storable(items[i]).Some? && env.Storable(items[j]).Some? ==> env.Storable(items[i]) == env.Storable(items[j])
  }

  lemma CollisionFreeIsConsistent(env: Env, items: seq<Queue.Row>)
    requires env.c.CollisionFree()
    ensures Consistent(env, items)
  {
    forall i, j | 0 <= i < |items| && 0 <= j < |items| && items[i].hash == items[j].hash
      && env.Storable(items[i]).Some? && env.Storable(items[j]).Some?
      ensures env.Storable(items[i]) == env.Storable(items[j])
    {
      SameHashSameRow(env, items[i], items[j]);
    }
  }

  lemma OffersAgree(env: Env, items: seq<Queue.Row>, h: Bytes, a: BlockRow, b: BlockRow)
    requires Consistent(env, items) && Offers(env, items, h, a) && Offers(env, items, h, b)
    ensures a == b
  {
    hide env.Storable;
    var i :| 0 <= i < |items| && items[i].hash == h && env.Storable(items[i]) == Some(a);
    var j :| 0 <= j < |items| && items[j].hash == h && env.Storable(items[j]) == Some(b);
  }

  lemma InsertedHas(t: Blocks, hash: Bytes, added: BlockRow, h: Bytes, row: BlockRow)
    ensures HasRow(Inserted(t, hash, added), h, row) <==> HasRow(t, h, row) || (h == hash && h !in t && row == added)
  {
  }

  /** The stored rows are those of the start, and under every other hash the row that some item offers. */
  lemma {:induction false} StoredIffOffered(env: Env, t: Blocks, items: seq<Queue.Row>, h: Bytes, row: BlockRow)
    requires Consistent(env, items)
    ensures HasRow(AfterItems(env, t, items), h, row) <==>
      if h in t then HasRow(t, h, row) else Offers(env, items, h, row)
  {
    hide Offers, env.Storable, Inserted;
    if items == [] {
      NothingOffered(env, h, row);
    } else {
      var n := |items| - 1;
      var before, item := AfterItems(env, t, items[..n]), items[n];
      assert Consistent(env, items[..n]);
      StoredIffOffered(env, t, items[..n], h, row);
      OffersOne(env, items, h, row);
      if env.Storable(item).Some? {
        InsertedHas(before, item.hash, env.Storable(item).value, h, row);
        if h in t {
          StoredIffOffered(env, t, items[..n], h, t[h]);
        } else if h in before {
          StoredIffOffered(env, t, items[..n], h, before[h]);
          OffersOne(env, items, h, before[h]);
          if Offers(env, items, h, row) {
            OffersAgree(env, items, h, row, before[h]);
          }
        }
      }
    }
  }

  lemma NothingOffered(env: Env, h: Bytes, row: BlockRow)
    ensures !Offers(env, [], h, row)
  {
  }

  /** The table depends on which items arrive, not on their order, their number or the queue they come from. */
  lemma {:induction false} OrderAndRepetitionDoNotMatter(env: Env, t: Blocks, a: seq<Queue.Row>, b: seq<Queue.Row>)
    requires env.c.CollisionFree()
    requires forall x :: x in a <==> x in b
    ensures AfterItems(env, t, a) == AfterItems(env, t, b)
  {
    CollisionFreeIsConsistent(env, a);
    CollisionFreeIsConsistent(env, b);
    hide AfterItems, Offers, Consistent;
    var p, q := AfterItems(env, t, a), AfterItems(env, t, b);
    forall h: Bytes, row: BlockRow ensures HasRow(p, h, row) <==> HasRow(q, h, row) {
      StoredIffOffered(env, t, a, h, row);
      StoredIffOffered(env, t, b, h, row);
      SameOffers(env, a, b, h, row);
      SameOffers(env, b, a, h, row);
    }
    SameRows(p, q);
  }

  lemma SameRows(p: Blocks, q: Blocks)
    requires forall h: Bytes, row: BlockRow :: HasRow(p, h, row) <==> HasRow(q, h, row)
    ensures p == q
  {
    forall h: Bytes ensures (h in p <==> h in q) && (h in p ==> p[h] == q[h]) {
      if h in p {
        assert HasRow(p, h, p[h]);
      }
      if h in q {
        assert HasRow(q, h, q[h]);
      }
    }
  }

  lemma {:induction false} SameOffers(env: Env, a: seq<Queue.Row>, b: seq<Queue.Row>, h: Bytes, row: BlockRow)
    requires forall x | x in a :: x in b
    ensures Offers(env, a, h, row) ==> Offers(env, b, h, row)
  {
    if Offers(env, a, h, row) {
      var k :| 0 <= k < |a| && a[k].hash == h && env.Storable(a[k]) == Some(row);
      assert a[k] in b;
      var j :| 0 <= j < |b| && b[j] == a[k];
    }
  }

  // ---------- items whose storing fails ----------

  /** The items that did not fail. */
  function Kept(items: seq<Queue.Row>, failed: nat -> bool): seq<Queue.Row> {
    if items == [] then
      []
    else
      var n := |items| - 1;
      Kept(items[..n], failed) + (if failed(n) then [] else [items[n]])
  }

  /** The table of a consumer is that of the items which did not fail. */
  lemma {:induction false} ConsumedBlocks(
      env: Env, nodeShards: set<nat>, s: Consumer, items: seq<Queue.Row>, failed: nat -> bool,
      outcomes: nat -> nat -> Inbox.PutOutcome)
    ensures env.Consume(nodeShards, s, items, failed, outcomes).blocks == AfterItems(env, s.blocks, Kept(items, failed))
  {
    hide env.Storable, env.Unpacks;
    if items != [] {
      var n := |items| - 1;
      ConsumedBlocks(env, nodeShards, s, items[..n], failed, outcomes);
      var kept := Kept(items[..n], failed);
      assert (kept + [items[n]])[..|kept|] == kept;
      assert kept + [] == kept;
    }
  }

  lemma {:induction false} KeptMember(items: seq<Queue.Row>, failed: nat -> bool, x: Queue.Row)
    ensures x in Kept(items, failed) <==> exists k: nat :: k < |items| && items[k] == x && !failed(k)
  {
    if items != [] {
      var rest := items[..|items| - 1];
      KeptMember(rest, failed, x);
      assert forall k | 0 <= k < |rest| :: rest[k] == items[k];
    }
  }

  /** Some item with the hash can be stored and did not fail. */
  ghost predicate Survives(env: Env, items: seq<Queue.Row>, failed: nat -> bool, h: Bytes) {
    exists k: nat :: k < |items| && items[k].hash == h && env.Storable(items[k]).Some? && !failed(k)
  }

  lemma NoneSurvives(env: Env, failed: nat -> bool, h: Bytes)
    ensures !Survives(env, [], failed, h)
  {
  }

  lemma SurvivesOne(env: Env, items: seq<Queue.Row>, failed: nat -> bool, h: Bytes)
    requires items != []
    ensures (var n := |items| - 1;
      Survives(env, items, failed, h) <==>
        || Survives(env, items[..n], failed, h)
        || (items[n].hash == h && env.Storable(items[n]).Some? && !failed(n)))
  {
    hide env.Storable;
    assert forall k | 0 <= k < |items| - 1 :: items[..|items| - 1][k] == items[k];
  }

  lemma {:induction false} HashStoredIff(env: Env, t: Blocks, items: seq<Queue.Row>, failed: nat -> bool, h: Bytes)
    ensures h in AfterItems(env, t, Kept(items, failed)) <==> h in t || Survives(env, items, failed, h)
  {
    hide env.Storable, Survives;
    if items == [] {
      NoneSurvives(env, failed, h);
    } else {
      var n := |items| - 1;
      var kept := Kept(items[..n], failed);
      HashStoredIff(env, t, items[..n], failed, h);
      SurvivesOne(env, items, failed, h);
      assert (kept + [items[n]])[..|kept|] == kept;
      assert kept + [] == kept;
    }
  }

  /** From a validator's queue to the table, with storing failing at any items. Once the offset has passed a row, its
      item was handed over; its block is stored iff it was before, or some item handed over that offers its hash did
      not fail. */
  lemma {:induction false} ReplicatedRowsAreStored(
      env: Env, t: Blocks, s: Queue.Cluster, es: seq<Queue.Event>, pageSize: nat, start: int, r: Queue.Row,
      failed: nat -> bool)
    requires pageSize > 0 && Queue.Replicated(s, start)
    requires (var e := Queue.Run(s, es, pageSize); r in e.rows && start < r.id <= e.offset)
    ensures (var items := Queue.Run(s, es, pageSize).delivered;
      var stored := AfterItems(env, t, Kept(items, failed));
      && r in items
      && (r.hash in stored <==> r.hash in t || Survives(env, items, failed, r.hash))
      && (r in Kept(items, failed) && env.Storable(r).Some? ==> r.hash in stored)
      && (env.c.CollisionFree() && r.hash in stored && r.hash !in t && env.Storable(r).Some? ==>
           Some(stored[r.hash]) == env.Storable(r)))
  {
    hide AfterItems, Consistent, env.Storable;
    var e := Queue.Run(s, es, pageSize);
    var kept := Kept(e.delivered, failed);
    Queue.ReplicationIsExact(s, es, pageSize, start);
    Queue.BetweenMember(e.rows, start, e.offset, r);
    HashStoredIff(env, t, e.delivered, failed, r.hash);
    if r in kept {
      KeptMember(e.delivered, failed, r);
    }
    var stored := AfterItems(env, t, kept);
    if env.c.CollisionFree() && r.hash in stored && r.hash !in t && env.Storable(r).Some? {
      CollisionFreeIsConsistent(env, kept);
      StoredIffOffered(env, t, kept, r.hash, stored[r.hash]);
      var k :| 0 <= k < |kept| && kept[k].hash == r.hash && env.Storable(kept[k]) == Some(stored[r.hash]);
      SameHashSameRow(env, kept[k], r);
    }
  }

  /** A row whose item failed is lost to this queue. The offset has passed it, so however the run goes on it is never
      handed over again; if no other row of the queue has its hash and its block was not stored before, it never is. */
  lemma {:induction false} FailedRowIsLost(
      env: Env, t: Blocks, s: Queue.Cluster, es: seq<Queue.Event>, more: seq<Queue.Event>, pageSize: nat, start: int,
      k: nat, failed: nat -> bool)
    requires pageSize > 0 && Queue.Replicated(s, start)
    requires k < |Queue.Run(s, es, pageSize).delivered| && failed(k)
    ensures (var e, later := Queue.Run(s, es, pageSize), Queue.Run(s, es + more, pageSize);
      var r := e.delivered[k];
      && k < |later.delivered| && later.delivered[k] == r
      && (forall j | 0 <= j < |later.delivered| && later.delivered[j] == r :: j == k)
      && (r.hash !in t && (forall x | x in later.rows && x.hash == r.hash :: x == r) ==>
           r.hash !in AfterItems(env, t, Kept(later.delivered, failed))))
  {
    hide AfterItems, env.Storable;
    var e, later := Queue.Run(s, es, pageSize), Queue.Run(s, es + more, pageSize);
    var r := e.delivered[k];
    Queue.RunContinues(s, es, more, pageSize);
    Queue.ReplicationIsExact(s, es + more, pageSize, start);
    forall j | 0 <= j < |later.delivered| && later.delivered[j] == r ensures j == k {
      Queue.IncreasingOnce(later.delivered, j, k);
    }
    if r.hash !in t && (forall x | x in later.rows && x.hash == r.hash :: x == r) {
      HashStoredIff(env, t, later.delivered, failed, r.hash);
      forall j: nat | j < |later.delivered| && later.delivered[j].hash == r.hash ensures failed(j) {
        Queue.BetweenMember(later.rows, start, later.offset, later.delivered[j]);
        assert later.delivered[j] in later.delivered;
      }
    }
  }

  // ---------- from the queue to the inboxes ----------

  /** The row under the key holds the transaction. */
  ghost predicate Holds(p: Inbox.Placement, m: Inbox.Inboxes, key: Inbox.InboxKey, tx: Transaction) {
    key in m && m[key].payload == p.PayloadOf(tx)
  }

  // Unpacking another block keeps the row, whether it throws or not.
  lemma HoldsOn(
      env: Env, nodeShards: set<nat>, p: Inbox.Placement, m: Inbox.Inboxes, key: Inbox.InboxKey, tx: Transaction,
      b: Block, outcome: nat -> Inbox.PutOutcome)
    requires env.c.CollisionFree() && env.c.Injective() && p.c == env.c
    requires Holds(p, m, key, tx) && key.txHash == p.TxHash(tx)
    ensures Holds(p, env.Unpacks(nodeShards, m, b, outcome).0, key, tx)
  {
    if nodeShards != {} {
      var q := env.Places(nodeShards, b, outcome);
      hide q.Unpacked, Inbox.Deliveries, Inbox.AffectedShards;
      Inbox.PayloadStays(q, m, b.ts, Inbox.Deliveries(b.txObjs), key, tx);
    }
  }

  lemma {:induction false} HoldsToTheEnd(
      env: Env, nodeShards: set<nat>, s: Consumer, items: seq<Queue.Row>, failed: nat -> bool,
      outcomes: nat -> nat -> Inbox.PutOutcome, k: nat, p: Inbox.Placement, key: Inbox.InboxKey, tx: Transaction)
    requires env.c.CollisionFree() && env.c.Injective() && p.c == env.c && key.txHash == p.TxHash(tx)
    requires k <= |items|
    requires Holds(p, env.Consume(nodeShards, s, items[..k], failed, outcomes).inboxes, key, tx)
    ensures Holds(p, env.Consume(nodeShards, s, items, failed, outcomes).inboxes, key, tx)
    decreases |items|
  {
    hide env.Storable, env.Unpacks, Holds;
    if k == |items| {
      assert items[..k] == items;
    } else {
      var n := |items| - 1;
      assert items[..n][..k] == items[..k];
      HoldsToTheEnd(env, nodeShards, s, items[..n], failed, outcomes, k, p, key, tx);
      if env.Storable(items[n]).Some? {
        HoldsOn(env, nodeShards, p, env.Consume(nodeShards, s, items[..n], failed, outcomes).inboxes, key, tx,
          env.Storable(items[n]).value.block, outcomes(n));
      }
    }
  }

  /** Item k is the one that stores its block, and its block is unpacked without an error. */
  ghost predicate DeliveredBy(
    env: Env, nodeShards: set<nat>, s: Consumer, items: seq<Queue.Row>, failed: nat -> bool,
    outcomes: nat -> nat -> Inbox.PutOutcome, k: nat)
  {
    && k < |items| && !failed(k) && nodeShards != {} && env.Storable(items[k]).Some?
    && (var before := env.Consume(nodeShards, s, items[..k], failed, outcomes);
        && items[k].hash !in before.blocks
        && env.Unpacks(nodeShards, before.inboxes, env.Storable(items[k]).value.block, outcomes(k)).1)
  }

  /** From the items of a queue to the inboxes: once an item has stored its block and the block is unpacked, every
      sender or recipient of its transactions whose shard the node owns has its row, holding the transaction, whatever
      items follow. */
  lemma {:induction false} DeliveredWalletsKeepRows(
      env: Env, nodeShards: set<nat>, s: Consumer, items: seq<Queue.Row>, failed: nat -> bool,
      outcomes: nat -> nat -> Inbox.PutOutcome, k: nat, i: nat, wallet: Bytes, shard: nat)
    requires env.c.CollisionFree() && env.c.Injective()
    requires DeliveredBy(env, nodeShards, s, items, failed, outcomes, k)
    requires (var b := env.Storable(items[k]).value.block;
      && i < |b.txObjs| && b.txObjs[i].tx.Some?
      && (wallet == b.txObjs[i].tx.value.sender || wallet in b.txObjs[i].tx.value.recipients))
    requires Inbox.ShardOf(env.c, wallet, env.shardCount) == Inbox.Shard(shard) && shard in nodeShards
    ensures (var tx := env.Storable(items[k]).value.block.txObjs[i].tx.value;
      var hash := BitUtil.BytesToBase16(env.c.sha256(env.c.txBytes(tx)));
      var key := Inbox.InboxKey(tx.category, shard, wallet, hash);
      var m := env.Consume(nodeShards, s, items, failed, outcomes).inboxes;
      key in m && m[key].payload == Inbox.Payload(
        tx.txType, tx.category, tx.sender, tx.recipients, BitUtil.BytesToBase16(tx.data), hash))
  {
    hide env.Storable, env.Consume, Inbox.ShardOf;
    var b := env.Storable(items[k]).value.block;
    var tx, p := b.txObjs[i].tx.value, env.Places(nodeShards, b, outcomes(k));
    var before := env.Consume(nodeShards, s, items[..k], failed, outcomes);
    var key := p.KeyOf(Inbox.Delivery(tx, wallet), shard);
    Inbox.RowIs(p, tx, wallet, shard);
    Inbox.OwnedWalletsGetRows(p, b, nodeShards, before.inboxes, i, wallet, shard);
    AfterDelivery(env, nodeShards, s, items, failed, outcomes, k);
    HoldsToTheEnd(env, nodeShards, s, items, failed, outcomes, k + 1, p, key, tx);
  }

  lemma AfterDelivery(
      env: Env, nodeShards: set<nat>, s: Consumer, items: seq<Queue.Row>, failed: nat -> bool,
      outcomes: nat -> nat -> Inbox.PutOutcome, k: nat)
    requires DeliveredBy(env, nodeShards, s, items, failed, outcomes, k)
    ensures (var before := env.Consume(nodeShards, s, items[..k], failed, outcomes);
      env.Consume(nodeShards, s, items[..k + 1], failed, outcomes).inboxes ==
        env.Unpacks(nodeShards, before.inboxes, env.Storable(items[k]).value.block, outcomes(k)).0)
  {
    hide env.Storable, env.Unpacks;
    assert items[..k + 1][..k] == items[..k];
  }
}
