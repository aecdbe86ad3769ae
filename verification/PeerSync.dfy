/** Copying blocks from peers (blockPolling.ts): the loop of one client and one pass over all shards, whatever the
    peers answer. */
module PeerSync {
  import opened Bytes
  import opened ListUtil
  import opened Messages
  import opened SyncStatus
  import BitUtil
  import BlockStore
  import Inbox
  import MessageIO
  import Queue = ReplicatedQueue

  /** The row holds the text of some bytes under their hash. */
  ghost predicate HonestRow(env: BlockStore.Env, hash: Bytes, raw: Bytes) {
    && BitUtil.Base16ToBytes(raw).Some?
    && raw == BitUtil.BytesToBase16(BitUtil.Base16ToBytes(raw).value)
    && hash == env.HashOf(BitUtil.Base16ToBytes(raw).value)
  }

  // ---------- one client ----------

  /** The result of a call to a peer: a list, an error object in place of it, or an error thrown by the call. */
  datatype Reply = List(items: seq<Bytes>) | ErrorObject | NoAnswer

  /** A peer answers as it likes: page requests by turn of the client's loop, shard and page, requests for full blocks
      by turn, shard and hashes. */
  datatype Peer = Peer(page: (nat, nat, nat) -> Reply, blocks: (nat, nat, seq<Bytes>) -> Reply)

  /** One raw block of a reply: it is stored under the hash of its own bytes, if it can be read and is accepted. */
  ghost function AfterRaw(env: BlockStore.Env, t: BlockStore.Blocks, raw: Bytes): BlockStore.Blocks {
    match BitUtil.Base16ToBytes(raw)
    case None => t
    case Some(bytes) => BlockStore.AfterItem(env, t, Queue.Row(1, raw, env.HashOf(bytes)))
  }

  ghost function AfterRaws(env: BlockStore.Env, t: BlockStore.Blocks, raws: seq<Bytes>): BlockStore.Blocks {
    if raws == [] then t else AfterRaw(env, AfterRaws(env, t, raws[..|raws| - 1]), raws[|raws| - 1])
  }

  function Missing(t: set<Bytes>, hashes: seq<Bytes>): seq<Bytes> {
    if hashes == [] then
      []
    else
      var h := hashes[|hashes| - 1];
      Missing(t, hashes[..|hashes| - 1]) + (if h in t then [] else [h])
  }

  /** What is missing is found hash by hash. */
  lemma {:induction false} MissingInOrder(t: set<Bytes>, a: seq<Bytes>, b: seq<Bytes>, h: Bytes)
    ensures Missing(t, a + b) == Missing(t, a) + Missing(t, b)
    ensures Missing(t, [h]) == if h in t then [] else [h]
  {
    assert [h][..0] == [];
    if b == [] {
      assert a + b == a;
    } else {
      assert (a + b)[..|a + b| - 1] == a + b[..|b| - 1];
      MissingInOrder(t, a, b[..|b| - 1], h);
    }
  }

  /** `ended`: a page came back empty. */
  datatype ClientResult = ClientResult(blocks: BlockStore.Blocks, page: nat, requests: nat, ended: bool)

  /** The client's loop from turn i on. The peer answers no page request after the first `limit`; every run that ends
      has such a limit. */
  ghost function ClientRun(
      env: BlockStore.Env, t: BlockStore.Blocks, peer: Peer, shard: nat, page: nat, i: nat, limit: nat): ClientResult
    decreases limit - i
  {
    var reply := if i < limit then peer.page(i, shard, page) else NoAnswer;
    if reply.NoAnswer? then
      ClientResult(t, page, i + 1, false)
    else if reply.ErrorObject? || reply.items == [] then
      ClientResult(t, page, i + 1, true)
    else
      var missing := Missing(t.Keys, reply.items);
      if missing == [] then
        ClientRun(env, t, peer, shard, page + 1, i + 1, limit)
      else
        match peer.blocks(i, shard, missing)
        case List(raws) => ClientRun(env, AfterRaws(env, t, raws), peer, shard, page + 1, i + 1, limit)
        case _ => ClientResult(t, page, i + 1, false)
  }

  /** The turns of the loop. An empty page or an error object in its place ends it and leaves the page as it is; a page
      request that fails, or a request for blocks that does not give a list, breaks it off; any other turn stores what
      came and goes on with the next page, without asking for blocks if none is missing. */
  lemma TurnsOfLoop(
      env: BlockStore.Env, t: BlockStore.Blocks, peer: Peer, shard: nat, page: nat, i: nat, limit: nat)
    ensures i >= limit || peer.page(i, shard, page) == NoAnswer ==>
      ClientRun(env, t, peer, shard, page, i, limit) == ClientResult(t, page, i + 1, false)
    ensures i < limit && peer.page(i, shard, page) in {ErrorObject, List([])} ==>
      ClientRun(env, t, peer, shard, page, i, limit) == ClientResult(t, page, i + 1, true)
    ensures forall hashes: seq<Bytes> | i < limit && peer.page(i, shard, page) == List(hashes) && hashes != [] ::
      (var missing := Missing(t.Keys, hashes);
       ClientRun(env, t, peer, shard, page, i, limit) ==
         if missing == [] then
           ClientRun(env, t, peer, shard, page + 1, i + 1, limit)
         else if peer.blocks(i, shard, missing).List? then
           ClientRun(env, AfterRaws(env, t, peer.blocks(i, shard, missing).items), peer, shard, page + 1, i + 1, limit)
         else
           ClientResult(t, page, i + 1, false))
  {
    hide AfterRaws, Missing;
  }

  /** The row is a block this node accepts, kept as the text of its bytes under their hash. */
  ghost predicate GoodRow(env: BlockStore.Env, h: Bytes, row: BlockStore.BlockRow) {
    exists bytes: Bytes ::
      && h == env.HashOf(bytes) && DecodeBlock(bytes).Some? && env.Acceptable(DecodeBlock(bytes).value)
      && row == env.RowOf(DecodeBlock(bytes).value, bytes)
  }

  /** Old rows stay, and every new one is good. */
  ghost predicate SafeGrowth(env: BlockStore.Env, t: BlockStore.Blocks, after: BlockStore.Blocks) {
    && (forall h | h in t :: h in after && after[h] == t[h])
    && (forall h | h in after && h !in t :: GoodRow(env, h, after[h]))
  }

  lemma SafeTwice(env: BlockStore.Env, a: BlockStore.Blocks, b: BlockStore.Blocks, c: BlockStore.Blocks)
    requires SafeGrowth(env, a, b) && SafeGrowth(env, b, c)
    ensures SafeGrowth(env, a, c)
  {
    hide GoodRow;
  }

  lemma {:induction false} AfterRawIsSafe(env: BlockStore.Env, t: BlockStore.Blocks, raw: Bytes)
    ensures SafeGrowth(env, t, AfterRaw(env, t, raw))
  {
    hide env.Acceptable;
    var bytes := BitUtil.Base16ToBytes(raw);
    if bytes.Some? {
      var h, item := env.HashOf(bytes.value), Queue.Row(1, raw, env.HashOf(bytes.value));
      if env.Storable(item).Some? {
        assert GoodRow(env, h, env.Storable(item).value);
      }
    }
  }

  lemma {:induction false} AfterRawsIsSafe(env: BlockStore.Env, t: BlockStore.Blocks, raws: seq<Bytes>)
    ensures SafeGrowth(env, t, AfterRaws(env, t, raws))
  {
    hide GoodRow, AfterRaw;
    if raws != [] {
      var before := AfterRaws(env, t, raws[..|raws| - 1]);
      AfterRawsIsSafe(env, t, raws[..|raws| - 1]);
      AfterRawIsSafe(env, before, raws[|raws| - 1]);
      SafeTwice(env, t, before, AfterRaw(env, before, raws[|raws| - 1]));
    }
  }

  /** Whatever a peer answers, in whatever turns: old rows stay, and each new row is an acceptable block kept as the
      text of its bytes under their hash. */
  lemma {:induction false} ClientRunIsSafe(
      env: BlockStore.Env, t: BlockStore.Blocks, peer: Peer, shard: nat, page: nat, i: nat, limit: nat)
    ensures SafeGrowth(env, t, ClientRun(env, t, peer, shard, page, i, limit).blocks)
    decreases limit - i
  {
    hide GoodRow, AfterRaws;
    var reply := if i < limit then peer.page(i, shard, page) else NoAnswer;
    if reply.List? && reply.items != [] {
      var missing := Missing(t.Keys, reply.items);
      if missing == [] {
        ClientRunIsSafe(env, t, peer, shard, page + 1, i + 1, limit);
      } else if peer.blocks(i, shard, missing).List? {
        var next := AfterRaws(env, t, peer.blocks(i, shard, missing).items);
        AfterRawsIsSafe(env, t, peer.blocks(i, shard, missing).items);
        ClientRunIsSafe(env, next, peer, shard, page + 1, i + 1, limit);
        SafeTwice(env, t, next, ClientRun(env, next, peer, shard, page + 1, i + 1, limit).blocks);
      }
    }
  }

  lemma {:induction false} GoodRowIsHonest(env: BlockStore.Env, h: Bytes, row: BlockStore.BlockRow)
    requires GoodRow(env, h, row)
    ensures HonestRow(env, h, row.raw)
  {
    hide env.Acceptable;
    var bytes: Bytes :| h == env.HashOf(bytes) && DecodeBlock(bytes).Some? && env.Acceptable(DecodeBlock(bytes).value)
      && row == env.RowOf(DecodeBlock(bytes).value, bytes);
    BitUtil.HexRoundTrip(bytes);
  }

  class BlockPolling {
    const storageNode: BlockStore.StorageNode

    constructor (storageNode: BlockStore.StorageNode)
      ensures this.storageNode == storageNode
    {
      this.storageNode := storageNode;
    }

    /** One entry of the reply with full blocks; a block that cannot be read or is refused is logged and dropped. */
    method StoreBlock(raw: Bytes)
      requires storageNode.Valid()
      modifies storageNode.blockStorage, storageNode.indexStorage`inboxes
      ensures storageNode.blockStorage.blocks == AfterRaw(storageNode.env, old(storageNode.blockStorage.blocks), raw)
    {
      hide storageNode.env.Acceptable;
      var blockBytes := BitUtil.Base16ToBytes(raw);
      if blockBytes.None? {
        return;
      }
      var parsedBlock := MessageIO.DeserializeFromReader(ApplyBlock, EMPTY_BLOCK, blockBytes.value);
      if parsedBlock.None? {
        return;
      }
      var outcome: nat -> Inbox.PutOutcome := *;
      var _ := storageNode.HandleBlock(parsedBlock.value, blockBytes.value, None, map[], BlockStore.NoFailure, outcome);
      assert BlockStore.Merged(old(storageNode.blockStorage.blocks), map[]) == old(storageNode.blockStorage.blocks);
    }

    method StoreBlocks(fullBlocks: seq<Bytes>)
      requires storageNode.Valid()
      modifies storageNode.blockStorage, storageNode.indexStorage`inboxes
      ensures storageNode.blockStorage.blocks ==
        AfterRaws(storageNode.env, old(storageNode.blockStorage.blocks), fullBlocks)
    {
      hide AfterRaw;
      for i := 0 to |fullBlocks|
        invariant storageNode.blockStorage.blocks ==
          AfterRaws(storageNode.env, old(storageNode.blockStorage.blocks), fullBlocks[..i])
      {
        StoreBlock(fullBlocks[i]);
        assert fullBlocks[..i + 1][..i] == fullBlocks[..i];
      }
      assert fullBlocks[..|fullBlocks|] == fullBlocks;
    }

    method MissingHashes(blockHashes: seq<Bytes>) returns (missing: seq<Bytes>)
      ensures missing == Missing(storageNode.blockStorage.blocks.Keys, blockHashes)
    {
      var blockHashesRes := storageNode.blockStorage.GetBulkBlockHashes(blockHashes);
      missing := [];
      for i := 0 to |blockHashes|
        invariant missing == Missing(storageNode.blockStorage.blocks.Keys, blockHashes[..i])
      {
        assert blockHashes[..i + 1][..i] == blockHashes[..i];
        assert blockHashes[i] in blockHashes;
        if blockHashes[i] !in blockHashesRes {
          missing := missing + [blockHashes[i]];
        }
      }
      assert blockHashes[..|blockHashes|] == blockHashes;
    }

    /** The loop of one client, whatever its peer answers. */
    method ProcessClient(client: StorageSyncClient, shardId: nat, peer: Peer, limit: nat)
      returns (requests: nat, recorded: bool)
      requires storageNode.Valid()
      modifies storageNode.blockStorage, storageNode.indexStorage`inboxes
      modifies client, client.table`rows, client.table`pages
      ensures (var run := ClientRun(storageNode.env, old(storageNode.blockStorage.blocks), peer, shardId,
          old(client.lastSyncedPageNumber), 0, limit);
        && storageNode.blockStorage.blocks == run.blocks
        && client.lastSyncedPageNumber == run.page && requests == run.requests
        && client.table.rows == (if run.ended
             then Recorded(old(client.table.rows), client.viewName, |client.shards|, shardId)
             else old(client.table.rows))
        && (recorded <==> run.ended && client.viewName in old(client.table.rows)))
      ensures SafeGrowth(storageNode.env, old(storageNode.blockStorage.blocks), storageNode.blockStorage.blocks)
    {
      hide AfterRaws, SafeGrowth, Missing;
      ghost var env, t := storageNode.env, storageNode.blockStorage.blocks;
      ghost var run := ClientRun(env, t, peer, shardId, client.lastSyncedPageNumber, 0, limit);
      ClientRunIsSafe(env, t, peer, shardId, client.lastSyncedPageNumber, 0, limit);
      requests := 0;
      while true
        invariant requests <= limit && client.table.rows == old(client.table.rows)
        invariant run ==
          ClientRun(env, storageNode.blockStorage.blocks, peer, shardId, client.lastSyncedPageNumber, requests, limit)
        decreases limit - requests
      {
        var reply := if requests < limit then peer.page(requests, shardId, client.lastSyncedPageNumber) else NoAnswer;
        if reply.NoAnswer? {
          return requests + 1, false;
        }
        var blockHashes := if reply.List? then reply.items else [];
        if |blockHashes| == 0 {
          recorded := client.UpdateAlreadySyncedShards(shardId);
          if recorded {
            client.UpdateLastSyncedPageNumber(client.lastSyncedPageNumber);
          }
          return requests + 1, recorded;
        }
        var missingBlockHashes := MissingHashes(blockHashes);
        if |missingBlockHashes| > 0 {
          var fullBlocks := peer.blocks(requests, shardId, missingBlockHashes);
          if !fullBlocks.List? {
            return requests + 1, false;
          }
          StoreBlocks(fullBlocks.items);
        }
        requests := requests + 1;
        client.UpdateLastSyncedPageNumber(client.lastSyncedPageNumber + 1);
      }
    }

    /** One pass from rows read afresh: `jobs` is the order in which clients and shards were served. */
    method InitiatePooling(table: SyncTable, syncInfo: seq<ClientInit>, net: Net) returns (ghost jobs: seq<Finished>)
      requires storageNode.Valid() && NumberedRows(syncInfo)
      modifies storageNode.blockStorage, storageNode.indexStorage`inboxes, table
      ensures ServesEach(syncInfo, jobs)
      ensures Served(table, old(storageNode.blockStorage.blocks), old(table.rows), net, jobs)
      ensures SafeGrowth(storageNode.env, old(storageNode.blockStorage.blocks), storageNode.blockStorage.blocks)
    {
      hide ServesEach, SafeGrowth, Pass, Listed, RecordedText, Served, JobsFor, RecordAll;
      ghost var t, was := storageNode.blockStorage.blocks, table.rows;
      var nodeMap := ConstructNodeShardMap(syncInfo);
      var order, clients := nodeMap.order, nodeMap.clients;
      OrderIsNumbered(syncInfo, clients, order);
      jobs := [];
      NothingServed(table, net);
      for k := 0 to |order|
        invariant Served(table, t, was, net, jobs)
        invariant jobs == JobsOf(clients, order[..k])
      {
        ServeShard(table, order[k].n, clients[order[k]], net, t, was, jobs);
        jobs := jobs + JobsFor(clients[order[k]], order[k].n);
        assert order[..k + 1][..k] == order[..k];
      }
      assert order[..|order|] == order;
      JobsServeEach(syncInfo, clients, order);
      ServedIsSafe(table, t, was, net, jobs);
    }

    lemma ServedIsSafe(table: SyncTable, t: BlockStore.Blocks, was: SyncRows, net: Net, jobs: seq<Finished>)
      requires Served(table, t, was, net, jobs)
      ensures SafeGrowth(storageNode.env, t, storageNode.blockStorage.blocks)
    {
      hide SafeGrowth, Pass, RecordAll;
      PassIsSafe(storageNode.env, net, t, jobs);
    }

    /** The sync rows and the blocks table after the jobs. */
    ghost predicate Served(table: SyncTable, t: BlockStore.Blocks, was: SyncRows, net: Net, jobs: seq<Finished>)
      reads table, storageNode.blockStorage
    {
      var (blocks, finished) := Pass(storageNode.env, net, t, jobs);
      table.rows == RecordAll(was, finished) && storageNode.blockStorage.blocks == blocks
    }

    lemma NothingServed(table: SyncTable, net: Net)
      ensures Served(table, storageNode.blockStorage.blocks, table.rows, net, [])
    {
      NothingDone(storageNode.env, net, storageNode.blockStorage.blocks);
    }

    /** The clients of one shard, after the jobs `before`. */
    method ServeShard(table: SyncTable, shardId: nat, clients: seq<ClientInit>, net: Net,
        ghost t: BlockStore.Blocks, ghost was: SyncRows, ghost before: seq<Finished>)
      requires storageNode.Valid() && Served(table, t, was, net, before)
      modifies storageNode.blockStorage, storageNode.indexStorage`inboxes, table
      ensures Served(table, t, was, net, before + JobsFor(clients, shardId))
    {
      hide RecordAll, Recorded, Pass, ClientRun, SafeGrowth;
      ghost var jobs := before;
      for m := 0 to |clients|
        invariant Served(table, t, was, net, jobs)
        invariant jobs == before + JobsFor(clients[..m], shardId)
      {
        var c := clients[m];
        ghost var job := Finished(c, shardId);
        var client := new StorageSyncClient(table, c.view, c.shards, c.page, c.already);
        client.UpdateCurrentlySyncingShard(shardId);
        client.UpdateLastSyncedPageNumber(client.lastSyncedPageNumber);
        OneMoreJob(storageNode.env, t, was, net, jobs, job);
        var requests, recorded := ProcessClient(client, shardId, net.peers(c.view), net.limits(c.view, shardId));
        jobs := jobs + [job];
        assert clients[..m + 1][..m] == clients[..m];
      }
      assert clients[..|clients|] == clients;
    }
  }

  // ---------- one pass over all shards ----------

  /** The peer of each view, and how many page requests about each shard it answers. */
  datatype Net = Net(peers: Bytes -> Peer, limits: (Bytes, nat) -> nat)

  ghost function Run(env: BlockStore.Env, net: Net, t: BlockStore.Blocks, job: Finished): ClientResult {
    ClientRun(env, t, net.peers(job.client.view), job.shard, job.client.page, 0, net.limits(job.client.view, job.shard))
  }

  /** The blocks table after the jobs, and those whose loop ended with an empty page. */
  ghost function Pass(env: BlockStore.Env, net: Net, t: BlockStore.Blocks, jobs: seq<Finished>)
    : (BlockStore.Blocks, seq<Finished>)
  {
    if jobs == [] then
      (t, [])
    else
      var (before, finished) := Pass(env, net, t, jobs[..|jobs| - 1]);
      var job := jobs[|jobs| - 1];
      var run := Run(env, net, before, job);
      (run.blocks, finished + (if run.ended then [job] else []))
  }

  lemma NothingDone(env: BlockStore.Env, net: Net, t: BlockStore.Blocks)
    ensures Pass(env, net, t, []) == (t, [])
  {
  }

  lemma {:induction false} PassIsSafe(env: BlockStore.Env, net: Net, t: BlockStore.Blocks, jobs: seq<Finished>)
    ensures SafeGrowth(env, t, Pass(env, net, t, jobs).0)
  {
    hide GoodRow, ClientRun;
    if jobs != [] {
      var before, job := Pass(env, net, t, jobs[..|jobs| - 1]).0, jobs[|jobs| - 1];
      PassIsSafe(env, net, t, jobs[..|jobs| - 1]);
      ClientRunIsSafe(env, before, net.peers(job.client.view), job.shard, job.client.page, 0,
        net.limits(job.client.view, job.shard));
      SafeTwice(env, t, before, Pass(env, net, t, jobs).0);
    }
  }

  lemma {:induction false} OneMoreJob(
      env: BlockStore.Env, t: BlockStore.Blocks, rows: SyncRows, net: Net, jobs: seq<Finished>, job: Finished)
    ensures (var (before, finished) := Pass(env, net, t, jobs);
      var (after, more) := Pass(env, net, t, jobs + [job]);
      var run := Run(env, net, before, job);
      && after == run.blocks
      && RecordAll(rows, more) == if run.ended
           then Recorded(RecordAll(rows, finished), job.client.view, |job.client.shards|, job.shard)
           else RecordAll(rows, finished))
  {
    hide Run, Recorded;
    var all := jobs + [job];
    assert all[..|all| - 1] == jobs;
    var f := Pass(env, net, t, jobs).1;
    assert (f + [job])[..|f|] == f;
    assert f + [] == f;
  }

  function JobsFor(cs: seq<ClientInit>, shard: nat): seq<Finished> {
    if cs == [] then [] else JobsFor(cs[..|cs| - 1], shard) + [Finished(cs[|cs| - 1], shard)]
  }

  function JobsOf(clients: map<Id, seq<ClientInit>>, order: seq<Id>): seq<Finished>
    requires forall i | 0 <= i < |order| :: order[i].Num? && order[i] in clients
  {
    if order == [] then
      []
    else
      var s := order[|order| - 1];
      JobsOf(clients, order[..|order| - 1]) + JobsFor(clients[s], s.n)
  }

  /** The rows as a node writes them: their shards are numbers, each once. */
  predicate NumberedRows(infos: seq<ClientInit>) {
    forall i | 0 <= i < |infos| ::
      NoRepeats(infos[i].shards) && forall k | 0 <= k < |infos[i].shards| :: infos[i].shards[k].Num?
  }

  lemma {:induction false} OrderIsNumbered(infos: seq<ClientInit>, clients: map<Id, seq<ClientInit>>, order: seq<Id>)
    requires NumberedRows(infos) && forall id: Id | id in clients :: Listed(infos, id)
    requires forall i | 0 <= i < |order| :: order[i] in clients
    ensures forall i | 0 <= i < |order| :: order[i].Num?
  {
    forall i | 0 <= i < |order| ensures order[i].Num? {
      assert Listed(infos, order[i]);
      var x :| 0 <= x < |infos| && order[i] in infos[x].shards;
    }
  }

  /** Every shard of every row is served, recorded or not, and when the rows are of different views, by one job. */
  ghost predicate ServesEach(infos: seq<ClientInit>, jobs: seq<Finished>) {
    && (forall j: Finished :: j in jobs <==> j.client in infos && Num(j.shard) in j.client.shards)
    && (DifferentViews(infos) ==> OncePerShard(jobs))
  }

  lemma {:induction false} ListedClient(infos: seq<ClientInit>, shard: Id, c: ClientInit)
    ensures c in ClientsFor(infos, shard) <==> c in infos && shard in c.shards
  {
    if infos != [] {
      var n := |infos| - 1;
      ListedClient(infos[..n], shard, c);
      assert infos == infos[..n] + [infos[n]];
    }
  }

  lemma {:induction false} JobsForMember(cs: seq<ClientInit>, shard: nat)
    ensures |JobsFor(cs, shard)| == |cs|
    ensures forall i | 0 <= i < |cs| :: JobsFor(cs, shard)[i] == Finished(cs[i], shard)
  {
    if cs != [] {
      JobsForMember(cs[..|cs| - 1], shard);
    }
  }

  lemma {:induction false} JobsOfMember(clients: map<Id, seq<ClientInit>>, order: seq<Id>, j: Finished)
    requires forall i | 0 <= i < |order| :: order[i].Num? && order[i] in clients
    ensures j in JobsOf(clients, order) <==> Num(j.shard) in order && j.client in clients[Num(j.shard)]
  {
    if order != [] {
      var n := |order| - 1;
      JobsOfMember(clients, order[..n], j);
      assert order == order[..n] + [order[n]];
      var here := JobsFor(clients[order[n]], order[n].n);
      JobsForMember(clients[order[n]], order[n].n);
      if Num(j.shard) == order[n] && j.client in clients[Num(j.shard)] {
        var i :| 0 <= i < |clients[order[n]]| && clients[order[n]][i] == j.client;
        assert here[i] == j;
      }
    }
  }

  lemma {:induction false} DistinctViews(infos: seq<ClientInit>, shard: Id)
    requires DifferentViews(infos)
    ensures DifferentViews(ClientsFor(infos, shard))
  {
    if infos != [] {
      var n := |infos| - 1;
      var rest := ClientsFor(infos[..n], shard);
      DistinctViews(infos[..n], shard);
      assert ClientsFor(infos, shard) == rest || ClientsFor(infos, shard) == rest + [infos[n]];
      hide ClientsFor;
      forall a | 0 <= a < |rest| ensures rest[a].view != infos[n].view {
        ListedClient(infos[..n], shard, rest[a]);
        var i :| 0 <= i < n && infos[..n][i] == rest[a];
      }
    }
  }

  lemma {:induction false} JobsOfDistinct(infos: seq<ClientInit>, clients: map<Id, seq<ClientInit>>, order: seq<Id>)
    requires NoRepeats(order) && forall i | 0 <= i < |order| :: order[i].Num? && order[i] in clients
    requires DifferentViews(infos)
    requires forall s: Id | s in clients :: clients[s] == ClientsFor(infos, s)
    ensures OncePerShard(JobsOf(clients, order))
  {
    if order != [] {
      var n := |order| - 1;
      var rest, here := JobsOf(clients, order[..n]), JobsFor(clients[order[n]], order[n].n);
      JobsOfDistinct(infos, clients, order[..n]);
      DistinctViews(infos, order[n]);
      JobsForMember(clients[order[n]], order[n].n);
      forall a | 0 <= a < |rest| ensures rest[a].shard != order[n].n {
        JobsOfMember(clients, order[..n], rest[a]);
      }
      assert forall b | 0 <= b < |here| :: here[b].shard == order[n].n;
    }
  }

  lemma {:induction false} JobsServeEach(infos: seq<ClientInit>, clients: map<Id, seq<ClientInit>>, order: seq<Id>)
    requires NoRepeats(order) && forall i | 0 <= i < |order| :: order[i].Num? && order[i] in clients
    requires forall s | s in clients :: s in order
    requires forall s: Id | s.Num? :: s in clients <==> Listed(infos, s)
    requires forall s: Id | s in clients :: clients[s] == ClientsFor(infos, s)
    ensures ServesEach(infos, JobsOf(clients, order))
  {
    hide Listed;
    var jobs := JobsOf(clients, order);
    forall j: Finished ensures j in jobs <==> j.client in infos && Num(j.shard) in j.client.shards {
      JobsOfMember(clients, order, j);
      ListedClient(infos, Num(j.shard), j.client);
      ListedHasClients(infos, Num(j.shard));
    }
    if DifferentViews(infos) {
      JobsOfDistinct(infos, clients, order);
    }
  }

  // ---------- the status after a pass ----------

  lemma {:induction false} FinishedFromJobs(
      env: BlockStore.Env, net: Net, t: BlockStore.Blocks, jobs: seq<Finished>, j: Finished)
    ensures j in Pass(env, net, t, jobs).1 ==> j in jobs
  {
    hide Run;
    if jobs != [] {
      FinishedFromJobs(env, net, t, jobs[..|jobs| - 1], j);
    }
  }

  lemma {:induction false} FinishedDistinct(env: BlockStore.Env, net: Net, t: BlockStore.Blocks, jobs: seq<Finished>)
    requires OncePerShard(jobs)
    ensures OncePerShard(Pass(env, net, t, jobs).1)
  {
    hide Run;
    if jobs != [] {
      var n := |jobs| - 1;
      FinishedDistinct(env, net, t, jobs[..n]);
      var rest := Pass(env, net, t, jobs[..n]).1;
      forall a | 0 <= a < |rest| ensures rest[a].client.view != jobs[n].client.view || rest[a].shard != jobs[n].shard {
        FinishedFromJobs(env, net, t, jobs[..n], rest[a]);
        var i :| 0 <= i < n && jobs[..n][i] == rest[a];
      }
    }
  }

  /** The finished jobs of a pass are a pass over the rows the clients were made from. */
  lemma {:induction false} PassIsOnePass(
      env: BlockStore.Env, net: Net, t: BlockStore.Blocks, rows: SyncRows, infos: seq<ClientInit>, jobs: seq<Finished>)
    requires forall v | v in rows :: rows[v].shardIds != [] && NoRepeats(rows[v].shardIds)
    requires forall i | 0 <= i < |infos| ::
      infos[i].view in rows && infos[i].shards == Ids(rows[infos[i].view].shardIds)
    requires DifferentViews(infos) && ServesEach(infos, jobs)
    ensures OnePass(rows, Pass(env, net, t, jobs).1)
  {
    hide Pass;
    var es := Pass(env, net, t, jobs).1;
    FinishedDistinct(env, net, t, jobs);
    forall i | 0 <= i < |es| ensures es[i] in jobs {
      FinishedFromJobs(env, net, t, jobs, es[i]);
    }
    forall i | 0 <= i < |es| ensures es[i].shard in rows[es[i].client.view].shardIds {
      IdsMember(rows[es[i].client.view].shardIds);
    }
  }

  /** One pass from any rows, whatever the peers answer: a shard is recorded once more than before iff its loop came
      to an empty page, even if it was recorded already. */
  lemma {:induction false} PassRecords(
      env: BlockStore.Env, net: Net, t: BlockStore.Blocks, rows: SyncRows, infos: seq<ClientInit>, jobs: seq<Finished>,
      c: ClientInit, s: nat)
    requires forall v | v in rows :: rows[v].shardIds != [] && NoRepeats(rows[v].shardIds)
    requires forall i | 0 <= i < |infos| ::
      infos[i].view in rows && infos[i].shards == Ids(rows[infos[i].view].shardIds)
    requires DifferentViews(infos) && ServesEach(infos, jobs) && c in infos
    ensures (var es := Pass(env, net, t, jobs).1;
      var r := RecordAll(rows, es);
      && c.view in r
      && multiset(r[c.view].alreadySynced)[s] ==
           multiset(rows[c.view].alreadySynced)[s] + (if Finished(c, s) in es then 1 else 0))
  {
    hide RecordAll, Pass, ShardsOf;
    var es := Pass(env, net, t, jobs).1;
    PassIsOnePass(env, net, t, rows, infos, jobs);
    RecordedList(rows, es, c.view);
    ShardsOfDistinct(rows, es, c.view);
    FinishedShard(env, net, t, infos, jobs, c, s);
    OneOccurrence(ShardsOf(es, c.view), s);
    assert s in ShardsOf(es, c.view) <==> s in multiset(ShardsOf(es, c.view));
  }

  lemma {:induction false} FinishedShard(
      env: BlockStore.Env, net: Net, t: BlockStore.Blocks, infos: seq<ClientInit>, jobs: seq<Finished>, c: ClientInit,
      s: nat)
    requires DifferentViews(infos) && ServesEach(infos, jobs) && c in infos
    ensures s in ShardsOf(Pass(env, net, t, jobs).1, c.view) <==> Finished(c, s) in Pass(env, net, t, jobs).1
  {
    hide Pass, ShardsOf;
    var es := Pass(env, net, t, jobs).1;
    ShardsOfMember(es, c.view, s);
    if s in ShardsOf(es, c.view) {
      var i :| 0 <= i < |es| && es[i].client.view == c.view && es[i].shard == s;
      FinishedFromJobs(env, net, t, jobs, es[i]);
      SameView(infos, es[i].client, c);
    }
    if Finished(c, s) in es {
      var i :| 0 <= i < |es| && es[i] == Finished(c, s);
    }
  }

  /** One pass from a fresh row, whatever the peers answer: each shard whose loop came to an empty page is recorded
      exactly once, nothing else is, and the view ends SYNCED exactly when all its shards did. */
  lemma {:induction false} PassOutcome(
      env: BlockStore.Env, net: Net, t: BlockStore.Blocks, rows: SyncRows, infos: seq<ClientInit>, jobs: seq<Finished>,
      c: ClientInit)
    requires forall v | v in rows :: rows[v].shardIds != [] && NoRepeats(rows[v].shardIds)
    requires forall i | 0 <= i < |infos| ::
      infos[i].view in rows && infos[i].shards == Ids(rows[infos[i].view].shardIds)
    requires DifferentViews(infos) && ServesEach(infos, jobs) && c in infos && Fresh(rows[c.view])
    ensures (var es := Pass(env, net, t, jobs).1;
      var r := RecordAll(rows, es);
      && c.view in r
      && NoRepeats(r[c.view].alreadySynced)
      && (forall s: nat :: s in r[c.view].alreadySynced <==> Finished(c, s) in es)
      && (r[c.view].synced <==> forall s: nat | Num(s) in c.shards :: Finished(c, s) in es))
  {
    hide RecordAll, Pass;
    var es := Pass(env, net, t, jobs).1;
    PassIsOnePass(env, net, t, rows, infos, jobs);
    SyncedExactlyWhenAllRecorded(rows, es, c.view);
    var r := RecordAll(rows, es);
    IdsMember(rows[c.view].shardIds);
    forall s: nat ensures s in r[c.view].alreadySynced <==> Finished(c, s) in es {
      FinishedShard(env, net, t, infos, jobs, c, s);
      ShardsOfMember(es, c.view, s);
    }
  }

  lemma IdsMember(ns: seq<nat>)
    ensures forall n: nat :: Num(n) in Ids(ns) <==> n in ns
  {
    forall n: nat | n in ns ensures Num(n) in Ids(ns) {
      var i :| 0 <= i < |ns| && ns[i] == n;
      assert Ids(ns)[i] == Num(n);
    }
  }

  lemma SameView(infos: seq<ClientInit>, a: ClientInit, b: ClientInit)
    requires DifferentViews(infos)
    requires a in infos && b in infos && a.view == b.view
    ensures a == b
  {
    var i :| 0 <= i < |infos| && infos[i] == a;
    var j :| 0 <= j < |infos| && infos[j] == b;
  }
}
