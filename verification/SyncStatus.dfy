/** The storage_sync_info rows of the views a node copies (block.ts), the clients that update them
    (storageSyncClient.ts) and the list of clients one pass goes through (blockPolling.ts). */
module SyncStatus {
  import opened Bytes
  import opened ListUtil

  /** shard_ids, already_synced_shards and whether sync_status is SYNCED. */
  datatype Progress = Progress(shardIds: seq<nat>, alreadySynced: seq<nat>, synced: bool)

  type SyncRows = map<Bytes, Progress>

  /** A shard id in a row read back: a number as the node writes it, or a text as the type of the row says. */
  datatype Id = Num(n: nat) | Text(text: Bytes)

  function Ids(ns: seq<nat>): seq<Id> { seq(|ns|, i requires 0 <= i < |ns| => Num(ns[i])) }

  /** shard.toString() of a number. */
  function Decimal(n: nat): Bytes {
    if n < 10 then [48 + n] else Decimal(n / 10) + [48 + n % 10]
  }

  function DecimalValue(text: Bytes): int {
    if text == [] then 0 else 10 * DecimalValue(text[..|text| - 1]) + text[|text| - 1] - 48
  }

  /** The digits of a number, without a leading zero. */
  lemma {:induction false} DecimalFormat(n: nat)
    ensures (var text := Decimal(n);
      && text != [] && (forall i | 0 <= i < |text| :: 48 <= text[i] <= 57)
      && DecimalValue(text) == n && (n > 0 ==> text[0] != 48) && (n == 0 ==> text == [48]))
  {
    if n >= 10 {
      DecimalFormat(n / 10);
      assert Decimal(n)[..|Decimal(n)| - 1] == Decimal(n / 10);
    } else {
      assert Decimal(n)[..0] == [];
    }
  }

  /** jsonb_insert at '{-1}': before the last element. */
  function InsertBeforeLast(s: seq<nat>, x: nat): seq<nat> {
    if s == [] then [x] else s[..|s| - 1] + [x, s[|s| - 1]]
  }

  /** updateAlreadySyncedShards by a client that was given `count` shards. */
  function Recorded(rows: SyncRows, view: Bytes, count: nat, shard: nat): SyncRows {
    if view !in rows then
      rows
    else
      var p := rows[view];
      rows[view := Progress(
        p.shardIds, InsertBeforeLast(p.alreadySynced, shard), p.synced || |p.alreadySynced| + 1 == count)]
  }

  class SyncTable {
    var rows: SyncRows
    var pages: map<Bytes, nat>          // last_synced_page_number
    var current: map<Bytes, nat>        // current_syncing_shard_id

    constructor (rows: SyncRows)
      ensures this.rows == rows
    {
      this.rows, pages, current := rows, map[], map[];
    }
  }

  class StorageSyncClient {
    const table: SyncTable
    const viewName: Bytes
    const shards: seq<Id>
    var alreadySyncedShardIds: seq<nat>
    var lastSyncedPageNumber: nat

    constructor (table: SyncTable, viewName: Bytes, shards: seq<Id>, lastSyncedPageNumber: nat, already: seq<nat>)
      ensures this.table == table && this.viewName == viewName && this.shards == shards
      ensures this.lastSyncedPageNumber == lastSyncedPageNumber && alreadySyncedShardIds == already
    {
      this.table, this.viewName, this.shards := table, viewName, shards;
      this.lastSyncedPageNumber, alreadySyncedShardIds := lastSyncedPageNumber, already;
    }

    method UpdateLastSyncedPageNumber(pageNumber: nat)
      modifies this`lastSyncedPageNumber, table`pages
      ensures lastSyncedPageNumber == pageNumber
      ensures table.pages ==
        if viewName in table.rows then old(table.pages)[viewName := pageNumber] else old(table.pages)
    {
      lastSyncedPageNumber := pageNumber;
      if viewName in table.rows {
        table.pages := table.pages[viewName := pageNumber];
      }
    }

    method UpdateCurrentlySyncingShard(shard: nat)
      modifies table`current
      ensures table.current ==
        if viewName in table.rows then old(table.current)[viewName := shard] else old(table.current)
    {
      if viewName in table.rows {
        table.current := table.current[viewName := shard];
      }
    }

    /** Reads the row's list, appends to the copy, and stores the shard and perhaps the status; False when the row
        is gone and reading it throws. */
    method UpdateAlreadySyncedShards(shardId: nat) returns (ok: bool)
      modifies this`alreadySyncedShardIds, table`rows
      ensures ok <==> viewName in old(table.rows)
      ensures table.rows == Recorded(old(table.rows), viewName, |shards|, shardId)
      ensures ok ==> alreadySyncedShardIds == old(table.rows)[viewName].alreadySynced + [shardId]
    {
      if viewName !in table.rows {
        return false;
      }
      alreadySyncedShardIds := table.rows[viewName].alreadySynced;
      alreadySyncedShardIds := alreadySyncedShardIds + [shardId];
      var status := |alreadySyncedShardIds| == |shards|;
      var p := table.rows[viewName];
      table.rows := table.rows[viewName := Progress(
        p.shardIds, InsertBeforeLast(p.alreadySynced, shardId), if status then true else p.synced)];
      return true;
    }
  }

  // ---------- the clients of one pass ----------

  /** A row as it is read, which is also what a client is made from. */
  datatype ClientInit = ClientInit(view: Bytes, shards: seq<Id>, page: nat, already: seq<nat>)

  ghost predicate Listed(infos: seq<ClientInit>, id: Id) { exists i :: 0 <= i < |infos| && id in infos[i].shards }

  /** The text is that of a shard some row has recorded. */
  ghost predicate RecordedText(infos: seq<ClientInit>, text: Bytes) {
    exists i, k :: 0 <= i < |infos| && 0 <= k < |infos[i].already| && text == Decimal(infos[i].already[k])
  }

  ghost predicate NeedsSync(infos: seq<ClientInit>, id: Id) {
    Listed(infos, id) && !(id.Text? && RecordedText(infos, id.text))
  }

  /** The recorded shards are turned into texts before they are compared with the listed ids. */
  method GetShardsThatNeedsToBeSynced(nodeInfo: seq<ClientInit>) returns (ids: set<Id>)
    ensures forall id: Id :: id in ids <==> NeedsSync(nodeInfo, id)
  {
    var alreadySyncedShards, totalShards: set<Id> := {}, {};
    for i := 0 to |nodeInfo|
      invariant forall id: Id :: id in totalShards <==> Listed(nodeInfo[..i], id)
      invariant forall id: Id :: id in alreadySyncedShards <==> id.Text? && RecordedText(nodeInfo[..i], id.text)
    {
      var node := nodeInfo[i];
      var listed := set s | s in node.shards;
      var recorded := set k | 0 <= k < |node.already| :: Text(Decimal(node.already[k]));
      OneMoreInfo(nodeInfo, i);
      totalShards := totalShards + listed;
      alreadySyncedShards := alreadySyncedShards + recorded;
    }
    assert nodeInfo[..|nodeInfo|] == nodeInfo;
    ids := set id | id in totalShards && id !in alreadySyncedShards;
  }

  lemma {:induction false} OneMoreInfo(infos: seq<ClientInit>, i: nat)
    requires i < |infos|
    ensures forall id: Id :: Listed(infos[..i + 1], id) <==> Listed(infos[..i], id) || id in infos[i].shards
    ensures forall text: Bytes ::
      RecordedText(infos[..i + 1], text) <==> RecordedText(infos[..i], text) || RecordedText([infos[i]], text)
  {
    var a, b := infos[..i], infos[..i + 1];
    forall id: Id ensures Listed(b, id) <==> Listed(a, id) || id in infos[i].shards {
      assert forall x | 0 <= x < i :: a[x] == b[x];
      assert b[i] == infos[i];
    }
    forall text: Bytes ensures RecordedText(b, text) <==> RecordedText(a, text) || RecordedText([infos[i]], text)
    {
      if x, k :| 0 <= x < |b| && 0 <= k < |b[x].already| && text == Decimal(b[x].already[k]) {
        if x < i {
          assert text == Decimal(a[x].already[k]);
        } else {
          assert text == Decimal([infos[i]][0].already[k]);
        }
      }
      if x, k :| 0 <= x < |a| && 0 <= k < |a[x].already| && text == Decimal(a[x].already[k]) {
        assert text == Decimal(b[x].already[k]);
      }
      if k :| 0 <= k < |infos[i].already| && text == Decimal(infos[i].already[k]) {
        assert text == Decimal(b[i].already[k]);
      } else {
        assert !RecordedText([infos[i]], text);
      }
    }
  }

  /** The clients that ask for a shard: one for each row that lists it, in the order of the rows. */
  function ClientsFor(infos: seq<ClientInit>, shard: Id): seq<ClientInit> {
    if infos == [] then
      []
    else
      var last := infos[|infos| - 1];
      ClientsFor(infos[..|infos| - 1], shard) + (if shard in last.shards then [last] else [])
  }

  /** Rows one after the other give their clients one after the other; one row gives one, if it lists the shard. */
  lemma {:induction false} ClientsInOrder(a: seq<ClientInit>, b: seq<ClientInit>, c: ClientInit, shard: Id)
    ensures ClientsFor(a + b, shard) == ClientsFor(a, shard) + ClientsFor(b, shard)
    ensures ClientsFor([c], shard) == if shard in c.shards then [c] else []
  {
    assert [c][..0] == [];
    if b == [] {
      assert a + b == a;
    } else {
      assert (a + b)[..|a + b| - 1] == a + b[..|b| - 1];
      ClientsInOrder(a, b[..|b| - 1], c, shard);
    }
  }

  lemma {:induction false} ListedHasClients(infos: seq<ClientInit>, id: Id)
    ensures Listed(infos, id) <==> ClientsFor(infos, id) != []
  {
    if infos != [] {
      var n := |infos| - 1;
      ListedHasClients(infos[..n], id);
      OneMoreInfo(infos, n);
      assert infos[..n + 1] == infos;
    }
  }

  /** A JavaScript map keeps its keys in the order of their first insertion. */
  class NodeMap {
    var order: seq<Id>
    var clients: map<Id, seq<ClientInit>>

    ghost predicate Valid()
      reads this
    {
      NoRepeats(order) && (forall i | 0 <= i < |order| :: order[i] in clients) && forall s | s in clients :: s in order
    }

    constructor ()
      ensures Valid() && clients == map[] && order == []
    {
      order, clients := [], map[];
    }

    method Append(shard: Id, client: ClientInit)
      requires Valid()
      modifies this
      ensures Valid()
      ensures clients == old(clients)[shard := (if shard in old(clients) then old(clients)[shard] else []) + [client]]
      ensures order == if shard in old(clients) then old(order) else old(order) + [shard]
    {
      if shard in clients {
        clients := clients[shard := clients[shard] + [client]];
      } else {
        assert [] + [client] == [client];
        order := order + [shard];
        clients := clients[shard := [client]];
      }
    }
  }

  // The clients of the rows done, and of row `last` for its first j shards, of the wanted shards only.
  ghost function ClientsSoFar(wanted: set<Id>, infos: seq<ClientInit>, last: ClientInit, j: nat, s: Id): seq<ClientInit>
    requires j <= |last.shards|
  {
    if s in wanted then ClientsFor(infos, s) + (if s in last.shards[..j] then [last] else []) else []
  }

  ghost predicate IsNodeMap(
      m: map<Id, seq<ClientInit>>, wanted: set<Id>, infos: seq<ClientInit>, last: ClientInit, j: nat)
    requires j <= |last.shards|
  {
    forall s: Id ::
      var cs := ClientsSoFar(wanted, infos, last, j, s);
      (s in m <==> cs != []) && (s in m ==> m[s] == cs)
  }

  /** A listed shard is left out exactly when its id is the text of a shard some row has recorded; every other one
      gets a client for each row that lists it. */
  method ConstructNodeShardMap(syncInfo: seq<ClientInit>) returns (nodeMap: NodeMap)
    requires forall i | 0 <= i < |syncInfo| :: NoRepeats(syncInfo[i].shards)
    ensures fresh(nodeMap) && nodeMap.Valid()
    ensures forall id: Id :: id in nodeMap.clients <==> NeedsSync(syncInfo, id)
    ensures forall id: Id | id in nodeMap.clients :: nodeMap.clients[id] == ClientsFor(syncInfo, id)
    ensures forall id: Id | Listed(syncInfo, id) ::
      id !in nodeMap.clients <==> id.Text? && RecordedText(syncInfo, id.text)
  {
    hide Listed, RecordedText;
    var shardsToSync := GetShardsThatNeedsToBeSynced(syncInfo);
    nodeMap := new NodeMap();
    var none := ClientInit([], [], 0, []);
    for i := 0 to |syncInfo|
      invariant fresh(nodeMap) && nodeMap.Valid() && IsNodeMap(nodeMap.clients, shardsToSync, syncInfo[..i], none, 0)
    {
      var nodeInfo := syncInfo[i];
      SameAtStart(nodeMap.clients, shardsToSync, syncInfo[..i], none, nodeInfo);
      for j := 0 to |nodeInfo.shards|
        invariant fresh(nodeMap) && nodeMap.Valid()
        invariant IsNodeMap(nodeMap.clients, shardsToSync, syncInfo[..i], nodeInfo, j)
      {
        OneMoreClient(nodeMap.clients, shardsToSync, syncInfo[..i], nodeInfo, j);
        if nodeInfo.shards[j] !in shardsToSync {
          continue;
        }
        nodeMap.Append(nodeInfo.shards[j], nodeInfo);
      }
      OneMoreRow(nodeMap.clients, shardsToSync, syncInfo, i, none);
    }
    assert syncInfo[..|syncInfo|] == syncInfo;
    forall id: Id ensures id in nodeMap.clients <==> NeedsSync(syncInfo, id)
      ensures id in nodeMap.clients ==> nodeMap.clients[id] == ClientsFor(syncInfo, id)
    {
      ListedHasClients(syncInfo, id);
      var cs := ClientsSoFar(shardsToSync, syncInfo, none, 0, id);
      assert (id in nodeMap.clients <==> cs != []) && (id in nodeMap.clients ==> nodeMap.clients[id] == cs);
      assert ClientsFor(syncInfo, id) + [] == ClientsFor(syncInfo, id);
    }
  }

  lemma {:induction false} SameAtStart(
      m: map<Id, seq<ClientInit>>, wanted: set<Id>, infos: seq<ClientInit>, a: ClientInit, b: ClientInit)
    requires IsNodeMap(m, wanted, infos, a, 0)
    ensures IsNodeMap(m, wanted, infos, b, 0)
  {
    forall s: Id ensures ClientsSoFar(wanted, infos, a, 0, s) == ClientsSoFar(wanted, infos, b, 0, s) {
    }
  }

  lemma {:induction false} OneMoreClient(
      m: map<Id, seq<ClientInit>>, wanted: set<Id>, infos: seq<ClientInit>, last: ClientInit, j: nat)
    requires j < |last.shards| && NoRepeats(last.shards) && IsNodeMap(m, wanted, infos, last, j)
    ensures (var s := last.shards[j];
      var r := if s in wanted then m[s := (if s in m then m[s] else []) + [last]] else m;
      IsNodeMap(r, wanted, infos, last, j + 1))
  {
    var s := last.shards[j];
    assert last.shards[..j + 1] == last.shards[..j] + [s];
    assert s !in last.shards[..j];
    var r := if s in wanted then m[s := (if s in m then m[s] else []) + [last]] else m;
    forall x: Id
      ensures (var cs := ClientsSoFar(wanted, infos, last, j + 1, x);
        (x in r <==> cs != []) && (x in r ==> r[x] == cs))
    {
      var before := ClientsSoFar(wanted, infos, last, j, x);
      assert (x in m <==> before != []) && (x in m ==> m[x] == before);
    }
  }

  lemma {:induction false} OneMoreRow(
      m: map<Id, seq<ClientInit>>, wanted: set<Id>, all: seq<ClientInit>, i: nat, none: ClientInit)
    requires i < |all| && IsNodeMap(m, wanted, all[..i], all[i], |all[i].shards|) && none.shards == []
    ensures IsNodeMap(m, wanted, all[..i + 1], none, 0)
  {
    assert all[..i + 1][..i] == all[..i];
    assert all[i].shards[..|all[i].shards|] == all[i].shards;
    forall x: Id
      ensures (var cs := ClientsSoFar(wanted, all[..i + 1], none, 0, x);
        (x in m <==> cs != []) && (x in m ==> m[x] == cs))
    {
      var cs := ClientsSoFar(wanted, all[..i], all[i], |all[i].shards|, x);
      assert (x in m <==> cs != []) && (x in m ==> m[x] == cs);
      assert ClientsSoFar(wanted, all[..i + 1], none, 0, x) == cs;
    }
  }

  // ---------- one pass ----------

  /** A shard that a client finished for its view. */
  datatype Finished = Finished(client: ClientInit, shard: nat)

  function RecordAll(rows: SyncRows, es: seq<Finished>): SyncRows {
    if es == [] then
      rows
    else
      var e := es[|es| - 1];
      Recorded(RecordAll(rows, es[..|es| - 1]), e.client.view, |e.client.shards|, e.shard)
  }

  /** The shards finished for a view, in order. */
  function ShardsOf(es: seq<Finished>, view: Bytes): seq<nat> {
    if es == [] then
      []
    else
      ShardsOf(es[..|es| - 1], view) + (if es[|es| - 1].client.view == view then [es[|es| - 1].shard] else [])
  }

  /** Each client was made from its view's row, and no shard is finished twice for a view. */
  ghost predicate OnePass(rows: SyncRows, es: seq<Finished>) {
    && (forall v | v in rows :: rows[v].shardIds != [] && NoRepeats(rows[v].shardIds))
    && (forall i | 0 <= i < |es| :: es[i].client.view in rows
         && es[i].client.shards == Ids(rows[es[i].client.view].shardIds)
         && es[i].shard in rows[es[i].client.view].shardIds)
    && OncePerShard(es)
  }

  /** The row has nothing recorded yet. */
  predicate Fresh(p: Progress) { p.alreadySynced == [] && !p.synced }

  predicate OncePerShard(es: seq<Finished>) {
    forall i, j | 0 <= i < j < |es| :: es[i].client.view != es[j].client.view || es[i].shard != es[j].shard
  }

  predicate DifferentViews(cs: seq<ClientInit>) { forall i, j | 0 <= i < j < |cs| :: cs[i].view != cs[j].view }

  lemma {:induction false} ShardsOfMember(es: seq<Finished>, view: Bytes, s: nat)
    ensures s in ShardsOf(es, view) <==> exists i :: 0 <= i < |es| && es[i].client.view == view && es[i].shard == s
  {
    if es != [] {
      var rest := es[..|es| - 1];
      ShardsOfMember(rest, view, s);
      assert forall i | 0 <= i < |rest| :: rest[i] == es[i];
    }
  }

  lemma {:induction false} ShardsOfDistinct(rows: SyncRows, es: seq<Finished>, view: Bytes)
    requires OnePass(rows, es)
    ensures NoRepeats(ShardsOf(es, view))
    ensures forall s | s in ShardsOf(es, view) :: view in rows && s in rows[view].shardIds
  {
    if es != [] {
      var n := |es| - 1;
      ShardsOfDistinct(rows, es[..n], view);
      ShardsOfMember(es[..n], view, es[n].shard);
    }
  }

  /** From any rows: what is recorded afterwards is what was recorded before and, once each, the shards finished;
      a shard of both is recorded once more. */
  lemma {:induction false} RecordedList(rows: SyncRows, es: seq<Finished>, view: Bytes)
    requires OnePass(rows, es) && view in rows
    ensures (var r := RecordAll(rows, es);
      && view in r && r[view].shardIds == rows[view].shardIds
      && multiset(r[view].alreadySynced) == multiset(rows[view].alreadySynced) + multiset(ShardsOf(es, view)))
  {
    hide RecordAll, ShardsOf, Recorded;
    if es == [] {
      StatusAtStart(rows, view);
    } else {
      var n := |es| - 1;
      RecordedList(rows, es[..n], view);
      StatusStep(rows, es, view);
      InsertedMultiset(RecordAll(rows, es[..n])[view].alreadySynced, es[n].shard);
    }
  }

  /** From a row with nothing recorded, the list holds the finished shards in order, except that the first one stays
      last. */
  lemma {:induction false} RecordedOrder(rows: SyncRows, es: seq<Finished>, view: Bytes)
    requires OnePass(rows, es) && view in rows && rows[view].alreadySynced == []
    ensures (var r, ns := RecordAll(rows, es), ShardsOf(es, view);
      view in r && r[view].alreadySynced == if ns == [] then [] else ns[1..] + [ns[0]])
  {
    hide RecordAll, ShardsOf, Recorded;
    if es == [] {
      StatusAtStart(rows, view);
    } else {
      RecordedOrder(rows, es[..|es| - 1], view);
      StatusStep(rows, es, view);
    }
  }

  lemma InsertedMultiset(s: seq<nat>, x: nat)
    ensures multiset(InsertBeforeLast(s, x)) == multiset(s) + multiset{x}
    ensures |InsertBeforeLast(s, x)| == |s| + 1
  {
    if s != [] {
      assert s == s[..|s| - 1] + [s[|s| - 1]];
    }
  }

  /** For any rows: a view is SYNCED iff it was, or it had fewer shards recorded than it has, and with the finished
      ones the number was reached. Which shards they are does not matter. */
  lemma {:induction false} SyncedIffCountReached(rows: SyncRows, es: seq<Finished>, view: Bytes)
    requires OnePass(rows, es) && view in rows
    ensures (var r, p := RecordAll(rows, es), rows[view];
      && view in r
      && |r[view].alreadySynced| == |p.alreadySynced| + |ShardsOf(es, view)|
      && (r[view].synced <==>
           p.synced || |p.alreadySynced| < |p.shardIds| <= |p.alreadySynced| + |ShardsOf(es, view)|))
  {
    hide RecordAll, ShardsOf, Recorded;
    if es == [] {
      StatusAtStart(rows, view);
    } else {
      SyncedIffCountReached(rows, es[..|es| - 1], view);
      StatusStep(rows, es, view);
      InsertedMultiset(RecordAll(rows, es[..|es| - 1])[view].alreadySynced, es[|es| - 1].shard);
    }
  }

  /** A row read with shard 1 of {1, 2} recorded: shard 1 is served and recorded again, and the view is SYNCED
      without shard 2. */
  lemma {:induction false} ResumedRowIsSyncedTooEarly(view: Bytes)
    ensures (var rows := map[view := Progress([1, 2], [1], false)];
      var client := ClientInit(view, Ids([1, 2]), 1, [1]);
      var r := RecordAll(rows, [Finished(client, 1)]);
      && NeedsSync([client], Num(1))
      && OnePass(rows, [Finished(client, 1)])
      && view in r && r[view].synced && r[view].alreadySynced == [1, 1])
  {
    var rows := map[view := Progress([1, 2], [1], false)];
    var client := ClientInit(view, Ids([1, 2]), 1, [1]);
    var es := [Finished(client, 1)];
    assert es[..0] == [];
    assert InsertBeforeLast([1], 1) == [1, 1];
    assert Ids([1, 2])[0] == Num(1);
    assert [client][0] == client;
    assert Listed([client], Num(1));
    assert RecordAll(rows, es[..0]) == rows;
  }

  lemma {:induction false} StatusFollowsCount(rows: SyncRows, es: seq<Finished>, view: Bytes)
    requires OnePass(rows, es) && view in rows && Fresh(rows[view])
    ensures view in RecordAll(rows, es)
    ensures RecordAll(rows, es)[view].synced <==> |ShardsOf(es, view)| == |rows[view].shardIds|
  {
    hide RecordAll, ShardsOf, Recorded;
    SyncedIffCountReached(rows, es, view);
    ShardsOfDistinct(rows, es, view);
    NoMoreThan(ShardsOf(es, view), rows[view].shardIds);
  }

  lemma StatusAtStart(rows: SyncRows, view: Bytes)
    ensures RecordAll(rows, []) == rows && ShardsOf([], view) == []
  {
  }

  lemma {:induction false} StatusStep(rows: SyncRows, es: seq<Finished>, view: Bytes)
    requires OnePass(rows, es) && es != [] && view in rows
    requires view in RecordAll(rows, es[..|es| - 1])
    ensures (var before, r, e := RecordAll(rows, es[..|es| - 1]), RecordAll(rows, es), es[|es| - 1];
      && view in r
      && |ShardsOf(es, view)| == |ShardsOf(es[..|es| - 1], view)| + (if e.client.view == view then 1 else 0)
      && ShardsOf(es, view) == ShardsOf(es[..|es| - 1], view) + (if e.client.view == view then [e.shard] else [])
      && r[view].alreadySynced == (if e.client.view == view
           then InsertBeforeLast(before[view].alreadySynced, e.shard) else before[view].alreadySynced)
      && r[view].shardIds == before[view].shardIds
      && r[view].synced == (before[view].synced
           || (e.client.view == view && |before[view].alreadySynced| + 1 == |rows[view].shardIds|)))
  {
  }

  lemma {:induction false} NoMoreThan(a: seq<nat>, b: seq<nat>)
    requires NoRepeats(a) && NoRepeats(b) && forall s | s in a :: s in b
    ensures |a| <= |b|
    ensures |a| == |b| <==> forall s | s in b :: s in a
  {
    var x, y := Elements(a), Elements(b);
    SizeOfElements(a);
    SizeOfElements(b);
    assert y == x + (y - x) && |y| == |x| + |y - x|;
    if |a| == |b| {
      forall s | s in b ensures s in a {
        assert s !in y - x;
      }
    }
    if forall s | s in b :: s in a {
      assert x == y;
    }
  }

  /** Whatever order the shards of the views are finished in, at every moment: each finished shard is recorded for
      its view exactly once and nothing else is, and a view is SYNCED exactly when all its shards are finished. */
  lemma {:induction false} SyncedExactlyWhenAllRecorded(rows: SyncRows, es: seq<Finished>, view: Bytes)
    requires OnePass(rows, es) && view in rows && Fresh(rows[view])
    ensures (var r := RecordAll(rows, es);
      && view in r
      && NoRepeats(r[view].alreadySynced)
      && (forall s :: s in r[view].alreadySynced <==>
           exists i :: 0 <= i < |es| && es[i].client.view == view && es[i].shard == s)
      && (r[view].synced <==> forall s | s in rows[view].shardIds :: s in r[view].alreadySynced))
  {
    var r := RecordAll(rows, es);
    RecordedList(rows, es, view);
    StatusFollowsCount(rows, es, view);
    ShardsOfDistinct(rows, es, view);
    assert multiset(rows[view].alreadySynced) == multiset{};
    SameMultiset(r[view].alreadySynced, ShardsOf(es, view));
    NoMoreThan(ShardsOf(es, view), rows[view].shardIds);
    forall s: nat ensures s in r[view].alreadySynced <==> s in ShardsOf(es, view) {
      assert s in multiset(r[view].alreadySynced) <==> s in multiset(ShardsOf(es, view));
    }
    forall s: nat ensures s in ShardsOf(es, view) <==>
      exists i :: 0 <= i < |es| && es[i].client.view == view && es[i].shard == s
    {
      ShardsOfMember(es, view, s);
    }
  }

  // ---------- rows read with shards recorded ----------

  /** The view is SYNCED iff all its shards are recorded. */
  ghost predicate StatusRight(rows: SyncRows, es: seq<Finished>, view: Bytes) {
    var r := RecordAll(rows, es);
    view in r && (r[view].synced <==> forall s | s in r[view].shardIds :: s in r[view].alreadySynced)
  }

  /** A row as the table may hold it before it is SYNCED: some of its shards recorded, each once. */
  predicate Unfinished(p: Progress) {
    !p.synced && NoRepeats(p.alreadySynced) && forall s | s in p.alreadySynced :: s in p.shardIds
  }

  function Unrecorded(ids: seq<nat>, recorded: seq<nat>): seq<nat> {
    if ids == [] then
      []
    else
      var last := ids[|ids| - 1];
      Unrecorded(ids[..|ids| - 1], recorded) + (if last in recorded then [] else [last])
  }

  lemma {:induction false} UnrecordedMember(ids: seq<nat>, recorded: seq<nat>, s: nat)
    ensures s in Unrecorded(ids, recorded) <==> s in ids && s !in recorded
  {
    if ids != [] {
      UnrecordedMember(ids[..|ids| - 1], recorded, s);
      assert ids == ids[..|ids| - 1] + [ids[|ids| - 1]];
    }
  }

  lemma {:induction false} UnrecordedDistinct(ids: seq<nat>, recorded: seq<nat>)
    requires NoRepeats(ids)
    ensures NoRepeats(Unrecorded(ids, recorded))
  {
    if ids != [] {
      var rest, last := ids[..|ids| - 1], ids[|ids| - 1];
      UnrecordedDistinct(rest, recorded);
      UnrecordedMember(rest, recorded, last);
      assert last !in rest;
    }
  }

  lemma {:induction false} UnrecordedSize(ids: seq<nat>, recorded: seq<nat>)
    requires NoRepeats(ids) && NoRepeats(recorded) && forall s | s in recorded :: s in ids
    ensures |Unrecorded(ids, recorded)| == |ids| - |recorded|
  {
    var x, y, z := Elements(ids), Elements(recorded), Elements(Unrecorded(ids, recorded));
    UnrecordedDistinct(ids, recorded);
    SizeOfElements(ids);
    SizeOfElements(recorded);
    SizeOfElements(Unrecorded(ids, recorded));
    forall s: nat ensures s in z <==> s in x - y {
      UnrecordedMember(ids, recorded, s);
    }
    assert z == x - y && y <= x;
    assert |x - y| == |x| - |y|;
  }

  function FinishedAll(client: ClientInit, ns: seq<nat>): seq<Finished> {
    seq(|ns|, i requires 0 <= i < |ns| => Finished(client, ns[i]))
  }

  lemma {:induction false} ShardsOfAll(client: ClientInit, ns: seq<nat>)
    ensures ShardsOf(FinishedAll(client, ns), client.view) == ns
  {
    if ns != [] {
      var n := |ns| - 1;
      ShardsOfAll(client, ns[..n]);
      assert FinishedAll(client, ns)[..n] == FinishedAll(client, ns[..n]);
      assert ns == ns[..n] + [ns[n]];
    }
  }

  /** The status of an unfinished row is right at the end of every pass iff it has nothing recorded. With something
      recorded, a pass can finish a recorded shard in place of one that is not, and the count is reached early; with
      everything recorded the status is wrong as it stands. */
  lemma {:induction false} StatusRightIffFresh(rows: SyncRows, view: Bytes)
    requires OnePass(rows, []) && view in rows && Unfinished(rows[view])
    ensures (forall es | OnePass(rows, es) :: StatusRight(rows, es, view)) <==> rows[view].alreadySynced == []
  {
    hide RecordAll, OnePass;
    if rows[view].alreadySynced == [] {
      forall es | OnePass(rows, es) ensures StatusRight(rows, es, view) {
        SyncedExactlyWhenAllRecorded(rows, es, view);
        RecordedList(rows, es, view);
      }
    } else {
      var es := WrongPass(rows, view);
    }
  }

  lemma {:induction false} WrongPass(rows: SyncRows, view: Bytes) returns (es: seq<Finished>)
    requires OnePass(rows, []) && view in rows && Unfinished(rows[view]) && rows[view].alreadySynced != []
    ensures OnePass(rows, es) && !StatusRight(rows, es, view)
  {
    var p := rows[view];
    assert NoRepeats(p.shardIds);
    hide RecordAll, ShardsOf, OnePass, Unrecorded;
    var left := Unrecorded(p.shardIds, p.alreadySynced);
    UnrecordedSize(p.shardIds, p.alreadySynced);
    if left == [] {
      es := [];
      NoMoreThan(p.alreadySynced, p.shardIds);
      StatusAtStart(rows, view);
    } else {
      var client, ns := ClientInit(view, Ids(p.shardIds), 1, p.alreadySynced), WrongShards(p);
      es := FinishedAll(client, ns);
      FinishedAllIsOnePass(rows, client, ns);
      ShardsOfAll(client, ns);
      SyncedIffCountReached(rows, es, view);
      RecordedList(rows, es, view);
      MissedShard(RecordAll(rows, es)[view].alreadySynced, p.alreadySynced, ns, left[|left| - 1]);
    }
  }

  /** As many shards as are not recorded: all of these but the last, and one that is recorded. */
  function WrongShards(p: Progress): (ns: seq<nat>)
    requires Unrecorded(p.shardIds, p.alreadySynced) != [] && p.alreadySynced != []
    requires NoRepeats(p.shardIds) && Unfinished(p)
    ensures (var left := Unrecorded(p.shardIds, p.alreadySynced);
      var s := left[|left| - 1];
      |ns| == |left| && NoRepeats(ns) && s in p.shardIds && s !in p.alreadySynced && s !in ns)
    ensures forall i | 0 <= i < |ns| :: ns[i] in p.shardIds
  {
    var left := Unrecorded(p.shardIds, p.alreadySynced);
    UnrecordedDistinct(p.shardIds, p.alreadySynced);
    assert forall i | 0 <= i < |left| :: left[i] in p.shardIds && left[i] !in p.alreadySynced by {
      forall i | 0 <= i < |left| ensures left[i] in p.shardIds && left[i] !in p.alreadySynced {
        UnrecordedMember(p.shardIds, p.alreadySynced, left[i]);
      }
    }
    left[..|left| - 1] + [p.alreadySynced[0]]
  }

  lemma FinishedAllIsOnePass(rows: SyncRows, client: ClientInit, ns: seq<nat>)
    requires OnePass(rows, []) && client.view in rows && client.shards == Ids(rows[client.view].shardIds)
    requires NoRepeats(ns) && forall i | 0 <= i < |ns| :: ns[i] in rows[client.view].shardIds
    ensures OnePass(rows, FinishedAll(client, ns))
  {
  }

  lemma MissedShard(all: seq<nat>, a: seq<nat>, b: seq<nat>, s: nat)
    requires multiset(all) == multiset(a) + multiset(b) && s !in a && s !in b
    ensures s !in all
  {
    assert s in all <==> s in multiset(all);
  }

  lemma {:induction false} SameMultiset(a: seq<nat>, b: seq<nat>)
    requires multiset(a) == multiset(b) && NoRepeats(b)
    ensures NoRepeats(a)
  {
    forall i, j | 0 <= i < j < |a| ensures a[i] != a[j] {
      if a[i] == a[j] {
        TwoOccurrences(a, i, j);
        OneOccurrence(b, a[i]);
      }
    }
  }

  lemma {:induction false} TwoOccurrences(a: seq<nat>, i: nat, j: nat)
    requires i < j < |a| && a[i] == a[j]
    ensures multiset(a)[a[i]] >= 2
  {
    assert a == a[..j] + [a[j]] + a[j + 1..];
    assert a[..j] == a[..i] + [a[i]] + a[i + 1..j];
  }

  lemma {:induction false} OneOccurrence(b: seq<nat>, x: nat)
    requires NoRepeats(b)
    ensures multiset(b)[x] <= 1
  {
    if b != [] {
      var n := |b| - 1;
      OneOccurrence(b[..n], x);
      assert b == b[..n] + [b[n]];
      if b[n] == x {
        assert x !in b[..n];
        assert x !in multiset(b[..n]);
      }
    }
  }
}
