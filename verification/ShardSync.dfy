/** Copying the shards of a peer that serves a fixed snapshot (the view queries of block.ts): what the loop of
    PeerSync then stores, records and asks for. */
module ShardSync {
  import opened Bytes
  import opened Messages
  import opened ListUtil
  import opened PeerSync
  import opened SyncStatus
  import BitUtil
  import BlockStore
  import Queue = ReplicatedQueue

  const PAGE_SIZE := 20

  // ---------- the peer's side ----------

  /** A row of a view; the view is the sequence of its rows in the order the page query lists them. The ts column
      holds the whole seconds that the integer division before the insert leaves. */
  datatype ViewRow = ViewRow(hash: Bytes, raw: Bytes, shards: set<nat>, seconds: nat)

  type View = seq<ViewRow>

  /** The view taken of a blocks table: the rows older than now that touch one of the shards, each once. In which
      order they are listed, newest first or not, is left open. */
  ghost predicate IsSnapshot(t: BlockStore.Blocks, shards: set<nat>, nowMillis: nat, view: View) {
    && (forall i | 0 <= i < |view| ::
         view[i].hash in t && view[i] == RowFor(t, view[i].hash) && InSnapshot(t, shards, nowMillis, view[i].hash))
    && (forall h | h in t && InSnapshot(t, shards, nowMillis, h) :: RowFor(t, h) in view)
    && (forall i, j | 0 <= i < j < |view| :: view[i].hash != view[j].hash)
  }

  ghost predicate InSnapshot(t: BlockStore.Blocks, shards: set<nat>, nowMillis: nat, h: Bytes)
    requires h in t
  {
    1000 * RowFor(t, h).seconds < nowMillis && t[h].shards * shards != {}
  }

  function RowFor(t: BlockStore.Blocks, h: Bytes): ViewRow
    requires h in t
  {
    ViewRow(h, t[h].raw, t[h].shards, t[h].block.ts / 1000)
  }

  function OfShard(view: View, shard: nat): View {
    if view == [] then
      []
    else
      OfShard(view[..|view| - 1], shard) + (if shard in view[|view| - 1].shards then [view[|view| - 1]] else [])
  }

  function HashesOf(view: View): seq<Bytes> { seq(|view|, i requires 0 <= i < |view| => view[i].hash) }

  /** None for arguments that are refused. */
  function HashPage(view: View, shard: nat, pageNumber: nat, pageSize: nat): Option<View> {
    if pageNumber < 1 || pageSize < 1 then None
    else Some(PageAt(OfShard(view, shard), (pageNumber - 1) * pageSize, pageSize))
  }

  function WithHashes(view: View, hashes: set<Bytes>): View {
    if view == [] then
      []
    else
      WithHashes(view[..|view| - 1], hashes)
      + (if view[|view| - 1].hash in hashes then [view[|view| - 1]] else [])
  }

  /** Hashes are not repeated, and every row holds the text of a block's bytes under their hash. */
  ghost predicate Honest(env: BlockStore.Env, view: View) {
    && (forall i, j | 0 <= i < j < |view| :: view[i].hash != view[j].hash)
    && (forall i | 0 <= i < |view| :: HonestRow(env, view[i].hash, view[i].raw))
  }

  function ItemOf(r: ViewRow): Queue.Row { Queue.Row(1, r.raw, r.hash) }

  function Items(view: View): seq<Queue.Row> { seq(|view|, i requires 0 <= i < |view| => ItemOf(view[i])) }

  // ---------- what a table a node fills looks like to others ----------

  /** Every block a node takes from a queue or from a peer is kept under its hash, as the text of its bytes. */
  lemma {:induction false} StoredRowsAreHonest(
      env: BlockStore.Env, t: BlockStore.Blocks, items: seq<Queue.Row>, h: Bytes)
    requires forall k | k in t :: HonestRow(env, k, t[k].raw)
    requires h in BlockStore.AfterItems(env, t, items)
    ensures HonestRow(env, h, BlockStore.AfterItems(env, t, items)[h].raw)
  {
    if items != [] {
      var n := |items| - 1;
      var before := BlockStore.AfterItems(env, t, items[..n]);
      if h in before {
        StoredRowsAreHonest(env, t, items[..n], h);
      } else {
        BitUtil.HexRoundTrip(BitUtil.Base16ToBytes(items[n].payload).value);
      }
    }
  }

  /** What a snapshot holds: the blocks whose second has passed and that touch one of its shards, each with its text and
      its shards. */
  lemma {:induction false} SnapshotIff(t: BlockStore.Blocks, shards: set<nat>, nowMillis: nat, view: View, r: ViewRow)
    requires IsSnapshot(t, shards, nowMillis, view)
    ensures r in view <==>
      && r.hash in t && r == ViewRow(r.hash, t[r.hash].raw, t[r.hash].shards, t[r.hash].block.ts / 1000)
      && 1000 * (t[r.hash].block.ts / 1000) < nowMillis
      && exists s :: s in shards && s in t[r.hash].shards
  {
    if r.hash in t {
      assert t[r.hash].shards * shards != {} <==> exists s :: s in shards && s in t[r.hash].shards by {
        if s :| s in shards && s in t[r.hash].shards {
          assert s in t[r.hash].shards * shards;
        }
        if t[r.hash].shards * shards != {} {
          var s :| s in t[r.hash].shards * shards;
        }
      }
    }
  }

  lemma SnapshotIsHonest(env: BlockStore.Env, t: BlockStore.Blocks, shards: set<nat>, now: nat, view: View)
    requires forall k | k in t :: HonestRow(env, k, t[k].raw)
    requires IsSnapshot(t, shards, now, view)
    ensures Honest(env, view)
  {
  }

  // ---------- lists of rows ----------

  lemma {:induction false} OfShardMember(view: View, shard: nat, r: ViewRow)
    ensures r in OfShard(view, shard) <==> r in view && shard in r.shards
  {
    if view != [] {
      OfShardMember(view[..|view| - 1], shard, r);
      assert view == view[..|view| - 1] + [view[|view| - 1]];
    }
  }

  lemma {:induction false} WithHashesMember(view: View, hashes: set<Bytes>, r: ViewRow)
    ensures r in WithHashes(view, hashes) <==> r in view && r.hash in hashes
  {
    if view != [] {
      WithHashesMember(view[..|view| - 1], hashes, r);
      assert view == view[..|view| - 1] + [view[|view| - 1]];
    }
  }

  // Rows taken from an honest view: two with one hash are the same row.
  ghost predicate From(view: View, sub: View) { forall i | 0 <= i < |sub| :: sub[i] in view }

  lemma FromIsConsistent(env: BlockStore.Env, view: View, sub: View)
    requires Honest(env, view) && From(view, sub)
    ensures BlockStore.Consistent(env, Items(sub))
  {
    hide env.Storable;
    forall i, j | 0 <= i < |sub| && 0 <= j < |sub| && sub[i].hash == sub[j].hash ensures sub[i] == sub[j] {
      SameHashSameRow(env, view, sub[i], sub[j]);
    }
  }

  lemma SameHashSameRow(env: BlockStore.Env, view: View, a: ViewRow, b: ViewRow)
    requires Honest(env, view) && a in view && b in view && a.hash == b.hash
    ensures a == b
  {
    var i :| 0 <= i < |view| && view[i] == a;
    var j :| 0 <= j < |view| && view[j] == b;
  }

  lemma {:induction false} AfterItemsSplit(
      env: BlockStore.Env, t: BlockStore.Blocks, a: seq<Queue.Row>, b: seq<Queue.Row>)
    ensures BlockStore.AfterItems(env, t, a + b) == BlockStore.AfterItems(env, BlockStore.AfterItems(env, t, a), b)
  {
    hide BlockStore.AfterItem;
    if b == [] {
      assert a + b == a;
    } else {
      var n := |b| - 1;
      assert (a + b)[..|a| + n] == a + b[..n];
      AfterItemsSplit(env, t, a, b[..n]);
    }
  }

  /** Asking only for the hashes that are missing fills the table as the whole page would. */
  lemma {:induction false} MissingSuffices(
      env: BlockStore.Env, t: BlockStore.Blocks, view: View, page: View, missing: set<Bytes>)
    requires Honest(env, view) && From(view, page)
    requires forall h: Bytes :: h in missing <==> h !in t && h in HashesOf(page)
    ensures BlockStore.AfterItems(env, t, Items(WithHashes(view, missing))) ==
      BlockStore.AfterItems(env, t, Items(page))
  {
    hide BlockStore.AfterItems, BlockStore.Offers, BlockStore.Consistent, env.Storable, Honest;
    var sub := WithHashes(view, missing);
    forall i | 0 <= i < |sub| ensures sub[i] in view {
      WithHashesMember(view, missing, sub[i]);
    }
    FromIsConsistent(env, view, sub);
    FromIsConsistent(env, view, page);
    var p, q := BlockStore.AfterItems(env, t, Items(sub)), BlockStore.AfterItems(env, t, Items(page));
    forall h: Bytes, row: BlockStore.BlockRow ensures BlockStore.HasRow(p, h, row) <==> BlockStore.HasRow(q, h, row) {
      BlockStore.StoredIffOffered(env, t, Items(sub), h, row);
      BlockStore.StoredIffOffered(env, t, Items(page), h, row);
      if h !in t {
        SameOffers(env, t, view, page, missing, h, row);
      }
    }
    BlockStore.SameRows(p, q);
  }

  lemma {:induction false} SameOffers(
      env: BlockStore.Env, t: BlockStore.Blocks, view: View, page: View, missing: set<Bytes>, h: Bytes,
      row: BlockStore.BlockRow)
    requires Honest(env, view) && From(view, page) && h !in t
    requires forall k: Bytes :: k in missing <==> k !in t && k in HashesOf(page)
    ensures BlockStore.Offers(env, Items(WithHashes(view, missing)), h, row) <==>
      BlockStore.Offers(env, Items(page), h, row)
  {
    hide env.Storable, Honest;
    var sub := WithHashes(view, missing);
    if BlockStore.Offers(env, Items(sub), h, row) {
      var i :| 0 <= i < |sub| && sub[i].hash == h && env.Storable(ItemOf(sub[i])) == Some(row);
      WithHashesMember(view, missing, sub[i]);
      var j :| 0 <= j < |page| && HashesOf(page)[j] == h;
      SameHashSameRow(env, view, sub[i], page[j]);
      assert Items(page)[j].hash == h && env.Storable(Items(page)[j]) == Some(row);
    }
    if BlockStore.Offers(env, Items(page), h, row) {
      var j :| 0 <= j < |page| && page[j].hash == h && env.Storable(ItemOf(page[j])) == Some(row);
      assert HashesOf(page)[j] == h;
      WithHashesMember(view, missing, page[j]);
      var i :| 0 <= i < |sub| && sub[i] == page[j];
      assert Items(sub)[i].hash == h && env.Storable(Items(sub)[i]) == Some(row);
    }
  }

  // ---------- a peer that serves a fixed view ----------

  /** How a peer may stop answering: at its n-th page request it replies with an error object, or not at all. */
  datatype Stop = Never | Refuses(at: nat) | Unreachable(at: nat)

  function RawsOf(view: View): seq<Bytes> { seq(|view|, i requires 0 <= i < |view| => view[i].raw) }

  function PageReply(view: View, stop: Stop, i: nat, shard: nat, page: nat): Reply {
    if stop == Refuses(i) then
      ErrorObject
    else if stop.Unreachable? && stop.at <= i then
      NoAnswer
    else
      match HashPage(view, shard, page, PAGE_SIZE)
      case None => ErrorObject
      case Some(rows) => List(HashesOf(rows))
  }

  function PeerOf(view: View, stops: nat -> Stop): Peer {
    Peer((i: nat, shard: nat, page: nat) => PageReply(view, stops(shard), i, shard, page),
      (i: nat, shard: nat, hashes: seq<Bytes>) => List(RawsOf(WithHashes(view, set h | h in hashes))))
  }

  /** The pages that are not empty, from page `page` of n hashes on. */
  function PagesLeft(n: nat, page: nat): nat {
    if page == 0 || (page - 1) * PAGE_SIZE >= n then 0 else Ceil(n - (page - 1) * PAGE_SIZE, PAGE_SIZE)
  }

  function Fetched(n: nat, page: nat, stop: Stop): nat {
    if stop.Never? || stop.at > PagesLeft(n, page) then PagesLeft(n, page) else stop.at
  }

  /** A reply that is not a list reads as an empty page, which ends the loop and records the shard. */
  predicate Records(n: nat, page: nat, stop: Stop) {
    !(stop.Unreachable? && stop.at <= PagesLeft(n, page))
  }

  function Reached(rows: View, page: nat, k: nat): View {
    if page == 0 then [] else PageAt(rows, (page - 1) * PAGE_SIZE, k * PAGE_SIZE)
  }

  lemma {:induction false} NextPage(rows: View, page: nat, k: nat)
    ensures page == 0 ==> PagesLeft(|rows|, page) == 0
    ensures k < PagesLeft(|rows|, page) <==> page != 0 && (page + k - 1) * PAGE_SIZE < |rows|
    ensures page != 0 ==>
      Reached(rows, page, k + 1) == Reached(rows, page, k) + PageAt(rows, (page + k - 1) * PAGE_SIZE, PAGE_SIZE)
    ensures page != 0 && k < PagesLeft(|rows|, page) ==> PageAt(rows, (page + k - 1) * PAGE_SIZE, PAGE_SIZE) != []
    ensures page != 0 && k >= PagesLeft(|rows|, page) ==> PageAt(rows, (page + k - 1) * PAGE_SIZE, PAGE_SIZE) == []
  {
    if page != 0 {
      var from := (page - 1) * PAGE_SIZE;
      assert (page + k - 1) * PAGE_SIZE == from + k * PAGE_SIZE;
      if from < |rows| {
        CeilCovers(|rows| - from, PAGE_SIZE);
      }
    }
  }

  // The rows on pages k up to f, counted from the first page asked for.
  function Stretch(rows: View, page: nat, k: nat, f: nat): View
    requires k <= f
  {
    if page == 0 then [] else PageAt(rows, (page + k - 1) * PAGE_SIZE, (f - k) * PAGE_SIZE)
  }

  lemma StretchSplit(rows: View, page: nat, k: nat, f: nat)
    requires page != 0 && k < f
    ensures Stretch(rows, page, k, f) ==
      PageAt(rows, (page + k - 1) * PAGE_SIZE, PAGE_SIZE) + Stretch(rows, page, k + 1, f)
  {
    assert (page + k) * PAGE_SIZE == (page + k - 1) * PAGE_SIZE + PAGE_SIZE;
    assert (f - k) * PAGE_SIZE == PAGE_SIZE + (f - k - 1) * PAGE_SIZE;
  }

  lemma {:induction false} RawsAreItems(env: BlockStore.Env, t: BlockStore.Blocks, sub: View)
    requires forall i | 0 <= i < |sub| :: HonestRow(env, sub[i].hash, sub[i].raw)
    ensures AfterRaws(env, t, RawsOf(sub)) == BlockStore.AfterItems(env, t, Items(sub))
  {
    hide BlockStore.AfterItem;
    if sub != [] {
      var n := |sub| - 1;
      RawsAreItems(env, t, sub[..n]);
      assert RawsOf(sub)[..n] == RawsOf(sub[..n]) && Items(sub)[..n] == Items(sub[..n]);
    }
  }

  lemma {:induction false} MissingMember(t: set<Bytes>, hashes: seq<Bytes>, h: Bytes)
    ensures h in Missing(t, hashes) <==> h !in t && h in hashes
  {
    if hashes != [] {
      MissingMember(t, hashes[..|hashes| - 1], h);
      assert hashes == hashes[..|hashes| - 1] + [hashes[|hashes| - 1]];
    }
  }

  lemma {:induction false} WithNoHashes(view: View)
    ensures WithHashes(view, {}) == []
  {
    if view != [] {
      WithNoHashes(view[..|view| - 1]);
    }
  }

  // The reply that ends the loop: nothing, an error object, or an empty page.
  lemma {:induction false} LastReply(view: View, stop: Stop, shard: nat, start: nat)
    ensures (var rows := OfShard(view, shard);
      var f := Fetched(|rows|, start, stop);
      var reply := PageReply(view, stop, f, shard, start + f);
      if Records(|rows|, start, stop) then reply == ErrorObject || reply == List([]) else reply == NoAnswer)
  {
    hide OfShard, PagesLeft;
    var rows := OfShard(view, shard);
    NextPage(rows, start, Fetched(|rows|, start, stop));
    assert HashesOf([]) == [];
  }

  lemma FetchedFew(n: nat, start: nat, stop: Stop)
    ensures Fetched(n, start, stop) <= PagesLeft(n, start)
  {
  }

  // Every reply before it: a page of hashes.
  lemma {:induction false} NextReply(view: View, stop: Stop, shard: nat, start: nat, k: nat)
    requires k < Fetched(|OfShard(view, shard)|, start, stop)
    ensures start != 0
    ensures (var page := PageAt(OfShard(view, shard), (start + k - 1) * PAGE_SIZE, PAGE_SIZE);
      page != [] && From(view, page) && PageReply(view, stop, k, shard, start + k) == List(HashesOf(page)))
  {
    hide OfShard, PagesLeft;
    NextPage(OfShard(view, shard), start, k);
    PageFromView(view, shard, PageAt(OfShard(view, shard), (start + k - 1) * PAGE_SIZE, PAGE_SIZE));
  }

  // One page of an honest view, whether any of it is missing or not.
  lemma {:induction false} HonestPage(env: BlockStore.Env, t: BlockStore.Blocks, view: View, page: View)
    requires Honest(env, view) && From(view, page)
    ensures (var missing := Missing(t.Keys, HashesOf(page));
      (if missing == [] then t else AfterRaws(env, t, RawsOf(WithHashes(view, set h | h in missing)))) ==
        BlockStore.AfterItems(env, t, Items(page)))
  {
    hide AfterRaws, BlockStore.AfterItems, HonestRow;
    var missing := Missing(t.Keys, HashesOf(page));
    var wanted := set h | h in missing;
    forall h: Bytes ensures h in wanted <==> h !in t && h in HashesOf(page) {
      MissingMember(t.Keys, HashesOf(page), h);
    }
    MissingSuffices(env, t, view, page, wanted);
    var sub := WithHashes(view, wanted);
    forall i | 0 <= i < |sub| ensures HonestRow(env, sub[i].hash, sub[i].raw) && sub[i].hash in wanted {
      WithHashesMember(view, wanted, sub[i]);
    }
    if missing == [] {
      assert wanted == {};
      WithNoHashes(view);
      assert Items(WithHashes(view, wanted)) == [];
      NoItems(env, t);
    } else {
      RawsAreItems(env, t, sub);
    }
  }

  lemma PeerAt(view: View, stops: nat -> Stop, i: nat, shard: nat, page: nat, hashes: seq<Bytes>)
    ensures PeerOf(view, stops).page(i, shard, page) == PageReply(view, stops(shard), i, shard, page)
    ensures PeerOf(view, stops).blocks(i, shard, hashes) == List(RawsOf(WithHashes(view, set h | h in hashes)))
  {
  }

  lemma RunEnds(
      env: BlockStore.Env, t: BlockStore.Blocks, peer: Peer, shard: nat, page: nat, i: nat, limit: nat)
    requires i < limit && (peer.page(i, shard, page).List? ==> peer.page(i, shard, page).items == [])
    ensures ClientRun(env, t, peer, shard, page, i, limit) ==
      ClientResult(t, page, i + 1, !peer.page(i, shard, page).NoAnswer?)
  {
  }

  lemma RunTurns(
      env: BlockStore.Env, t: BlockStore.Blocks, peer: Peer, shard: nat, page: nat, i: nat, limit: nat,
      hashes: seq<Bytes>)
    requires i < limit && peer.page(i, shard, page) == List(hashes) && hashes != []
    requires peer.blocks(i, shard, Missing(t.Keys, hashes)).List?
    ensures (var missing := Missing(t.Keys, hashes);
      var next := if missing == [] then t else AfterRaws(env, t, peer.blocks(i, shard, missing).items);
      ClientRun(env, t, peer, shard, page, i, limit) == ClientRun(env, next, peer, shard, page + 1, i + 1, limit))
  {
    hide AfterRaws, Missing;
  }

  /** Against a fixed honest view: the requests made, the rows stored, the page reached and whether the loop ends. */
  lemma {:induction false} HonestRun(
      env: BlockStore.Env, t: BlockStore.Blocks, view: View, stops: nat -> Stop, shard: nat, start: nat, k: nat,
      limit: nat)
    requires Honest(env, view) && limit > PagesLeft(|OfShard(view, shard)|, start)
    requires k <= Fetched(|OfShard(view, shard)|, start, stops(shard))
    ensures (var rows, stop := OfShard(view, shard), stops(shard);
      var f := Fetched(|rows|, start, stop);
      ClientRun(env, t, PeerOf(view, stops), shard, start + k, k, limit) == ClientResult(
        BlockStore.AfterItems(env, t, Items(Stretch(rows, start, k, f))),
        start + f, f + 1, Records(|rows|, start, stop)))
    decreases Fetched(|OfShard(view, shard)|, start, stops(shard)) - k
  {
    hide BlockStore.AfterItems, Honest, AfterRaws, OfShard, WithHashes, Missing, ClientRun, PeerOf, Records,
      PageReply, Fetched;
    var rows, stop, peer := OfShard(view, shard), stops(shard), PeerOf(view, stops);
    var f := Fetched(|rows|, start, stop);
    FetchedFew(|rows|, start, stop);
    if k == f {
      LastReply(view, stop, shard, start);
      PeerAt(view, stops, k, shard, start + k, []);
      RunEnds(env, t, peer, shard, start + k, k, limit);
      assert Items(Stretch(rows, start, k, f)) == [];
      NoItems(env, t);
    } else {
      var page := PageAt(rows, (start + k - 1) * PAGE_SIZE, PAGE_SIZE);
      NextReply(view, stop, shard, start, k);
      HonestPage(env, t, view, page);
      PeerAt(view, stops, k, shard, start + k, Missing(t.Keys, HashesOf(page)));
      RunTurns(env, t, peer, shard, start + k, k, limit, HashesOf(page));
      HonestRun(env, BlockStore.AfterItems(env, t, Items(page)), view, stops, shard, start, k + 1, limit);
      StretchSplit(rows, start, k, f);
      ItemsSplit(env, t, page, Stretch(rows, start, k + 1, f));
    }
  }

  lemma NoItems(env: BlockStore.Env, t: BlockStore.Blocks)
    ensures BlockStore.AfterItems(env, t, []) == t
  {
  }

  lemma PageFromView(view: View, shard: nat, page: View)
    requires exists offset: nat, size: nat :: page == PageAt(OfShard(view, shard), offset, size)
    ensures From(view, page)
  {
    forall i | 0 <= i < |page| ensures page[i] in view {
      assert page[i] in OfShard(view, shard);
      OfShardMember(view, shard, page[i]);
    }
  }

  lemma ItemsSplit(env: BlockStore.Env, t: BlockStore.Blocks, a: View, b: View)
    ensures BlockStore.AfterItems(env, t, Items(a + b))
      == BlockStore.AfterItems(env, BlockStore.AfterItems(env, t, Items(a)), Items(b))
  {
    hide BlockStore.AfterItems;
    AfterItemsSplit(env, t, Items(a), Items(b));
    assert Items(a + b) == Items(a) + Items(b);
  }

  /** The peers' views, and how each stops answering about each shard. */
  datatype Views = Views(view: Bytes -> View, stops: Bytes -> nat -> Stop) {
    function AsNet(): Net {
      Net(v => PeerOf(view(v), stops(v)), (v: Bytes, s: nat) => |OfShard(view(v), s)| + 1)
    }

    function RowsRead(job: Finished): View {
      var rows := OfShard(view(job.client.view), job.shard);
      Reached(rows, job.client.page, Fetched(|rows|, job.client.page, stops(job.client.view)(job.shard)))
    }

    predicate Completes(job: Finished) {
      Records(|OfShard(view(job.client.view), job.shard)|, job.client.page, stops(job.client.view)(job.shard))
    }
  }

  function FinishedOf(views: Views, jobs: seq<Finished>): seq<Finished> {
    if jobs == [] then
      []
    else
      FinishedOf(views, jobs[..|jobs| - 1]) + (if views.Completes(jobs[|jobs| - 1]) then [jobs[|jobs| - 1]] else [])
  }

  function ItemsOf(views: Views, jobs: seq<Finished>): seq<Queue.Row> {
    if jobs == [] then [] else ItemsOf(views, jobs[..|jobs| - 1]) + Items(views.RowsRead(jobs[|jobs| - 1]))
  }

  lemma {:induction false} HonestJob(env: BlockStore.Env, t: BlockStore.Blocks, views: Views, job: Finished)
    requires Honest(env, views.view(job.client.view))
    ensures (var run := Run(env, views.AsNet(), t, job);
      run.blocks == BlockStore.AfterItems(env, t, Items(views.RowsRead(job))) && run.ended == views.Completes(job))
  {
    hide BlockStore.AfterItems, Honest, ClientRun, Records;
    var v, s := job.client.view, job.shard;
    var rows := OfShard(views.view(v), s);
    CeilSmall(|rows|, job.client.page);
    HonestRun(env, t, views.view(v), views.stops(v), s, job.client.page, 0, |rows| + 1);
  }

  lemma CeilSmall(n: nat, page: nat)
    ensures PagesLeft(n, page) <= n
  {
  }

  /** Against honest views a pass stores what they list, and finishes the jobs that come to their end. */
  lemma {:induction false} HonestPass(env: BlockStore.Env, t: BlockStore.Blocks, views: Views, jobs: seq<Finished>)
    requires forall j | j in jobs :: Honest(env, views.view(j.client.view))
    ensures Pass(env, views.AsNet(), t, jobs) ==
      (BlockStore.AfterItems(env, t, ItemsOf(views, jobs)), FinishedOf(views, jobs))
  {
    hide BlockStore.AfterItems, Honest, Run, views.RowsRead, views.Completes;
    if jobs == [] {
      NoItems(env, t);
    } else {
      var n := |jobs| - 1;
      HonestPass(env, t, views, jobs[..n]);
      HonestJob(env, BlockStore.AfterItems(env, t, ItemsOf(views, jobs[..n])), views, jobs[n]);
      AfterItemsSplit(env, t, ItemsOf(views, jobs[..n]), Items(views.RowsRead(jobs[n])));
    }
  }

  // ---------- what a pass achieves ----------

  /** From page 1, a loop that ends by recording the shard has read all of it exactly when the peer did not refuse
      a page before the last one: a refusal is taken for the end of the list. Answered to the end it takes
      ceil(n/20) + 1 requests. */
  lemma {:induction false} RecordedIsCompleteIff(rows: View, stop: Stop)
    requires Records(|rows|, 1, stop)
    ensures Reached(rows, 1, Fetched(|rows|, 1, stop)) == rows <==>
      !(stop.Refuses? && stop.at < PagesLeft(|rows|, 1))
    ensures PagesLeft(|rows|, 1) == Ceil(|rows|, 20)
    ensures stop == Never ==> Fetched(|rows|, 1, stop) + 1 == Ceil(|rows|, 20) + 1
  {
    var f := Fetched(|rows|, 1, stop);
    CeilCovers(|rows|, PAGE_SIZE);
    if f * PAGE_SIZE >= |rows| {
      assert Reached(rows, 1, f) == rows;
    } else {
      assert |Reached(rows, 1, f)| == f * PAGE_SIZE;
    }
  }

  /** After a loop that read the whole shard: a row of the view that touches it is in the table if it was there
      before or its block is valid, and only then; a row that is new holds the view's raw text. */
  lemma {:induction false} ViewIsCopied(env: BlockStore.Env, t: BlockStore.Blocks, view: View, shard: nat, r: ViewRow)
    requires Honest(env, view) && r in view && shard in r.shards
    ensures (var after := BlockStore.AfterItems(env, t, Items(OfShard(view, shard)));
      && (r.hash in after <==> r.hash in t || env.Storable(ItemOf(r)).Some?)
      && (r.hash in after && r.hash !in t ==>
           Some(after[r.hash]) == env.Storable(ItemOf(r)) && after[r.hash].raw == r.raw))
  {
    hide BlockStore.AfterItems, BlockStore.Consistent, OfShard;
    var rows := OfShard(view, shard);
    ShardRowsFrom(view, shard);
    FromIsConsistent(env, view, rows);
    var after := BlockStore.AfterItems(env, t, Items(rows));
    OfShardMember(view, shard, r);
    var k :| 0 <= k < |rows| && rows[k] == r;
    assert Items(rows)[k] == ItemOf(r);
    if env.Storable(ItemOf(r)).Some? {
      var row := env.Storable(ItemOf(r)).value;
      assert BlockStore.Offers(env, Items(rows), r.hash, row);
      BlockStore.StoredIffOffered(env, t, Items(rows), r.hash, row);
    }
    if r.hash in t {
      BlockStore.StoredIffOffered(env, t, Items(rows), r.hash, t[r.hash]);
    } else if r.hash in after {
      BlockStore.StoredIffOffered(env, t, Items(rows), r.hash, after[r.hash]);
      OfferedByRow(env, view, rows, r, after[r.hash]);
    }
  }

  lemma ShardRowsFrom(view: View, shard: nat)
    ensures From(view, OfShard(view, shard))
  {
    forall i | 0 <= i < |OfShard(view, shard)| ensures OfShard(view, shard)[i] in view {
      OfShardMember(view, shard, OfShard(view, shard)[i]);
    }
  }

  lemma {:induction false} OfferedByRow(
      env: BlockStore.Env, view: View, rows: View, r: ViewRow, row: BlockStore.BlockRow)
    requires Honest(env, view) && From(view, rows) && r in view
    requires BlockStore.Offers(env, Items(rows), r.hash, row)
    ensures env.Storable(ItemOf(r)) == Some(row) && row.raw == r.raw
  {
    var i :| 0 <= i < |rows| && Items(rows)[i].hash == r.hash && env.Storable(Items(rows)[i]) == Some(row);
    SameHashSameRow(env, view, rows[i], r);
    var j :| 0 <= j < |view| && view[j] == r;
    assert HonestRow(env, view[j].hash, view[j].raw);
  }

  /** Two nodes with the same contract state, the peer's table filled from queues and from other peers: once a shard
      of a snapshot is copied, every block the peer had of it, old enough for the snapshot, is stored here, and a
      block not known before is stored as the very same row. */
  lemma {:induction false} PeerIsCopied(
      env: BlockStore.Env, peer: BlockStore.Blocks, shards: set<nat>, now: nat, view: View, t: BlockStore.Blocks,
      shard: nat, h: Bytes)
    requires SafeGrowth(env, map[], peer) && IsSnapshot(peer, shards, now, view)
    requires h in peer && 1000 * (peer[h].block.ts / 1000) < now && shard in shards && shard in peer[h].shards
    ensures (var after := BlockStore.AfterItems(env, t, Items(OfShard(view, shard)));
      h in after && (h !in t ==> after[h] == peer[h]))
  {
    hide BlockStore.AfterItems, GoodRow;
    forall k | k in peer ensures HonestRow(env, k, peer[k].raw) {
      GoodRowIsHonest(env, k, peer[k]);
    }
    SnapshotIsHonest(env, peer, shards, now, view);
    var r := RowFor(peer, h);
    assert shard in peer[h].shards * shards;
    assert r in view;
    GoodRowIsStorable(env, h, peer[h]);
    ViewIsCopied(env, t, view, shard, r);
  }

  // A good row, sent on as text, leads to the same row.
  lemma {:induction false} GoodRowIsStorable(env: BlockStore.Env, h: Bytes, row: BlockStore.BlockRow)
    requires GoodRow(env, h, row)
    ensures env.Storable(Queue.Row(1, row.raw, h)) == Some(row)
  {
    hide env.Acceptable;
    var bytes: Bytes :| h == env.HashOf(bytes) && DecodeBlock(bytes).Some? && env.Acceptable(DecodeBlock(bytes).value)
      && row == env.RowOf(DecodeBlock(bytes).value, bytes);
    BitUtil.HexRoundTrip(bytes);
  }

  /** Queue items grow a table as safely as peers do: whatever mix of the two filled it, its new rows are good. */
  lemma {:induction false} QueuesGrowSafely(env: BlockStore.Env, t: BlockStore.Blocks, items: seq<Queue.Row>)
    ensures SafeGrowth(env, t, BlockStore.AfterItems(env, t, items))
  {
    hide GoodRow, env.Storable;
    if items != [] {
      var before, last := BlockStore.AfterItems(env, t, items[..|items| - 1]), items[|items| - 1];
      QueuesGrowSafely(env, t, items[..|items| - 1]);
      if env.Storable(last).Some? {
        StorableIsGood(env, last);
      }
      SafeTwice(env, t, before, BlockStore.AfterItem(env, before, last));
    }
  }

  lemma StorableIsGood(env: BlockStore.Env, item: Queue.Row)
    requires env.Storable(item).Some?
    ensures GoodRow(env, item.hash, env.Storable(item).value)
  {
    hide env.Acceptable;
    var bytes := BitUtil.Base16ToBytes(item.payload).value;
    assert item.hash == env.HashOf(bytes);
  }

  /** After an undisturbed pass from page 1 over honest views, every valid block that a view lists for a served shard
      is stored. */
  lemma {:induction false} PassCopiesViews(
      env: BlockStore.Env, t: BlockStore.Blocks, views: Views, jobs: seq<Finished>, job: Finished, r: ViewRow)
    requires forall j | j in jobs :: Honest(env, views.view(j.client.view))
    requires job in jobs && job.client.page == 1 && views.stops(job.client.view)(job.shard) == Never
    requires r in views.view(job.client.view) && job.shard in r.shards && env.Storable(ItemOf(r)).Some?
    ensures r.hash in Pass(env, views.AsNet(), t, jobs).0
    ensures job in Pass(env, views.AsNet(), t, jobs).1
  {
    hide BlockStore.AfterItems, Honest, env.Storable, Pass, ItemsOf, FinishedOf;
    HonestPass(env, t, views, jobs);
    var rows := OfShard(views.view(job.client.view), job.shard);
    RecordedIsCompleteIff(rows, Never);
    OfShardMember(views.view(job.client.view), job.shard, r);
    var k :| 0 <= k < |rows| && rows[k] == r;
    assert Items(rows)[k] == ItemOf(r);
    ItemsOfMember(views, jobs, job, ItemOf(r));
    OfferedHashIsStored(env, t, ItemsOf(views, jobs), ItemOf(r));
    FinishedMember(views, jobs, job);
  }

  lemma {:induction false} FinishedMember(views: Views, jobs: seq<Finished>, j: Finished)
    ensures j in FinishedOf(views, jobs) <==> j in jobs && views.Completes(j)
  {
    hide views.Completes;
    if jobs != [] {
      var n := |jobs| - 1;
      FinishedMember(views, jobs[..n], j);
      assert jobs == jobs[..n] + [jobs[n]];
    }
  }

  lemma {:induction false} ItemsOfMember(views: Views, jobs: seq<Finished>, job: Finished, item: Queue.Row)
    requires job in jobs && item in Items(views.RowsRead(job))
    ensures item in ItemsOf(views, jobs)
  {
    hide views.RowsRead;
    var n := |jobs| - 1;
    if job != jobs[n] {
      assert jobs == jobs[..n] + [jobs[n]];
      ItemsOfMember(views, jobs[..n], job, item);
    }
  }

  lemma {:induction false} OfferedHashIsStored(
      env: BlockStore.Env, t: BlockStore.Blocks, items: seq<Queue.Row>, item: Queue.Row)
    requires item in items && env.Storable(item).Some?
    ensures item.hash in BlockStore.AfterItems(env, t, items)
  {
    hide env.Storable;
    var n := |items| - 1;
    if item != items[n] {
      assert items == items[..n] + [items[n]];
      OfferedHashIsStored(env, t, items[..n], item);
    }
  }
}
