/** Marking rows for expiry and deleting them in batches (IndexStorage.ts). */
module Expiry {
  import opened Bytes
  import opened ListUtil
  import Inbox

  const BATCH := 1000

  // ---------- the order a query lists its rows in ----------

  lemma {:induction false} PagesSoFar<T>(s: seq<T>, offset: nat, size: nat)
    ensures Elements(s[..Min(offset + size, |s|)]) ==
      Elements(s[..Min(offset, |s|)]) + Elements(PageAt(s, offset, size))
  {
    var a, b := Min(offset, |s|), Min(offset + size, |s|);
    assert s[..b] == s[..a] + s[a..b];
  }

  // ---------- inbox rows ----------

  /** The expiration_ts of each row; skey is the key's transaction hash. */
  type Expirations = map<Inbox.InboxKey, Option<nat>>

  ghost function RowsOfShard(t: Expirations, shard: nat): set<Inbox.InboxKey> { set k | k in t && k.shard == shard }

  ghost function RowsOfShards(t: Expirations, shards: set<nat>): set<Inbox.InboxKey> {
    set k | k in t && k.shard in shards
  }

  function Hashes(ks: set<Inbox.InboxKey>): set<Bytes> { set k | k in ks :: k.txHash }

  /** UPDATE ... SET expiration_ts WHERE skey IN (...). */
  function Marked(t: Expirations, hashes: set<Bytes>, time: nat): Expirations {
    map k | k in t :: if k.txHash in hashes then Some(time) else t[k]
  }

  ghost predicate Expired(t: Expirations, k: Inbox.InboxKey, now: nat) {
    k in t && t[k].Some? && t[k].value < now
  }

  ghost function ExpiredRows(t: Expirations, now: nat): set<Inbox.InboxKey> { set k | k in t && Expired(t, k, now) }

  /** DELETE ... WHERE skey IN (...). */
  function Without(t: Expirations, hashes: set<Bytes>): Expirations { map k | k in t && k.txHash !in hashes :: t[k] }

  lemma MarkedTwice(t: Expirations, a: set<Bytes>, b: set<Bytes>, time: nat)
    ensures Marked(Marked(t, a, time), b, time) == Marked(t, a + b, time)
    ensures Marked(t, {}, time) == t
  {
  }

  lemma MarkedRows(t: Expirations, hashes: set<Bytes>, time: nat)
    ensures Marked(t, hashes, time).Keys == t.Keys
    ensures forall k | k in t && Marked(t, hashes, time)[k] != t[k] ::
      k.txHash in hashes && Marked(t, hashes, time)[k] == Some(time)
  {
  }

  lemma WithoutTwice(t: Expirations, a: set<Bytes>, b: set<Bytes>)
    ensures Without(Without(t, a), b) == Without(t, a + b)
    ensures Without(t, {}) == t
  {
  }

  lemma MarkedKeepsShards(t: Expirations, hashes: set<Bytes>, time: nat, shard: nat)
    ensures RowsOfShard(Marked(t, hashes, time), shard) == RowsOfShard(t, shard)
    ensures forall orderAt: nat -> seq<Inbox.InboxKey> ::
      HashesTouched(Marked(t, hashes, time), shard, orderAt) == HashesTouched(t, shard, orderAt)
  {
    assert RowsOfShard(Marked(t, hashes, time), shard) == RowsOfShard(t, shard);
  }

  lemma HashesOfUnion(a: set<Inbox.InboxKey>, b: set<Inbox.InboxKey>)
    ensures Hashes(a + b) == Hashes(a) + Hashes(b)
  {
  }

  lemma HashesOfShards(t: Expirations, done: set<nat>, shard: nat)
    ensures Hashes(RowsOfShards(t, done + {shard})) == Hashes(RowsOfShards(t, done)) + Hashes(RowsOfShard(t, shard))
  {
    assert RowsOfShards(t, done + {shard}) == RowsOfShards(t, done) + RowsOfShard(t, shard);
    HashesOfUnion(RowsOfShards(t, done), RowsOfShard(t, shard));
  }

  /** What the first n pages hold, page k being read in order k. */
  ghost function Touched<T>(orderAt: nat -> seq<T>, size: nat, n: nat): set<T> {
    if n == 0 then {} else Touched(orderAt, size, n - 1) + Elements(PageAt(orderAt(n - 1), (n - 1) * size, size))
  }

  lemma MulGap(a: nat, b: nat, size: nat)
    ensures a < b ==> (a + 1) * size <= b * size
  {
    if a < b {
      assert b * size == (a + 1) * size + (b - a - 1) * size;
    }
  }

  lemma DivBounds(count: nat, size: nat)
    requires size > 0
    ensures (count / size) * size <= count < (count / size + 1) * size
  {
  }

  // The last page is the first that is not full.
  lemma LastPage(count: nat, size: nat, n: nat)
    requires size > 0 && n * size <= count < (n + 1) * size
    ensures count / size == n
  {
    var q := count / size;
    DivBounds(count, size);
    MulGap(q, n, size);
    MulGap(n, q, size);
  }

  lemma PastTheEnd(count: nat, size: nat)
    requires size > 0
    ensures (count / size + 1) * size >= count
  {
  }

  lemma {:induction false} TouchedWithin<T(!new)>(orderAt: nat -> seq<T>, x: set<T>, size: nat, n: nat)
    requires forall k: nat :: Enumerates(orderAt(k), x)
    ensures Touched(orderAt, size, n) <= x
  {
    hide Enumerates, PageAt;
    if n > 0 {
      TouchedWithin(orderAt, x, size, n - 1);
      PageWithin(orderAt(n - 1), x, (n - 1) * size, size);
    }
  }

  lemma {:induction false} TouchedInOneOrder<T>(orderAt: nat -> seq<T>, size: nat, n: nat)
    requires forall k: nat :: orderAt(k) == orderAt(0)
    ensures Touched(orderAt, size, n) == Elements(orderAt(0)[..Min(n * size, |orderAt(0)|)])
  {
    if n > 0 {
      TouchedInOneOrder(orderAt, size, n - 1);
      PagesSoFar(orderAt(0), (n - 1) * size, size);
      assert (n - 1) * size + size == n * size;
    }
  }

  lemma {:induction false} SomeSubset<T>(x: set<T>, n: nat)
    requires n <= |x|
    ensures exists y :: y <= x && |y| == n
  {
    if n == |x| {
      assert x <= x;
    } else {
      var e :| e in x;
      SomeSubset(x - {e}, n);
      var y :| y <= x - {e} && |y| == n;
      assert y <= x;
    }
  }

  /** The hashes on the pages read for one shard, and for all of them. */
  ghost function HashesTouched(t: Expirations, shard: nat, orderAt: nat -> seq<Inbox.InboxKey>): set<Bytes> {
    Hashes(Touched(orderAt, BATCH, Ceil(|RowsOfShard(t, shard)|, BATCH)))
  }

  ghost function AllTouched(t: Expirations, shards: set<nat>, orderAt: nat -> nat -> seq<Inbox.InboxKey>): set<Bytes> {
    set s, h | s in shards && h in HashesTouched(t, s, orderAt(s)) :: h
  }

  lemma NothingMarked(t: Expirations, orderAt: nat -> seq<Inbox.InboxKey>, time: nat)
    ensures Marked(t, Hashes(Touched(orderAt, BATCH, 0)), time) == t
  {
    assert Hashes(Touched(orderAt, BATCH, 0)) == {};
    MarkedTwice(t, {}, {}, time);
  }

  lemma OneMoreBatch(t: Expirations, orderAt: nat -> seq<Inbox.InboxKey>, i: nat, time: nat)
    ensures (var batch := Hashes(Elements(PageAt(orderAt(i), i * BATCH, BATCH)));
      Marked(Marked(t, Hashes(Touched(orderAt, BATCH, i)), time), batch, time) ==
        Marked(t, Hashes(Touched(orderAt, BATCH, i + 1)), time))
  {
    var before, batch := Touched(orderAt, BATCH, i), Elements(PageAt(orderAt(i), i * BATCH, BATCH));
    HashesOfUnion(before, batch);
    MarkedTwice(t, Hashes(before), Hashes(batch), time);
  }

  lemma NoShards(t: Expirations, orderAt: nat -> nat -> seq<Inbox.InboxKey>)
    ensures AllTouched(t, {}, orderAt) == {} && Hashes(RowsOfShards(t, {})) == {}
  {
  }

  lemma OneMoreTouched(
      t: Expirations, done: set<nat>, shard: nat, orderAt: nat -> nat -> seq<Inbox.InboxKey>)
    ensures AllTouched(t, done + {shard}, orderAt) ==
      AllTouched(t, done, orderAt) + HashesTouched(t, shard, orderAt(shard))
  {
  }

  // ---------- what the pages reach when every query may list the rows anew ----------

  /** Every query lists the same rows. */
  ghost predicate AllEnumerate<T(!new)>(orderAt: nat -> seq<T>, x: set<T>) {
    forall n: nat :: Enumerates(orderAt(n), x)
  }

  function Inserted<T>(o: seq<T>, at: nat, r: seq<T>): seq<T> { o[..Min(at, |o|)] + r + o[Min(at, |o|)..] }

  lemma InsertedEnumerates<T(!new)>(o: seq<T>, b: set<T>, at: nat, r: seq<T>, a: set<T>)
    requires Enumerates(o, b) && Enumerates(r, a) && a !! b
    ensures Enumerates(Inserted(o, at, r), a + b)
  {
    var i, all := Min(at, |o|), Inserted(o, at, r);
    assert forall k | 0 <= k < |r| :: r[k] in a;
    assert forall k | 0 <= k < |o| :: o[k] in b;
    assert forall k | 0 <= k < i :: all[k] == o[k];
    assert forall k | i <= k < i + |r| :: all[k] == r[k - i];
    assert forall k | i + |r| <= k < |all| :: all[k] == o[k - |r|];
    forall e ensures e in all <==> e in a + b {
      assert o == o[..i] + o[i..];
      assert e in all <==> e in o[..i] || e in r || e in o[i..];
    }
  }

  // The page cut out of the list holds nothing but the inserted part.
  lemma InsertedPage<T>(o: seq<T>, r: seq<T>, n: nat)
    requires |r| > 0
    ensures forall e | e in PageAt(Inserted(o, n * |r|, r), n * |r|, |r|) :: e in r
  {
    var all, from := Inserted(o, n * |r|, r), n * |r|;
    var page := PageAt(all, from, |r|);
    forall k | 0 <= k < |page| ensures page[k] in r {
      assert page[k] == all[from + k];
      assert Min(from, |o|) <= from + k < Min(from, |o|) + |r|;
      assert page[k] == r[from + k - Min(from, |o|)];
    }
  }

  lemma InsertingOrder<T(!new)>(x: set<T>, a: set<T>, o: seq<T>, r: seq<T>, n: nat)
    requires a <= x && a != {} && Enumerates(r, a) && Enumerates(o, x - a)
    ensures Enumerates(Inserted(o, n * |r|, r), x)
    ensures Elements(PageAt(Inserted(o, n * |r|, r), n * |r|, |r|)) <= a
  {
    InsertedEnumerates(o, x - a, n * |r|, r, a);
    assert a + (x - a) == x;
    InsertedPage(o, r, n);
  }

  /** Rows few enough to leave a page's worth of others can be kept off every page. */
  lemma {:induction false} OrdersAvoiding<T(!new)>(x: set<T>, y: set<T>, size: nat) returns (orderAt: nat -> seq<T>)
    requires y <= x && size > 0 && |y| + size <= |x|
    ensures AllEnumerate(orderAt, x)
    ensures forall n: nat :: Touched(orderAt, size, n) !! y
  {
    hide Inserted, Enumerates, PageAt, Touched;
    assert |x - y| == |x| - |y|;
    SomeSubset(x - y, size);
    var a :| a <= x - y && |a| == size;
    var r := SomeEnumeration(a);
    var o := SomeEnumeration(x - a);
    EnumerationSize(r, a);
    orderAt := (n: nat) => Inserted(o, n * |r|, r);
    forall n: nat ensures Enumerates(orderAt(n), x) && Elements(PageAt(orderAt(n), n * size, size)) <= a {
      InsertingOrder(x, a, o, r, n);
    }
    forall n: nat ensures Touched(orderAt, size, n) !! y {
      TouchedBelow(orderAt, size, n, a);
    }
  }

  lemma {:induction false} TouchedBelow<T>(orderAt: nat -> seq<T>, size: nat, n: nat, a: set<T>)
    requires forall k: nat :: Elements(PageAt(orderAt(k), k * size, size)) <= a
    ensures Touched(orderAt, size, n) <= a
  {
    if n > 0 {
      TouchedBelow(orderAt, size, n - 1, a);
    }
  }

  lemma {:induction false} FirstPageTouched<T>(orderAt: nat -> seq<T>, size: nat, n: nat)
    requires n >= 1
    ensures Elements(PageAt(orderAt(0), 0, size)) <= Touched(orderAt, size, n)
  {
    if n > 1 {
      FirstPageTouched(orderAt, size, n - 1);
    } else {
      assert 0 * size == 0;
    }
  }

  /** Rows too many for that are met by the first page already. */
  lemma {:induction false} FirstPageMeets<T(!new)>(orderAt: nat -> seq<T>, x: set<T>, y: set<T>, size: nat, n: nat)
    requires AllEnumerate(orderAt, x) && y <= x && y != {} && n >= 1 && |x| < |y| + size
    ensures Touched(orderAt, size, n) * y != {}
  {
    var page := PageAt(orderAt(0), 0, size);
    EnumerationSize(orderAt(0), x);
    SizeOfElements(page);
    PageWithin(orderAt(0), x, 0, size);
    FirstPageTouched(orderAt, size, n);
    assert |x - y| == |x| - |y|;
    if Elements(page) !! y {
      SubsetSize(Elements(page), x - y);
    } else {
      var e :| e in Elements(page) && e in y;
      assert e in Touched(orderAt, size, n) * y;
    }
  }

  /** In every choice of orders some of the rows y are on a page iff fewer than a page of other rows exist. */
  lemma {:induction false} EveryOrderMeetsIff<T(!new)>(x: set<T>, y: set<T>, size: nat, n: nat)
    requires y <= x && y != {} && size > 0 && n >= 1
    ensures (forall orderAt: nat -> seq<T> | AllEnumerate(orderAt, x) :: Touched(orderAt, size, n) * y != {}) <==>
      |x| < |y| + size
  {
    if |x| < |y| + size {
      forall orderAt: nat -> seq<T> | AllEnumerate(orderAt, x) ensures Touched(orderAt, size, n) * y != {} {
        FirstPageMeets(orderAt, x, y, size, n);
      }
    } else {
      var orderAt := OrdersAvoiding(x, y, size);
      assert Touched(orderAt, size, n) !! y;
      assert Touched(orderAt, size, n) * y == {};
    }
  }

  /** Every choice of orders reaches all rows iff one page holds them. */
  lemma {:induction false} EveryOrderReachesAllIff<T(!new)>(x: set<T>, size: nat, n: nat)
    requires size > 0 && n >= 1
    ensures (forall orderAt: nat -> seq<T> | AllEnumerate(orderAt, x) :: Touched(orderAt, size, n) == x) <==>
      |x| <= size
  {
    if |x| <= size {
      forall orderAt: nat -> seq<T> | AllEnumerate(orderAt, x) ensures Touched(orderAt, size, n) == x {
        TouchedWithin(orderAt, x, size, n);
        forall e | e in x ensures e in Touched(orderAt, size, n) {
          FirstPageMeets(orderAt, x, {e}, size, n);
          var d :| d in Touched(orderAt, size, n) * {e};
        }
      }
    } else {
      var e :| e in x;
      var orderAt := OrdersAvoiding(x, {e}, size);
      assert Touched(orderAt, size, n) !! {e};
      assert e !in Touched(orderAt, size, n);
    }
  }

  // ---------- blocks ----------

  datatype BlockRow = BlockRow(shards: set<nat>, expiry: Option<nat>)

  type Blocks = map<Bytes, BlockRow>

  /** array_agg(object_shards) <@ ids; the aggregate of no shards is NULL, which selects nothing. */
  predicate Selects(b: BlockRow, ids: set<nat>) { b.shards != {} && b.shards <= ids }

  ghost function SelectedBlocks(t: Blocks, ids: set<nat>): set<Bytes> { set h | h in t && Selects(t[h], ids) }

  /** A block is selected iff it has shards and all of them are among the ids. */
  lemma SelectedIff(t: Blocks, ids: set<nat>, h: Bytes)
    ensures h in SelectedBlocks(t, ids) <==>
      h in t && (exists s :: s in t[h].shards) && forall s | s in t[h].shards :: s in ids
  {
    if h in t && t[h].shards != {} {
      var s :| s in t[h].shards;
    }
  }

  function WithExpiry(t: Blocks, hs: set<Bytes>, time: nat): Blocks {
    map h | h in t :: if h in hs then t[h].(expiry := Some(time)) else t[h]
  }

  predicate BlockExpired(b: BlockRow, now: nat) { b.expiry.Some? && b.expiry.value < now }

  function ExpiredBlocks(t: Blocks, now: nat): set<Bytes> { set h | h in t && BlockExpired(t[h], now) }

  lemma PageWithin<T(!new)>(s: seq<T>, x: set<T>, offset: nat, size: nat)
    requires Enumerates(s, x)
    ensures Elements(PageAt(s, offset, size)) <= x
  {
    forall e | e in PageAt(s, offset, size) ensures e in x {
      assert e in s;
    }
  }

  lemma WithExpiryAt(t: Blocks, done: set<Bytes>, time: nat, ids: set<nat>)
    requires done <= SelectedBlocks(t, ids)
    ensures (var r := WithExpiry(t, done, time);
      && r.Keys == t.Keys
      && forall h | h in r :: (r[h] == t[h] || (Selects(t[h], ids) && r[h] == t[h].(expiry := Some(time)))))
  {
  }

  lemma {:induction false} SelectedRows(t: Blocks, ids: set<nat>, time: nat)
    ensures WithExpiry(t, SelectedBlocks(t, ids), time) == map h | h in t ::
      if t[h].shards != {} && forall s | s in t[h].shards :: s in ids then BlockRow(t[h].shards, Some(time)) else t[h]
  {
    forall h | h in t ensures h in SelectedBlocks(t, ids) <==>
      t[h].shards != {} && forall s | s in t[h].shards :: s in ids
    {
      SelectedIff(t, ids, h);
    }
  }

  lemma WithExpiryTwice(t: Blocks, a: set<Bytes>, b: set<Bytes>, time: nat, ids: set<nat>)
    ensures WithExpiry(WithExpiry(t, a, time), b, time) == WithExpiry(t, a + b, time)
    ensures WithExpiry(t, {}, time) == t
    ensures SelectedBlocks(WithExpiry(t, a + b, time), ids) == SelectedBlocks(t, ids)
  {
  }

  /** The part of IndexStorage that marks and deletes. */
  class ExpiryJobs {
    var rows: Expirations
    var blocks: Blocks

    /** `orderAt(shard)(n)` is the order in which query n lists the shard's rows. In any orders a row changes only
        if its hash occurs in a deleted shard; when the orders stay the same, every such row does. */
    method SetExpiryTimeForTransactions(
        shardsToDelete: set<nat>, expiryTime: nat, orderAt: nat -> nat -> seq<Inbox.InboxKey>)
      requires forall s: nat, n: nat :: Enumerates(orderAt(s)(n), RowsOfShard(rows, s))
      modifies this`rows
      ensures rows.Keys == old(rows).Keys
      ensures forall k | k in rows && rows[k] != old(rows)[k] ::
        k.txHash in Hashes(RowsOfShards(old(rows), shardsToDelete)) && rows[k] == Some(expiryTime)
      ensures rows == Marked(old(rows), AllTouched(old(rows), shardsToDelete, orderAt), expiryTime)
      ensures (forall s: nat, n: nat :: orderAt(s)(n) == orderAt(s)(0)) ==>
        rows == Marked(old(rows), Hashes(RowsOfShards(old(rows), shardsToDelete)), expiryTime)
    {
      hide Enumerates, Marked, Hashes, RowsOfShard, RowsOfShards, AllTouched, HashesTouched;
      ghost var t := rows;
      ghost var marked: set<Bytes> := {};
      ghost var stable := forall s: nat, n: nat :: orderAt(s)(n) == orderAt(s)(0);
      MarkedTwice(t, {}, {}, expiryTime);
      NoShards(t, orderAt);
      var todo, done: set<nat> := shardsToDelete, {};
      while todo != {}
        invariant todo + done == shardsToDelete && todo !! done
        invariant rows == Marked(t, marked, expiryTime) && marked <= Hashes(RowsOfShards(t, done))
        invariant marked == AllTouched(t, done, orderAt)
        invariant stable ==> marked == Hashes(RowsOfShards(t, done))
        decreases todo
      {
        var shardId: nat :| shardId in todo;
        MarkedKeepsShards(t, marked, expiryTime, shardId);
        OneMoreTouched(t, done, shardId, orderAt);
        ghost var here := SetExpiryTimeForShard(shardId, expiryTime, orderAt(shardId));
        MarkedTwice(t, marked, here, expiryTime);
        HashesOfShards(t, done, shardId);
        marked := marked + here;
        todo, done := todo - {shardId}, done + {shardId};
      }
      MarkedRows(t, marked, expiryTime);
    }

    /** One turn of the loop over the shards: ceil(count / 1000) batches. */
    method SetExpiryTimeForShard(shardId: nat, expiryTime: nat, orderAt: nat -> seq<Inbox.InboxKey>)
      returns (ghost marked: set<Bytes>)
      requires forall n: nat :: Enumerates(orderAt(n), RowsOfShard(rows, shardId))
      modifies this`rows
      ensures rows == Marked(old(rows), marked, expiryTime) && marked <= Hashes(RowsOfShard(old(rows), shardId))
      ensures marked == HashesTouched(old(rows), shardId, orderAt)
      ensures (forall n: nat :: orderAt(n) == orderAt(0)) ==> marked == Hashes(RowsOfShard(old(rows), shardId))
    {
      hide Enumerates, Touched, Marked;
      ghost var t, all := rows, RowsOfShard(rows, shardId);
      EnumerationSize(orderAt(0), all);
      NothingMarked(t, orderAt, expiryTime);
      var count := |orderAt(0)|;
      var pageCount := Ceil(count, BATCH);
      for i := 0 to pageCount
        invariant rows == Marked(t, Hashes(Touched(orderAt, BATCH, i)), expiryTime)
      {
        var offset := i * BATCH;
        var batch := PageAt(orderAt(i), offset, BATCH);
        OneMoreBatch(t, orderAt, i, expiryTime);
        rows := Marked(rows, Hashes(Elements(batch)), expiryTime);
      }
      marked := Hashes(Touched(orderAt, BATCH, pageCount));
      TouchedWithin(orderAt, all, BATCH, pageCount);
      if forall n: nat :: orderAt(n) == orderAt(0) {
        TouchedInOneOrder(orderAt, BATCH, pageCount);
        CeilCovers(count, BATCH);
        assert orderAt(0)[..count] == orderAt(0);
      }
    }

    /** Whichever expired rows each batch picks, within the fixed number of turns none is left; a row goes exactly
        when its hash occurs in an expired row. */
    method DeleteShardsFromInboxes(now: nat)
      modifies this`rows
      ensures rows == Without(old(rows), Hashes(ExpiredRows(old(rows), now)))
      ensures ExpiredRows(rows, now) == {}
    {
      ghost var t := rows;
      WithoutTwice(t, {}, {});
      var count := |set k | k in rows && rows[k].Some? && rows[k].value < now|;
      assert ExpiredRows(t, now) == set k | k in rows && rows[k].Some? && rows[k].value < now;
      ghost var gone: set<Bytes> := {};
      if count != 0 {
        var pageCount := Ceil(count, BATCH);
        CeilCovers(count, BATCH);
        for i := 0 to pageCount + 1
          invariant rows == Without(t, gone) && gone <= Hashes(ExpiredRows(t, now))
          invariant |ExpiredRows(rows, now)| <= count - i * BATCH || ExpiredRows(rows, now) == {}
        {
          var expired := set k | k in rows && rows[k].Some? && rows[k].value < now;
          assert expired == ExpiredRows(rows, now);
          SomeSubset(expired, Min(BATCH, |expired|));
          var batch: set<Inbox.InboxKey> :| batch <= expired && |batch| == Min(BATCH, |expired|);
          BatchGoes(t, gone, batch, now);
          rows := Without(rows, Hashes(batch));
          gone := gone + Hashes(batch);
        }
        assert ExpiredRows(rows, now) == {};
      }
      AllGone(t, gone, now);
    }

    /** `orderAt(n)` is the order in which query n lists the selected blocks. In any orders the count is right and
        no other block changes; when the order stays the same, every selected block gets the expiry. */
    method UpdateBlockExpiryTimestampPaginated(
        shardIds: set<nat>, expiryTs: nat, pageSize: nat, orderAt: nat -> seq<Bytes>)
      returns (rowsAffected: nat)
      requires pageSize > 0
      requires forall n: nat :: Enumerates(orderAt(n), SelectedBlocks(blocks, shardIds))
      modifies this`blocks
      ensures rowsAffected == |SelectedBlocks(old(blocks), shardIds)|
      ensures blocks.Keys == old(blocks).Keys
      ensures forall h | h in blocks :: (blocks[h] == old(blocks)[h]
        || (Selects(old(blocks)[h], shardIds) && blocks[h] == old(blocks)[h].(expiry := Some(expiryTs))))
      ensures (var queries := |SelectedBlocks(old(blocks), shardIds)| / pageSize + 1;
        blocks == WithExpiry(old(blocks), Touched(orderAt, pageSize, queries), expiryTs))
      ensures (forall n: nat :: orderAt(n) == orderAt(0)) ==>
        blocks == map h | h in old(blocks) ::
          if old(blocks)[h].shards != {} && forall s | s in old(blocks)[h].shards :: s in shardIds
          then BlockRow(old(blocks)[h].shards, Some(expiryTs)) else old(blocks)[h]
    {
      hide WithExpiry, SelectedBlocks, Enumerates, Touched;
      ghost var t, selected := blocks, SelectedBlocks(blocks, shardIds);
      rowsAffected := UpdatePages(shardIds, expiryTs, pageSize, orderAt);
      ghost var queries := |selected| / pageSize + 1;
      TouchedWithin(orderAt, selected, pageSize, queries);
      WithExpiryAt(t, Touched(orderAt, pageSize, queries), expiryTs, shardIds);
      if forall n: nat :: orderAt(n) == orderAt(0) {
        TouchedInOneOrder(orderAt, pageSize, queries);
        EnumerationSize(orderAt(0), selected);
        PastTheEnd(|selected|, pageSize);
        assert orderAt(0)[..|selected|] == orderAt(0);
        SelectedRows(t, shardIds, expiryTs);
      }
    }

    /** The loop, by what its pages hold. */
    method UpdatePages(shardIds: set<nat>, expiryTs: nat, pageSize: nat, orderAt: nat -> seq<Bytes>)
      returns (rowsAffected: nat)
      requires pageSize > 0
      requires forall n: nat :: Enumerates(orderAt(n), SelectedBlocks(blocks, shardIds))
      modifies this`blocks
      ensures rowsAffected == |SelectedBlocks(old(blocks), shardIds)|
      ensures (var queries := |SelectedBlocks(old(blocks), shardIds)| / pageSize + 1;
        blocks == WithExpiry(old(blocks), Touched(orderAt, pageSize, queries), expiryTs))
    {
      hide WithExpiry, SelectedBlocks, Enumerates;
      ghost var t, count := blocks, |SelectedBlocks(blocks, shardIds)|;
      var n, offset: nat := 0, 0;
      WithExpiryTwice(t, {}, {}, expiryTs, shardIds);
      rowsAffected := 0;
      while true
        invariant offset <= count && rowsAffected == offset == n * pageSize
        invariant blocks == WithExpiry(t, Touched(orderAt, pageSize, n), expiryTs)
        decreases count - offset
      {
        EnumerationSize(orderAt(n), SelectedBlocks(t, shardIds));
        var result := PageAt(orderAt(n), offset, pageSize);
        WithExpiryTwice(t, Touched(orderAt, pageSize, n), Elements(result), expiryTs, shardIds);
        blocks := WithExpiry(blocks, Elements(result), expiryTs);
        rowsAffected := rowsAffected + |result|;
        if |result| < pageSize {
          assert (n + 1) * pageSize == n * pageSize + pageSize;
          LastPage(count, pageSize, n);
          break;
        }
        offset := offset + pageSize;
        n := n + 1;
      }
    }

    /** Each query skips `offset` of the expired blocks still there, picked in any way. */
    method DeleteExpiredBlocksPaginated(now: nat, pageSize: nat) returns (totalDeletedRows: nat)
      requires pageSize > 0
      modifies this`blocks
      ensures totalDeletedRows == DeletedOf(|ExpiredBlocks(old(blocks), now)|, pageSize)
      ensures |ExpiredBlocks(blocks, now)| == |ExpiredBlocks(old(blocks), now)| - totalDeletedRows
      ensures blocks.Keys <= old(blocks).Keys && forall h | h in blocks :: blocks[h] == old(blocks)[h]
      ensures forall h | h in old(blocks) && h !in blocks ::
        old(blocks)[h].expiry.Some? && old(blocks)[h].expiry.value < now
      ensures ExpiredBlocks(old(blocks), now) ==
        set h | h in old(blocks) && old(blocks)[h].expiry.Some? && old(blocks)[h].expiry.value < now
    {
      ghost var t, all := blocks, ExpiredBlocks(blocks, now);
      var offset := 0;
      totalDeletedRows := 0;
      while true
        invariant blocks.Keys <= t.Keys && forall h | h in blocks :: blocks[h] == t[h]
        invariant forall h | h in t && h !in blocks :: BlockExpired(t[h], now)
        invariant |ExpiredBlocks(blocks, now)| == |all| - totalDeletedRows && totalDeletedRows == offset <= |all|
        invariant DeletedOf(|all|, pageSize) == offset + DeletedFrom(|all| - offset, offset, pageSize)
        decreases |all| - offset
      {
        var expired := ExpiredBlocks(blocks, now);
        var size := Min(pageSize, if |expired| < offset then 0 else |expired| - offset);
        SomeSubset(expired, size);
        var result: set<Bytes> :| result <= expired && |result| == size;
        DeletedShrinks(blocks, result, now);
        blocks := blocks - result;
        totalDeletedRows := totalDeletedRows + |result|;
        if |result| < pageSize {
          break;
        }
        offset := offset + pageSize;
      }
    }
  }

  lemma DeletedShrinks(t: Blocks, gone: set<Bytes>, now: nat)
    requires gone <= ExpiredBlocks(t, now)
    ensures |ExpiredBlocks(t - gone, now)| == |ExpiredBlocks(t, now)| - |gone|
  {
    assert ExpiredBlocks(t - gone, now) == ExpiredBlocks(t, now) - gone;
    assert |ExpiredBlocks(t, now) - gone| == |ExpiredBlocks(t, now)| - |gone|;
  }

  // ---------- how much one run deletes ----------

  /** What the loop still deletes when `left` expired blocks remain and the next query skips `offset`. */
  function DeletedFrom(left: nat, offset: nat, size: nat): nat
    requires size > 0
    decreases left
  {
    var page := Min(size, if left < offset then 0 else left - offset);
    if page < size then page else size + DeletedFrom(left - size, offset + size, size)
  }

  function DeletedOf(n: nat, size: nat): nat
    requires size > 0
  {
    DeletedFrom(n, 0, size)
  }

  lemma {:induction false} DeletedFromBounds(left: nat, offset: nat, size: nat)
    requires size > 0
    ensures DeletedFrom(left, offset, size) <= left
    ensures 2 * DeletedFrom(left, offset, size) >= left - offset
    ensures offset > 0 ==> DeletedFrom(left, offset, size) < left || left == 0
    decreases left
  {
    if left >= offset + size {
      DeletedFromBounds(left - size, offset + size, size);
    }
  }

  /** A run deletes at least half of the expired blocks, and all of them exactly when one page holds them. */
  lemma {:induction false} AtLeastHalf(n: nat, size: nat)
    requires size > 0
    ensures n <= 2 * DeletedOf(n, size) && DeletedOf(n, size) <= n
    ensures DeletedOf(n, size) == n <==> n <= size
  {
    DeletedFromBounds(n, 0, size);
    if n >= size {
      DeletedFromBounds(n - size, size, size);
    }
  }

  /** How many exactly: of n expired blocks, with (2k - 1) pages full and fewer than (2k + 1), k pages and what the next
      one holds after skipping k more. */
  lemma DeletedExactly(n: nat, size: nat, k: nat)
    requires size > 0 && (2 * k - 1) * size <= n < (2 * k + 1) * size
    ensures DeletedOf(n, size) == k * size + if n > 2 * (k * size) then n - 2 * (k * size) else 0
  {
    hide DeletedFrom;
    assert (2 * k - 1) * size == 2 * (k * size) - size && (2 * k + 1) * size == 2 * (k * size) + size;
    DeletedFromExactly(n, 0, size, k, k * size);
  }

  lemma OneLess(k: nat, size: nat)
    requires k > 0
    ensures k * size - size == (k - 1) * size >= 0
  {
  }

  // `full` is what k pages hold.
  lemma {:induction false} DeletedFromExactly(left: nat, offset: nat, size: nat, k: nat, full: nat)
    requires size > 0 && full == k * size
    requires left - offset < 2 * full + size && (k > 0 ==> 2 * full - size <= left - offset)
    ensures DeletedFrom(left, offset, size) ==
      full + if left - offset > 2 * full then left - offset - 2 * full else 0
    decreases k
  {
    if k > 0 {
      OneLess(k, size);
      DeletedFromExactly(left - size, offset + size, size, k - 1, full - size);
    }
  }

  /** The expired blocks left after some runs, when no more expire. */
  function LeftAfter(n: nat, size: nat, runs: nat): int
    requires size > 0
    decreases runs
  {
    if runs == 0 then
      n
    else
      AtLeastHalf(n, size);
      LeftAfter(n - DeletedOf(n, size), size, runs - 1)
  }

  function Log2(n: nat): nat
    requires n > 0
  {
    if n == 1 then 0 else 1 + Log2(n / 2)
  }

  /** floor(log2 n) + 1 runs drain any n expired blocks. */
  lemma {:induction false} RunsDrain(n: nat, size: nat)
    requires size > 0 && n > 0
    ensures LeftAfter(n, size, Log2(n) + 1) == 0
  {
    AtLeastHalf(n, size);
    var rest := n - DeletedOf(n, size);
    if rest > 0 {
      MoreRuns(rest, size, Log2(rest) + 1, Log2(n));
      Log2Monotonic(rest, n / 2);
      RunsDrain(rest, size);
    } else {
      NothingLeft(size, Log2(n));
    }
  }

  lemma {:induction false} NothingLeft(size: nat, runs: nat)
    requires size > 0
    ensures LeftAfter(0, size, runs) == 0
  {
    if runs > 0 {
      NothingLeft(size, runs - 1);
    }
  }

  lemma {:induction false} MoreRuns(n: nat, size: nat, a: nat, b: nat)
    requires size > 0
    ensures a <= b && LeftAfter(n, size, a) == 0 ==> LeftAfter(n, size, b) == 0
    decreases a
  {
    if a == 0 {
      NothingLeft(size, b);
    } else if b > 0 {
      AtLeastHalf(n, size);
      MoreRuns(n - DeletedOf(n, size), size, a - 1, b - 1);
    }
  }

  lemma {:induction false} Log2Monotonic(a: nat, b: nat)
    requires 0 < a <= b
    ensures Log2(a) <= Log2(b)
  {
    if a > 1 {
      Log2Monotonic(a / 2, b / 2);
    }
  }

  lemma BatchGoes(t: Expirations, gone: set<Bytes>, batch: set<Inbox.InboxKey>, now: nat)
    requires batch <= ExpiredRows(Without(t, gone), now) && gone <= Hashes(ExpiredRows(t, now))
    ensures Without(Without(t, gone), Hashes(batch)) == Without(t, gone + Hashes(batch))
    ensures gone + Hashes(batch) <= Hashes(ExpiredRows(t, now))
    ensures |ExpiredRows(Without(t, gone + Hashes(batch)), now)| <= |ExpiredRows(Without(t, gone), now)| - |batch|
  {
    WithoutTwice(t, gone, Hashes(batch));
    var before, after := ExpiredRows(Without(t, gone), now), ExpiredRows(Without(t, gone + Hashes(batch)), now);
    forall k | k in batch ensures k in ExpiredRows(t, now) && k.txHash in Hashes(batch) && k !in after {
      assert k.txHash in Hashes(batch);
    }
    assert after <= before - batch;
    SubsetSize(after, before - batch);
    assert |before - batch| == |before| - |batch|;
  }

  lemma {:induction false} SubsetSize<T>(a: set<T>, b: set<T>)
    requires a <= b
    ensures |a| <= |b|
  {
    assert b == a + (b - a);
    assert |b| == |a| + |b - a|;
  }

  lemma AllGone(t: Expirations, gone: set<Bytes>, now: nat)
    requires gone <= Hashes(ExpiredRows(t, now)) && ExpiredRows(Without(t, gone), now) == {}
    ensures gone == Hashes(ExpiredRows(t, now))
  {
    forall k | k in ExpiredRows(t, now) ensures k.txHash in gone {
      assert k !in ExpiredRows(Without(t, gone), now);
    }
  }

  // ---------- orders that change, hashes that are shared ----------

  lemma {:induction false} SameExpiryIff(t: Blocks, shardIds: set<nat>, time: nat, touched: set<Bytes>)
    requires touched <= SelectedBlocks(t, shardIds)
    requires forall h | h in SelectedBlocks(t, shardIds) :: t[h].expiry != Some(time)
    ensures WithExpiry(t, touched, time) == WithExpiry(t, SelectedBlocks(t, shardIds), time) <==>
      touched == SelectedBlocks(t, shardIds)
  {
    var all := SelectedBlocks(t, shardIds);
    if WithExpiry(t, touched, time) == WithExpiry(t, all, time) {
      forall h | h in all ensures h in touched {
        assert WithExpiry(t, touched, time)[h] == WithExpiry(t, all, time)[h];
      }
    }
  }

  /** Whatever the queries' orders, the update gives every selected block the expiry iff they fit on one page: with
      one more, some orders leave a block out. */
  lemma {:induction false} UpdateReachesAllIff(t: Blocks, shardIds: set<nat>, time: nat, size: nat)
    requires size > 0
    requires forall h | h in SelectedBlocks(t, shardIds) :: t[h].expiry != Some(time)
    ensures (var all := SelectedBlocks(t, shardIds);
      (forall orderAt: nat -> seq<Bytes> | AllEnumerate(orderAt, all) ::
        WithExpiry(t, Touched(orderAt, size, |all| / size + 1), time) == WithExpiry(t, all, time)) <==> |all| <= size)
  {
    hide WithExpiry, SelectedBlocks, Touched, AllEnumerate;
    var all := SelectedBlocks(t, shardIds);
    var n := |all| / size + 1;
    EveryOrderReachesAllIff(all, size, n);
    forall orderAt: nat -> seq<Bytes> | AllEnumerate(orderAt, all)
      ensures WithExpiry(t, Touched(orderAt, size, n), time) == WithExpiry(t, all, time) <==>
        Touched(orderAt, size, n) == all
    {
      OrdersWithin(orderAt, all, size, n);
      SameExpiryIff(t, shardIds, time, Touched(orderAt, size, n));
    }
  }

  lemma OrdersWithin<T(!new)>(orderAt: nat -> seq<T>, x: set<T>, size: nat, n: nat)
    requires AllEnumerate(orderAt, x)
    ensures Touched(orderAt, size, n) <= x
  {
    TouchedWithin(orderAt, x, size, n);
  }

  ghost function RowsWith(t: Expirations, shard: nat, hash: Bytes): set<Inbox.InboxKey> {
    set k | k in t && k.shard == shard && k.txHash == hash
  }

  /** The hash has rows in the shard, and fewer than a batch of rows of the shard have another one. */
  ghost predicate Dominates(t: Expirations, shard: nat, hash: Bytes) {
    RowsWith(t, shard, hash) != {} && |RowsOfShard(t, shard)| < |RowsWith(t, shard, hash)| + 1000
  }

  lemma {:induction false} TouchedHash(
      t: Expirations, shard: nat, hash: Bytes, orderAt: nat -> seq<Inbox.InboxKey>)
    requires AllEnumerate(orderAt, RowsOfShard(t, shard))
    ensures (var pages := Ceil(|RowsOfShard(t, shard)|, BATCH);
      hash in HashesTouched(t, shard, orderAt) <==> Touched(orderAt, BATCH, pages) * RowsWith(t, shard, hash) != {})
  {
    var touched := Touched(orderAt, BATCH, Ceil(|RowsOfShard(t, shard)|, BATCH));
    TouchedWithin(orderAt, RowsOfShard(t, shard), BATCH, Ceil(|RowsOfShard(t, shard)|, BATCH));
    if hash in Hashes(touched) {
      var k :| k in touched && k.txHash == hash;
      assert k in touched * RowsWith(t, shard, hash);
    }
    if touched * RowsWith(t, shard, hash) != {} {
      var k :| k in touched * RowsWith(t, shard, hash);
    }
  }

  // Orders for one shard: they keep the hash off every page if that can be done.
  ghost function OrdersFor(t: Expirations, hash: Bytes, shard: nat): (orderAt: nat -> seq<Inbox.InboxKey>)
    ensures AllEnumerate(orderAt, RowsOfShard(t, shard))
    ensures hash in HashesTouched(t, shard, orderAt) ==> Dominates(t, shard, hash)
  {
    OrdersExist(t, hash, shard);
    var orderAt: nat -> seq<Inbox.InboxKey> :| AllEnumerate(orderAt, RowsOfShard(t, shard))
      && (hash in HashesTouched(t, shard, orderAt) ==> Dominates(t, shard, hash));
    orderAt
  }

  lemma {:induction false} OrdersExist(t: Expirations, hash: Bytes, shard: nat)
    ensures exists orderAt: nat -> seq<Inbox.InboxKey> ::
      && AllEnumerate(orderAt, RowsOfShard(t, shard))
      && (hash in HashesTouched(t, shard, orderAt) ==> Dominates(t, shard, hash))
  {
    var x, y := RowsOfShard(t, shard), RowsWith(t, shard, hash);
    if |y| + BATCH <= |x| {
      var orderAt := OrdersAvoiding(x, y, BATCH);
      TouchedHash(t, shard, hash, orderAt);
      assert Touched(orderAt, BATCH, Ceil(|x|, BATCH)) * y == {};
    } else {
      var e := SomeEnumeration(x);
      var orderAt := (n: nat) => e;
      assert AllEnumerate(orderAt, x);
      TouchedHash(t, shard, hash, orderAt);
    }
  }

  /** Whatever the queries' orders, every row with a hash of a deleted shard is changed iff each such hash dominates
      one of the shards: fewer than a batch of that shard's rows have another hash. */
  lemma {:induction false} BatchesReachAllIff(t: Expirations, shards: set<nat>)
    ensures (forall orderAt: nat -> nat -> seq<Inbox.InboxKey> |
        (forall s: nat :: AllEnumerate(orderAt(s), RowsOfShard(t, s))) ::
        AllTouched(t, shards, orderAt) == Hashes(RowsOfShards(t, shards))) <==>
      forall h | h in Hashes(RowsOfShards(t, shards)) :: exists s: nat :: s in shards && Dominates(t, s, h)
  {
    hide HashesTouched, Dominates, AllEnumerate;
    var all := Hashes(RowsOfShards(t, shards));
    if forall h | h in all :: exists s: nat :: s in shards && Dominates(t, s, h) {
      forall orderAt: nat -> nat -> seq<Inbox.InboxKey> | forall s: nat :: AllEnumerate(orderAt(s), RowsOfShard(t, s))
        ensures AllTouched(t, shards, orderAt) == all
      {
        forall h | h in all ensures h in AllTouched(t, shards, orderAt) {
          var s: nat :| s in shards && Dominates(t, s, h);
          DominatingIsTouched(t, s, h, orderAt(s));
        }
        forall h | h in AllTouched(t, shards, orderAt) ensures h in all {
          var s :| s in shards && h in HashesTouched(t, s, orderAt(s));
          TouchedFromShard(t, shards, s, orderAt(s));
        }
      }
    } else {
      var h :| h in all && !exists s: nat :: s in shards && Dominates(t, s, h);
      var orderAt := (s: nat) => OrdersFor(t, h, s);
      assert forall s: nat :: AllEnumerate(orderAt(s), RowsOfShard(t, s));
      assert h !in AllTouched(t, shards, orderAt);
    }
  }

  lemma DominatingIsTouched(t: Expirations, shard: nat, hash: Bytes, orderAt: nat -> seq<Inbox.InboxKey>)
    requires AllEnumerate(orderAt, RowsOfShard(t, shard)) && Dominates(t, shard, hash)
    ensures hash in HashesTouched(t, shard, orderAt)
  {
    var x, y := RowsOfShard(t, shard), RowsWith(t, shard, hash);
    var k :| k in y;
    assert k in x;
    assert |x| > 0;
    FirstPageMeets(orderAt, x, y, BATCH, Ceil(|x|, BATCH));
    TouchedHash(t, shard, hash, orderAt);
  }

  lemma TouchedFromShard(t: Expirations, shards: set<nat>, shard: nat, orderAt: nat -> seq<Inbox.InboxKey>)
    requires AllEnumerate(orderAt, RowsOfShard(t, shard)) && shard in shards
    ensures HashesTouched(t, shard, orderAt) <= Hashes(RowsOfShards(t, shards))
  {
    OrdersWithin(orderAt, RowsOfShard(t, shard), BATCH, Ceil(|RowsOfShard(t, shard)|, BATCH));
  }

  /** Two selected blocks in pages of one, listed the other way round by the second query: the update counts two
      rows and leaves one block without an expiry. */
  lemma {:induction false} OrderChangeMisses(a: Bytes, b: Bytes, time: nat)
    requires a != b
    ensures (var t := map[a := BlockRow({0}, None), b := BlockRow({0}, None)];
      var orderAt := (n: nat) => if n == 1 then [b, a] else [a, b];
      && (forall n: nat :: Enumerates(orderAt(n), SelectedBlocks(t, {0})))
      && |SelectedBlocks(t, {0})| == 2
      && WithExpiry(t, Touched(orderAt, 1, 3), time) == t[a := BlockRow({0}, Some(time))])
  {
    var t := map[a := BlockRow({0}, None), b := BlockRow({0}, None)];
    var orderAt := (n: nat) => if n == 1 then [b, a] else [a, b];
    assert SelectedBlocks(t, {0}) == {a, b};
    assert PageAt(orderAt(0), 0, 1) == [a] && PageAt(orderAt(1), 1, 1) == [a] && PageAt(orderAt(2), 2, 1) == [];
    assert Touched(orderAt, 1, 0) == {};
    assert Touched(orderAt, 1, 1) == {a};
    assert Touched(orderAt, 1, 2) == {a};
    assert Touched(orderAt, 1, 3) == {a};
  }

  /** Expiring shards and deleting later, in stable order: which rows are gone. Both statements match on the hash
      alone, so a row of a shard that is kept goes too, exactly when its transaction has a row in an expired shard and
      that expiry has passed, or has an earlier expired row that the new expiry does not replace. */
  lemma {:induction false} RowsLost(t: Expirations, shards: set<nat>, time: nat, now: nat, k: Inbox.InboxKey)
    requires k in t
    ensures (var marked := Marked(t, Hashes(RowsOfShards(t, shards)), time);
      var left := Without(marked, Hashes(ExpiredRows(marked, now)));
      k !in left <==>
        if SharesShard(t, k, shards) then time < now
        else exists e :: e in t && e.txHash == k.txHash && Expired(t, e, now))
  {
    var hashes := Hashes(RowsOfShards(t, shards));
    var marked := Marked(t, hashes, time);
    assert k.txHash in hashes <==> SharesShard(t, k, shards) by {
      if SharesShard(t, k, shards) {
        var e :| e in t && e.shard in shards && e.txHash == k.txHash;
        assert e in RowsOfShards(t, shards);
      }
    }
    if k.txHash in hashes {
      assert time < now ==> k in ExpiredRows(marked, now);
      assert forall e | e in marked && e.txHash == k.txHash :: marked[e] == Some(time);
    } else {
      assert forall e | e in t && e.txHash == k.txHash :: marked[e] == t[e];
      if e :| e in t && e.txHash == k.txHash && Expired(t, e, now) {
        assert e in ExpiredRows(marked, now);
      }
    }
  }

  /** The row's transaction has a row in one of the shards. */
  ghost predicate SharesShard(t: Expirations, k: Inbox.InboxKey, shards: set<nat>) {
    exists e :: e in t && e.shard in shards && e.txHash == k.txHash
  }

  /** A transaction to two wallets, one in a shard that leaves and one in a shard that stays: both rows go. */
  lemma {:induction false} KeptRowIsLost(leaving: Inbox.InboxKey, staying: Inbox.InboxKey)
    requires leaving.shard == 1 && staying.shard == 0 && leaving.txHash == staying.txHash
    ensures (var t: Expirations := map[leaving := None, staying := None];
      var marked := Marked(t, Hashes(RowsOfShards(t, {1})), 10);
      Without(marked, Hashes(ExpiredRows(marked, 20))) == map[])
  {
    var t: Expirations := map[leaving := None, staying := None];
    assert leaving in t && leaving.shard in {1};
    RowsLost(t, {1}, 10, 20, leaving);
    RowsLost(t, {1}, 10, 20, staying);
  }
}
