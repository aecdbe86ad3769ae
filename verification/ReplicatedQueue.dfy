/** The append-only queue of a validator (queueServer.ts), read by offset (queueClient.ts). */
module ReplicatedQueue {
  import opened Bytes

  // ids come from a sequence that starts at 1
  type RowId = n: int | n >= 1 witness 1

  datatype Row = Row(id: RowId, payload: Bytes, hash: Bytes)

  // ---------- the queue table ----------

  predicate Increasing(rows: seq<Row>) {
    forall i, j | 0 <= i < j < |rows| :: rows[i].id < rows[j].id
  }

  function LastId(rows: seq<Row>): nat { if rows == [] then 0 else rows[|rows| - 1].id }

  /** The rows with lo < id <= hi, in table order. */
  function Between(rows: seq<Row>, lo: int, hi: int): seq<Row> {
    if rows == [] then
      []
    else
      var last := rows[|rows| - 1];
      Between(rows[..|rows| - 1], lo, hi) + (if lo < last.id <= hi then [last] else [])
  }

  function After(rows: seq<Row>, lo: int): seq<Row> { Between(rows, lo, LastId(rows)) }

  /** SELECT ... WHERE id > lo ORDER BY id ASC LIMIT n */
  function Page(rows: seq<Row>, lo: int, n: nat): seq<Row> {
    var a := After(rows, lo);
    if |a| <= n then a else a[..n]
  }

  /** SELECT min(id) ... WHERE id > lo */
  function FirstIdAfter(rows: seq<Row>, lo: int): Option<nat> {
    var a := After(rows, lo);
    if a == [] then None else Some(a[0].id)
  }

  // In increasing rows a row has one place.
  lemma IncreasingOnce(rows: seq<Row>, i: nat, j: nat)
    requires Increasing(rows) && i < |rows| && j < |rows| && rows[i] == rows[j]
    ensures i == j
  {
  }

  /** `later` is the table after some rows with larger ids were appended. */
  predicate Grows(earlier: seq<Row>, later: seq<Row>) { earlier <= later && Increasing(later) }

  datatype Reply = NoReply | Reply(items: seq<Row>, lastOffset: Option<int>)

  /** readWithLastOffset: its two queries may see the table at different moments. */
  function ServerReply(atItems: seq<Row>, atMin: seq<Row>, first: int, pageSize: nat): Reply {
    var items := Page(atItems, first, pageSize);
    var last :=
      if items != [] then items[|items| - 1].id
      else match FirstIdAfter(atMin, first) case None => first case Some(id) => id - 1;
    Reply(items, Some(last))
  }

  class QueueServer {
    var rows: seq<Row>
    var nextId: RowId
    const pageSize: nat

    ghost predicate Valid()
      reads this
    {
      Increasing(rows) && LastId(rows) < nextId
    }

    constructor (pageSize: nat)
      ensures Valid() && rows == [] && this.pageSize == pageSize
    {
      rows, nextId := [], 1;
      this.pageSize := pageSize;
    }

    /** Appends unless the hash is already queued; the id sequence moves on either way. */
    method AppendWithHashChecks(payload: Bytes, hash: Bytes) returns (appended: bool)
      requires Valid()
      modifies this
      ensures Valid() && nextId == old(nextId) + 1
      ensures appended == forall r | r in old(rows) :: r.hash != hash
      ensures rows == if appended then old(rows) + [Row(old(nextId), payload, hash)] else old(rows)
    {
      appended := forall r | r in rows :: r.hash != hash;
      if appended {
        rows := rows + [Row(nextId, payload, hash)];
      }
      nextId := nextId + 1;
    }

    /** `storage` is the answer of the storage consulted first, if there is one; an absent hash is `objectHash`.
        None is the error a plain insert of a queued hash throws. */
    method Accept(payload: Bytes, hash: Bytes, objectHash: Bytes, storage: Option<bool>) returns (r: Option<bool>)
      requires Valid()
      modifies this
      ensures Valid() && Grows(old(rows), rows)
      ensures r == Some(true) <==> rows != old(rows)
      ensures r == Some(true) ==>
        rows == old(rows) + [Row(old(nextId), payload, if hash == [] then objectHash else hash)]
      ensures storage == Some(false) ==> r == Some(false)
      ensures (forall i, j | 0 <= i < j < |old(rows)| :: old(rows)[i].hash != old(rows)[j].hash) ==>
        forall i, j | 0 <= i < j < |rows| :: rows[i].hash != rows[j].hash
    {
      if storage == Some(false) {
        return Some(false);
      }
      var appended := AppendWithHashChecks(payload, if hash == [] then objectHash else hash);
      return if hash == [] && !appended then None else Some(appended);
    }

    /** Between its two queries other calls may append `arriving`. */
    method ReadWithLastOffset(first: int, arriving: seq<(Bytes, Bytes)>) returns (reply: Reply)
      requires Valid() && pageSize > 0
      modifies this
      ensures Valid() && Grows(old(rows), rows)
      ensures reply == ServerReply(old(rows), rows, first, pageSize)
    {
      var items := Page(rows, first, pageSize);
      for i := 0 to |arriving|
        invariant Valid() && Grows(old(rows), rows)
      {
        var _ := AppendWithHashChecks(arriving[i].0, arriving[i].1);
      }
      var last: int;
      if items == [] {
        match FirstIdAfter(rows, first) {
          case None => last := first;
          case Some(id) => last := id - 1;
        }
      } else {
        last := items[|items| - 1].id;
      }
      return Reply(items, Some(last));
    }
  }

  // ---------- pages of an increasing table ----------

  lemma {:induction false} BetweenMember(rows: seq<Row>, lo: int, hi: int, r: Row)
    ensures r in Between(rows, lo, hi) <==> r in rows && lo < r.id <= hi
  {
    if rows != [] {
      BetweenMember(rows[..|rows| - 1], lo, hi, r);
      assert r in rows <==> r in rows[..|rows| - 1] || r == rows[|rows| - 1];
    }
  }

  lemma {:induction false} BetweenIncreasing(rows: seq<Row>, lo: int, hi: int)
    requires Increasing(rows)
    ensures Increasing(Between(rows, lo, hi))
  {
    if rows != [] {
      var init, kept := rows[..|rows| - 1], Between(rows[..|rows| - 1], lo, hi);
      BetweenIncreasing(init, lo, hi);
      forall k | 0 <= k < |kept| ensures kept[k].id < rows[|rows| - 1].id {
        BetweenMember(init, lo, hi, kept[k]);
      }
    }
  }

  lemma BetweenIsFilter(rows: seq<Row>, lo: int, hi: int)
    requires Increasing(rows)
    ensures Increasing(Between(rows, lo, hi))
    ensures forall r :: r in Between(rows, lo, hi) <==> r in rows && lo < r.id <= hi
  {
    BetweenIncreasing(rows, lo, hi);
    forall r { BetweenMember(rows, lo, hi, r); }
  }

  lemma {:induction false} BetweenSplits(rows: seq<Row>, lo: int, mid: int, hi: int)
    requires Increasing(rows) && lo <= mid <= hi
    ensures Between(rows, lo, hi) == Between(rows, lo, mid) + Between(rows, mid, hi)
  {
    if rows != [] {
      var init, last := rows[..|rows| - 1], rows[|rows| - 1];
      BetweenSplits(init, lo, mid, hi);
      if last.id <= mid {
        NoneAbove(init, mid, hi);
      }
    }
  }

  lemma {:induction false} NoneAbove(rows: seq<Row>, lo: int, hi: int)
    requires Increasing(rows) && (rows == [] || LastId(rows) <= lo)
    ensures Between(rows, lo, hi) == []
  {
    if rows != [] { NoneAbove(rows[..|rows| - 1], lo, hi); }
  }

  lemma {:induction false} BetweenOfGrown(earlier: seq<Row>, later: seq<Row>, lo: int, hi: int)
    requires Grows(earlier, later)
    requires hi <= lo || hi <= LastId(earlier)
    ensures Between(later, lo, hi) == Between(earlier, lo, hi)
    decreases |later|
  {
    if |later| > |earlier| {
      assert earlier != [] ==> later[|earlier| - 1].id < later[|later| - 1].id;
      BetweenOfGrown(earlier, later[..|later| - 1], lo, hi);
    } else {
      assert later == earlier;
    }
  }

  lemma {:induction false} BoundAboveAll(rows: seq<Row>, lo: int, hi: int)
    requires Increasing(rows) && LastId(rows) <= hi
    ensures Between(rows, lo, hi) == After(rows, lo)
  {
    if rows != [] {
      var init := rows[..|rows| - 1];
      BoundAboveAll(init, lo, hi);
      BoundAboveAll(init, lo, LastId(rows));
    }
  }

  /** A non-empty page is exactly the rows from the offset up to its last id. */
  lemma {:induction false} PageIsPrefixOfRest(rows: seq<Row>, lo: int, n: nat)
    requires Increasing(rows) && Page(rows, lo, n) != []
    ensures var items := Page(rows, lo, n);
      var last := items[|items| - 1].id;
      lo < last <= LastId(rows) && items == Between(rows, lo, last)
    decreases |rows|
  {
    var init, row := rows[..|rows| - 1], rows[|rows| - 1];
    BoundAboveAll(init, lo, LastId(rows));
    assert After(rows, lo) == After(init, lo) + (if lo < row.id then [row] else []);
    if |After(init, lo)| >= n {
      assert Page(rows, lo, n) == Page(init, lo, n);
      PageIsPrefixOfRest(init, lo, n);
    } else if lo >= row.id {
      assert Page(rows, lo, n) == Page(init, lo, n);
      PageIsPrefixOfRest(init, lo, n);
    }
  }

  /** readWithLastOffset is safe although not atomic: the new offset never goes back, a non-empty page is exactly
      the rows up to it, and with an empty page no row of the table is passed over. */
  lemma ReplyIsSafe(atItems: seq<Row>, atMin: seq<Row>, first: int, pageSize: nat)
    requires Increasing(atItems) && Grows(atItems, atMin) && pageSize > 0
    ensures var reply := ServerReply(atItems, atMin, first, pageSize);
      var last := reply.lastOffset.value;
      && first <= last
      && reply.items == Between(atMin, first, last)
      && (reply.items == [] ==> forall r | r in atMin && first < r.id :: last < r.id)
  {
    var items := Page(atItems, first, pageSize);
    if items != [] {
      PageIsPrefixOfRest(atItems, first, pageSize);
      BetweenOfGrown(atItems, atMin, first, items[|items| - 1].id);
    } else {
      BetweenIsFilter(atMin, first, LastId(atMin));
      var rest := After(atMin, first);
      var last := ServerReply(atItems, atMin, first, pageSize).lastOffset.value;
      forall r | r in atMin && first < r.id ensures last < r.id {
        RowBelowLast(atMin, r);
        assert r in rest;
        var k :| 0 <= k < |rest| && rest[k] == r;
        assert k > 0 ==> rest[0].id < rest[k].id;
      }
      BetweenIsFilter(atMin, first, last);
      NothingBetween(atMin, first, last);
    }
  }

  /** A page is full or holds every row above the offset. After an empty one the offset stays if the table has no row
      above it, and else moves up to right before the next row. */
  lemma {:induction false} ReplyIsPrecise(atItems: seq<Row>, atMin: seq<Row>, first: int, pageSize: nat)
    requires Increasing(atItems) && Grows(atItems, atMin) && pageSize > 0
    ensures var reply := ServerReply(atItems, atMin, first, pageSize);
      var last := reply.lastOffset.value;
      && |reply.items| <= pageSize
      && (|reply.items| < pageSize ==> forall r | r in atItems && first < r.id :: r in reply.items)
      && (reply.items == [] && (forall r | r in atMin :: r.id <= first) ==> last == first)
      && (reply.items == [] && (exists r | r in atMin :: first < r.id) ==> exists r | r in atMin :: r.id == last + 1)
  {
    hide Between;
    var items, rest := Page(atItems, first, pageSize), After(atMin, first);
    forall r | r in atItems && first < r.id && |items| < pageSize ensures r in items {
      RowBelowLast(atItems, r);
      BetweenMember(atItems, first, LastId(atItems), r);
    }
    forall r | r in atMin && first < r.id ensures r in rest {
      RowBelowLast(atMin, r);
      BetweenMember(atMin, first, LastId(atMin), r);
    }
    if rest != [] {
      BetweenMember(atMin, first, LastId(atMin), rest[0]);
      assert rest[0] in rest;
    }
  }

  lemma {:induction false} NothingBetween(rows: seq<Row>, lo: int, hi: int)
    requires forall r | r in rows && lo < r.id :: hi < r.id
    ensures Between(rows, lo, hi) == []
  {
    if rows != [] { NothingBetween(rows[..|rows| - 1], lo, hi); }
  }

  lemma RowBelowLast(rows: seq<Row>, r: Row)
    requires Increasing(rows) && r in rows
    ensures r.id <= LastId(rows)
  {
    var k :| 0 <= k < |rows| && rows[k] == r;
    assert k < |rows| - 1 ==> rows[k].id < rows[|rows| - 1].id;
  }

  // ---------- the client ----------

  /** What one reply makes of the stored offset: the items handed over, and the new offset. A reply offset that is
      not a number fails the update. */
  datatype Polled = Polled(offset: int, items: seq<Row>, threw: bool, more: bool)

  function ClientStep(offset: int, reply: Reply): Polled {
    if reply.NoReply? || reply.items == [] then
      Polled(offset, [], false, false)
    else if reply.lastOffset.None? then
      Polled(offset, reply.items, true, false)
    else
      Polled(if reply.lastOffset.value <= offset then offset else reply.lastOffset.value, reply.items, false, true)
  }

  /** Requests i, i+1, ... below `max`, answered by `replies`. */
  function PollEndpoint(offset: int, replies: nat -> Reply, i: nat, max: nat): Polled
    decreases max - i
  {
    if i >= max then
      Polled(offset, [], false, false)
    else
      var p := ClientStep(offset, replies(i));
      if !p.more then
        p
      else
        var rest := PollEndpoint(p.offset, replies, i + 1, max);
        rest.(items := p.items + rest.items)
  }

  lemma PollUnrolled(offset: int, replies: nat -> Reply, i: nat, max: nat)
    ensures PollEndpoint(offset, replies, i, max) ==
      if i >= max then Polled(offset, [], false, false)
      else
        var p := ClientStep(offset, replies(i));
        if !p.more then p
        else var rest := PollEndpoint(p.offset, replies, i + 1, max); rest.(items := p.items + rest.items)
  {
  }

  /** Whatever the endpoint answers, the stored offset never decreases. */
  lemma {:induction false} OffsetNeverDecreases(offset: int, replies: nat -> Reply, i: nat, max: nat)
    ensures PollEndpoint(offset, replies, i, max).offset >= offset
    decreases max - i
  {
    if i < max && ClientStep(offset, replies(i)).more {
      OffsetNeverDecreases(ClientStep(offset, replies(i)).offset, replies, i + 1, max);
    }
  }

  /** The client's two tables, by dset_client row: target_offset, and the items its consumer was given. */
  datatype Progress = Progress(offsets: map<nat, int>, handed: map<nat, seq<Row>>) {
    ghost predicate Has(ids: seq<nat>) {
      offsets.Keys == handed.Keys && forall k | 0 <= k < |ids| :: ids[k] in offsets
    }

    function After(id: nat, p: Polled): Progress
      requires id in handed
    {
      Progress(offsets[id := p.offset], handed[id := handed[id] + p.items])
    }
  }

  lemma AfterTwice(s: Progress, id: nat, p: Polled, rest: Polled)
    requires id in s.handed
    ensures s.After(id, p).After(id, rest) == s.After(id, rest.(items := p.items + rest.items))
  {
    assert (s.handed[id] + p.items) + rest.items == s.handed[id] + (p.items + rest.items);
  }

  /** The endpoints `ids` polled one after the other; a throw ends the whole poll. */
  function PollAll(s: Progress, ids: seq<nat>, max: nat, net: nat -> nat -> Reply): (Progress, bool)
    requires s.Has(ids)
    decreases |ids|
  {
    if ids == [] then
      (s, false)
    else
      var p := PollEndpoint(s.offsets[ids[0]], net(ids[0]), 0, max);
      if p.threw then (s.After(ids[0], p), true) else PollAll(s.After(ids[0], p), ids[1..], max, net)
  }

  /** No stored offset decreases, whatever the endpoints answer, and endpoints not polled keep their rows. */
  lemma {:induction false} PollAllFrame(s: Progress, ids: seq<nat>, max: nat, net: nat -> nat -> Reply, id: nat)
    requires s.Has(ids) && id in s.offsets
    ensures var r := PollAll(s, ids, max, net).0;
      && r.offsets.Keys == s.offsets.Keys == r.handed.Keys
      && r.offsets[id] >= s.offsets[id]
      && (id !in ids ==> r.offsets[id] == s.offsets[id] && r.handed[id] == s.handed[id])
    decreases |ids|
  {
    hide PollEndpoint;
    if ids != [] {
      var p := PollEndpoint(s.offsets[ids[0]], net(ids[0]), 0, max);
      OffsetNeverDecreases(s.offsets[ids[0]], net(ids[0]), 0, max);
      if !p.threw {
        PollAllFrame(s.After(ids[0], p), ids[1..], max, net, id);
      }
    }
  }

  /** A poll that did not throw did for each endpoint exactly what polling it alone does. */
  lemma {:induction false} PollAllEffect(s: Progress, ids: seq<nat>, max: nat, net: nat -> nat -> Reply, k: nat)
    requires s.Has(ids) && forall i, j | 0 <= i < j < |ids| :: ids[i] < ids[j]
    requires k < |ids| && !PollAll(s, ids, max, net).1
    ensures var r, p := PollAll(s, ids, max, net).0, PollEndpoint(s.offsets[ids[k]], net(ids[k]), 0, max);
      ids[k] in r.offsets && ids[k] in r.handed
      && r.offsets[ids[k]] == p.offset && r.handed[ids[k]] == s.handed[ids[k]] + p.items
    decreases |ids|
  {
    hide PollEndpoint;
    var p := PollEndpoint(s.offsets[ids[0]], net(ids[0]), 0, max);
    var s', rest := s.After(ids[0], p), ids[1..];
    PollAllFrame(s', rest, max, net, ids[k]);
    if k == 0 {
      forall j | 0 <= j < |rest| ensures rest[j] != ids[0] { assert ids[0] < ids[j + 1]; }
    } else {
      assert ids[0] < ids[k] == rest[k - 1];
      PollAllEffect(s', rest, max, net, k - 1);
    }
  }

  /** An endpoint whose reply is not followed by a number as its offset ends the poll: its items were handed over, its
      offset stays, and the endpoints after it are not asked. */
  lemma {:induction false} ThrowEndsPoll(s: Progress, ids: seq<nat>, max: nat, net: nat -> nat -> Reply)
    requires s.Has(ids) && ids != [] && max > 0
    requires net(ids[0])(0).Reply? && net(ids[0])(0).items != [] && net(ids[0])(0).lastOffset.None?
    ensures PollAll(s, ids, max, net) ==
      (s.(handed := s.handed[ids[0] := s.handed[ids[0]] + net(ids[0])(0).items]), true)
  {
    assert s.offsets[ids[0] := s.offsets[ids[0]]] == s.offsets;
  }

  class QueueClient {
    var enabled: seq<nat>               // ids of the enabled rows of this queue, in order
    var state: Progress

    ghost predicate Valid()
      reads this
    {
      state.Has(enabled) && forall j, k | 0 <= j < k < |enabled| :: enabled[j] < enabled[k]
    }

    constructor (enabled: seq<nat>, state: Progress)
      requires state.Has(enabled) && forall j, k | 0 <= j < k < |enabled| :: enabled[j] < enabled[k]
      ensures Valid() && this.enabled == enabled && this.state == state
    {
      this.enabled, this.state := enabled, state;
    }

    method HandOver(id: nat, items: seq<Row>)
      requires Valid() && id in state.handed
      modifies this`state
      ensures Valid()
      ensures state == Progress(old(state.offsets), old(state.handed)[id := old(state.handed)[id] + items])
    {
      ghost var had := state.handed[id];
      assert had + items[..0] == had;
      for n := 0 to |items|
        invariant Valid() && state.offsets == old(state.offsets) && id in state.handed
        invariant state.handed == old(state.handed)[id := had + items[..n]]
      {
        state := state.(handed := state.handed[id := state.handed[id] + [items[n]]]);
        assert (had + items[..n]) + [items[n]] == had + items[..n + 1];
      }
      assert items[..|items|] == items;
    }

    /** One pass of the request loop, from a reply to the updated row. */
    method HandleReply(id: nat, reply: Reply) returns (p: Polled)
      requires Valid() && id in state.offsets
      modifies this`state
      ensures Valid()
      ensures p == ClientStep(old(state.offsets)[id], reply)
      ensures state == old(state).After(id, p)
      ensures reply.NoReply? || reply.items == [] ==> !p.threw && !p.more && state == old(state)
      ensures reply.Reply? && reply.items != [] ==>
        && p.threw == reply.lastOffset.None? && p.more == reply.lastOffset.Some?
        && state.handed == old(state.handed)[id := old(state.handed)[id] + reply.items]
        && state.offsets == if reply.lastOffset.Some? && reply.lastOffset.value > old(state.offsets)[id]
             then old(state.offsets)[id := reply.lastOffset.value] else old(state.offsets)
    {
      var lastOffset := state.offsets[id];
      if reply.NoReply? || |reply.items| == 0 {
        assert state.handed[id] + [] == state.handed[id];
        return Polled(lastOffset, [], false, false);
      }
      HandOver(id, reply.items);
      if reply.lastOffset.None? {
        return Polled(lastOffset, reply.items, true, false);
      }
      // never trust any offset lower than the current
      if reply.lastOffset.value > lastOffset {
        lastOffset := reply.lastOffset.value;
        state := state.(offsets := state.offsets[id := lastOffset]);
      }
      return Polled(lastOffset, reply.items, false, true);
    }

    method PollOne(id: nat, maxRequests: nat, replies: nat -> Reply) returns (threw: bool)
      requires Valid() && id in state.offsets
      modifies this`state
      ensures Valid()
      ensures var p := PollEndpoint(old(state.offsets)[id], replies, 0, maxRequests);
        state == old(state).After(id, p) && threw == p.threw
    {
      hide PollEndpoint, ClientStep;
      ghost var s0, all := state, PollEndpoint(state.offsets[id], replies, 0, maxRequests);
      var i := 0;
      while i < maxRequests
        invariant i <= maxRequests && Valid() && id in state.offsets
        invariant var p := PollEndpoint(state.offsets[id], replies, i, maxRequests);
          p.threw == all.threw && state.After(id, p) == s0.After(id, all)
      {
        ghost var s := state;
        PollUnrolled(state.offsets[id], replies, i, maxRequests);
        var p := HandleReply(id, replies(i));
        if !p.more {
          return p.threw;
        }
        AfterTwice(s, id, p, PollEndpoint(p.offset, replies, i + 1, maxRequests));
        i := i + 1;
      }
      PollUnrolled(state.offsets[id], replies, i, maxRequests);
      assert state.handed[id] + [] == state.handed[id];
      return false;
    }

    /** Polls every enabled endpoint in turn; `net(id)(i)` is the answer of endpoint `id` to its i-th request. */
    method PollRemoteQueue(maxRequests: nat, net: nat -> nat -> Reply) returns (threw: bool)
      requires Valid()
      modifies this`state
      ensures Valid()
      ensures (state, threw) == PollAll(old(state), enabled, maxRequests, net)
      ensures forall tables: nat -> seq<Row>, pageSize: nat |
        pageSize > 0 && AllServe(tables, pageSize, old(state), enabled, maxRequests, net) ::
        !threw && forall k | 0 <= k < |enabled| && enabled[k] in state.handed ::
          (var rest := After(tables(enabled[k]), old(state.offsets)[enabled[k]]);
           |rest| <= maxRequests * pageSize ==>
             state.handed[enabled[k]] == old(state.handed)[enabled[k]] + rest
             && After(tables(enabled[k]), state.offsets[enabled[k]]) == [])
    {
      hide PollEndpoint, After, AllServe;
      ghost var s0 := state;
      forall tables: nat -> seq<Row>, pageSize: nat, k: nat |
        pageSize > 0 && AllServe(tables, pageSize, s0, enabled, maxRequests, net) && k < |enabled|
        ensures (var (r, failed) := PollAll(s0, enabled, maxRequests, net);
          var id := enabled[k];
          var rest := After(tables(id), s0.offsets[id]);
          && !failed && id in r.offsets && id in r.handed
          && (|rest| <= maxRequests * pageSize ==>
               r.handed[id] == s0.handed[id] + rest && After(tables(id), r.offsets[id]) == []))
      {
        PollAllHandsOverPages(s0, enabled, maxRequests, net, tables, pageSize, k);
      }
      forall tables: nat -> seq<Row>, pageSize: nat |
        pageSize > 0 && AllServe(tables, pageSize, s0, enabled, maxRequests, net)
        ensures !PollAll(s0, enabled, maxRequests, net).1
      {
        HonestPollEnds(s0, enabled, maxRequests, net, tables, pageSize);
      }
      for k := 0 to |enabled|
        invariant Valid()
        invariant PollAll(state, enabled[k..], maxRequests, net) == PollAll(old(state), enabled, maxRequests, net)
      {
        threw := PollOne(enabled[k], maxRequests, net(enabled[k]));
        assert enabled[k..][0] == enabled[k] && enabled[k..][1..] == enabled[k + 1..];
        if threw {
          return;
        }
      }
      return false;
    }
  }

  // ---------- runs: appends and polls in any order ----------

  datatype Cluster = Cluster(rows: seq<Row>, offset: int, delivered: seq<Row>)

  /** An append gets an id above the last one, with any gap. During a request's two queries more rows may arrive. */
  datatype Event = Arrive(payload: Bytes, hash: Bytes, gap: nat) | Request(between: seq<Event>)

  function AppendRow(rows: seq<Row>, e: Event): seq<Row>
    requires e.Arrive?
  {
    rows + [Row(LastId(rows) + 1 + e.gap, e.payload, e.hash)]
  }

  function AppendRows(rows: seq<Row>, es: seq<Event>): seq<Row>
    decreases |es|
  {
    if es == [] then
      rows
    else
      AppendRows(if es[0].Arrive? then AppendRow(rows, es[0]) else rows, es[1..])
  }

  function Step(s: Cluster, e: Event, pageSize: nat): Cluster {
    match e
    case Arrive(_, _, _) => s.(rows := AppendRow(s.rows, e))
    case Request(between) =>
      var later := AppendRows(s.rows, between);
      var p := ClientStep(s.offset, ServerReply(s.rows, later, s.offset, pageSize));
      Cluster(later, p.offset, s.delivered + p.items)
  }

  function Run(s: Cluster, es: seq<Event>, pageSize: nat): Cluster
    decreases |es|
  {
    if es == [] then s else Run(Step(s, es[0], pageSize), es[1..], pageSize)
  }

  ghost predicate Replicated(s: Cluster, start: int) {
    && Increasing(s.rows)
    && start <= s.offset && (s.offset == start || s.offset <= LastId(s.rows))
    && s.delivered == Between(s.rows, start, s.offset)
  }

  lemma {:induction false} AppendRowsGrows(rows: seq<Row>, es: seq<Event>)
    requires Increasing(rows)
    ensures Grows(rows, AppendRows(rows, es))
    decreases |es|
  {
    if es != [] {
      AppendRowsGrows(if es[0].Arrive? then AppendRow(rows, es[0]) else rows, es[1..]);
    }
  }

  lemma ArrivalReplicates(s: Cluster, e: Event, pageSize: nat, start: int)
    requires Replicated(s, start) && e.Arrive?
    ensures Replicated(Step(s, e, pageSize), start)
  {
    hide Between;
    BetweenOfGrown(s.rows, AppendRow(s.rows, e), start, s.offset);
  }

  lemma ReplyWithinTable(atItems: seq<Row>, atMin: seq<Row>, first: int, pageSize: nat)
    requires Increasing(atItems) && Grows(atItems, atMin) && pageSize > 0
    ensures (var reply := ServerReply(atItems, atMin, first, pageSize);
      && reply.Reply? && reply.lastOffset.Some?
      && (reply.items != [] ==> first < reply.lastOffset.value <= LastId(atMin)))
  {
    if Page(atItems, first, pageSize) != [] {
      PageIsPrefixOfRest(atItems, first, pageSize);
      var items := Page(atItems, first, pageSize);
      BetweenMember(atItems, first, items[|items| - 1].id, items[|items| - 1]);
      RowBelowLast(atItems, items[|items| - 1]);
      LastIdGrows(atItems, atMin);
    }
  }

  lemma RequestReplicates(s: Cluster, between: seq<Event>, pageSize: nat, start: int)
    requires Replicated(s, start) && pageSize > 0
    ensures Replicated(Step(s, Request(between), pageSize), start)
    ensures Step(s, Request(between), pageSize).offset >= s.offset
  {
    hide Between, ServerReply;
    var later := AppendRows(s.rows, between);
    AppendRowsGrows(s.rows, between);
    BetweenOfGrown(s.rows, later, start, s.offset);
    LastIdGrows(s.rows, later);
    var reply := ServerReply(s.rows, later, s.offset, pageSize);
    ReplyIsSafe(s.rows, later, s.offset, pageSize);
    ReplyWithinTable(s.rows, later, s.offset, pageSize);
    if reply.items != [] {
      BetweenSplits(later, start, s.offset, reply.lastOffset.value);
    }
  }

  lemma StepReplicates(s: Cluster, e: Event, pageSize: nat, start: int)
    requires Replicated(s, start) && pageSize > 0
    ensures Replicated(Step(s, e, pageSize), start)
    ensures Step(s, e, pageSize).offset >= s.offset
  {
    hide Replicated;
    match e {
      case Arrive(_, _, _) => ArrivalReplicates(s, e, pageSize, start);
      case Request(between) => RequestReplicates(s, between, pageSize, start);
    }
  }

  /** Over every interleaving of appends and requests: what the consumer got is exactly the rows above the initial
      offset and up to the stored one, in id order, each once. */
  lemma {:induction false} ReplicationIsExact(s: Cluster, es: seq<Event>, pageSize: nat, start: int)
    requires Replicated(s, start) && pageSize > 0
    ensures Replicated(Run(s, es, pageSize), start)
    ensures Run(s, es, pageSize).offset >= s.offset
    ensures Increasing(Run(s, es, pageSize).delivered)
    decreases |es|
  {
    if es == [] {
      BetweenIsFilter(s.rows, start, s.offset);
    } else {
      StepReplicates(s, es[0], pageSize, start);
      ReplicationIsExact(Step(s, es[0], pageSize), es[1..], pageSize, start);
    }
  }

  /** A longer run goes on from where the shorter one stopped, and what was handed over stays. */
  lemma {:induction false} RunContinues(s: Cluster, es: seq<Event>, more: seq<Event>, pageSize: nat)
    ensures Run(s, es + more, pageSize) == Run(Run(s, es, pageSize), more, pageSize)
    ensures Run(s, es, pageSize).delivered <= Run(s, es + more, pageSize).delivered
    decreases |es|
  {
    hide Step;
    if es == [] {
      assert es + more == more;
      DeliveredStays(s, more, pageSize);
    } else {
      assert (es + more)[1..] == es[1..] + more;
      RunContinues(Step(s, es[0], pageSize), es[1..], more, pageSize);
    }
  }

  lemma {:induction false} DeliveredStays(s: Cluster, es: seq<Event>, pageSize: nat)
    ensures s.delivered <= Run(s, es, pageSize).delivered
    decreases |es|
  {
    hide ServerReply;
    if es != [] {
      DeliveredStays(Step(s, es[0], pageSize), es[1..], pageSize);
    }
  }

  function Requests(k: nat): seq<Event> { seq(k, _ => Request([])) }

  /** Once appends stop, ceil(missing / pageSize) requests deliver everything. */
  lemma {:induction false} EnoughRequestsDeliverAll(s: Cluster, k: nat, pageSize: nat, start: int)
    requires Replicated(s, start) && pageSize > 0
    requires |After(s.rows, s.offset)| <= k * pageSize
    ensures var r := Run(s, Requests(k), pageSize);
      r.rows == s.rows && r.delivered == After(s.rows, start) && After(r.rows, r.offset) == []
    decreases k
  {
    hide Between, ServerReply, ClientStep;
    if k == 0 {
      AllDelivered(s, start);
    } else {
      assert Requests(k)[0] == Request([]) && Requests(k)[1..] == Requests(k - 1);
      var next := Step(s, Request([]), pageSize);
      StepReplicates(s, Request([]), pageSize, start);
      RequestShrinksRest(s, pageSize);
      assert k * pageSize == (k - 1) * pageSize + pageSize && 0 <= (k - 1) * pageSize;
      EnoughRequestsDeliverAll(next, k - 1, pageSize, start);
    }
  }

  lemma RequestShrinksRest(s: Cluster, pageSize: nat)
    requires Increasing(s.rows) && pageSize > 0
    ensures var next := Step(s, Request([]), pageSize);
      && next.rows == s.rows
      && |After(s.rows, next.offset)| <=
           if |After(s.rows, s.offset)| <= pageSize then 0 else |After(s.rows, s.offset)| - pageSize
  {
    var rest, items := After(s.rows, s.offset), Page(s.rows, s.offset, pageSize);
    if rest != [] {
      PageIsPrefixOfRest(s.rows, s.offset, pageSize);
      BetweenSplits(s.rows, s.offset, items[|items| - 1].id, LastId(s.rows));
    }
  }

  lemma AllDelivered(s: Cluster, start: int)
    requires Replicated(s, start) && After(s.rows, s.offset) == []
    ensures s.delivered == After(s.rows, start)
  {
    if s.offset <= LastId(s.rows) {
      BetweenSplits(s.rows, start, s.offset, LastId(s.rows));
    } else {
      BoundAboveAll(s.rows, start, s.offset);
    }
  }

  /** `replies` answers as the server would, its table growing through `tables` (two readings per request). */
  ghost predicate Honest(tables: nat -> seq<Row>, pageSize: nat, offset: int, replies: nat -> Reply, i: nat, max: nat)
    decreases max - i
  {
    i < max ==>
      && Increasing(tables(2 * i)) && Grows(tables(2 * i), tables(2 * i + 1))
      && Grows(tables(2 * i + 1), tables(2 * i + 2))
      && replies(i) == ServerReply(tables(2 * i), tables(2 * i + 1), offset, pageSize)
      && Honest(tables, pageSize, ClientStep(offset, replies(i)).offset, replies, i + 1, max)
  }

  /** The client's own loop against such a server hands over exactly the rows its offset moved past. */
  lemma {:induction false} PollOfHonestServer(
      tables: nat -> seq<Row>, pageSize: nat, offset: int, replies: nat -> Reply, i: nat, max: nat, final: seq<Row>)
    requires pageSize > 0 && i <= max
    requires Honest(tables, pageSize, offset, replies, i, max)
    requires Grows(tables(2 * max), final) && forall j | i <= j < max :: Grows(tables(2 * j + 1), final)
    ensures var p := PollEndpoint(offset, replies, i, max);
      !p.threw && offset <= p.offset && p.items == Between(final, offset, p.offset)
    decreases max - i
  {
    var p := PollEndpoint(offset, replies, i, max);
    if i == max || !ClientStep(offset, replies(i)).more {
      EmptyRange(final, offset);
    } else {
      var at, later := tables(2 * i), tables(2 * i + 1);
      ReplyIsSafe(at, later, offset, pageSize);
      PageIsPrefixOfRest(at, offset, pageSize);
      var mid := ClientStep(offset, replies(i)).offset;
      LastIdGrows(at, later);
      BetweenOfGrown(later, final, offset, mid);
      PollOfHonestServer(tables, pageSize, mid, replies, i + 1, max, final);
      BetweenSplits(final, offset, mid, p.offset);
    }
  }

  /** The replies are those of a server whose table stays `rows`, each asked for what lies above the last reply's
      offset, the first for what lies above `offset`. */
  ghost predicate Serves(rows: seq<Row>, pageSize: nat, offset: int, replies: nat -> Reply, i: nat, max: nat)
    decreases max - i
  {
    i < max ==>
      && replies(i) == ServerReply(rows, rows, offset, pageSize)
      && (Page(rows, offset, pageSize) != [] ==>
            Serves(rows, pageSize, replies(i).lastOffset.value, replies, i + 1, max))
  }

  // A page is the first rows above the offset, and the others are those above its last id.
  lemma {:induction false} PageSplitsRest(rows: seq<Row>, offset: int, pageSize: nat)
    requires Increasing(rows) && pageSize > 0 && Page(rows, offset, pageSize) != []
    ensures (var rest, items := After(rows, offset), Page(rows, offset, pageSize);
      && |items| == (if |rest| <= pageSize then |rest| else pageSize) && items == rest[..|items|]
      && After(rows, items[|items| - 1].id) == rest[|items|..]
      && offset < items[|items| - 1].id)
  {
    var items := Page(rows, offset, pageSize);
    PageIsPrefixOfRest(rows, offset, pageSize);
    BetweenSplits(rows, offset, items[|items| - 1].id, LastId(rows));
  }

  // What the client makes of one of these replies.
  lemma OneRequest(rows: seq<Row>, pageSize: nat, offset: int, replies: nat -> Reply, i: nat, max: nat)
    requires Increasing(rows) && pageSize > 0 && i < max && Serves(rows, pageSize, offset, replies, i, max)
    ensures (var items := Page(rows, offset, pageSize);
      if items == [] then
        After(rows, offset) == [] && ClientStep(offset, replies(i)) == Polled(offset, [], false, false)
      else
        var next := items[|items| - 1].id;
        && ClientStep(offset, replies(i)) == Polled(next, items, false, true)
        && Serves(rows, pageSize, next, replies, i + 1, max))
  {
    hide After;
    if Page(rows, offset, pageSize) != [] {
      PageSplitsRest(rows, offset, pageSize);
    }
  }

  /** The poll handed over the first n of the rows above the offset, and the others are those above the new one. */
  ghost predicate HandsOver(rows: seq<Row>, offset: int, p: Polled, n: nat) {
    var rest := After(rows, offset);
    !p.threw && n <= |rest| && p.items == rest[..n] && After(rows, p.offset) == rest[n..]
  }

  lemma NothingHandedOver(rows: seq<Row>, offset: int, p: Polled)
    requires p == Polled(offset, [], false, p.more)
    ensures HandsOver(rows, offset, p, 0)
  {
    hide After;
  }

  // A page, then what the requests after it hand over.
  lemma PageThenRest(rows: seq<Row>, offset: int, items: seq<Row>, next: int, p: Polled, n: nat)
    requires (var rest := After(rows, offset);
      |items| <= |rest| && items == rest[..|items|] && After(rows, next) == rest[|items|..])
    requires HandsOver(rows, next, p, n)
    ensures HandsOver(rows, offset, p.(items := items + p.items), |items| + n)
  {
    hide After;
    var rest := After(rows, offset);
    assert rest[..|items|] + rest[|items|..][..n] == rest[..|items| + n];
    assert rest[|items|..][n..] == rest[|items| + n..];
  }

  /** One poll of a server whose table stays as it is makes as many requests as it may and needs: it hands over the
      first `max` pages of rows above the offset, all of them if they are fewer, and what is left lies above the new
      offset. */
  lemma {:induction false} PollHandsOverPages(
      rows: seq<Row>, pageSize: nat, offset: int, replies: nat -> Reply, i: nat, max: nat)
    requires Increasing(rows) && pageSize > 0 && i <= max
    requires Serves(rows, pageSize, offset, replies, i, max)
    ensures HandsOver(rows, offset, PollEndpoint(offset, replies, i, max),
      Pages(|After(rows, offset)|, max - i, pageSize))
    decreases max - i
  {
    hide After, Page, ClientStep, Serves, PollEndpoint, Increasing, Pages, HandsOver;
    var count, items := |After(rows, offset)|, Page(rows, offset, pageSize);
    PollUnrolled(offset, replies, i, max);
    PagesUnrolled(count, max - i, pageSize);
    if i == max {
      NothingHandedOver(rows, offset, PollEndpoint(offset, replies, i, max));
    } else {
      OneRequest(rows, pageSize, offset, replies, i, max);
      if items == [] {
        NothingHandedOver(rows, offset, PollEndpoint(offset, replies, i, max));
      } else {
        PageSplitsRest(rows, offset, pageSize);
        var next := items[|items| - 1].id;
        var n := Pages(|After(rows, next)|, max - (i + 1), pageSize);
        PollHandsOverPages(rows, pageSize, next, replies, i + 1, max);
        PagesUnrolled(count - |items|, max - (i + 1), pageSize);
        PageThenRest(rows, offset, items, next, PollEndpoint(next, replies, i + 1, max), n);
      }
    }
  }

  /** How many of `count` rows `k` pages hold. */
  function Pages(count: nat, k: nat, pageSize: nat): (n: nat)
    ensures n <= count
  {
    if count <= k * pageSize then count else k * pageSize
  }

  lemma PagesUnrolled(count: nat, k: nat, pageSize: nat)
    ensures Pages(count, k, pageSize) ==
      if k == 0 || count == 0 then 0
      else if count <= pageSize then count
      else pageSize + Pages(count - pageSize, k - 1, pageSize)
  {
    if k > 0 {
      assert k * pageSize == (k - 1) * pageSize + pageSize;
      assert (k - 1) * pageSize >= 0;
    }
  }

  /** When `max` pages hold the rows above the offset, the poll hands over all of them and leaves none. */
  lemma {:induction false} PollDrains(rows: seq<Row>, pageSize: nat, offset: int, replies: nat -> Reply, max: nat)
    requires Increasing(rows) && pageSize > 0 && Serves(rows, pageSize, offset, replies, 0, max)
    requires |After(rows, offset)| <= max * pageSize
    ensures (var p := PollEndpoint(offset, replies, 0, max);
      !p.threw && p.items == After(rows, offset) && After(rows, p.offset) == [])
  {
    hide After, PollEndpoint, Serves;
    PollHandsOverPages(rows, pageSize, offset, replies, 0, max);
  }

  /** Every endpoint polled answers as a server whose table stays as it is. */
  ghost predicate AllServe(
      tables: nat -> seq<Row>, pageSize: nat, s: Progress, ids: seq<nat>, max: nat, net: nat -> nat -> Reply)
    requires s.Has(ids)
  {
    forall k | 0 <= k < |ids| ::
      Increasing(tables(ids[k])) && Serves(tables(ids[k]), pageSize, s.offsets[ids[k]], net(ids[k]), 0, max)
  }

  lemma {:induction false} HonestPollEnds(
      s: Progress, ids: seq<nat>, max: nat, net: nat -> nat -> Reply, tables: nat -> seq<Row>, pageSize: nat)
    requires s.Has(ids) && (forall i, j | 0 <= i < j < |ids| :: ids[i] < ids[j])
    requires pageSize > 0 && AllServe(tables, pageSize, s, ids, max, net)
    ensures !PollAll(s, ids, max, net).1
    decreases |ids|
  {
    hide PollEndpoint, Serves;
    if ids != [] {
      var p, rest := PollEndpoint(s.offsets[ids[0]], net(ids[0]), 0, max), ids[1..];
      PollHandsOverPages(tables(ids[0]), pageSize, s.offsets[ids[0]], net(ids[0]), 0, max);
      forall k | 0 <= k < |rest|
        ensures s.After(ids[0], p).offsets[rest[k]] == s.offsets[ids[k + 1]] && rest[k] == ids[k + 1]
      {
        assert ids[0] < ids[k + 1];
      }
      HonestPollEnds(s.After(ids[0], p), rest, max, net, tables, pageSize);
    }
  }

  /** A poll of such endpoints ends without an error, and each one's rows above its stored offset are handed over: all
      of them if `max` pages hold them, and else that many pages of them, the others lying above the new offset. */
  lemma {:induction false} PollAllHandsOverPages(
      s: Progress, ids: seq<nat>, max: nat, net: nat -> nat -> Reply, tables: nat -> seq<Row>, pageSize: nat, k: nat)
    requires s.Has(ids) && (forall i, j | 0 <= i < j < |ids| :: ids[i] < ids[j])
    requires pageSize > 0 && AllServe(tables, pageSize, s, ids, max, net) && k < |ids|
    ensures (var (r, threw) := PollAll(s, ids, max, net);
      var id := ids[k];
      var rest := After(tables(id), s.offsets[id]);
      var n := Pages(|rest|, max, pageSize);
      && !threw && id in r.offsets && id in r.handed
      && r.handed[id] == s.handed[id] + rest[..n] && After(tables(id), r.offsets[id]) == rest[n..]
      && (|rest| <= max * pageSize ==> rest[..n] == rest && rest[n..] == []))
  {
    hide PollAll, PollEndpoint, Serves, After;
    HonestPollEnds(s, ids, max, net, tables, pageSize);
    PollAllEffect(s, ids, max, net, k);
    PollHandsOverPages(tables(ids[k]), pageSize, s.offsets[ids[k]], net(ids[k]), 0, max);
  }

  lemma {:induction false} EmptyRange(rows: seq<Row>, lo: int)
    ensures Between(rows, lo, lo) == []
  {
    if rows != [] { EmptyRange(rows[..|rows| - 1], lo); }
  }

  lemma LastIdGrows(earlier: seq<Row>, later: seq<Row>)
    requires Grows(earlier, later)
    ensures LastId(earlier) <= LastId(later)
  {
    if earlier != [] { RowBelowLast(later, later[|earlier| - 1]); }
  }
}
