/** What a storage node does when its shard assignment changes (storageNode.ts), against the history of
    assignments it keeps (the contract_shards table, BlockStorage.ts). */
module Reshard {
  import opened Bytes

  // One row per insertion time, the primary key.
  type ShardHistory = map<nat, set<nat>>

  ghost predicate IsLatest(t: ShardHistory, ts: nat) { ts in t && forall u | u in t :: u <= ts }

  lemma {:induction false} LatestExists(t: ShardHistory) returns (ts: nat)
    requires t != map[]
    ensures IsLatest(t, ts)
    decreases |t|
  {
    var k: nat :| k in t;
    var rest := t - {k};
    assert t.Keys == rest.Keys + {k};
    if rest == map[] {
      ts := k;
    } else {
      assert |t| == |rest| + 1 by { assert |t.Keys| == |rest.Keys| + 1; }
      var r := LatestExists(rest);
      ts := if r <= k then k else r;
      assert forall u | u in t :: u == k || u in rest;
    }
  }

  ghost function LatestOf(t: ShardHistory): (ts: nat)
    requires t != map[]
    ensures IsLatest(t, ts)
  {
    LatestIsThere(t);
    var ts: nat :| IsLatest(t, ts);
    ts
  }

  lemma LatestIsThere(t: ShardHistory)
    requires t != map[]
    ensures exists ts: nat :: IsLatest(t, ts)
  {
    var ts := LatestExists(t);
  }

  /** The row with the largest time; no row reads as the empty set. */
  ghost function Loaded(t: ShardHistory): set<nat> {
    if t == map[] then
      {}
    else
      var ts: nat := LatestOf(t);
      t[ts]
  }

  /** ON CONFLICT DO NOTHING on the time. */
  function Saved(t: ShardHistory, now: nat, shards: set<nat>): ShardHistory {
    if now in t then t else t[now := shards]
  }

  /** A saved assignment is what is loaded next exactly when the clock is past every earlier row, or the
      row that stays the latest already says the same. */
  lemma {:induction false} LoadedAfterSave(t: ShardHistory, now: nat, shards: set<nat>)
    ensures Loaded(Saved(t, now, shards)) == shards <==>
      (forall u | u in t :: u < now) || (t != map[] && Loaded(t) == shards)
  {
    var t' := Saved(t, now, shards);
    assert now in t';
    var latest := LatestExists(t');
    if t != map[] {
      var before := LatestExists(t);
      assert before in t';
      if forall u | u in t :: u < now {
        assert latest == now;
      } else {
        assert IsLatest(t', before);
        assert latest == before;
        assert t'[before] == t[before];
      }
    } else {
      assert latest == now;
    }
  }

  // ---------- one reshard ----------

  datatype ShardStatus = ShardStatus(shardsToAdd: set<nat>, shardsToDelete: set<nat>, commonShards: set<nat>)

  function GetShardStatus(oldShards: set<nat>, newShards: set<nat>): ShardStatus {
    ShardStatus(newShards - oldShards, oldShards - newShards, oldShards * newShards)
  }

  /** The three sets split old and new together, and either side can be rebuilt from them. */
  lemma {:induction false} StatusPartitions(oldShards: set<nat>, newShards: set<nat>, s: nat)
    ensures (var st := GetShardStatus(oldShards, newShards);
      && st.shardsToAdd + st.shardsToDelete + st.commonShards == oldShards + newShards
      && st.shardsToAdd !! st.shardsToDelete !! st.commonShards
      && oldShards == st.commonShards + st.shardsToDelete
      && newShards == st.commonShards + st.shardsToAdd
      && |st.shardsToAdd| + |st.shardsToDelete| + |st.commonShards| == |oldShards + newShards|)
  {
    var st := GetShardStatus(oldShards, newShards);
    assert st.shardsToAdd + st.shardsToDelete + st.commonShards == oldShards + newShards;
  }

  /** The awaited calls that may throw; handleReshard logs the error and returns. */
  datatype Stage = Loading | ExpiringRows | ExpiringBlocks | FindingPeers | Saving

  datatype Call = ExpireRows(shards: set<nat>) | ExpireBlocks(shards: set<nat>) | SyncFromPeers(shards: set<nat>) |
    StartPooling

  /** The calls that are completed by one reshard, the one that throws left out. */
  function CallsOf(oldShards: set<nat>, newShards: set<nat>, fails: Option<Stage>): seq<Call> {
    var st := GetShardStatus(oldShards, newShards);
    var deleting: seq<Call> :=
      if st.shardsToDelete == {} || fails == Some(ExpiringRows) then []
      else if fails == Some(ExpiringBlocks) then [ExpireRows(st.shardsToDelete)]
      else [ExpireRows(st.shardsToDelete), ExpireBlocks(st.shardsToDelete)];
    var adding: seq<Call> :=
      if st.shardsToAdd == {} || fails == Some(FindingPeers) then []
      else if fails == Some(Saving) then [SyncFromPeers(st.shardsToAdd)]
      else [SyncFromPeers(st.shardsToAdd), StartPooling];
    if oldShards == newShards || fails == Some(Loading) then
      []
    else if st.shardsToDelete != {} && (fails == Some(ExpiringRows) || fails == Some(ExpiringBlocks)) then
      deleting
    else
      deleting + adding
  }

  ghost predicate Persists(t: ShardHistory, newShards: set<nat>, fails: Option<Stage>) {
    StartPooling in CallsOf(Loaded(t), newShards, fails)
  }

  lemma {:induction false} NothingLeft(a: set<nat>, b: set<nat>)
    ensures a - b == {} <==> a <= b
  {
    if a - b == {} {
      forall s | s in a ensures s in b {
        assert s !in a - b;
      }
    }
  }

  /** Only a reshard that adds shards, and gets as far as the insert, is persisted. */
  lemma {:induction false} PersistsWhenAdding(t: ShardHistory, newShards: set<nat>, fails: Option<Stage>)
    ensures Persists(t, newShards, fails) <==>
      && !(newShards <= Loaded(t))
      && (fails == None || (newShards >= Loaded(t) && (fails == Some(ExpiringRows) || fails == Some(ExpiringBlocks))))
  {
    var was := Loaded(t);
    var st := GetShardStatus(was, newShards);
    assert fails.Some? ==> (fails.value.Loading? || fails.value.ExpiringRows? || fails.value.ExpiringBlocks? ||
      fails.value.FindingPeers? || fails.value.Saving?);
    NothingLeft(newShards, was);
    NothingLeft(was, newShards);
    var calls := CallsOf(was, newShards, fails);
    if newShards <= was || fails == Some(Loading) || fails == Some(FindingPeers) || fails == Some(Saving) {
      assert forall k | 0 <= k < |calls| :: !calls[k].StartPooling?;
    } else if fails == None || newShards >= was {
      assert calls[|calls| - 1] == StartPooling;
    } else {
      assert forall k | 0 <= k < |calls| :: !calls[k].StartPooling?;
    }
  }

  method IsEqualSet(a: set<nat>, b: set<nat>) returns (r: bool)
    ensures r == (a == b)
  {
    if |a| != |b| {
      return false;
    }
    var todo := a;
    while todo != {}
      invariant todo <= a && a - todo <= b
      decreases todo
    {
      var value: nat :| value in todo;
      if value !in b {
        return false;
      }
      todo := todo - {value};
    }
    SubsetOfSameSize(a, b);
    return true;
  }

  lemma {:induction false} SubsetOfSameSize(a: set<nat>, b: set<nat>)
    requires a <= b && |a| == |b|
    ensures a == b
  {
    assert b == a + (b - a);
    assert |b| == |a| + |b - a|;
  }

  /** The part of BlockStorage that keeps the assignments. */
  class NodeShardsTable {
    var contractShards: ShardHistory

    method LoadNodeShards() returns (shards: set<nat>)
      ensures shards == Loaded(contractShards)
    {
      if contractShards == map[] {
        return {};
      }
      var latest: nat :| latest in contractShards;
      var todo := contractShards.Keys - {latest};
      while todo != {}
        invariant latest in contractShards && todo <= contractShards.Keys
        invariant forall u | u in contractShards && u !in todo :: u <= latest
        decreases todo
      {
        var ts: nat :| ts in todo;
        if latest < ts {
          latest := ts;
        }
        todo := todo - {ts};
      }
      assert IsLatest(contractShards, latest);
      return contractShards[latest];
    }

    method SaveNodeShards(nodeShards: set<nat>, now: nat)
      modifies this
      ensures contractShards == Saved(old(contractShards), now, nodeShards)
    {
      if now !in contractShards {
        contractShards := contractShards[now := nodeShards];
      }
    }
  }

  /** The part of StorageNode that reacts to a new assignment. */
  class ReshardHandler {
    const blockStorage: NodeShardsTable
    var calls: seq<Call>

    constructor (blockStorage: NodeShardsTable)
      ensures this.blockStorage == blockStorage && calls == []
    {
      this.blockStorage, calls := blockStorage, [];
    }

    /** `fails` names the call that throws, if any. A missing assignment throws while it is logged, so nothing is
        done; it is not treated as an empty one. */
    method HandleReshard(currentNodeShards: Option<set<nat>>, now: nat, fails: Option<Stage>)
      modifies this, blockStorage
      ensures (var t := old(blockStorage.contractShards);
        match currentNodeShards
        case None => calls == old(calls) && blockStorage.contractShards == t
        case Some(newShards) =>
          && calls == old(calls) + CallsOf(Loaded(t), newShards, fails)
          && blockStorage.contractShards == if Persists(t, newShards, fails) then Saved(t, now, newShards) else t)
    {
      if currentNodeShards.None? {
        return;
      }
      var newShards := currentNodeShards.value;
      ghost var t := blockStorage.contractShards;
      PersistsWhenAdding(t, newShards, fails);
      if fails == Some(Loading) {
        return;
      }
      var oldShards := blockStorage.LoadNodeShards();
      var same := IsEqualSet(newShards, oldShards);
      if same {
        return;
      }
      var status := GetShardStatus(oldShards, newShards);
      if status.shardsToDelete != {} {
        if fails == Some(ExpiringRows) {
          return;
        }
        calls := calls + [ExpireRows(status.shardsToDelete)];
        if fails == Some(ExpiringBlocks) {
          return;
        }
        calls := calls + [ExpireBlocks(status.shardsToDelete)];
      }
      if status.shardsToAdd != {} {
        if fails == Some(FindingPeers) {
          return;
        }
        calls := calls + [SyncFromPeers(status.shardsToAdd)];
        if fails == Some(Saving) {
          return;
        }
        blockStorage.SaveNodeShards(newShards, now);
        calls := calls + [StartPooling];
      }
    }
  }

  // ---------- whole runs ----------

  datatype Event = Event(newShards: set<nat>, now: nat, fails: Option<Stage>)

  ghost function AfterEvent(t: ShardHistory, e: Event): ShardHistory {
    if Persists(t, e.newShards, e.fails) then Saved(t, e.now, e.newShards) else t
  }

  ghost function After(t: ShardHistory, run: seq<Event>): ShardHistory {
    if run == [] then t else AfterEvent(After(t, run[..|run| - 1]), run[|run| - 1])
  }

  /** Every event comes later than the rows of the table and the events before it. */
  ghost predicate ClockAdvances(t: ShardHistory, run: seq<Event>) {
    && (forall i, u | 0 <= i < |run| && u in t :: u < run[i].now)
    && (forall i, j | 0 <= i < j < |run| :: run[i].now < run[j].now)
  }

  lemma {:induction false} RowsArePast(t: ShardHistory, run: seq<Event>, u: nat)
    requires ClockAdvances(t, run) && u in After(t, run)
    ensures u in t || exists i :: 0 <= i < |run| && u == run[i].now
  {
    if run != [] {
      var n := |run| - 1;
      if u in After(t, run[..n]) {
        RowsArePast(t, run[..n], u);
        if u !in t {
          var i :| 0 <= i < n && u == run[..n][i].now;
          assert u == run[i].now;
        }
      } else {
        assert u == run[n].now;
      }
    }
  }

  /** The last event of a run, when it persists, is what is loaded next. */
  lemma {:induction false} LastEvent(t: ShardHistory, run: seq<Event>)
    requires run != [] && ClockAdvances(t, run)
    ensures (var e, before := run[|run| - 1], After(t, run[..|run| - 1]);
      Loaded(After(t, run)) == if Persists(before, e.newShards, e.fails) then e.newShards else Loaded(before))
  {
    var n := |run| - 1;
    var e, before := run[n], After(t, run[..n]);
    forall u | u in before ensures u < e.now {
      RowsArePast(t, run[..n], u);
      if u !in t {
        var i :| 0 <= i < n && u == run[..n][i].now;
        assert run[i].now < run[n].now;
      }
    }
    LoadedAfterSave(before, e.now, e.newShards);
  }

  /** After a reshard that throws nothing, whatever failed before it, every shard now assigned is recorded. */
  lemma {:induction false} AssignedIsPersisted(t: ShardHistory, run: seq<Event>)
    requires run != [] && ClockAdvances(t, run) && run[|run| - 1].fails == None
    ensures run[|run| - 1].newShards <= Loaded(After(t, run))
  {
    var n := |run| - 1;
    LastEvent(t, run);
    PersistsWhenAdding(After(t, run[..n]), run[n].newShards, None);
  }

  /** The shards that event i adds and asks its peers for, being persisted. */
  ghost function AddedAt(t: ShardHistory, run: seq<Event>, i: nat): set<nat>
    requires i < |run|
  {
    var before := After(t, run[..i]);
    if Persists(before, run[i].newShards, run[i].fails) then
      GetShardStatus(Loaded(before), run[i].newShards).shardsToAdd
    else
      {}
  }

  lemma NothingYet(t: ShardHistory)
    ensures After(t, []) == t
  {
  }

  lemma AddedBefore(t: ShardHistory, run: seq<Event>, n: nat, i: nat)
    requires i < n <= |run|
    ensures AddedAt(t, run[..n], i) == AddedAt(t, run, i)
  {
    assert run[..n][..i] == run[..i];
  }

  /** A recorded shard was recorded at the start, or was among those some reshard added and asked for. */
  lemma {:induction false} PersistedWasAdded(t: ShardHistory, run: seq<Event>, s: nat)
    requires ClockAdvances(t, run) && s in Loaded(After(t, run))
    ensures s in Loaded(t) || exists i: nat :: i < |run| && s in AddedAt(t, run, i)
  {
    hide After, Loaded, Persists;
    if run == [] {
      NothingYet(t);
    } else {
      var n := |run| - 1;
      LastEvent(t, run);
      if s in Loaded(After(t, run[..n])) {
        PersistedWasAdded(t, run[..n], s);
        if s !in Loaded(t) {
          var i: nat :| i < n && s in AddedAt(t, run[..n], i);
          AddedBefore(t, run, n, i);
        }
      } else {
        assert s in AddedAt(t, run, n);
      }
    }
  }

  /** Starting from an empty table, a shard assigned by an error-free reshard was in shardsToAdd of some
      completed reshard of the run. */
  lemma {:induction false} AssignedWasAdded(run: seq<Event>, s: nat)
    requires run != [] && ClockAdvances(map[], run) && run[|run| - 1].fails == None
    requires s in run[|run| - 1].newShards
    ensures exists i: nat :: i < |run| && s in AddedAt(map[], run, i)
  {
    AssignedIsPersisted(map[], run);
    PersistedWasAdded(map[], run, s);
  }

  /** The call that throws when a stage fails. */
  function StageOf(c: Call): Stage {
    match c
    case ExpireRows(_) => ExpiringRows
    case ExpireBlocks(_) => ExpiringBlocks
    case SyncFromPeers(_) => FindingPeers
    case StartPooling => Saving
  }

  /** Without an error, what is lost is set to expire first, rows before blocks, and then what is gained is asked for
      and the pooling started. An error keeps the calls before the one that throws and drops the others. */
  lemma {:induction false} CallsInOrder(lost: set<nat>, gained: set<nat>, kept: set<nat>, stage: Stage)
    requires lost !! gained !! kept
    ensures (var all := CallsOf(lost + kept, gained + kept, None);
      && all == (if lost == {} then [] else [ExpireRows(lost), ExpireBlocks(lost)])
           + (if gained == {} then [] else [SyncFromPeers(gained), StartPooling])
      && (stage == Loading ==> CallsOf(lost + kept, gained + kept, Some(stage)) == [])
      && (forall k | 0 <= k < |all| && StageOf(all[k]) == stage ::
           CallsOf(lost + kept, gained + kept, Some(stage)) == all[..k])
      && (stage != Loading && (forall k | 0 <= k < |all| :: StageOf(all[k]) != stage) ==>
           CallsOf(lost + kept, gained + kept, Some(stage)) == all))
  {
    var old', new' := lost + kept, gained + kept;
    assert new' - old' == gained && old' - new' == lost;
    assert old' == new' <==> lost == {} && gained == {};
    var all := CallsOf(old', new', None);
    assert (if lost == {} then [] else [ExpireRows(lost), ExpireBlocks(lost)])
      + (if gained == {} then [] else [SyncFromPeers(gained), StartPooling]) == all;
    if lost != {} {
      assert all[0] == ExpireRows(lost) && all[1] == ExpireBlocks(lost);
    }
    if gained != {} {
      assert all[|all| - 2] == SyncFromPeers(gained) && all[|all| - 1] == StartPooling;
    }
    assert stage in {Loading, ExpiringRows, ExpiringBlocks, FindingPeers, Saving} by {
      match stage { case Loading => case ExpiringRows => case ExpiringBlocks => case FindingPeers => case Saving => }
    }
  }

  /** An event never expires a shard it assigns, nor one that was not recorded. */
  lemma {:induction false} OnlyLostShardsExpire(oldShards: set<nat>, newShards: set<nat>, fails: Option<Stage>, c: Call)
    requires c in CallsOf(oldShards, newShards, fails) && !c.StartPooling?
    ensures c.SyncFromPeers? ==> c.shards == newShards - oldShards
    ensures !c.SyncFromPeers? ==> c.shards == oldShards - newShards
    ensures c.shards != {}
  {
  }

  // ---------- regained shards ----------

  ghost function AskedFor(calls: seq<Call>): set<nat> {
    set c, s | c in calls && c.SyncFromPeers? && s in c.shards :: s
  }

  lemma {:induction false} AskedForNew(recorded: set<nat>, newShards: set<nat>)
    ensures AskedFor(CallsOf(recorded, newShards, None)) == newShards - recorded
  {
    var calls := CallsOf(recorded, newShards, None);
    if newShards - recorded != {} {
      assert calls[|calls| - 2] == SyncFromPeers(newShards - recorded);
    }
    forall c | c in calls && c.SyncFromPeers? ensures c.shards == newShards - recorded {
      OnlyLostShardsExpire(recorded, newShards, None, c);
    }
  }

  lemma {:induction false} GainAskedFor(recorded: set<nat>, previous: set<nat>, newShards: set<nat>)
    ensures newShards - previous <= AskedFor(CallsOf(recorded, newShards, None)) <==>
      newShards * (recorded - previous) == {}
  {
    AskedForNew(recorded, newShards);
    if newShards * (recorded - previous) == {} {
      forall s | s in newShards - previous ensures s !in recorded {
        assert s !in newShards * (recorded - previous);
      }
    } else {
      var s :| s in newShards * (recorded - previous);
      assert s in newShards - previous;
    }
  }

  /** In any run, when an event throws nothing: every shard it assigns beyond the assignment of the event before is
      asked for iff none of them is recorded from before. If the event before threw nothing either and itself added
      a shard, that is always so; if it only took shards away, the recorded ones are those from before it. */
  lemma {:induction false} GainIsSyncedIff(t: ShardHistory, run: seq<Event>)
    requires |run| >= 2 && ClockAdvances(t, run) && run[|run| - 1].fails == None
    ensures (var n := |run| - 1;
      var recorded, previous, current := Loaded(After(t, run[..n])), run[n - 1].newShards, run[n].newShards;
      && (current - previous <= AskedFor(CallsOf(recorded, current, None)) <==> current * (recorded - previous) == {})
      && (run[n - 1].fails == None ==>
           recorded == if previous <= Loaded(After(t, run[..n - 1])) then Loaded(After(t, run[..n - 1])) else previous))
  {
    var n := |run| - 1;
    hide After, Loaded, CallsOf;
    GainAskedFor(Loaded(After(t, run[..n])), run[n - 1].newShards, run[n].newShards);
    if run[n - 1].fails == None {
      LastEvent(t, run[..n]);
      assert run[..n][..n - 1] == run[..n - 1];
      PersistsWhenAdding(After(t, run[..n - 1]), run[n - 1].newShards, None);
    }
  }

  /** {0,1}, then {0}, then {0,1} again: shard 1 is set to expire, and its return does nothing. */
  lemma {:induction false} RegainedShardIsNotSynced()
    ensures (var run := [Event({0, 1}, 1, None), Event({0}, 2, None), Event({0, 1}, 3, None)];
      && ClockAdvances(map[], run)
      && CallsOf(Loaded(map[]), {0, 1}, None) == [SyncFromPeers({0, 1}), StartPooling]
      && CallsOf(Loaded(After(map[], run[..1])), {0}, None) == [ExpireRows({1}), ExpireBlocks({1})]
      && CallsOf(Loaded(After(map[], run[..2])), {0, 1}, None) == [])
  {
    var run := [Event({0, 1}, 1, None), Event({0}, 2, None), Event({0, 1}, 3, None)];
    assert {0, 1} - {} == {0, 1};
    assert {0, 1} - {0} == {1} && {0} - {0, 1} == {};
    assert 0 in {0, 1} && 1 in {0, 1};
    var a, b := run[..1], run[..2];
    assert a[..0] == [] && b[..1] == a;
    LastEvent(map[], a);
    PersistsWhenAdding(map[], {0, 1}, None);
    assert Loaded(After(map[], a)) == {0, 1};
    LastEvent(map[], b);
    PersistsWhenAdding(After(map[], a), {0}, None);
    assert Loaded(After(map[], b)) == {0, 1};
  }
}
