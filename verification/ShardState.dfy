/** Which node serves which shard: the index kept on contract events (storageContractState.ts) and its
    second inversion for a sync request (snodeInfoUtil.ts). */
module ShardState {
  import opened Bytes
  import BitUtil

  type Assignment = map<Bytes, set<nat>>

  /** The shards of a node's mask. */
  function MaskShards(mask: int): set<nat> { set p: nat | p < 32 && BitUtil.Bit(mask % TWO_32, p) }

  /** A mask gives a node the shards that its binary digits name, below 32. */
  lemma MaskIff(mask: int, s: nat)
    ensures s in MaskShards(mask) <==> s < 32 && (mask % 0x1_0000_0000) / BitUtil.Pow2(s) % 2 == 1
  {
    BitUtil.ShiftDivides(mask % TWO_32, s);
  }

  /** The listed nodes get the shards of their masks; all others keep what they had. */
  function Reassigned(m: Assignment, nodes: seq<Bytes>, maskOf: Bytes -> int): Assignment {
    if nodes == [] then
      m
    else
      Reassigned(m, nodes[..|nodes| - 1], maskOf)[nodes[|nodes| - 1] := MaskShards(maskOf(nodes[|nodes| - 1]))]
  }

  function ShardsIn(m: Assignment): set<nat> { set n, s | n in m && s in m[n] :: s }

  /** Shard to nodes, without empty entries. */
  function Inverse(m: Assignment): map<nat, set<Bytes>> {
    map s | s in ShardsIn(m) :: set n | n in m && s in m[n]
  }

  /** What remains of the assignment for the nodes other than `self`, within the shards `wanted`. */
  function Serving(m: Assignment, self: Bytes, wanted: set<nat>): Assignment {
    map n | n in m && n != self && m[n] * wanted != {} :: m[n] * wanted
  }

  lemma InverseIsExact(m: Assignment, s: nat, n: Bytes)
    ensures (s in Inverse(m) && n in Inverse(m)[s]) <==> (n in m && s in m[n])
    ensures s in Inverse(m) ==> Inverse(m)[s] != {}
  {
    if s in Inverse(m) {
      var k :| k in m && s in m[k];
      assert k in Inverse(m)[s];
    }
  }

  ghost predicate IsInverse(index: map<nat, set<Bytes>>, m: Assignment) {
    && (forall s: nat, n: Bytes :: (s in index && n in index[s]) <==> (n in m && s in m[n]))
    && (forall s | s in index :: index[s] != {})
  }

  /** An index with exactly the right pairs and no empty entry is the inverse: nothing else is stored. */
  lemma {:induction false} InverseIsUnique(index: map<nat, set<Bytes>>, m: Assignment)
    ensures IsInverse(index, m) <==> index == Inverse(m)
  {
    forall s: nat, n: Bytes ensures (s in Inverse(m) && n in Inverse(m)[s]) <==> (n in m && s in m[n]) {
      InverseIsExact(m, s, n);
    }
    forall s | s in Inverse(m) ensures Inverse(m)[s] != {} {
      var k :| k in m && s in m[k];
      InverseIsExact(m, s, k);
    }
    if IsInverse(index, m) {
      forall s ensures s in index <==> s in Inverse(m) {
        if s in index {
          var n :| n in index[s];
          assert n in m && s in m[n];
        }
        if s in Inverse(m) {
          var n :| n in Inverse(m)[s];
          assert s in index && n in index[s];
        }
      }
      forall s | s in index ensures index[s] == Inverse(m)[s] {
        assert forall n :: n in index[s] <==> n in m && s in m[n];
        assert forall n :: n in Inverse(m)[s] <==> n in m && s in m[n];
      }
    }
  }

  /** Two assignments with the same inverse differ at most in nodes that serve nothing. */
  lemma InverseLosesOnlyIdleNodes(a: Assignment, b: Assignment, n: Bytes)
    requires Inverse(a) == Inverse(b)
    ensures (if n in a then a[n] else {}) == (if n in b then b[n] else {})
  {
    forall s: nat ensures (n in a && s in a[n]) <==> (n in b && s in b[n]) {
      InverseIsExact(a, s, n);
      InverseIsExact(b, s, n);
    }
  }

  // ---------- over a run of events ----------

  datatype Event = Event(nodes: seq<Bytes>, maskOf: Bytes -> int)

  function AfterEvents(m: Assignment, events: seq<Event>): Assignment {
    if events == [] then
      m
    else
      var last := events[|events| - 1];
      Reassigned(AfterEvents(m, events[..|events| - 1]), last.nodes, last.maskOf)
  }

  /** The last event that lists the node, if any. */
  function LastListing(n: Bytes, events: seq<Event>): Option<Event> {
    if events == [] then None
    else if n in events[|events| - 1].nodes then Some(events[|events| - 1])
    else LastListing(n, events[..|events| - 1])
  }

  lemma {:induction false} ReassignedAt(m: Assignment, nodes: seq<Bytes>, maskOf: Bytes -> int, n: Bytes)
    ensures (var r := Reassigned(m, nodes, maskOf);
      if n in nodes then n in r && r[n] == MaskShards(maskOf(n))
      else (n in r <==> n in m) && (n in m ==> r[n] == m[n]))
  {
    if nodes != [] {
      ReassignedAt(m, nodes[..|nodes| - 1], maskOf, n);
    }
  }

  /** After any sequence of events a node serves the shards of the mask last announced for it. */
  lemma {:induction false} LastMaskWins(m: Assignment, events: seq<Event>, n: Bytes)
    ensures var r := AfterEvents(m, events);
      match LastListing(n, events)
      case Some(e) => n in r && r[n] == MaskShards(e.maskOf(n))
      case None => (n in r <==> n in m) && (n in m ==> r[n] == m[n])
  {
    if events != [] {
      var last := events[|events| - 1];
      LastMaskWins(m, events[..|events| - 1], n);
      ReassignedAt(AfterEvents(m, events[..|events| - 1]), last.nodes, last.maskOf, n);
    }
  }

  // ---------- the state object ----------

  datatype Reloaded = Notified(shards: Option<set<nat>>) | CheckFailed

  class StorageContractState {
    var nodeShardMap: Assignment
    var shardToNodesMap: map<nat, set<Bytes>>
    const nodeAddress: Bytes
    const useSigner: bool

    ghost predicate Valid()
      reads this
    {
      shardToNodesMap == Inverse(nodeShardMap)
    }

    constructor (nodeAddress: Bytes, useSigner: bool)
      ensures Valid() && nodeShardMap == map[]
      ensures this.nodeAddress == nodeAddress && this.useSigner == useSigner
    {
      nodeShardMap, shardToNodesMap := map[], map[];
      this.nodeAddress, this.useSigner := nodeAddress, useSigner;
    }

    /** The set handed to the reshard listener; the check on this node's own set throws when it is empty. */
    method ReloadEveryAddress(nodes: seq<Bytes>, maskOf: Bytes -> int) returns (r: Reloaded)
      modifies this
      ensures Valid()
      ensures nodeShardMap == Reassigned(old(nodeShardMap), nodes, maskOf)
      ensures r == if !useSigner then Notified(None)
        else if nodeAddress in nodeShardMap && nodeShardMap[nodeAddress] != {} then
          Notified(Some(nodeShardMap[nodeAddress]))
        else CheckFailed
    {
      for i := 0 to |nodes|
        invariant nodeShardMap == Reassigned(old(nodeShardMap), nodes[..i], maskOf)
      {
        var positions := BitUtil.BitsToPositions(maskOf(nodes[i]));
        var shardSet := set p | p in positions;
        assert shardSet == MaskShards(maskOf(nodes[i]));
        assert nodes[..i + 1][..i] == nodes[..i];
        nodeShardMap := nodeShardMap[nodes[i] := shardSet];
      }
      assert nodes[..|nodes|] == nodes;
      RebuildIndex();
      if !useSigner {
        return Notified(None);
      }
      if nodeAddress !in nodeShardMap || nodeShardMap[nodeAddress] == {} {
        return CheckFailed;
      }
      return Notified(Some(nodeShardMap[nodeAddress]));
    }

    method RebuildIndex()
      modifies this`shardToNodesMap
      ensures Valid()
    {
      shardToNodesMap := map[];
      var todo, done: set<Bytes> := nodeShardMap.Keys, {};
      while todo != {}
        invariant todo + done == nodeShardMap.Keys && todo !! done
        invariant shardToNodesMap == Inverse(Within(nodeShardMap, done))
        decreases todo
      {
        var nodeAddr :| nodeAddr in todo;
        AddNode(nodeAddr, done);
        todo, done := todo - {nodeAddr}, done + {nodeAddr};
      }
      assert Within(nodeShardMap, done) == nodeShardMap;
    }

    method AddNode(nodeAddr: Bytes, ghost done: set<Bytes>)
      requires nodeAddr in nodeShardMap && nodeAddr !in done
      requires shardToNodesMap == Inverse(Within(nodeShardMap, done))
      modifies this`shardToNodesMap
      ensures shardToNodesMap == Inverse(Within(nodeShardMap, done + {nodeAddr}))
    {
      var left, shards: set<nat> := nodeShardMap[nodeAddr], {};
      ghost var m := Within(nodeShardMap, done);
      InverseIsUnique(shardToNodesMap, m);
      while left != {}
        invariant left + shards == nodeShardMap[nodeAddr] && left !! shards
        invariant IsInverse(shardToNodesMap, m[nodeAddr := shards])
        decreases left
      {
        var shard :| shard in left;
        OneMoreShard(shardToNodesMap, m, nodeAddr, shards, shard);
        var nodes := if shard in shardToNodesMap then shardToNodesMap[shard] else {};
        shardToNodesMap := shardToNodesMap[shard := nodes + {nodeAddr}];
        left, shards := left - {shard}, shards + {shard};
      }
      InverseIsUnique(shardToNodesMap, m[nodeAddr := shards]);
      assert m[nodeAddr := shards] == Within(nodeShardMap, done + {nodeAddr});
    }

    /** An undefined entry is None. */
    method GetStorageNodesForShard(shard: nat) returns (nodes: Option<set<Bytes>>)
      requires Valid()
      ensures nodes.Some? <==> exists n | n in nodeShardMap :: shard in nodeShardMap[n]
      ensures nodes.Some? ==> (nodes.value != {} &&
        forall n :: n in nodes.value <==> n in nodeShardMap && shard in nodeShardMap[n])
    {
      if shard !in shardToNodesMap {
        return None;
      }
      ghost var k :| k in nodeShardMap && shard in nodeShardMap[k];
      assert k in shardToNodesMap[shard];
      return Some(shardToNodesMap[shard]);
    }
  }

  function Within(m: Assignment, nodes: set<Bytes>): Assignment { map n | n in m && n in nodes :: m[n] }

  lemma {:induction false} OneMoreShard(index: map<nat, set<Bytes>>, m: Assignment, n: Bytes, shards: set<nat>, s: nat)
    requires IsInverse(index, m[n := shards])
    ensures IsInverse(index[s := (if s in index then index[s] else {}) + {n}], m[n := shards + {s}])
  {
    var b, r := m[n := shards + {s}], index[s := (if s in index then index[s] else {}) + {n}];
    forall t: nat, k: Bytes ensures (t in r && k in r[t]) <==> (k in b && t in b[k]) {
      assert (t in index && k in index[t]) <==> (k in m[n := shards] && t in m[n := shards][k]);
    }
  }

  // ---------- the nodes to ask for the shards being added ----------

  class SNodeInfoUtil {
    var nodeIds: Assignment

    /** nodeIds becomes what every other node serves of the requested shards. */
    method GetNodeIdFromShardId(state: StorageContractState, requested: set<nat>)
      requires state.Valid()
      modifies this
      ensures nodeIds == Serving(state.nodeShardMap, state.nodeAddress, requested)
    {
      ghost var m, self := state.nodeShardMap, state.nodeAddress;
      nodeIds := map[];
      var todo, done: set<nat> := requested, {};
      while todo != {}
        invariant todo + done == requested && todo !! done
        invariant IsServing(nodeIds, m, self, done, 0, {})
        decreases todo
      {
        var shardId :| shardId in todo;
        var nodes := state.GetStorageNodesForShard(shardId);
        var left, seen: set<Bytes> := if nodes.Some? then nodes.value else {}, {};
        while left != {}
          invariant left !! seen
          invariant forall n :: n in left + seen <==> n in m && shardId in m[n]
          invariant IsServing(nodeIds, m, self, done, shardId, seen)
          decreases left
        {
          var node :| node in left;
          assert node in m && shardId in m[node];
          OneMoreNode(nodeIds, m, self, done, shardId, seen, node);
          if node != state.nodeAddress {
            if node in nodeIds {
              nodeIds := nodeIds[node := nodeIds[node] + {shardId}];
            } else {
              nodeIds := nodeIds[node := {shardId}];
            }
          }
          left, seen := left - {node}, seen + {node};
        }
        todo, done := todo - {shardId}, done + {shardId};
      }
      ServingIsUnique(nodeIds, m, self, requested);
    }
  }

  // The pairs for the shards in `done`, and those of shard s for the nodes in `seen`.
  ghost predicate IsServing(ids: Assignment, m: Assignment, self: Bytes, done: set<nat>, s: nat, seen: set<Bytes>) {
    && (forall n: Bytes, t: nat :: (n in ids && t in ids[n]) <==>
         (n in m && n != self && t in m[n] && (t in done || (t == s && n in seen))))
    && (forall n | n in ids :: ids[n] != {})
  }

  lemma {:induction false} OneMoreNode(ids: Assignment, m: Assignment, self: Bytes, done: set<nat>, s: nat,
    seen: set<Bytes>, node: Bytes)
    requires node in m && s in m[node] && IsServing(ids, m, self, done, s, seen)
    ensures (var next := if node == self then ids
        else ids[node := (if node in ids then ids[node] else {}) + {s}];
      IsServing(next, m, self, done, s, seen + {node}))
  {
    var next := if node == self then ids else ids[node := (if node in ids then ids[node] else {}) + {s}];
    forall n: Bytes, t: nat
      ensures (n in next && t in next[n]) <==>
        (n in m && n != self && t in m[n] && (t in done || (t == s && n in seen + {node})))
    {
      assert (n in ids && t in ids[n]) <==>
        (n in m && n != self && t in m[n] && (t in done || (t == s && n in seen)));
    }
  }

  lemma {:induction false} ServingIsUnique(ids: Assignment, m: Assignment, self: Bytes, wanted: set<nat>)
    requires IsServing(ids, m, self, wanted, 0, {})
    ensures ids == Serving(m, self, wanted)
  {
    var r := Serving(m, self, wanted);
    forall n: Bytes, t: nat ensures (n in ids && t in ids[n]) <==> (n in r && t in r[n]) {
      ServingPair(m, self, wanted, n, t);
      AskedPair(ids, m, self, wanted, n, t);
    }
    assert forall n | n in r :: r[n] != {};
    SamePairs(ids, r);
  }

  lemma ServingPair(m: Assignment, self: Bytes, wanted: set<nat>, n: Bytes, t: nat)
    ensures (var r := Serving(m, self, wanted);
      (n in r && t in r[n]) <==> (n in m && n != self && t in m[n] && t in wanted))
  {
    if n in m && n != self && t in m[n] && t in wanted {
      assert t in m[n] * wanted;
    }
  }

  lemma AskedPair(ids: Assignment, m: Assignment, self: Bytes, wanted: set<nat>, n: Bytes, t: nat)
    requires IsServing(ids, m, self, wanted, 0, {})
    ensures (n in ids && t in ids[n]) <==> (n in m && n != self && t in m[n] && t in wanted)
  {
  }

  lemma {:induction false} SamePairs(a: Assignment, b: Assignment)
    requires forall n: Bytes, t: nat :: (n in a && t in a[n]) <==> (n in b && t in b[n])
    requires (forall n | n in a :: a[n] != {}) && (forall n | n in b :: b[n] != {})
    ensures a == b
  {
    forall n: Bytes ensures n in a ==> (n in b && a[n] <= b[n]) {
      if n in a {
        var t: nat :| t in a[n];
      }
    }
    forall n: Bytes ensures n in b ==> (n in a && b[n] <= a[n]) {
      if n in b {
        var t: nat :| t in b[n];
      }
    }
    assert a.Keys == b.Keys;
    forall n | n in a ensures a[n] == b[n] {
      assert n in b;
    }
  }

  /** The second inversion asks a node for a shard exactly when it serves it, and never asks itself. */
  lemma ServingIsExact(m: Assignment, self: Bytes, requested: set<nat>, n: Bytes, s: nat)
    ensures var ids := Serving(m, self, requested);
      && ((n in ids && s in ids[n]) <==> (n != self && s in requested && s in Inverse(m) && n in Inverse(m)[s]))
      && (n in ids ==> ids[n] != {})
  {
    InverseIsExact(m, s, n);
    if n in m && s in m[n] && s in requested { assert s in m[n] * requested; }
  }
}
