/** Which shards a block touches (blockUtil.ts), and the inbox rows a node writes for it (IndexStorage.ts,
    putValueInStorageTable of dbHelper.ts). */
module Inbox {
  import opened Bytes
  import opened Messages
  import opened Crypto
  import opened TxChecks
  import BitUtil

  // ---------- shards ----------

  datatype ShardR = Null | Shard(id: nat) | Throws

  function ShardOf(c: Scheme, wallet: Bytes, shardCount: nat): (r: ShardR)
    ensures r.Shard? ==> r.id < shardCount
  {
    if wallet == [] then
      Null
    else
      match ParseCaip(wallet)
      case None => Throws
      case Some(caip) =>
        if Utf16Length(caip.addr) <= 4 then
          Null
        else
          var sha := c.sha256(WithoutHexPrefix(caip.addr));
          if sha == [] || shardCount == 0 then Throws else Shard(sha[0] % shardCount)
  }

  /** Wallets with one address, with or without 0x and on any chain, share a shard exactly when their lengths lie
      on the same side of the limit, which counts the prefix. */
  lemma {:induction false} ShardFollowsAddress(c: Scheme, a: Bytes, b: Bytes, shardCount: nat)
    requires ParseCaip(a).Some? && ParseCaip(b).Some?
    requires WithoutHexPrefix(ParseCaip(a).value.addr) == WithoutHexPrefix(ParseCaip(b).value.addr)
    ensures ShardOf(c, a, shardCount) == ShardOf(c, b, shardCount) <==>
      (Utf16Length(ParseCaip(a).value.addr) <= 4 <==> Utf16Length(ParseCaip(b).value.addr) <= 4)
  {
    EmptyIsNoAddress();
    hide ParseCaip, WithoutHexPrefix, Utf16Length;
  }

  lemma EmptyIsNoAddress()
    ensures ParseCaip([]).None?
  {
  }

  /** The shard of an address is the first byte of the SHA-256 of its last part without 0x, modulo the number of shards.
      A short address has none, and a wallet that is neither empty nor an address makes the calculation throw. */
  lemma {:induction false} ShardOfIff(c: Scheme, wallet: Bytes, shardCount: nat)
    ensures wallet == [] ==> ShardOf(c, wallet, shardCount) == Null
    ensures wallet != [] && (forall ns, chain, addr :: !Address(wallet, ns, chain, addr)) ==>
      ShardOf(c, wallet, shardCount) == Throws
    ensures forall ns, chain, addr | Address(wallet, ns, chain, addr) ::
      (var sha := c.sha256(if |addr| >= 2 && addr[0] == 48 && addr[1] == 120 then addr[2..] else addr);
       ShardOf(c, wallet, shardCount) ==
         if Utf16Length(addr) <= 4 then Null
         else if |sha| > 0 && shardCount > 0 then Shard(sha[0] % shardCount)
         else Throws)
  {
    EmptyIsNoAddress();
    hide ParseCaip, Utf16Length, Address, WithoutHexPrefix;
    if ParseCaip(wallet).Some? {
      var p := ParseCaip(wallet).value;
      ParseCaipIff(wallet, p.namespace, p.chainId, p.addr);
    }
    forall ns, chain, addr | Address(wallet, ns, chain, addr)
      ensures ParseCaip(wallet) == Some(Caip(ns, chain, addr))
      ensures WithoutHexPrefix(addr) == if |addr| >= 2 && addr[0] == 48 && addr[1] == 120 then addr[2..] else addr
    {
      ParseCaipIff(wallet, ns, chain, addr);
      WithoutPrefixIs(addr);
    }
  }

  // The order of calculateAffectedShardsTx; calculateRecipients puts the sender last.
  function SenderFirst(tx: Transaction): seq<Bytes> { [tx.sender] + tx.recipients }

  function SenderLast(tx: Transaction): seq<Bytes> { tx.recipients + [tx.sender] }

  /** The transaction touches the shard. */
  ghost predicate Touches(c: Scheme, tx: Transaction, shardCount: nat, s: nat) {
    if tx.category == INIT_DID then
      s < shardCount
    else
      exists k :: 0 <= k < |SenderFirst(tx)| && ShardOf(c, SenderFirst(tx)[k], shardCount) == Shard(s)
  }

  /** None of the wallets looked at makes the calculation throw. */
  ghost predicate TxShardsDefined(c: Scheme, tx: Transaction, shardCount: nat) {
    tx.category == INIT_DID
    || forall k | 0 <= k < |SenderFirst(tx)| :: ShardOf(c, SenderFirst(tx)[k], shardCount) != Throws
  }

  /** Adds to the set it is given; None when it throws. */
  method CalculateAffectedShardsTx(c: Scheme, tx: Transaction, shardCount: nat, shards: set<nat>)
    returns (r: Option<set<nat>>)
    ensures r.Some? <==> TxShardsDefined(c, tx, shardCount)
    ensures r.Some? ==> forall s: nat :: s in r.value <==> s in shards || Touches(c, tx, shardCount, s)
  {
    hide ShardOf;
    var all: set<nat> := shards;
    if tx.category == INIT_DID {
      for i := 0 to shardCount
        invariant forall s: nat :: s in all <==> s in shards || s < i
      {
        all := all + {i};
      }
      return Some(all);
    }
    var wallets := SenderFirst(tx);
    for k := 0 to |wallets|
      invariant forall j | 0 <= j < k :: ShardOf(c, wallets[j], shardCount) != Throws
      invariant forall s: nat :: s in all <==>
        s in shards || exists j :: 0 <= j < k && ShardOf(c, wallets[j], shardCount) == Shard(s)
    {
      match ShardOf(c, wallets[k], shardCount) {
        case Throws => return None;
        case Null =>
        case Shard(id) => all := all + {id};
      }
    }
    return Some(all);
  }

  /** None when a transaction is missing or one of its wallets cannot be placed. */
  method CalculateAffectedShards(c: Scheme, b: Block, shardCount: nat) returns (r: Option<set<nat>>)
    ensures r.Some? <==>
      forall i | 0 <= i < |b.txObjs| :: b.txObjs[i].tx.Some? && TxShardsDefined(c, b.txObjs[i].tx.value, shardCount)
    ensures r.Some? ==> IsAffected(c, b, shardCount, r.value)
  {
    hide TxShardsDefined, Touches;
    var shards: set<nat> := {};
    for i := 0 to |b.txObjs|
      invariant forall j | 0 <= j < i :: b.txObjs[j].tx.Some? && TxShardsDefined(c, b.txObjs[j].tx.value, shardCount)
      invariant forall s: nat :: s in shards <==>
        exists j :: 0 <= j < i && b.txObjs[j].tx.Some? && Touches(c, b.txObjs[j].tx.value, shardCount, s)
    {
      if b.txObjs[i].tx.None? {
        return None;
      }
      var more := CalculateAffectedShardsTx(c, b.txObjs[i].tx.value, shardCount, shards);
      if more.None? {
        return None;
      }
      shards := more.value;
    }
    return Some(shards);
  }

  /** The shards of a block are those its transactions touch. */
  ghost predicate IsAffected(c: Scheme, b: Block, shardCount: nat, shards: set<nat>) {
    forall s: nat :: s in shards <==> BlockTouches(c, b, shardCount, s)
  }

  ghost predicate BlockTouches(c: Scheme, b: Block, shardCount: nat, s: nat) {
    exists i :: 0 <= i < |b.txObjs| && b.txObjs[i].tx.Some? && Touches(c, b.txObjs[i].tx.value, shardCount, s)
  }

  ghost function AffectedShards(c: Scheme, b: Block, shardCount: nat): set<nat> {
    set s: nat | s < shardCount && BlockTouches(c, b, shardCount, s)
  }

  lemma AffectedIsUnique(c: Scheme, b: Block, shardCount: nat, shards: set<nat>)
    ensures IsAffected(c, b, shardCount, shards) <==> shards == AffectedShards(c, b, shardCount)
  {
    forall i, s: nat | 0 <= i < |b.txObjs| && b.txObjs[i].tx.Some? && Touches(c, b.txObjs[i].tx.value, shardCount, s)
      ensures s < shardCount
    {
    }
  }

  /** The wallet sends the transaction or is one of its recipients. */
  predicate IsParty(tx: Transaction, wallet: Bytes) { wallet == tx.sender || wallet in tx.recipients }

  /** A block's shards are those of its transactions' senders and recipients, and for INIT_DID all shards. */
  lemma {:induction false} AffectedIff(c: Scheme, b: Block, shardCount: nat, s: nat)
    ensures s in AffectedShards(c, b, shardCount) <==>
      exists i :: 0 <= i < |b.txObjs| && b.txObjs[i].tx.Some? && TxAffects(c, b.txObjs[i].tx.value, shardCount, s)
  {
    hide ShardOf;
    forall i | 0 <= i < |b.txObjs| && b.txObjs[i].tx.Some?
      ensures Touches(c, b.txObjs[i].tx.value, shardCount, s) <==> TxAffects(c, b.txObjs[i].tx.value, shardCount, s)
    {
      TouchesIff(c, b.txObjs[i].tx.value, shardCount, s);
    }
    AffectedIsUnique(c, b, shardCount, AffectedShards(c, b, shardCount));
  }

  ghost predicate TxAffects(c: Scheme, tx: Transaction, shardCount: nat, s: nat) {
    if tx.category == [73, 78, 73, 84, 95, 68, 73, 68] then                             // INIT_DID
      s < shardCount
    else
      exists wallet: Bytes :: IsParty(tx, wallet) && ShardOf(c, wallet, shardCount) == Shard(s)
  }

  lemma TouchesIff(c: Scheme, tx: Transaction, shardCount: nat, s: nat)
    ensures Touches(c, tx, shardCount, s) <==> TxAffects(c, tx, shardCount, s)
    ensures TxShardsDefined(c, tx, shardCount) <==> (tx.category == [73, 78, 73, 84, 95, 68, 73, 68] ||
      forall wallet: Bytes | IsParty(tx, wallet) :: ShardOf(c, wallet, shardCount) != Throws)
  {
    hide ShardOf;
    var ws := SenderFirst(tx);
    forall k | 0 <= k < |ws| ensures IsParty(tx, ws[k]) {
    }
    forall wallet: Bytes | IsParty(tx, wallet) ensures wallet in ws {
      if wallet != tx.sender {
        var k :| 0 <= k < |tx.recipients| && tx.recipients[k] == wallet;
        assert ws[k + 1] == wallet;
      } else {
        assert ws[0] == wallet;
      }
    }
  }

  // ---------- what one block delivers ----------

  datatype InboxKey = InboxKey(category: Bytes, shard: nat, wallet: Bytes, txHash: Bytes)

  datatype Payload = Payload(
    txType: nat, category: Bytes, sender: Bytes, recipients: seq<Bytes>, dataHex: Bytes, hash: Bytes)

  datatype Row = Row(ts: nat, payload: Payload)

  type Inboxes = map<InboxKey, Row>

  /** One recipient or sender of one transaction; NoTx where the transaction is missing. */
  datatype Delivery = Delivery(tx: Transaction, wallet: Bytes) | NoTx

  datatype Action = Skip | Put(key: InboxKey) | Refuse

  /** How the statements of one upsert end: the insert itself may fail, or the indexing of an INIT_DID
      transaction after it, which reads the transaction's data and writes the key tables. */
  datatype PutOutcome = Fine | InsertFails | IndexingFails

  /** `outcome(k)` is how the upsert of delivery k ends, if there is one. */
  datatype Placement = Placement(
    c: Scheme, shardCount: nat, shardsToProcess: set<nat>, outcome: nat -> PutOutcome)
  {
    function TxHash(tx: Transaction): Bytes { BitUtil.BytesToBase16(c.sha256(c.txBytes(tx))) }

    function PayloadOf(tx: Transaction): Payload {
      Payload(tx.txType, tx.category, tx.sender, tx.recipients, BitUtil.BytesToBase16(tx.data), TxHash(tx))
    }

    function KeyOf(d: Delivery, shard: nat): InboxKey
      requires d.Delivery?
    {
      InboxKey(d.tx.category, shard, d.wallet, TxHash(d.tx))
    }

    /** A wallet without a shard is skipped, unless no shard is filtered: then the insert of a null shard fails. */
    function ActionOf(d: Delivery): Action {
      if d.NoTx? then
        Refuse
      else
        match ShardOf(c, d.wallet, shardCount)
        case Throws => Refuse
        case Null => if shardsToProcess == {} then Refuse else Skip
        case Shard(s) => if shardsToProcess != {} && s !in shardsToProcess then Skip else Put(KeyOf(d, s))
    }

    /** The upsert: a new row gets the block's time, an existing one keeps its own. */
    function Upserted(m: Inboxes, ts: nat, key: InboxKey, tx: Transaction): Inboxes {
      m[key := Row(if key in m then m[key].ts else ts, PayloadOf(tx))]
    }

    /** The row of delivery k is written, and nothing throws after it. */
    predicate PutWorks(tx: Transaction, k: nat) {
      outcome(k) == Fine || (outcome(k) == IndexingFails && tx.category != INIT_DID)
    }

    function Step(state: (Inboxes, bool), ts: nat, d: Delivery, k: nat): (Inboxes, bool) {
      if !state.1 then
        state
      else
        match ActionOf(d)
        case Refuse => (state.0, false)
        case Skip => state
        case Put(key) =>
          (if outcome(k) == InsertFails then state.0 else Upserted(state.0, ts, key, d.tx), PutWorks(d.tx, k))
    }

    /** The table and whether no delivery failed; the first failure ends the unpacking. */
    function Unpacked(m: Inboxes, ts: nat, ds: seq<Delivery>): (Inboxes, bool) {
      if ds == [] then
        (m, true)
      else
        Step(Unpacked(m, ts, ds[..|ds| - 1]), ts, ds[|ds| - 1], |ds| - 1)
    }

    /** Delivery k does not throw. */
    predicate Delivers(d: Delivery, k: nat) {
      ActionOf(d) != Refuse && (ActionOf(d).Put? ==> PutWorks(d.tx, k))
    }
  }

  function DeliveriesOf(o: TransactionObj): seq<Delivery> {
    match o.tx
    case None => [NoTx]
    case Some(tx) => seq(|SenderLast(tx)|, k requires 0 <= k < |SenderLast(tx)| => Delivery(tx, SenderLast(tx)[k]))
  }

  function Deliveries(os: seq<TransactionObj>): seq<Delivery> {
    if os == [] then [] else Deliveries(os[..|os| - 1]) + DeliveriesOf(os[|os| - 1])
  }

  class IndexStorage {
    const c: Scheme
    const shardCount: nat
    var nodeShards: set<nat>
    var inboxes: Inboxes

    constructor (c: Scheme, shardCount: nat, nodeShards: set<nat>)
      ensures this.c == c && this.shardCount == shardCount && this.nodeShards == nodeShards && inboxes == map[]
    {
      this.c, this.shardCount, this.nodeShards, inboxes := c, shardCount, nodeShards, map[];
    }

    /** False when it throws; a node with no shards throws before anything is written. */
    method UnpackBlockToInboxes(mb: Block, shardSet: set<nat>, outcome: nat -> PutOutcome) returns (ok: bool)
      modifies this`inboxes
      ensures nodeShards == {} ==> !ok && inboxes == old(inboxes)
      ensures nodeShards != {} ==>
        (var p := Placement(c, shardCount, shardSet * nodeShards, outcome);
         (inboxes, ok) == p.Unpacked(old(inboxes), mb.ts, Deliveries(mb.txObjs)))
    {
      hide ShardOf, DeliveriesOf, Placement.Step, Placement.Upserted, Placement.ActionOf;
      if nodeShards == {} {
        return false;
      }
      var shardsToProcess := shardSet * nodeShards;
      var p := Placement(c, shardCount, shardsToProcess, outcome);
      ghost var was := inboxes;
      var count := 0;
      for i := 0 to |mb.txObjs|
        invariant (inboxes, true) == p.Unpacked(was, mb.ts, Deliveries(mb.txObjs[..i]))
        invariant count == |Deliveries(mb.txObjs[..i])|
      {
        var delivered := UnpackTx(p, mb.txObjs[i], mb.ts, count, was, Deliveries(mb.txObjs[..i]));
        OneMoreTx(mb.txObjs, i);
        if !delivered {
          FailedPrefix(p, was, mb.ts, Deliveries(mb.txObjs[..i + 1]), Deliveries(mb.txObjs[i + 1..]));
          return false;
        }
        count := count + |DeliveriesOf(mb.txObjs[i])|;
      }
      assert mb.txObjs[..|mb.txObjs|] == mb.txObjs;
      return true;
    }

    /** One turn of the outer loop, after the deliveries `done`. */
    method UnpackTx(p: Placement, feedItem: TransactionObj, ts: nat, count: nat,
        ghost was: Inboxes, ghost done: seq<Delivery>)
      returns (ok: bool)
      requires p.c == c && p.shardCount == shardCount && count == |done|
      requires (inboxes, true) == p.Unpacked(was, ts, done)
      modifies this`inboxes
      ensures (inboxes, ok) == p.Unpacked(was, ts, done + DeliveriesOf(feedItem))
    {
      hide ShardOf, p.Unpacked, p.Upserted, p.PayloadOf, p.TxHash;
      ghost var here := DeliveriesOf(feedItem);
      assert done + here[..0] == done;
      if feedItem.tx.None? {
        OneMoreDelivery(p, was, ts, done, here, 0);
        return false;
      }
      var targetWallets := SenderLast(feedItem.tx.value);
      for i1 := 0 to |targetWallets|
        invariant (inboxes, true) == p.Unpacked(was, ts, done + here[..i1])
      {
        var targetAddr := targetWallets[i1];
        assert here[i1] == Delivery(feedItem.tx.value, targetAddr);
        OneMoreDelivery(p, was, ts, done, here, i1);
        match ShardOf(c, targetAddr, shardCount) {
          case Throws =>
            return false;
          case Null =>
            if p.shardsToProcess == {} {
              return false;
            }
          case Shard(targetShard) =>
            if p.shardsToProcess == {} || targetShard in p.shardsToProcess {
              var put := PutPayloadToInbox(p, targetShard, feedItem.tx.value, targetAddr, ts, count + i1);
              if !put {
                return false;
              }
            }
        }
      }
      assert here[..|here|] == here;
      return true;
    }

    /** Upserts the row of delivery k, then indexes it; false when one of the two throws. */
    method PutPayloadToInbox(p: Placement, shard: nat, tx: Transaction, wallet: Bytes, ts: nat, k: nat)
      returns (ok: bool)
      modifies this`inboxes
      ensures ok == p.PutWorks(tx, k)
      ensures inboxes == if p.outcome(k) == InsertFails then old(inboxes)
        else p.Upserted(old(inboxes), ts, p.KeyOf(Delivery(tx, wallet), shard), tx)
    {
      if p.outcome(k) == InsertFails {
        return false;
      }
      var key := InboxKey(tx.category, shard, wallet, BitUtil.BytesToBase16(p.c.sha256(p.c.txBytes(tx))));
      if key in inboxes {
        inboxes := inboxes[key := inboxes[key].(payload := p.PayloadOf(tx))];
      } else {
        inboxes := inboxes[key := Row(ts, p.PayloadOf(tx))];
      }
      return tx.category != INIT_DID || p.outcome(k) != IndexingFails;
    }
  }

  lemma {:induction false} FailedPrefix(p: Placement, m: Inboxes, ts: nat, a: seq<Delivery>, b: seq<Delivery>)
    requires !p.Unpacked(m, ts, a).1
    ensures p.Unpacked(m, ts, a + b) == p.Unpacked(m, ts, a)
  {
    if b == [] {
      assert a + b == a;
    } else {
      assert (a + b)[..|a + b| - 1] == a + b[..|b| - 1];
      FailedPrefix(p, m, ts, a, b[..|b| - 1]);
    }
  }

  lemma {:induction false} DeliveriesSplit(a: seq<TransactionObj>, b: seq<TransactionObj>)
    ensures Deliveries(a + b) == Deliveries(a) + Deliveries(b)
  {
    hide DeliveriesOf;
    if b == [] {
      assert a + b == a;
    } else {
      assert (a + b)[..|a + b| - 1] == a + b[..|b| - 1];
      DeliveriesSplit(a, b[..|b| - 1]);
    }
  }

  lemma {:induction false} OneMoreTx(os: seq<TransactionObj>, i: nat)
    requires i < |os|
    ensures Deliveries(os[..i + 1]) == Deliveries(os[..i]) + DeliveriesOf(os[i])
    ensures Deliveries(os) == Deliveries(os[..i + 1]) + Deliveries(os[i + 1..])
  {
    assert os[..i + 1][..i] == os[..i];
    assert os == os[..i + 1] + os[i + 1..];
    DeliveriesSplit(os[..i + 1], os[i + 1..]);
  }

  // After delivery k of an object; if it fails, the rest of the object changes nothing.
  lemma {:induction false} OneMoreDelivery(
      p: Placement, m: Inboxes, ts: nat, done: seq<Delivery>, here: seq<Delivery>, k: nat)
    requires k < |here|
    ensures p.Unpacked(m, ts, done + here[..k + 1]) ==
      p.Step(p.Unpacked(m, ts, done + here[..k]), ts, here[k], |done| + k)
    ensures (var r := p.Unpacked(m, ts, done + here[..k + 1]);
      !r.1 ==> p.Unpacked(m, ts, done + here) == r)
  {
    var head := done + here[..k + 1];
    assert head[..|head| - 1] == done + here[..k];
    if !p.Unpacked(m, ts, head).1 {
      assert done + here == head + here[k + 1..];
      FailedPrefix(p, m, ts, head, here[k + 1..]);
    }
  }

  // ---------- what the rows are ----------

  ghost predicate Writes(p: Placement, d: Delivery, key: InboxKey) { p.ActionOf(d) == Put(key) }

  /** The last delivery that writes the key. */
  ghost function LastFor(p: Placement, ds: seq<Delivery>, key: InboxKey): Option<Delivery> {
    if ds == [] then None
    else if Writes(p, ds[|ds| - 1], key) then Some(ds[|ds| - 1])
    else LastFor(p, ds[..|ds| - 1], key)
  }

  lemma StepRow(p: Placement, s: (Inboxes, bool), ts: nat, d: Delivery, k: nat, key: InboxKey)
    requires p.Step(s, ts, d, k).1
    ensures s.1
    ensures (var r := p.Step(s, ts, d, k).0;
      if Writes(p, d, key) then
        key in r && r[key] == Row(if key in s.0 then s.0[key].ts else ts, p.PayloadOf(d.tx))
      else
        (key in r <==> key in s.0) && (key in r ==> r[key] == s.0[key]))
  {
    hide ShardOf, p.PayloadOf;
  }

  /** Every row after unpacking: written by the last delivery for its key, at its old time if it was there
      before; all other rows are as they were. */
  lemma {:induction false} UnpackedRow(p: Placement, m: Inboxes, ts: nat, ds: seq<Delivery>, key: InboxKey)
    requires p.Unpacked(m, ts, ds).1
    ensures (var r := p.Unpacked(m, ts, ds).0;
      match LastFor(p, ds, key)
      case None => (key in r <==> key in m) && (key in m ==> r[key] == m[key])
      case Some(d) =>
        d in ds && Writes(p, d, key) && key in r
        && r[key] == Row(if key in m then m[key].ts else ts, p.PayloadOf(d.tx)))
  {
    hide p.Step, p.PayloadOf, Writes;
    if ds != [] {
      var n := |ds| - 1;
      StepRow(p, p.Unpacked(m, ts, ds[..n]), ts, ds[n], n, key);
      UnpackedRow(p, m, ts, ds[..n], key);
      assert ds == ds[..n] + [ds[n]];
    }
  }

  lemma {:induction false} LastForFinds(p: Placement, ds: seq<Delivery>, key: InboxKey)
    ensures LastFor(p, ds, key).Some? <==> exists k :: 0 <= k < |ds| && Writes(p, ds[k], key)
  {
    hide Writes;
    if ds != [] {
      var rest := ds[..|ds| - 1];
      LastForFinds(p, rest, key);
      assert forall k | 0 <= k < |rest| :: rest[k] == ds[k];
    }
  }

  /** Unpacking throws exactly when some delivery is refused, or its insert fails, or it is of an INIT_DID
      transaction and its indexing fails. */
  lemma {:induction false} UnpackSucceedsIff(p: Placement, m: Inboxes, ts: nat, ds: seq<Delivery>)
    ensures p.Unpacked(m, ts, ds).1 <==> forall k | 0 <= k < |ds| :: p.Delivers(ds[k], k)
  {
    hide p.ActionOf, p.PutWorks;
    if ds != [] {
      var rest := ds[..|ds| - 1];
      UnpackSucceedsIff(p, m, ts, rest);
      assert forall k | 0 <= k < |rest| :: rest[k] == ds[k];
    }
  }

  /** Thrown or not: a row that is new or changed is one some delivery writes, and a row keeps its time. */
  lemma {:induction false} OnlyDeliveriesWrite(p: Placement, m: Inboxes, ts: nat, ds: seq<Delivery>, key: InboxKey)
    ensures (var r := p.Unpacked(m, ts, ds).0;
      && (key in m ==> key in r && r[key].ts == m[key].ts)
      && (key in r && (key !in m || r[key] != m[key]) ==> LastFor(p, ds, key).Some?))
  {
    if ds != [] {
      OnlyDeliveriesWrite(p, m, ts, ds[..|ds| - 1], key);
    }
  }

  /** Thrown or not: a row there afterwards is as it was, or holds the transaction of a delivery that writes it. */
  lemma {:induction false} WrittenPayload(p: Placement, m: Inboxes, ts: nat, ds: seq<Delivery>, key: InboxKey)
    ensures (var r := p.Unpacked(m, ts, ds).0;
      && (key in m ==> key in r)
      && (key in r ==>
           (|| (key in m && r[key] == m[key])
            || exists d :: d in ds && Writes(p, d, key) && r[key].payload == p.PayloadOf(d.tx))))
  {
    if ds != [] {
      var rest, last := ds[..|ds| - 1], ds[|ds| - 1];
      WrittenPayload(p, m, ts, rest, key);
      assert ds == rest + [last];
      var before, after := p.Unpacked(m, ts, rest).0, p.Unpacked(m, ts, ds).0;
      if key in after && (key !in before || after[key] != before[key]) {
        assert Writes(p, last, key) && after[key].payload == p.PayloadOf(last.tx);
      } else if key in before && !(key in m && before[key] == m[key]) {
        var d :| d in rest && Writes(p, d, key) && before[key].payload == p.PayloadOf(d.tx);
        assert d in ds;
      }
    }
  }

  lemma PayloadStays(p: Placement, m: Inboxes, ts: nat, ds: seq<Delivery>, key: InboxKey, tx: Transaction)
    requires p.c.CollisionFree() && p.c.Injective()
    requires key in m && m[key].payload == p.PayloadOf(tx) && key.txHash == p.TxHash(tx)
    ensures (var r := p.Unpacked(m, ts, ds).0; key in r && r[key].payload == p.PayloadOf(tx))
  {
    hide ShardOf, p.Unpacked, p.PayloadOf;
    WrittenPayload(p, m, ts, ds, key);
    var r := p.Unpacked(m, ts, ds).0;
    if r[key] != m[key] {
      var d :| d in ds && Writes(p, d, key) && r[key].payload == p.PayloadOf(d.tx);
      SameHashSameTx(p.c, d.tx, tx);
    }
  }

  /** Delivering the same block again changes nothing, if nothing fails the second time either. */
  lemma {:induction false} UnpackTwice(
      p: Placement, again: nat -> PutOutcome, m: Inboxes, ts: nat, ds: seq<Delivery>)
    requires p.Unpacked(m, ts, ds).1 && p.(outcome := again).Unpacked(p.Unpacked(m, ts, ds).0, ts, ds).1
    ensures p.(outcome := again).Unpacked(p.Unpacked(m, ts, ds).0, ts, ds) == p.Unpacked(m, ts, ds)
  {
    hide p.Unpacked;
    var q := p.(outcome := again);
    var once := p.Unpacked(m, ts, ds).0;
    var twice := q.Unpacked(once, ts, ds).0;
    forall key: InboxKey ensures (key in once <==> key in twice) && (key in once ==> once[key] == twice[key]) {
      UnpackedRow(p, m, ts, ds, key);
      UnpackedRow(q, once, ts, ds, key);
      SameLastFor(p, q, ds, key);
    }
    assert once == twice;
  }

  lemma {:induction false} SameLastFor(p: Placement, q: Placement, ds: seq<Delivery>, key: InboxKey)
    requires q == p.(outcome := q.outcome)
    ensures LastFor(p, ds, key) == LastFor(q, ds, key)
    ensures forall tx :: p.PayloadOf(tx) == q.PayloadOf(tx)
  {
    if ds != [] {
      SameLastFor(p, q, ds[..|ds| - 1], key);
    }
  }

  // ---------- placement agrees with the block's shards ----------

  /** A transaction is delivered to its recipients in their order, then to its sender. */
  lemma {:induction false} DeliveriesOfOne(o: TransactionObj)
    ensures o.tx.None? ==> Deliveries([o]) == [NoTx]
    ensures o.tx.Some? ==>
      (var tx, ds := o.tx.value, Deliveries([o]);
       && |ds| == |tx.recipients| + 1 && ds[|tx.recipients|] == Delivery(tx, tx.sender)
       && forall k | 0 <= k < |tx.recipients| :: ds[k] == Delivery(tx, tx.recipients[k]))
  {
    assert [o][..0] == [];
    assert Deliveries([o]) == [] + DeliveriesOf(o);
  }

  /** A wallet is delivered a transaction iff the block holds the transaction and the wallet sends or receives it. */
  lemma {:induction false} DeliveredIff(os: seq<TransactionObj>, tx: Transaction, wallet: Bytes)
    ensures Delivery(tx, wallet) in Deliveries(os) <==>
      (exists i :: 0 <= i < |os| && os[i].tx == Some(tx)) && (wallet == tx.sender || wallet in tx.recipients)
  {
    if os != [] {
      var n := |os| - 1;
      DeliveredIff(os[..n], tx, wallet);
      PartiesOfOne(os[n], tx, wallet);
      assert forall i | 0 <= i < n :: os[..n][i] == os[i];
    }
  }

  lemma PartiesOfOne(o: TransactionObj, tx: Transaction, wallet: Bytes)
    ensures Delivery(tx, wallet) in DeliveriesOf(o) <==>
      o.tx == Some(tx) && (wallet == tx.sender || wallet in tx.recipients)
  {
    if o.tx == Some(tx) {
      var ws := SenderLast(tx);
      assert wallet in ws <==> wallet == tx.sender || wallet in tx.recipients by {
        assert ws[|tx.recipients|] == tx.sender;
      }
      forall k | 0 <= k < |ws| ensures DeliveriesOf(o)[k] == Delivery(tx, ws[k]) {
      }
      if wallet in ws {
        var k :| 0 <= k < |ws| && ws[k] == wallet;
        assert DeliveriesOf(o)[k] == Delivery(tx, wallet);
      }
    }
  }

  // Every delivery comes from one of the block's transactions and one of its wallets.
  lemma {:induction false} DeliveryOrigin(os: seq<TransactionObj>, k: nat) returns (i: nat)
    requires k < |Deliveries(os)|
    ensures i < |os| && Deliveries(os)[k] in DeliveriesOf(os[i])
  {
    var rest := os[..|os| - 1];
    if k < |Deliveries(rest)| {
      i := DeliveryOrigin(rest, k);
    } else {
      i := |os| - 1;
      assert Deliveries(os)[k] == DeliveriesOf(os[i])[k - |Deliveries(rest)|];
    }
  }

  /** Every wallet's shard is among the block's shards; INIT_DID's rule is no exception. */
  lemma {:induction false} WalletShardIsAffected(c: Scheme, b: Block, shardCount: nat, shards: set<nat>, k: nat)
    requires IsAffected(c, b, shardCount, shards) && k < |Deliveries(b.txObjs)|
    ensures (var d := Deliveries(b.txObjs)[k];
      d.Delivery? && ShardOf(c, d.wallet, shardCount).Shard? ==> ShardOf(c, d.wallet, shardCount).id in shards)
  {
    var d := Deliveries(b.txObjs)[k];
    var i := DeliveryOrigin(b.txObjs, k);
    if d.Delivery? && ShardOf(c, d.wallet, shardCount).Shard? {
      var tx, s := b.txObjs[i].tx.value, ShardOf(c, d.wallet, shardCount).id;
      assert d.tx == tx && d.wallet in SenderLast(tx);
      assert Touches(c, tx, shardCount, s) by {
        SameWallets(tx, d.wallet);
        var j :| 0 <= j < |SenderFirst(tx)| && SenderFirst(tx)[j] == d.wallet;
      }
    }
  }

  lemma SameWallets(tx: Transaction, wallet: Bytes)
    ensures wallet in SenderFirst(tx) <==> wallet in SenderLast(tx)
  {
  }

  lemma {:induction false} OwnedDeliveryGetsRow(
      p: Placement, b: Block, shards: set<nat>, nodeShards: set<nat>, m: Inboxes, k: nat)
    requires IsAffected(p.c, b, p.shardCount, shards) && p.shardsToProcess == shards * nodeShards
    requires k < |Deliveries(b.txObjs)|
    requires (var d := Deliveries(b.txObjs)[k];
      var shard := if d.Delivery? then ShardOf(p.c, d.wallet, p.shardCount) else Null;
      shard.Shard? && shard.id in nodeShards)
    requires p.Unpacked(m, b.ts, Deliveries(b.txObjs)).1
    ensures (var c, shardCount := p.c, p.shardCount;
      var d := Deliveries(b.txObjs)[k];
      var key := p.KeyOf(d, ShardOf(c, d.wallet, shardCount).id);
      var r := p.Unpacked(m, b.ts, Deliveries(b.txObjs)).0;
      && key in r && r[key].ts == (if key in m then m[key].ts else b.ts)
      && (c.CollisionFree() && c.Injective() ==> r[key].payload == p.PayloadOf(d.tx)))
  {
    var c, shardCount, ds := p.c, p.shardCount, Deliveries(b.txObjs);
    var key := p.KeyOf(ds[k], ShardOf(c, ds[k].wallet, shardCount).id);
    WalletShardIsAffected(c, b, shardCount, shards, k);
    assert Writes(p, ds[k], key);
    LastForFinds(p, ds, key);
    UnpackedRow(p, m, b.ts, ds, key);
    if c.CollisionFree() && c.Injective() {
      SameKeySameTx(p, ds[k], LastFor(p, ds, key).value, key);
    }
  }

  /** The key and the payload of the row of one wallet and one transaction. */
  lemma RowIs(p: Placement, tx: Transaction, wallet: Bytes, shard: nat)
    ensures (var hash := BitUtil.BytesToBase16(p.c.sha256(p.c.txBytes(tx)));
      && p.KeyOf(Delivery(tx, wallet), shard) == InboxKey(tx.category, shard, wallet, hash)
      && p.PayloadOf(tx) == Payload(
           tx.txType, tx.category, tx.sender, tx.recipients, BitUtil.BytesToBase16(tx.data), hash))
  {
  }

  /** After a block is unpacked, every sender or recipient of one of its transactions whose shard this node owns has
      its row, holding the transaction, at the block's time unless the row was there before. */
  lemma {:induction false} OwnedWalletsGetRows(
      p: Placement, b: Block, nodeShards: set<nat>, m: Inboxes, i: nat, wallet: Bytes, shard: nat)
    requires p.shardsToProcess == AffectedShards(p.c, b, p.shardCount) * nodeShards
    requires i < |b.txObjs| && b.txObjs[i].tx.Some?
    requires wallet == b.txObjs[i].tx.value.sender || wallet in b.txObjs[i].tx.value.recipients
    requires ShardOf(p.c, wallet, p.shardCount) == Shard(shard) && shard in nodeShards
    requires p.Unpacked(m, b.ts, Deliveries(b.txObjs)).1
    ensures (var tx, r := b.txObjs[i].tx.value, p.Unpacked(m, b.ts, Deliveries(b.txObjs)).0;
      var hash := BitUtil.BytesToBase16(p.c.sha256(p.c.txBytes(tx)));
      var key := InboxKey(tx.category, shard, wallet, hash);
      && key in r && r[key].ts == (if key in m then m[key].ts else b.ts)
      && (p.c.CollisionFree() && p.c.Injective() ==> r[key].payload == Payload(
           tx.txType, tx.category, tx.sender, tx.recipients, BitUtil.BytesToBase16(tx.data), hash)))
  {
    hide p.Unpacked, Deliveries, AffectedShards, ShardOf;
    var tx, ds := b.txObjs[i].tx.value, Deliveries(b.txObjs);
    var shards := AffectedShards(p.c, b, p.shardCount);
    DeliveredIff(b.txObjs, tx, wallet);
    var k :| 0 <= k < |ds| && ds[k] == Delivery(tx, wallet);
    AffectedIsUnique(p.c, b, p.shardCount, shards);
    OwnedDeliveryGetsRow(p, b, shards, nodeShards, m, k);
    RowIs(p, tx, wallet, shard);
  }

  /** Thrown or not: a row that is new or changed is that of a sender or recipient of one of the block's transactions,
      in the shard of that wallet. */
  lemma {:induction false} OnlyPartiesGetRows(p: Placement, b: Block, m: Inboxes, key: InboxKey)
    requires (var r := p.Unpacked(m, b.ts, Deliveries(b.txObjs)).0; key in r && (key !in m || r[key] != m[key]))
    ensures ShardOf(p.c, key.wallet, p.shardCount) == Shard(key.shard)
    ensures (exists i | 0 <= i < |b.txObjs| && b.txObjs[i].tx.Some? :: (var tx := b.txObjs[i].tx.value;
      && (key.wallet == tx.sender || key.wallet in tx.recipients)
      && key.category == tx.category && key.txHash == BitUtil.BytesToBase16(p.c.sha256(p.c.txBytes(tx)))))
  {
    var ds := Deliveries(b.txObjs);
    OnlyDeliveriesWrite(p, m, b.ts, ds, key);
    LastForFinds(p, ds, key);
    hide p.Unpacked, Deliveries, ShardOf;
    var k :| 0 <= k < |ds| && Writes(p, ds[k], key);
    var tx := ds[k].tx;
    DeliveredIff(b.txObjs, tx, ds[k].wallet);
    RowIs(p, tx, ds[k].wallet, key.shard);
    assert ds[k] == Delivery(tx, key.wallet);
  }

  lemma SameHashSameTx(c: Scheme, a: Transaction, b: Transaction)
    requires c.CollisionFree() && c.Injective()
    ensures BitUtil.BytesToBase16(c.sha256(c.txBytes(a))) == BitUtil.BytesToBase16(c.sha256(c.txBytes(b))) ==> a == b
  {
    BitUtil.HexInjective(c.sha256(c.txBytes(a)), c.sha256(c.txBytes(b)));
  }

  lemma SameKeySameTx(p: Placement, d: Delivery, e: Delivery, key: InboxKey)
    requires p.c.CollisionFree() && p.c.Injective()
    requires Writes(p, d, key) && Writes(p, e, key)
    ensures d.tx == e.tx
  {
    BitUtil.HexInjective(p.c.sha256(p.c.txBytes(d.tx)), p.c.sha256(p.c.txBytes(e.tx)));
  }

  /** When block and node share a shard, every row written or changed lies in both shard sets and keeps its time,
      even when unpacking throws halfway; the wallets of other shards are left alone. */
  lemma {:induction false} OverlapWritesOnlyShared(
      p: Placement, b: Block, shards: set<nat>, nodeShards: set<nat>, m: Inboxes, key: InboxKey)
    requires shards * nodeShards != {} && p.shardsToProcess == shards * nodeShards
    ensures (var r := p.Unpacked(m, b.ts, Deliveries(b.txObjs)).0;
      && (key in r && (key !in m || r[key] != m[key]) ==> key.shard in shards && key.shard in nodeShards)
      && (key in m ==> key in r && r[key].ts == m[key].ts))
  {
    var ds := Deliveries(b.txObjs);
    OnlyDeliveriesWrite(p, m, b.ts, ds, key);
    LastForFinds(p, ds, key);
    if LastFor(p, ds, key).Some? {
      var k :| 0 <= k < |ds| && Writes(p, ds[k], key);
      assert key.shard in p.shardsToProcess;
    }
  }

  /** When they share none, nothing is filtered: unpacking succeeds iff every wallet has a shard and every upsert
      works, and then every wallet gets a row although this node serves none of their shards. */
  lemma {:induction false} DisjointWritesEverything(
      p: Placement, b: Block, shards: set<nat>, nodeShards: set<nat>, m: Inboxes)
    requires IsAffected(p.c, b, p.shardCount, shards)
    requires shards * nodeShards == {} && p.shardsToProcess == {}
    ensures (var ds := Deliveries(b.txObjs);
      var r := p.Unpacked(m, b.ts, ds);
      && (r.1 <==> forall k | 0 <= k < |ds| ::
           ds[k].Delivery? && ShardOf(p.c, ds[k].wallet, p.shardCount).Shard? && p.PutWorks(ds[k].tx, k))
      && (r.1 ==> forall k | 0 <= k < |ds| ::
           && p.KeyOf(ds[k], ShardOf(p.c, ds[k].wallet, p.shardCount).id) in r.0
           && ShardOf(p.c, ds[k].wallet, p.shardCount).id !in nodeShards))
  {
    hide ShardOf, p.PutWorks;
    var ds := Deliveries(b.txObjs);
    UnpackSucceedsIff(p, m, b.ts, ds);
    if p.Unpacked(m, b.ts, ds).1 {
      forall k | 0 <= k < |ds|
        ensures p.KeyOf(ds[k], ShardOf(p.c, ds[k].wallet, p.shardCount).id) in p.Unpacked(m, b.ts, ds).0
        ensures ShardOf(p.c, ds[k].wallet, p.shardCount).id !in nodeShards
      {
        var s := ShardOf(p.c, ds[k].wallet, p.shardCount).id;
        var key := p.KeyOf(ds[k], s);
        assert Writes(p, ds[k], key);
        LastForFinds(p, ds, key);
        UnpackedRow(p, m, b.ts, ds, key);
        WalletShardIsAffected(p.c, b, p.shardCount, shards, k);
        assert s !in shards * nodeShards;
      }
    }
  }

  /** Once the block's shards could be calculated and overlap the node's, and no insert fails, unpacking throws only
      over an INIT_DID transaction: one of its wallets, which the calculation does not parse, or its indexing. */
  lemma {:induction false} OverlapFailsOnlyForInitDid(p: Placement, m: Inboxes, b: Block)
    requires p.shardsToProcess != {} && forall k :: p.outcome(k) != InsertFails
    requires forall i | 0 <= i < |b.txObjs| ::
      b.txObjs[i].tx.Some? && TxShardsDefined(p.c, b.txObjs[i].tx.value, p.shardCount)
    ensures p.Unpacked(m, b.ts, Deliveries(b.txObjs)).1 <==>
      forall k | 0 <= k < |Deliveries(b.txObjs)| :: InitDidWorks(p, Deliveries(b.txObjs)[k], k)
  {
    hide ShardOf, Deliveries, TxShardsDefined, InitDidWorks, p.Delivers, p.Unpacked;
    var ds := Deliveries(b.txObjs);
    UnpackSucceedsIff(p, m, b.ts, ds);
    forall k | 0 <= k < |ds| ensures p.Delivers(ds[k], k) <==> InitDidWorks(p, ds[k], k) {
      var i := DeliveryOrigin(b.txObjs, k);
      OwnDeliveryFails(p, b.txObjs[i].tx.value, ds[k], k);
    }
  }

  lemma OwnDeliveryFails(p: Placement, tx: Transaction, d: Delivery, k: nat)
    requires p.shardsToProcess != {} && p.outcome(k) != InsertFails
    requires TxShardsDefined(p.c, tx, p.shardCount) && d in DeliveriesOf(TransactionObj(Some(tx), None, []))
    ensures p.Delivers(d, k) <==> InitDidWorks(p, d, k)
  {
    hide ShardOf;
    SameWallets(tx, d.wallet);
  }

  /** For a wallet of an INIT_DID transaction: it parses, and if its shard is processed, the indexing works. */
  ghost predicate InitDidWorks(p: Placement, d: Delivery, k: nat) {
    d.Delivery? && d.tx.category == INIT_DID ==>
      var shard := ShardOf(p.c, d.wallet, p.shardCount);
      shard != Throws && (shard.Shard? && shard.id in p.shardsToProcess ==> p.outcome(k) != IndexingFails)
  }
}
