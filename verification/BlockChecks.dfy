/** Accepting a block as an attestor, as a finalized block and as a storage node (blockUtil.ts). */
module BlockChecks {
  import opened Bytes
  import opened Messages
  import opened Crypto
  import opened Signing
  import opened TxChecks
  import BitUtil

  /** Environment settings and the clock reading of one check. */
  datatype Config = Config(
    maxTxBytes: nat, maxTotalBytes: nat, maxTxCount: nat, maxAgeSeconds: nat, nowMillis: int)

  function TotalBytes(c: Scheme, os: seq<TransactionObj>): nat {
    if os == [] then
      0
    else
      TotalBytes(c, os[..|os| - 1])
      + (if os[|os| - 1].tx.Some? then |c.txBytes(os[|os| - 1].tx.value)| else 0)
  }

  // ---------- what each check means ----------

  ghost predicate TxObjOk(cfg: Config, c: Scheme, o: TransactionObj) {
    && o.tx.Some? && |c.txBytes(o.tx.value)| <= cfg.maxTxBytes
    && o.validatorData.Some? && o.validatorData.value.vote == 1
    && Acceptable(c, o.tx.value)
  }

  ghost predicate AttestationCountsOk(b: Block) {
    |b.signers| >= 1 && forall o | o in b.txObjs :: |o.attestorData| == |b.signers| - 1
  }

  ghost predicate SignerRegistered(c: Scheme, validators: set<Bytes>, b: Block, i: nat) {
    RecoverSigner(c, b, i).Some? && RecoverSigner(c, b, i).value in validators
  }

  predicate FreshEnough(cfg: Config, ts: uint64) {
    cfg.maxAgeSeconds == 0 || -1000 * cfg.maxAgeSeconds <= ts - cfg.nowMillis <= 1000 * cfg.maxAgeSeconds
  }

  ghost predicate WithinLimits(cfg: Config, c: Scheme, b: Block) {
    && StartsWith(b.attestToken, ATT_TOKEN_PREFIX) && |b.attestToken| >= 4
    && |b.txObjs| < cfg.maxTxCount
    && FreshEnough(cfg, b.ts)
    && (forall o | o in b.txObjs :: TxObjOk(cfg, c, o))
    && TotalBytes(c, b.txObjs) <= cfg.maxTotalBytes
  }

  ghost predicate AttestorAccepts(cfg: Config, c: Scheme, validators: set<Bytes>, b: Block) {
    WithinLimits(cfg, c, b) && AttestationCountsOk(b) && SignerRegistered(c, validators, b, 0)
  }

  predicate VotesOk(o: TransactionObj) { forall d | d in o.attestorData :: d.vote in {1, 2} }

  ghost predicate Finalized(cfg: Config, c: Scheme, validators: set<Bytes>, valPerBlock: nat, b: Block) {
    && WithinLimits(cfg, c, b)
    && |b.signers| == valPerBlock && AttestationCountsOk(b)
    && (forall o | o in b.txObjs :: VotesOk(o))
    && forall i: nat | i < |b.signers| :: SignerRegistered(c, validators, b, i)
  }

  ghost predicate SNodeAccepts(c: Scheme, validators: set<Bytes>, valPerBlock: nat, b: Block) {
    1 <= |b.signers| == valPerBlock && forall i: nat | i < |b.signers| :: SignerRegistered(c, validators, b, i)
  }

  // ---------- the checks as they run ----------

  method CheckTxObjs(cfg: Config, c: Scheme, b: Block) returns (r: CheckR)
    ensures r.Ok? <==> (forall o | o in b.txObjs :: TxObjOk(cfg, c, o)) && TotalBytes(c, b.txObjs) <= cfg.maxTotalBytes
  {
    hide CheckTx, Acceptable;
    var totalTxBytes := 0;
    var i := 0;
    while i < |b.txObjs|
      invariant i <= |b.txObjs|
      invariant forall o | o in b.txObjs[..i] :: TxObjOk(cfg, c, o)
      invariant totalTxBytes == TotalBytes(c, b.txObjs[..i])
    {
      var txObj := b.txObjs[i];
      assert b.txObjs[..i + 1][..i] == b.txObjs[..i];
      assert txObj in b.txObjs;
      if txObj.tx.None? {
        return Fail(EmptyTx);
      }
      var txBytes := |c.txBytes(txObj.tx.value)|;
      totalTxBytes := totalTxBytes + txBytes;
      if txBytes > cfg.maxTxBytes {
        return Fail(TxTooBig);
      }
      if txObj.validatorData.None? || txObj.validatorData.value.vote != 1 {
        return Fail(BadValidatorData);
      }
      var check := CheckTx(c, txObj.tx.value);
      CheckTxIff(c, txObj.tx.value);
      if !check.Ok? {
        return check;
      }
      i := i + 1;
    }
    assert b.txObjs[..i] == b.txObjs;
    return if totalTxBytes > cfg.maxTotalBytes then Fail(TotalTooBig) else Ok;
  }

  method CheckAttestationCounts(b: Block) returns (r: CheckR)
    ensures r.Ok? <==> AttestationCountsOk(b)
  {
    if |b.signers| == 0 {
      return Fail(NoSigners);
    }
    var i := 0;
    while i < |b.txObjs|
      invariant i <= |b.txObjs| && forall j | 0 <= j < i :: |b.txObjs[j].attestorData| == |b.signers| - 1
    {
      if |b.txObjs[i].attestorData| != |b.signers| - 1 {
        assert b.txObjs[i] in b.txObjs;
        return Fail(AttestationCount);
      }
      i := i + 1;
    }
    return Ok;
  }

  method CheckBlockAsAttestor(cfg: Config, c: Scheme, validators: set<Bytes>, b: Block) returns (r: CheckR)
    ensures r.Ok? <==> AttestorAccepts(cfg, c, validators, b)
  {
    hide RecoverSigner, CheckTx, TotalBytes;
    if !HasToken(b.attestToken, ATT_TOKEN_PREFIX) {
      return Fail(BadToken);
    }
    if |b.txObjs| >= cfg.maxTxCount {
      return Fail(BlockFull);
    }
    if cfg.maxAgeSeconds > 0 {
      var age := b.ts - cfg.nowMillis;
      if (if age < 0 then -age else age) > 1000 * cfg.maxAgeSeconds {
        return Fail(BlockTooOld);
      }
    }
    if |b.attestToken| < 4 {
      return Fail(BadToken);
    }
    r := CheckTxObjs(cfg, c, b);
    if !r.Ok? {
      return;
    }
    r := CheckAttestationCounts(b);
    if !r.Ok? {
      return;
    }
    r := CheckSigner(c, validators, b, 0);
  }

  method CheckSigner(c: Scheme, validators: set<Bytes>, b: Block, i: nat) returns (r: CheckR)
    ensures r.Ok? <==> SignerRegistered(c, validators, b, i)
  {
    match RecoverSigner(c, b, i) {
      case None => return Fail(Thrown);
      case Some(nodeId) => return if nodeId in validators then Ok else Fail(Unregistered);
    }
  }

  method CheckSigners(c: Scheme, validators: set<Bytes>, b: Block, from: nat) returns (r: CheckR)
    ensures r.Ok? <==> forall i: nat | from <= i < |b.signers| :: SignerRegistered(c, validators, b, i)
  {
    hide RecoverSigner;
    var i := from;
    while i < |b.signers|
      invariant from <= i && forall j: nat | from <= j < i :: SignerRegistered(c, validators, b, j)
    {
      r := CheckSigner(c, validators, b, i);
      if !r.Ok? {
        return;
      }
      i := i + 1;
    }
    return Ok;
  }

  method CheckVotes(b: Block) returns (r: CheckR)
    ensures r.Ok? <==> forall o | o in b.txObjs :: VotesOk(o)
  {
    var txIndex := 0;
    while txIndex < |b.txObjs|
      invariant txIndex <= |b.txObjs| && forall j | 0 <= j < txIndex :: VotesOk(b.txObjs[j])
    {
      var txObj := b.txObjs[txIndex];
      var a := 0;
      while a < |txObj.attestorData|
        invariant a <= |txObj.attestorData| && forall j | 0 <= j < a :: txObj.attestorData[j].vote in {1, 2}
      {
        if txObj.attestorData[a].vote !in {1, 2} {
          assert txObj in b.txObjs && txObj.attestorData[a] in txObj.attestorData;
          return Fail(BadAttestorData);
        }
        a := a + 1;
      }
      txIndex := txIndex + 1;
    }
    return Ok;
  }

  method CheckBlockFinalized(cfg: Config, c: Scheme, validators: set<Bytes>, valPerBlock: nat, b: Block)
    returns (r: CheckR)
    ensures r.Ok? <==> Finalized(cfg, c, validators, valPerBlock, b)
  {
    r := CheckBlockAsAttestor(cfg, c, validators, b);
    if !r.Ok? {
      return;
    }
    if |b.signers| != valPerBlock {
      return Fail(SignerCount);
    }
    r := CheckVotes(b);
    if !r.Ok? {
      return;
    }
    r := CheckSigners(c, validators, b, 1);
  }

  method CheckBlockAsSNode(c: Scheme, validators: set<Bytes>, valPerBlock: nat, b: Block) returns (r: CheckR)
    ensures r.Ok? <==> SNodeAccepts(c, validators, valPerBlock, b)
  {
    if |b.signers| != valPerBlock {
      return Fail(SignerCount);
    }
    if |b.signers| == 0 {
      // signersList[0] is undefined and cannot be set on the clone
      return Fail(Thrown);
    }
    r := CheckSigners(c, validators, b, 0);
  }

  // ---------- how the checks relate ----------

  lemma FinalizedImpliesSNode(cfg: Config, c: Scheme, validators: set<Bytes>, valPerBlock: nat, b: Block)
    requires Finalized(cfg, c, validators, valPerBlock, b)
    ensures AttestorAccepts(cfg, c, validators, b)
    ensures SNodeAccepts(c, validators, valPerBlock, b)
  {
    assert SignerRegistered(c, validators, b, 0);
  }

  lemma {:induction false} TotalBytesSameTxs(c: Scheme, a: seq<TransactionObj>, b: seq<TransactionObj>)
    requires |a| == |b| && forall i | 0 <= i < |a| :: a[i].tx == b[i].tx
    ensures TotalBytes(c, a) == TotalBytes(c, b)
  {
    if a != [] { TotalBytesSameTxs(c, a[..|a| - 1], b[..|b| - 1]); }
  }

  /** The size of the transactions of one list after another is the sum of both; of one transaction it is its own. */
  lemma {:induction false} TotalBytesAdds(c: Scheme, a: seq<TransactionObj>, b: seq<TransactionObj>)
    ensures TotalBytes(c, a + b) == TotalBytes(c, a) + TotalBytes(c, b)
    ensures forall o: TransactionObj | o.tx.Some? :: TotalBytes(c, [o]) == |c.txBytes(o.tx.value)|
  {
    forall o: TransactionObj | o.tx.Some? ensures TotalBytes(c, [o]) == |c.txBytes(o.tx.value)| {
      assert [o][..0] == [];
    }
    if b == [] {
      assert a + b == a;
    } else {
      assert (a + b)[..|a + b| - 1] == a + b[..|b| - 1];
      TotalBytesAdds(c, a, b[..|b| - 1]);
    }
  }

  /** What a block must satisfy before anyone has signed it, by its own fields. */
  ghost predicate Submittable(cfg: Config, c: Scheme, b: Block) {
    && |b.attestToken| >= 4 && b.attestToken[0] == 65 && b.attestToken[1] == 84 && b.attestToken[2] == 49      // AT1
    && |b.txObjs| < cfg.maxTxCount
    && (cfg.maxAgeSeconds > 0 ==>
          b.ts <= cfg.nowMillis + 1000 * cfg.maxAgeSeconds && cfg.nowMillis <= b.ts + 1000 * cfg.maxAgeSeconds)
    && (forall i | 0 <= i < |b.txObjs| ::
          && b.txObjs[i].tx.Some? && |c.txBytes(b.txObjs[i].tx.value)| <= cfg.maxTxBytes
          && Acceptable(c, b.txObjs[i].tx.value))
    && TotalBytes(c, b.txObjs) <= cfg.maxTotalBytes
  }

  /** A block in which every transaction has the validator's vote 1 is within the limits iff it could be submitted. */
  lemma {:induction false} LimitsIff(cfg: Config, c: Scheme, b: Block, r: Block)
    requires r.ts == b.ts && r.attestToken == b.attestToken && |r.txObjs| == |b.txObjs|
    requires forall i | 0 <= i < |b.txObjs| ::
      r.txObjs[i].tx == b.txObjs[i].tx && r.txObjs[i].validatorData == Some(TxValidatorData(1, None))
    ensures WithinLimits(cfg, c, r) <==> Submittable(cfg, c, b)
  {
    hide Acceptable, TotalBytes;
    TotalBytesSameTxs(c, r.txObjs, b.txObjs);
    if |b.attestToken| >= 3 {
      assert b.attestToken[..3] == [b.attestToken[0], b.attestToken[1], b.attestToken[2]];
    }
    forall i | 0 <= i < |b.txObjs| && WithinLimits(cfg, c, r) ensures TxObjOk(cfg, c, r.txObjs[i]) {
      assert r.txObjs[i] in r.txObjs;
    }
  }

  /** Any block: what an attestor and the final check demand of it beyond what could be submitted. */
  lemma {:induction false} AcceptedIff(cfg: Config, c: Scheme, validators: set<Bytes>, valPerBlock: nat, b: Block)
    ensures AttestorAccepts(cfg, c, validators, b) <==>
      && Submittable(cfg, c, b)
      && (forall i | 0 <= i < |b.txObjs| ::
            && b.txObjs[i].validatorData.Some? && b.txObjs[i].validatorData.value.vote == 1
            && |b.txObjs[i].attestorData| + 1 == |b.signers|)
      && |b.signers| > 0 && RecoverSigner(c, b, 0).Some? && RecoverSigner(c, b, 0).value in validators
    ensures Finalized(cfg, c, validators, valPerBlock, b) <==>
      && AttestorAccepts(cfg, c, validators, b)
      && |b.signers| == valPerBlock
      && (forall i, k | 0 <= i < |b.txObjs| && 0 <= k < |b.txObjs[i].attestorData| ::
            b.txObjs[i].attestorData[k].vote == 1 || b.txObjs[i].attestorData[k].vote == 2)
      && forall i: nat | 1 <= i < |b.signers| ::
           RecoverSigner(c, b, i).Some? && RecoverSigner(c, b, i).value in validators
  {
    hide RecoverSigner, Acceptable, TotalBytes;
    assert forall i: nat {:trigger RecoverSigner(c, b, i)} :: (SignerRegistered(c, validators, b, i) ==
      (RecoverSigner(c, b, i).Some? && RecoverSigner(c, b, i).value in validators));
    if |b.attestToken| >= 3 {
      assert b.attestToken[..3] == [b.attestToken[0], b.attestToken[1], b.attestToken[2]];
    }
    assert forall i | 0 <= i < |b.txObjs| :: b.txObjs[i] in b.txObjs;
    assert forall i, k | 0 <= i < |b.txObjs| && 0 <= k < |b.txObjs[i].attestorData| ::
      b.txObjs[i].attestorData[k] in b.txObjs[i].attestorData;
  }

  lemma BuiltLimits(cfg: Config, c: Scheme, validator: Key, b: Block, ars: seq<AttestBlockResult>)
    requires b.signers == [] && Fitting(b, ars)
    ensures WithinLimits(cfg, c, AppendAll(SignedByValidator(c, validator, b), ars)) <==> Submittable(cfg, c, b)
  {
    hide WithinLimits, Submittable;
    var signed := SignedByValidator(c, validator, b);
    AppendAllShape(signed, ars);
    LimitsIff(cfg, c, b, AppendAll(signed, ars));
  }

  /** Every vote is 1 or 2. */
  predicate PatchVotesOk(ars: seq<AttestBlockResult>) {
    forall j, d | 0 <= j < |ars| && d in ars[j].attestorData :: d.vote == 1 || d.vote == 2
  }

  lemma {:induction false} BuiltVotes(c: Scheme, validator: Key, b: Block, ars: seq<AttestBlockResult>)
    requires forall j | 0 <= j < |ars| :: |ars[j].attestorData| == |b.txObjs|
    requires Fitting(b, ars)
    ensures (forall o | o in AppendAll(SignedByValidator(c, validator, b), ars).txObjs :: VotesOk(o)) <==>
      PatchVotesOk(ars)
  {
    var r := AppendAll(SignedByValidator(c, validator, b), ars);
    AppendAllShape(SignedByValidator(c, validator, b), ars);
    if forall o | o in r.txObjs :: VotesOk(o) {
      forall j, i | 0 <= j < |ars| && 0 <= i < |b.txObjs| ensures ars[j].attestorData[i].vote in {1, 2} {
        assert r.txObjs[i] in r.txObjs && r.txObjs[i].attestorData[j] == ars[j].attestorData[i];
      }
    }
  }

  /** What the three checks say of a block assembled by the signing functions, in terms of the block that was submitted
      and of who signed: every other clause holds by construction, the validator's votes among them. */
  lemma AssembledBlockFinalizedIff(
      cfg: Config, c: Scheme, validators: set<Bytes>, valPerBlock: nat,
      b: Block, validator: Key, ars: seq<AttestBlockResult>, attestors: seq<Key>)
    requires c.Sound()
    requires b.signers == []
    requires PatchesBy(c, attestors, SignedByValidator(c, validator, b), ars)
    ensures (var r := AppendAll(SignedByValidator(c, validator, b), ars);
      var registered := c.address(validator) in validators
        && forall j | 0 <= j < |attestors| :: c.address(attestors[j]) in validators;
      && (AttestorAccepts(cfg, c, validators, r) <==> Submittable(cfg, c, b) && c.address(validator) in validators)
      && (SNodeAccepts(c, validators, valPerBlock, r) <==> valPerBlock == 1 + |attestors| && registered)
      && (Finalized(cfg, c, validators, valPerBlock, r) <==>
            Submittable(cfg, c, b) && PatchVotesOk(ars) && valPerBlock == 1 + |attestors| && registered))
  {
    hide RecoverSigner, AppendAll, WithinLimits, Submittable;
    var r := AppendAll(SignedByValidator(c, validator, b), ars);
    AttestationRoundTrip(c, validator, b, ars, attestors);
    AttestationsMatchSigners(c, validator, b, ars);
    BuiltVotes(c, validator, b, ars);
    BuiltLimits(cfg, c, validator, b, ars);
    AllSignersRegistered(c, validators, r, validator, attestors);
  }

  lemma AllSignersRegistered(c: Scheme, validators: set<Bytes>, r: Block, validator: Key, attestors: seq<Key>)
    requires |r.signers| == 1 + |attestors|
    requires RecoverSigner(c, r, 0) == Some(c.address(validator))
    requires forall i | 1 <= i <= |attestors| :: RecoverSigner(c, r, i) == Some(c.address(attestors[i - 1]))
    ensures (forall i: nat | i < |r.signers| :: SignerRegistered(c, validators, r, i))
      <==> c.address(validator) in validators
           && forall j | 0 <= j < |attestors| :: c.address(attestors[j]) in validators
  {
    if forall i: nat | i < |r.signers| :: SignerRegistered(c, validators, r, i) {
      assert SignerRegistered(c, validators, r, 0);
      forall j | 0 <= j < |attestors| ensures c.address(attestors[j]) in validators {
        assert SignerRegistered(c, validators, r, j + 1);
      }
    }
  }

  /** From submission to acceptance in code: a validator and any attestors sign and patch a block, and it is final iff
      it could be submitted and they are registered, in the right number. */
  method AssembleAndCheck(
      cfg: Config, c: Scheme, validators: set<Bytes>, valPerBlock: nat, b: BlockObject, validator: Key,
      attestors: seq<Key>)
    returns (r: CheckR)
    requires c.Sound() && b.signers == []
    modifies b
    ensures r.Ok? <==>
      && Submittable(cfg, c, old(b.Value()))
      && valPerBlock == 1 + |attestors| && c.address(validator) in validators
      && forall j | 0 <= j < |attestors| :: c.address(attestors[j]) in validators
  {
    hide Submittable, Finalized;
    ghost var ars := b.Assemble(c, validator, attestors);
    AssembledBlockFinalizedIff(cfg, c, validators, valPerBlock, old(b.Value()), validator, ars, attestors);
    r := CheckBlockFinalized(cfg, c, validators, valPerBlock, b.Value());
  }

  /** An accepted block, hence a final one, holds only transactions whose sender signed them: an eip155 sender is what
      is recovered from the signature over the hash of the transaction without its signature. */
  lemma {:induction false} AcceptedTxIsSigned(
      cfg: Config, c: Scheme, validators: set<Bytes>, b: Block, o: TransactionObj, chain: Bytes, addr: Bytes)
    requires AttestorAccepts(cfg, c, validators, b) && o in b.txObjs
    requires o.tx.Some? ==> o.tx.value.category != [73, 78, 73, 84, 95, 68, 73, 68]
    requires o.tx.Some? ==> o.tx.value.sender == [101, 105, 112, 49, 53, 53] + [58] + (chain + [58]) + addr
    requires 58 !in chain && 58 !in addr
    ensures o.tx.Some?
    ensures (var tx := o.tx.value;
      var message := [48, 120] + BitUtil.BytesToBase16(c.sha256(c.txBytes(tx.(signature := []))));
      c.recover(message, tx.signature) == Some(addr))
  {
    hide Address;
    var tx := o.tx.value;
    assert Acceptable(c, tx);
    var ns, id, a :| Address(tx.sender, ns, Some(id), a) && SignedFor(c, tx, ns, a);
    SenderParts(tx.sender, ns, id, a, chain, addr);
  }

  lemma SenderParts(s: Bytes, ns: Bytes, id: Bytes, a: Bytes, chain: Bytes, addr: Bytes)
    requires Address(s, ns, Some(id), a)
    requires s == [101, 105, 112, 49, 53, 53] + [58] + (chain + [58]) + addr && 58 !in chain && 58 !in addr
    ensures ns == [101, 105, 112, 49, 53, 53] && id == chain && a == addr
  {
    var eip: Bytes := [101, 105, 112, 49, 53, 53];
    hide Split;
    SplitThree(ns, id, a);
    SplitThree(eip, chain, addr);
    assert s == ns + [58] + (id + [58] + a);
    assert s == eip + [58] + (chain + [58] + addr);
    assert [ns, id, a][0] == [eip, chain, addr][0] && [ns, id, a][1] == [eip, chain, addr][1];
    assert [ns, id, a][2] == [eip, chain, addr][2];
  }
}
