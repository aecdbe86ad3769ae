/** Signing, attesting and recovering signers of a block (blockUtil.ts). */
module Signing {
  import opened Bytes
  import opened Messages
  import opened Crypto
  import opened MessageIO

  const ACCEPTED: int64 := 1

  // ---------- the blocks that get signed ----------

  function AcceptedByValidator(o: TransactionObj): TransactionObj {
    o.(validatorData := Some(TxValidatorData(ACCEPTED, None)), attestorData := [])
  }

  function Voted(b: Block): Block {
    b.(txObjs := seq(|b.txObjs|, i requires 0 <= i < |b.txObjs| => AcceptedByValidator(b.txObjs[i])))
  }

  function SignedByValidator(c: Scheme, k: Key, b: Block): Block {
    Voted(b).(signers := [Signer(c.sign(k, c.blockBytes(Voted(b))))])
  }

  /** Every transaction keeps exactly one attestation: its entry of `ds`. */
  function WithAttestations(b: Block, ds: seq<TxAttestorData>): (r: Block)
    requires |b.txObjs| <= |ds|
  {
    b.(txObjs := seq(|b.txObjs|, i requires 0 <= i < |b.txObjs| => b.txObjs[i].(attestorData := [ds[i]])))
  }

  function AttestorPatch(c: Scheme, k: Key, b: Block): AttestBlockResult {
    var ds := seq(|b.txObjs|, _ => TxAttestorData(ACCEPTED));
    AttestBlockResult(ds, Signer(c.sign(k, c.blockBytes(WithAttestations(b, ds)))))
  }

  /** `ar` carries one vote per transaction, any votes, and `k`'s signature over `b` with those votes. */
  ghost predicate PatchBy(c: Scheme, k: Key, b: Block, ar: AttestBlockResult) {
    && |ar.attestorData| == |b.txObjs|
    && ar.signer.sig == c.sign(k, c.blockBytes(WithAttestations(b, ar.attestorData)))
  }

  /** Patch j of `ars` is by attestor j of `keys`. */
  ghost predicate PatchesBy(c: Scheme, keys: seq<Key>, b: Block, ars: seq<AttestBlockResult>) {
    && |keys| == |ars|
    && forall j {:trigger ars[j]} {:trigger keys[j]} | 0 <= j < |ars| :: PatchBy(c, keys[j], b, ars[j])
  }

  function WithVote(o: TransactionObj, d: TxAttestorData): TransactionObj {
    o.(attestorData := o.attestorData + [d])
  }

  function Append(b: Block, ar: AttestBlockResult): Block
    requires |b.txObjs| <= |ar.attestorData|
  {
    b.(txObjs := seq(|b.txObjs|, i requires 0 <= i < |b.txObjs| => WithVote(b.txObjs[i], ar.attestorData[i])),
       signers := b.signers + [ar.signer])
  }

  predicate Fitting(b: Block, ars: seq<AttestBlockResult>) {
    forall j | 0 <= j < |ars| :: |b.txObjs| <= |ars[j].attestorData|
  }

  /** The block after all patches, the last of `ars` appended last. */
  function AppendAll(b: Block, ars: seq<AttestBlockResult>): (r: Block)
    requires Fitting(b, ars)
    ensures |r.txObjs| == |b.txObjs|
  {
    if ars == [] then b else Append(AppendAll(b, ars[..|ars| - 1]), ars[|ars| - 1])
  }

  // ---------- recovering ----------

  /** What signer `i` of `b` signed: the validator a block with neither signers nor attestations, attestor `i`
      the block with the validator's signature and its own attestations. */
  function SignedPart(b: Block, i: nat): Block
    requires i < |b.signers|
    requires i > 0 ==> forall o | o in b.txObjs :: i <= |o.attestorData|
  {
    if i == 0 then
      b.(signers := [],
         txObjs := seq(|b.txObjs|, j requires 0 <= j < |b.txObjs| => b.txObjs[j].(attestorData := [])))
    else
      b.(signers := [b.signers[0]],
         txObjs := seq(|b.txObjs|, j requires 0 <= j < |b.txObjs| =>
                     b.txObjs[j].(attestorData := [b.txObjs[j].attestorData[i - 1]])))
  }

  /** None when the index is out of range, an attestation is missing or the recovery fails. */
  function RecoverSigner(c: Scheme, b: Block, i: nat): Option<Bytes> {
    if i >= |b.signers| || (i > 0 && exists o | o in b.txObjs :: |o.attestorData| < i) then
      None
    else
      c.recover(c.blockBytes(SignedPart(b, i)), b.signers[i].sig)
  }

  // The whole signers list stays in the checked message.
  function RecoverPatch(c: Scheme, b: Block, ar: AttestBlockResult): Option<Bytes> {
    if |ar.attestorData| < |b.txObjs| then
      None
    else
      c.recover(c.blockBytes(WithAttestations(b, ar.attestorData)), ar.signer.sig)
  }

  // ---------- theorems ----------

  lemma {:induction false} AppendAllShape(b: Block, ars: seq<AttestBlockResult>)
    requires Fitting(b, ars)
    ensures var r := AppendAll(b, ars);
      && r.ts == b.ts && r.attestToken == b.attestToken
      && r.signers == b.signers + seq(|ars|, j requires 0 <= j < |ars| => ars[j].signer)
      && forall i | 0 <= i < |b.txObjs| ::
           && r.txObjs[i].tx == b.txObjs[i].tx
           && r.txObjs[i].validatorData == b.txObjs[i].validatorData
           && r.txObjs[i].attestorData ==
                b.txObjs[i].attestorData + seq(|ars|, j requires 0 <= j < |ars| => ars[j].attestorData[i])
  {
    if ars != [] {
      AppendAllShape(b, ars[..|ars| - 1]);
    }
  }

  // One more patch by one more attestor.
  lemma {:induction false} OneMorePatch(
      c: Scheme, keys: seq<Key>, b: Block, ars: seq<AttestBlockResult>, k: Key, ar: AttestBlockResult)
    requires PatchesBy(c, keys, b, ars) && PatchBy(c, k, b, ar)
    ensures PatchesBy(c, keys + [k], b, ars + [ar])
    ensures AppendAll(b, ars + [ar]) == Append(AppendAll(b, ars), ar)
  {
    assert (ars + [ar])[..|ars|] == ars;
  }

  /** After any number of appended patches every transaction has one attestation fewer than the block has signers. */
  lemma {:induction false} AttestationsMatchSigners(c: Scheme, k: Key, b: Block, ars: seq<AttestBlockResult>)
    requires Fitting(b, ars)
    ensures var r := AppendAll(SignedByValidator(c, k, b), ars);
      forall o | o in r.txObjs :: |o.attestorData| == |r.signers| - 1
  {
    AppendAllShape(SignedByValidator(c, k, b), ars);
  }

  /** The validator is signer 0 whatever is appended. */
  lemma ValidatorRecovered(c: Scheme, k: Key, b: Block, ars: seq<AttestBlockResult>)
    requires c.Sound()
    requires b.signers == []
    requires Fitting(b, ars)
    ensures RecoverSigner(c, AppendAll(SignedByValidator(c, k, b), ars), 0) == Some(c.address(k))
  {
    var signed := SignedByValidator(c, k, b);
    var r := AppendAll(signed, ars);
    AppendAllShape(signed, ars);
    assert SignedPart(r, 0) == signed.(signers := []);
  }

  lemma RecoverSignedPart(c: Scheme, b: Block, i: nat)
    requires i < |b.signers| && forall o | o in b.txObjs :: i <= |o.attestorData|
    ensures RecoverSigner(c, b, i) == c.recover(c.blockBytes(SignedPart(b, i)), b.signers[i].sig)
  {
  }

  lemma AttestorSignedPart(b: Block, ars: seq<AttestBlockResult>, i: nat)
    requires |b.signers| == 1 && forall o | o in b.txObjs :: o.attestorData == []
    requires Fitting(b, ars)
    requires 1 <= i <= |ars|
    ensures var r := AppendAll(b, ars);
      && i < |r.signers| && r.signers[i] == ars[i - 1].signer
      && (forall o | o in r.txObjs :: i <= |o.attestorData|)
      && SignedPart(r, i) == WithAttestations(b, ars[i - 1].attestorData)
  {
    AppendAllShape(b, ars);
  }

  /** Signer `i` is the author of the i-th appended patch, for patches of any attestors appended in any order. */
  lemma AttestorRecovered(c: Scheme, b: Block, ars: seq<AttestBlockResult>, keys: seq<Key>, i: nat)
    requires c.Sound()
    requires |b.signers| == 1 && forall o | o in b.txObjs :: o.attestorData == []
    requires PatchesBy(c, keys, b, ars)
    requires 1 <= i <= |ars|
    ensures RecoverSigner(c, AppendAll(b, ars), i) == Some(c.address(keys[i - 1]))
  {
    AttestorSignedPart(b, ars, i);
    RecoverSignedPart(c, AppendAll(b, ars), i);
    assert PatchBy(c, keys[i - 1], b, ars[i - 1]);
  }

  /** Attestation round trip: sign, let attestors sign the one-signature block, append their patches. */
  lemma AttestationRoundTrip(c: Scheme, validator: Key, b: Block, ars: seq<AttestBlockResult>, attestors: seq<Key>)
    requires c.Sound()
    requires b.signers == []
    requires PatchesBy(c, attestors, SignedByValidator(c, validator, b), ars)
    ensures var r := AppendAll(SignedByValidator(c, validator, b), ars);
      && |r.signers| == 1 + |ars|
      && RecoverSigner(c, r, 0) == Some(c.address(validator))
      && forall i | 1 <= i <= |ars| :: RecoverSigner(c, r, i) == Some(c.address(attestors[i - 1]))
  {
    var signed := SignedByValidator(c, validator, b);
    AppendAllShape(signed, ars);
    ValidatorRecovered(c, validator, b, ars);
    forall i | 1 <= i <= |ars|
      ensures RecoverSigner(c, AppendAll(signed, ars), i) == Some(c.address(attestors[i - 1]))
    {
      AttestorRecovered(c, signed, ars, attestors, i);
    }
  }

  /** The patch the attestor's signing function makes is one of the patches the theorems speak of. */
  lemma AttestorPatchIsPatch(c: Scheme, k: Key, b: Block)
    ensures PatchBy(c, k, b, AttestorPatch(c, k, b))
  {
  }

  // ---------- what a signature covers ----------

  predicate HasVotes(b: Block, i: nat) { forall o | o in b.txObjs :: i <= |o.attestorData| }

  /** What signer i of `a` signed is the same in `b` for its signer i': the time, the token, every transaction and its
      validator data, and for an attestor also the validator's signature and the signer's own votes. */
  ghost predicate SameSigned(a: Block, i: nat, b: Block, i': nat)
    requires i < |a.signers| && HasVotes(a, i) && i' < |b.signers| && HasVotes(b, i')
  {
    && (i == 0 <==> i' == 0)
    && (i > 0 ==> a.signers[0] == b.signers[0])
    && a.ts == b.ts && a.attestToken == b.attestToken && |a.txObjs| == |b.txObjs|
    && forall j | 0 <= j < |a.txObjs| ::
         && a.txObjs[j].tx == b.txObjs[j].tx && a.txObjs[j].validatorData == b.txObjs[j].validatorData
         && (i > 0 && i' > 0 ==> a.txObjs[j].attestorData[i - 1] == b.txObjs[j].attestorData[i' - 1])
  }

  lemma SignedPartsEqualIff(a: Block, i: nat, b: Block, i': nat)
    requires i < |a.signers| && HasVotes(a, i) && i' < |b.signers| && HasVotes(b, i')
    ensures SignedPart(a, i) == SignedPart(b, i') <==> SameSigned(a, i, b, i')
  {
    var p, q := SignedPart(a, i), SignedPart(b, i');
    if p == q {
      forall j | 0 <= j < |a.txObjs|
        ensures a.txObjs[j].tx == b.txObjs[j].tx && a.txObjs[j].validatorData == b.txObjs[j].validatorData
        ensures i > 0 && i' > 0 ==> a.txObjs[j].attestorData[i - 1] == b.txObjs[j].attestorData[i' - 1]
      {
        assert p.txObjs[j] == q.txObjs[j];
      }
      assert |p.signers| == |q.signers|;
    }
  }

  /** The signature of signer i of `a`, found at place i' of any block, recovers to its author iff what it covers
      is unchanged. */
  lemma SignatureCoversSignedPart(c: Scheme, k: Key, a: Block, i: nat, b: Block, i': nat)
    requires c.Sound() && c.Injective()
    requires i < |a.signers| && HasVotes(a, i) && i' < |b.signers| && HasVotes(b, i')
    requires a.signers[i].sig == c.sign(k, c.blockBytes(SignedPart(a, i)))
    requires b.signers[i'].sig == a.signers[i].sig
    requires c.Binds(k, c.blockBytes(SignedPart(a, i)), c.blockBytes(SignedPart(b, i')))
    ensures RecoverSigner(c, b, i') == Some(c.address(k)) <==> SameSigned(a, i, b, i')
  {
    SignedPartsEqualIff(a, i, b, i');
  }

  /** In an assembled block every signer has signed its part. */
  lemma AssembledSignature(
      c: Scheme, validator: Key, b: Block, ars: seq<AttestBlockResult>, attestors: seq<Key>, i: nat)
    requires b.signers == []
    requires PatchesBy(c, attestors, SignedByValidator(c, validator, b), ars)
    requires i <= |ars|
    ensures var a := AppendAll(SignedByValidator(c, validator, b), ars);
      && |a.signers| == 1 + |ars| && HasVotes(a, i)
      && a.signers[i].sig == c.sign(([validator] + attestors)[i], c.blockBytes(SignedPart(a, i)))
  {
    var signed := SignedByValidator(c, validator, b);
    var a := AppendAll(signed, ars);
    AppendAllShape(signed, ars);
    if i == 0 {
      assert SignedPart(a, 0) == signed.(signers := []);
    } else {
      AttestorSignedPart(signed, ars, i);
      assert PatchBy(c, attestors[i - 1], signed, ars[i - 1]);
    }
  }

  /** The block without the votes that belong to no signer. */
  function Trimmed(b: Block): Block {
    var n := if |b.signers| == 0 then 0 else |b.signers| - 1;
    b.(txObjs := seq(|b.txObjs|, j requires 0 <= j < |b.txObjs| =>
      var o := b.txObjs[j]; if |o.attestorData| <= n then o else o.(attestorData := o.attestorData[..n])))
  }

  /** An assembled block cannot be changed unnoticed: in a block that carries its signatures every index recovers its
      signer iff the block is the assembled one, up to votes beyond those of the signers. */
  lemma {:induction false} TamperingIsNoticed(
      c: Scheme, validator: Key, b: Block, ars: seq<AttestBlockResult>, attestors: seq<Key>, b': Block)
    requires c.Sound() && c.Injective()
    requires b.signers == []
    requires PatchesBy(c, attestors, SignedByValidator(c, validator, b), ars)
    requires b'.signers == AppendAll(SignedByValidator(c, validator, b), ars).signers
    requires (var a := AppendAll(SignedByValidator(c, validator, b), ars);
      forall i: nat | i <= |attestors| && i < |a.signers| && HasVotes(a, i) && HasVotes(b', i) ::
        c.Binds(([validator] + attestors)[i], c.blockBytes(SignedPart(a, i)), c.blockBytes(SignedPart(b', i))))
    ensures var a := AppendAll(SignedByValidator(c, validator, b), ars);
      (forall i: nat | i <= |attestors| :: RecoverSigner(c, b', i) == Some(c.address(([validator] + attestors)[i])))
      <==> Trimmed(b') == a
  {
    var keys := [validator] + attestors;
    var a := AppendAll(SignedByValidator(c, validator, b), ars);
    AttestationsMatchSigners(c, validator, b, ars);
    AppendAllShape(SignedByValidator(c, validator, b), ars);
    forall i: nat | i <= |attestors|
      ensures RecoverSigner(c, b', i) == Some(c.address(keys[i])) <==> HasVotes(b', i) && SameSigned(a, i, b', i)
    {
      AssembledSignature(c, validator, b, ars, attestors, i);
      if HasVotes(b', i) {
        SignatureCoversSignedPart(c, keys[i], a, i, b', i);
      }
    }
    SameSignedEverywhereIff(a, b');
  }

  lemma SameSignedEverywhereIff(a: Block, b: Block)
    requires |a.signers| > 0 && b.signers == a.signers
    requires forall o | o in a.txObjs :: |o.attestorData| == |a.signers| - 1
    ensures (forall i: nat | i < |a.signers| :: HasVotes(b, i) && SameSigned(a, i, b, i)) <==> Trimmed(b) == a
  {
    hide SameSigned, Trimmed;
    if forall i: nat | i < |a.signers| :: HasVotes(b, i) && SameSigned(a, i, b, i) {
      SameSignedTrims(a, b);
    }
    if Trimmed(b) == a {
      forall i: nat | i < |a.signers| ensures HasVotes(b, i) && SameSigned(a, i, b, i) {
        TrimmedIsSameSigned(a, b, i);
      }
    }
  }

  lemma SameSignedTrims(a: Block, b: Block)
    requires |a.signers| > 0 && b.signers == a.signers
    requires forall o | o in a.txObjs :: |o.attestorData| == |a.signers| - 1
    requires forall i: nat | i < |a.signers| :: HasVotes(b, i) && SameSigned(a, i, b, i)
    ensures Trimmed(b) == a
  {
    var n := |a.signers| - 1;
    assert HasVotes(b, n) && SameSigned(a, n, b, n);
    forall j | 0 <= j < |a.txObjs| ensures Trimmed(b).txObjs[j] == a.txObjs[j] {
      assert a.txObjs[j] in a.txObjs && b.txObjs[j] in b.txObjs;
      forall v | 0 <= v < n ensures b.txObjs[j].attestorData[v] == a.txObjs[j].attestorData[v] {
        assert SameSigned(a, v + 1, b, v + 1);
      }
      assert b.txObjs[j].attestorData[..n] == a.txObjs[j].attestorData;
    }
    assert Trimmed(b).txObjs == a.txObjs;
  }

  lemma TrimmedIsSameSigned(a: Block, b: Block, i: nat)
    requires i < |a.signers| && b.signers == a.signers && Trimmed(b) == a
    requires forall o | o in a.txObjs :: |o.attestorData| == |a.signers| - 1
    ensures HasVotes(b, i) && SameSigned(a, i, b, i)
  {
    forall j | 0 <= j < |b.txObjs| ensures |a.signers| - 1 <= |b.txObjs[j].attestorData| {
      assert Trimmed(b).txObjs[j] in a.txObjs;
    }
  }

  /** recoverPatchAddress keeps the signers of the block it is given, so a patch is recognised
      iff it is checked against a block that has no other patch yet. */
  lemma {:induction false} PatchRecoveredIffFirst(
      c: Scheme, b: Block, ars: seq<AttestBlockResult>, k: Key, ar: AttestBlockResult)
    requires c.Sound() && c.Injective()
    requires |b.signers| == 1
    requires PatchBy(c, k, b, ar)
    requires Fitting(b, ars)
    requires c.Binds(k, c.blockBytes(WithAttestations(b, ar.attestorData)),
      c.blockBytes(WithAttestations(AppendAll(b, ars), ar.attestorData)))
    ensures RecoverPatch(c, AppendAll(b, ars), ar) == Some(c.address(k)) <==> |AppendAll(b, ars).signers| == 1
  {
    var r := AppendAll(b, ars);
    AppendAllShape(b, ars);
    var checked := WithAttestations(r, ar.attestorData);
    if |r.signers| == 1 {
      assert r.signers == b.signers;
      assert checked == WithAttestations(b, ar.attestorData);
    } else {
      assert |checked.signers| != |b.signers|;
    }
  }

  /** An instance: of two attestors' patches the second is recognised before the first is appended, and not after. */
  lemma SecondPatchIsNotRecognised(validator: Key, b: Block, first: Key, second: Key)
    requires b.signers == []
    ensures var c := PlainScheme();
      var signed := SignedByValidator(c, validator, b);
      var p, q := AttestorPatch(c, first, signed), AttestorPatch(c, second, signed);
      && RecoverPatch(c, signed, q) == Some(c.address(second))
      && RecoverPatch(c, Append(signed, p), q) != Some(c.address(second))
  {
    var c := PlainScheme();
    var signed := SignedByValidator(c, validator, b);
    var p, q := AttestorPatch(c, first, signed), AttestorPatch(c, second, signed);
    PlainSchemeIsSound();
    AttestorPatchIsPatch(c, first, signed);
    AttestorPatchIsPatch(c, second, signed);
    PatchRecoveredIffFirst(c, signed, [], second, q);
    PatchRecoveredIffFirst(c, signed, [p], second, q);
    assert [p][..0] == [];
  }

  // ---------- the functions as they run, on a block object ----------

  class BlockObject {
    var ts: uint64
    var attestToken: Bytes
    var txObjs: seq<TransactionObj>
    var signers: seq<Signer>
    var holes: bool                     // some attestation list ends in an undefined vote: serializing throws

    /** The block, leaving out undefined votes. */
    function Value(): Block
      reads this
    {
      Block(ts, attestToken, txObjs, signers)
    }

    constructor (b: Block)
      ensures Value() == b && !holes
    {
      ts, attestToken, txObjs, signers, holes := b.ts, b.attestToken, b.txObjs, b.signers, false;
    }

    /** `ok` is false when the check on the empty signers list throws. */
    method SignAsValidator(c: Scheme, wallet: Key) returns (ok: bool)
      modifies this
      ensures ok == (old(signers) == [])
      ensures Value() == if ok then SignedByValidator(c, wallet, old(Value())) else old(Value())
      ensures ok ==>
        && |txObjs| == |old(txObjs)|
        && (forall j | 0 <= j < |txObjs| ::
              txObjs[j] == TransactionObj(old(txObjs)[j].tx, Some(TxValidatorData(1, None)), []))
        && signers == [Signer(c.sign(wallet, c.blockBytes(Value().(signers := []))))]
      ensures holes == (old(holes) && !ok)
    {
      if |signers| != 0 {
        return false;
      }
      var i := 0;
      while i < |txObjs|
        invariant i <= |txObjs| == |old(txObjs)|
        invariant forall j | 0 <= j < i :: txObjs[j] == AcceptedByValidator(old(txObjs)[j])
        invariant forall j | i <= j < |txObjs| :: txObjs[j] == old(txObjs)[j]
        invariant ts == old(ts) && attestToken == old(attestToken) && signers == [] && holes == old(holes)
      {
        var txObj := txObjs[i].(validatorData := Some(TxValidatorData(ACCEPTED, None)));
        txObj := txObj.(attestorData := []);
        txObjs := txObjs[i := txObj];
        i := i + 1;
      }
      assert Value() == Voted(old(Value()));
      holes := false;                   // all attestation lists are cleared
      assert Value().(signers := []) == Value();
      signers := [Signer(c.sign(wallet, c.blockBytes(Value())))];
      return true;
    }

    /** Works on a clone; None when cloning or the check on the single signer throws. */
    method SignAsAttestor(c: Scheme, wallet: Key) returns (r: Option<AttestBlockResult>)
      ensures r == if |signers| == 1 && !holes then Some(AttestorPatch(c, wallet, Value())) else None
      ensures r.Some? ==> PatchBy(c, wallet, Value(), r.value)
      ensures r.Some? ==> |r.value.attestorData| == |txObjs| && forall d | d in r.value.attestorData :: d.vote == 1
    {
      AttestorPatchIsPatch(c, wallet, Value());
      if holes {
        return None;
      }
      var tmp := CloneByBytes(Value());
      if |signers| != 1 {
        return None;
      }
      var votes: seq<TxAttestorData> := [];
      var i := 0;
      while i < |tmp.txObjs|
        invariant i <= |tmp.txObjs| == |txObjs|
        invariant |votes| == i && forall j | 0 <= j < i :: votes[j] == TxAttestorData(ACCEPTED)
        invariant tmp == Value().(txObjs := tmp.txObjs)
        invariant forall j | 0 <= j < i :: tmp.txObjs[j] == txObjs[j].(attestorData := [TxAttestorData(ACCEPTED)])
        invariant forall j | i <= j < |txObjs| :: tmp.txObjs[j] == txObjs[j]
      {
        var attestorData := TxAttestorData(ACCEPTED);
        votes := votes + [attestorData];
        tmp := tmp.(txObjs := tmp.txObjs[i := tmp.txObjs[i].(attestorData := [attestorData])]);
        i := i + 1;
      }
      assert votes == seq(|txObjs|, _ => TxAttestorData(ACCEPTED));
      assert tmp == WithAttestations(Value(), votes);
      return Some(AttestBlockResult(votes, Signer(c.sign(wallet, c.blockBytes(tmp)))));
    }

    /** Transactions for which the patch has no vote get an undefined one. */
    method AppendPatch(ar: AttestBlockResult)
      modifies this
      ensures holes == (old(holes) || |ar.attestorData| < |old(txObjs)|)
      ensures |old(txObjs)| <= |ar.attestorData| ==> Value() == Append(old(Value()), ar)
      ensures signers == old(signers) + [ar.signer] && ts == old(ts) && attestToken == old(attestToken)
      ensures |txObjs| == |old(txObjs)| && forall j | 0 <= j < |txObjs| :: (txObjs[j] ==
        if j < |ar.attestorData| then WithVote(old(txObjs)[j], ar.attestorData[j]) else old(txObjs)[j])
    {
      for i := 0 to |txObjs|
        invariant |txObjs| == |old(txObjs)|
        invariant forall j | 0 <= j < i :: (txObjs[j] ==
          if j < |ar.attestorData| then WithVote(old(txObjs)[j], ar.attestorData[j]) else old(txObjs)[j])
        invariant forall j | i <= j < |txObjs| :: txObjs[j] == old(txObjs)[j]
        invariant ts == old(ts) && attestToken == old(attestToken) && signers == old(signers)
        invariant holes == (old(holes) || |ar.attestorData| < i)
      {
        if i < |ar.attestorData| {
          txObjs := txObjs[i := WithVote(txObjs[i], ar.attestorData[i])];
        } else {
          holes := true;
        }
      }
      signers := signers + [ar.signer];
    }

    /** Strips a clone down to what signer `signerIndex` signed, then recovers. */
    method RecoverSignerAddress(c: Scheme, signerIndex: nat) returns (r: Option<Bytes>)
      ensures r == if holes then None else RecoverSigner(c, Value(), signerIndex)
    {
      if signerIndex >= |signers| || holes {
        return None;
      }
      var tmp := CloneByBytes(Value());
      tmp := tmp.(signers := if signerIndex == 0 then [] else [signers[0]]);
      var txIndex := 0;
      while txIndex < |tmp.txObjs|
        invariant txIndex <= |tmp.txObjs| == |txObjs|
        invariant tmp == Value().(signers := tmp.signers, txObjs := tmp.txObjs)
        invariant tmp.signers == if signerIndex == 0 then [] else [signers[0]]
        invariant forall j | 0 <= j < txIndex :: signerIndex <= |txObjs[j].attestorData|
        invariant forall j | 0 <= j < txIndex :: tmp.txObjs[j] == txObjs[j].(attestorData :=
          if signerIndex == 0 then [] else [txObjs[j].attestorData[signerIndex - 1]])
        invariant forall j | txIndex <= j < |txObjs| :: tmp.txObjs[j] == txObjs[j]
      {
        if |txObjs[txIndex].attestorData| < signerIndex {
          assert txObjs[txIndex] in Value().txObjs;
          return None;
        }
        var kept := if signerIndex == 0 then [] else [txObjs[txIndex].attestorData[signerIndex - 1]];
        tmp := tmp.(txObjs := tmp.txObjs[txIndex := tmp.txObjs[txIndex].(attestorData := kept)]);
        txIndex := txIndex + 1;
      }
      assert tmp == SignedPart(Value(), signerIndex);
      return c.recover(c.blockBytes(tmp), signers[signerIndex].sig);
    }

    /** Puts the patch's votes into a clone that keeps every signer, then recovers; None when a vote is missing. */
    method RecoverPatchAddress(c: Scheme, ar: AttestBlockResult) returns (r: Option<Bytes>)
      ensures r == if holes then None else RecoverPatch(c, Value(), ar)
    {
      if holes {
        return None;
      }
      var tmp := CloneByBytes(Value());
      for txIndex := 0 to |txObjs|
        invariant txIndex <= |ar.attestorData| && |tmp.txObjs| == |txObjs|
        invariant tmp == Value().(txObjs := tmp.txObjs)
        invariant forall j | 0 <= j < txIndex :: tmp.txObjs[j] == txObjs[j].(attestorData := [ar.attestorData[j]])
        invariant forall j | txIndex <= j < |txObjs| :: tmp.txObjs[j] == txObjs[j]
      {
        if txIndex >= |ar.attestorData| {
          return None;
        }
        var vote := ar.attestorData[txIndex];
        tmp := tmp.(txObjs := tmp.txObjs[txIndex := tmp.txObjs[txIndex].(attestorData := [vote])]);
      }
      assert tmp == WithAttestations(Value(), ar.attestorData);
      return c.recover(c.blockBytes(tmp), ar.signer.sig);
    }

    /** Each attestor signs the one-signature block `signed`; its patch is appended here. */
    method AppendAttestations(c: Scheme, signed: BlockObject, attestors: seq<Key>)
      returns (ghost ars: seq<AttestBlockResult>)
      requires this != signed && Value() == signed.Value() && |signed.signers| == 1 && !holes && !signed.holes
      modifies this
      ensures !holes
      ensures PatchesBy(c, attestors, old(Value()), ars)
      ensures Value() == AppendAll(old(Value()), ars)
      ensures forall j, d | 0 <= j < |ars| && d in ars[j].attestorData :: d.vote == 1
    {
      hide WithAttestations;
      ars := [];
      for n := 0 to |attestors|
        invariant PatchesBy(c, attestors[..n], old(Value()), ars)
        invariant signed.Value() == old(Value()) && Value() == AppendAll(old(Value()), ars) && !holes
        invariant forall j, d | 0 <= j < |ars| && d in ars[j].attestorData :: d.vote == 1
      {
        var patch := signed.SignAsAttestor(c, attestors[n]);
        AppendPatch(patch.value);
        OneMorePatch(c, attestors[..n], old(Value()), ars, attestors[n], patch.value);
        assert attestors[..n] + [attestors[n]] == attestors[..n + 1];
        ars := ars + [patch.value];
      }
      assert attestors[..|attestors|] == attestors;
    }

    /** One validator and any attestors sign and patch this block; every signer is then recovered by its index. */
    method Assemble(c: Scheme, validator: Key, attestors: seq<Key>) returns (ghost ars: seq<AttestBlockResult>)
      requires c.Sound()
      requires signers == []
      modifies this
      ensures PatchesBy(c, attestors, SignedByValidator(c, validator, old(Value())), ars)
      ensures Value() == AppendAll(SignedByValidator(c, validator, old(Value())), ars)
      ensures forall j, d | 0 <= j < |ars| && d in ars[j].attestorData :: d.vote == 1
      ensures |signers| == 1 + |attestors| && !holes
      ensures RecoverSigner(c, Value(), 0) == Some(c.address(validator))
      ensures forall i | 1 <= i <= |attestors| :: RecoverSigner(c, Value(), i) == Some(c.address(attestors[i - 1]))
      ensures forall o | o in txObjs :: |o.attestorData| == |signers| - 1
    {
      var ok := SignAsValidator(c, validator);
      var signed := new BlockObject(Value());
      ars := AppendAttestations(c, signed, attestors);
      AttestationRoundTrip(c, validator, old(Value()), ars, attestors);
      AttestationsMatchSigners(c, validator, old(Value()), ars);
    }
  }
}
