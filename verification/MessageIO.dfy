/** The generated message classes as they run: one reader loop over `nextField`, and writers that append
    to a buffer, both proved against the record-level definitions in Messages. */
module MessageIO {
  import opened Bytes
  import opened Wire
  import opened Messages

  /** `deserializeBinaryFromReader`; `apply` is the message's switch. None is a thrown error. */
  method DeserializeFromReader<M>(apply: (M, Field) -> Option<M>, empty: M, bytes: Bytes) returns (r: Option<M>)
    ensures r == Decode(apply, empty, bytes)
  {
    var msg, rest := empty, bytes;
    while rest != []
      invariant Decode(apply, msg, rest) == Decode(apply, empty, bytes)
      decreases |rest|
    {
      var next := ReadField(rest);
      if next.ReadError? {
        return None;
      }
      if next.value.EndGroup? {
        break;
      }
      var applied := apply(msg, next.value);
      if applied.None? {
        return None;
      }
      msg, rest := applied.value, next.rest;
    }
    return Some(msg);
  }

  class Writer {
    var buffer: Bytes
    ghost var fields: seq<Field>

    ghost predicate Valid()
      reads this
    {
      buffer == PrintFields(fields)
    }

    constructor ()
      ensures Valid() && fields == []
    {
      buffer, fields := [], [];
    }

    method Append(f: Field)
      requires Valid()
      modifies this
      ensures Valid() && fields == old(fields) + [f]
    {
      PrintConcat(fields, [f]);
      assert PrintFields([f]) == PrintField(f) + PrintFields([]);
      buffer := buffer + PrintField(f);
      fields := fields + [f];
    }

    // `if (f !== 0) writer.writeUint64(num, f)` and the other number writers.
    method WriteNumber(num: nat, v: nat)
      requires Valid()
      modifies this
      ensures Valid() && fields == old(fields) + NumberField(num, v)
    {
      if v != 0 {
        Append(VarintField(num, v));
      }
    }

    method WriteBytes(num: nat, b: Bytes)
      requires Valid()
      modifies this
      ensures Valid() && fields == old(fields) + BytesField(num, b)
    {
      if |b| > 0 {
        Append(LenField(num, b));
      }
    }

    method WriteMessage(num: nat, b: Option<Bytes>)
      requires Valid()
      modifies this
      ensures Valid() && fields == old(fields) + MessageField(num, b)
    {
      if b.Some? {
        Append(LenField(num, b.value));
      }
    }

    method WriteRepeated(num: nat, bs: seq<Bytes>)
      requires Valid()
      modifies this
      ensures Valid() && fields == old(fields) + RepeatedField(num, bs)
    {
      hide PrintFields;
      var i := 0;
      while i < |bs|
        invariant i <= |bs|
        invariant Valid() && fields + RepeatedField(num, bs[i..]) == old(fields) + RepeatedField(num, bs)
      {
        var before := fields;
        Append(LenField(num, bs[i]));
        assert bs[i..][0] == bs[i] && bs[i..][1..] == bs[i + 1..];
        assert fields + RepeatedField(num, bs[i + 1..]) == before + RepeatedField(num, bs[i..]);
        i := i + 1;
      }
    }
  }

  method SerializeTransaction(t: Transaction) returns (bytes: Bytes)
    ensures bytes == EncodeTx(t)
  {
    hide NumberField, BytesField, RepeatedField, PrintFields;
    var w := new Writer();
    w.WriteNumber(1, t.txType);
    w.WriteBytes(2, t.category);
    w.WriteBytes(3, t.sender);
    w.WriteRepeated(4, t.recipients);
    assert w.fields == TxHeadFields(t);
    w.WriteBytes(5, t.data);
    w.WriteBytes(6, t.salt);
    w.WriteBytes(7, t.apiToken);
    w.WriteBytes(8, t.signature);
    w.WriteBytes(9, t.fee);
    assert w.fields == TxFields(t);
    bytes := w.buffer;
  }

  method SerializeValidatorData(d: TxValidatorData) returns (bytes: Bytes)
    ensures bytes == EncodeValidatorData(d)
  {
    var w := new Writer();
    w.WriteNumber(1, EnumToWire(d.vote));
    w.WriteMessage(2, d.didMapping);
    assert w.fields == ValidatorDataFields(d);
    bytes := w.buffer;
  }

  method SerializeTransactionObj(o: TransactionObj) returns (bytes: Bytes)
    ensures bytes == EncodeTxObj(o)
  {
    var tx, validatorData := None, None;
    if o.tx.Some? {
      var b := SerializeTransaction(o.tx.value);
      tx := Some(b);
    }
    if o.validatorData.Some? {
      var b := SerializeValidatorData(o.validatorData.value);
      validatorData := Some(b);
    }
    bytes := WriteTransactionObj(tx, validatorData, Map(EncodeAttestorData, o.attestorData));
  }

  // The three field writes, given the serialized sub-messages.
  method WriteTransactionObj(tx: Option<Bytes>, validatorData: Option<Bytes>, attestorData: seq<Bytes>)
    returns (bytes: Bytes)
    ensures bytes == PrintFields(MessageField(1, tx) + MessageField(2, validatorData) + RepeatedField(3, attestorData))
  {
    hide MessageField, RepeatedField, PrintFields;
    var w := new Writer();
    w.WriteMessage(1, tx);
    w.WriteMessage(2, validatorData);
    w.WriteRepeated(3, attestorData);
    assert w.fields == MessageField(1, tx) + MessageField(2, validatorData) + RepeatedField(3, attestorData);
    bytes := w.buffer;
  }

  method SerializeTransactionObjs(os: seq<TransactionObj>) returns (bs: seq<Bytes>)
    ensures |bs| == |os| && forall j | 0 <= j < |os| :: bs[j] == EncodeTxObj(os[j])
  {
    hide EncodeTxObj;
    bs := [];
    for i := 0 to |os|
      invariant |bs| == i && forall j | 0 <= j < i :: bs[j] == EncodeTxObj(os[j])
    {
      var b := SerializeTransactionObj(os[i]);
      bs := bs + [b];
    }
  }

  method WriteBlock(ts: nat, attestToken: Bytes, txs: seq<Bytes>, signers: seq<Bytes>) returns (bytes: Bytes)
    ensures bytes == PrintFields(
      NumberField(1, ts) + BytesField(4, attestToken) + RepeatedField(2, txs) + RepeatedField(3, signers))
  {
    hide NumberField, BytesField, RepeatedField, PrintFields;
    var w := new Writer();
    w.WriteNumber(1, ts);
    w.WriteBytes(4, attestToken);
    w.WriteRepeated(2, txs);
    w.WriteRepeated(3, signers);
    assert w.fields ==
      NumberField(1, ts) + BytesField(4, attestToken) + RepeatedField(2, txs) + RepeatedField(3, signers);
    bytes := w.buffer;
  }

  /** `serializeBinary` of a block. */
  method SerializeBlock(b: Block) returns (bytes: Bytes)
    ensures bytes == EncodeBlock(b)
  {
    var txs := SerializeTransactionObjs(b.txObjs);
    MapUnique(EncodeTxObj, b.txObjs, txs);
    bytes := WriteBlock(b.ts, b.attestToken, txs, Map(EncodeSigner, b.signers));
  }

  /** The clone idiom, run: serialize, then read the bytes back. It always succeeds and copies exactly. */
  method CloneByBytes(b: Block) returns (copy: Block)
    ensures copy == b
  {
    var bytes := SerializeBlock(b);
    var r := DeserializeFromReader(ApplyBlock, EMPTY_BLOCK, bytes);
    BlockRoundTrip(b);
    copy := r.value;
  }
}
