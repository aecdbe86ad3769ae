/** The protobuf messages a block is made of, how each is written as records and how records are read back.
    Strings are carried as their UTF-8 bytes; a didMapping is carried as its serialized bytes. */
module Messages {
  import opened Bytes
  import opened Wire

  datatype Transaction = Transaction(
    txType: uint32, category: Bytes, sender: Bytes, recipients: seq<Bytes>,
    data: Bytes, salt: Bytes, apiToken: Bytes, signature: Bytes, fee: Bytes)

  datatype TxValidatorData = TxValidatorData(vote: int64, didMapping: Option<Bytes>)

  datatype TxAttestorData = TxAttestorData(vote: int64)

  datatype TransactionObj = TransactionObj(
    tx: Option<Transaction>, validatorData: Option<TxValidatorData>, attestorData: seq<TxAttestorData>)

  datatype Signer = Signer(sig: Bytes)

  datatype Block = Block(ts: uint64, attestToken: Bytes, txObjs: seq<TransactionObj>, signers: seq<Signer>)

  datatype AttestBlockResult = AttestBlockResult(attestorData: seq<TxAttestorData>, signer: Signer)

  const EMPTY_TX := Transaction(0, [], [], [], [], [], [], [], [])
  const EMPTY_VALIDATOR_DATA := TxValidatorData(0, None)
  const EMPTY_ATTESTOR_DATA := TxAttestorData(0)
  const EMPTY_TX_OBJ := TransactionObj(None, None, [])
  const EMPTY_SIGNER := Signer([])
  const EMPTY_BLOCK := Block(0, [], [], [])

  // ---------- what is written ----------

  // Numbers equal to the default and empty byte strings are not written.
  function NumberField(num: nat, v: nat): seq<Field> { if v == 0 then [] else [VarintField(num, v)] }

  function BytesField(num: nat, b: Bytes): seq<Field> { if b == [] then [] else [LenField(num, b)] }

  function RepeatedField(num: nat, bs: seq<Bytes>): seq<Field> {
    if bs == [] then [] else [LenField(num, bs[0])] + RepeatedField(num, bs[1..])
  }

  // An enum number is sign-extended to 64 bits.
  function EnumToWire(v: int64): uint64 { if v < 0 then v + TWO_64 else v }

  function EnumFromWire(n: nat): int64 { var m := n % TWO_64; if m < TWO_63 then m else m - TWO_64 }

  function MessageField(num: nat, b: Option<Bytes>): seq<Field> {
    match b case None => [] case Some(s) => [LenField(num, s)]
  }

  function Map<A, B>(f: A -> B, s: seq<A>): (r: seq<B>)
    ensures |r| == |s| && forall i | 0 <= i < |s| :: r[i] == f(s[i])
  {
    if s == [] then [] else [f(s[0])] + Map(f, s[1..])
  }

  lemma MapUnique<A, B>(f: A -> B, s: seq<A>, r: seq<B>)
    requires |r| == |s| && forall i | 0 <= i < |s| :: r[i] == f(s[i])
    ensures r == Map(f, s)
  {
  }

  function TxHeadFields(t: Transaction): seq<Field> {
    NumberField(1, t.txType) + BytesField(2, t.category) + BytesField(3, t.sender) + RepeatedField(4, t.recipients)
  }

  function TxFields(t: Transaction): seq<Field> {
    TxHeadFields(t) + BytesField(5, t.data) + BytesField(6, t.salt)
    + BytesField(7, t.apiToken) + BytesField(8, t.signature) + BytesField(9, t.fee)
  }

  function EncodeTx(t: Transaction): Bytes { PrintFields(TxFields(t)) }

  function ValidatorDataFields(d: TxValidatorData): seq<Field> {
    NumberField(1, EnumToWire(d.vote)) + MessageField(2, d.didMapping)
  }

  function EncodeValidatorData(d: TxValidatorData): Bytes { PrintFields(ValidatorDataFields(d)) }

  function EncodeAttestorData(d: TxAttestorData): Bytes { PrintFields(NumberField(1, EnumToWire(d.vote))) }

  function TxObjFields(o: TransactionObj): seq<Field> {
    MessageField(1, if o.tx.Some? then Some(EncodeTx(o.tx.value)) else None)
    + MessageField(2, if o.validatorData.Some? then Some(EncodeValidatorData(o.validatorData.value)) else None)
    + RepeatedField(3, Map(EncodeAttestorData, o.attestorData))
  }

  function EncodeTxObj(o: TransactionObj): Bytes { PrintFields(TxObjFields(o)) }

  function EncodeSigner(s: Signer): Bytes { PrintFields(BytesField(1, s.sig)) }

  // Field 4 is written between 1 and 2.
  function BlockFields(b: Block): seq<Field> {
    NumberField(1, b.ts) + BytesField(4, b.attestToken)
    + RepeatedField(2, Map(EncodeTxObj, b.txObjs)) + RepeatedField(3, Map(EncodeSigner, b.signers))
  }

  function EncodeBlock(b: Block): Bytes { PrintFields(BlockFields(b)) }

  // ---------- what is read: the switch of each reader loop ----------

  function ApplyTx(m: Transaction, f: Field): Option<Transaction> {
    match f.num
    case 1 => if f.VarintField? then Some(m.(txType := f.value % TWO_32)) else None
    case 2 => if f.LenField? then Some(m.(category := f.bytes)) else None
    case 3 => if f.LenField? then Some(m.(sender := f.bytes)) else None
    case 4 => if f.LenField? then Some(m.(recipients := m.recipients + [f.bytes])) else None
    case 5 => if f.LenField? then Some(m.(data := f.bytes)) else None
    case 6 => if f.LenField? then Some(m.(salt := f.bytes)) else None
    case 7 => if f.LenField? then Some(m.(apiToken := f.bytes)) else None
    case 8 => if f.LenField? then Some(m.(signature := f.bytes)) else None
    case 9 => if f.LenField? then Some(m.(fee := f.bytes)) else None
    case _ => Some(m)
  }

  function DecodeTx(s: Bytes): Option<Transaction> { Decode(ApplyTx, EMPTY_TX, s) }

  function ApplyValidatorData(m: TxValidatorData, f: Field): Option<TxValidatorData> {
    match f.num
    case 1 => if f.VarintField? then Some(m.(vote := EnumFromWire(f.value))) else None
    case 2 => if f.LenField? then Some(m.(didMapping := Some(f.bytes))) else None
    case _ => Some(m)
  }

  function DecodeValidatorData(s: Bytes): Option<TxValidatorData> {
    Decode(ApplyValidatorData, EMPTY_VALIDATOR_DATA, s)
  }

  function ApplyAttestorData(m: TxAttestorData, f: Field): Option<TxAttestorData> {
    match f.num
    case 1 => if f.VarintField? then Some(m.(vote := EnumFromWire(f.value))) else None
    case _ => Some(m)
  }

  function DecodeAttestorData(s: Bytes): Option<TxAttestorData> { Decode(ApplyAttestorData, EMPTY_ATTESTOR_DATA, s) }

  // A second tx or validatorData record replaces the first: every record starts from a new message.
  function ApplyTxObj(m: TransactionObj, f: Field): Option<TransactionObj> {
    match f.num
    case 1 =>
      if !f.LenField? then None else
      (match DecodeTx(f.bytes) case Some(v) => Some(m.(tx := Some(v))) case None => None)
    case 2 =>
      if !f.LenField? then None else
      (match DecodeValidatorData(f.bytes) case Some(v) => Some(m.(validatorData := Some(v))) case None => None)
    case 3 =>
      if !f.LenField? then None else
      (match DecodeAttestorData(f.bytes)
       case Some(v) => Some(m.(attestorData := m.attestorData + [v]))
       case None => None)
    case _ => Some(m)
  }

  function DecodeTxObj(s: Bytes): Option<TransactionObj> { Decode(ApplyTxObj, EMPTY_TX_OBJ, s) }

  function ApplySigner(m: Signer, f: Field): Option<Signer> {
    match f.num
    case 1 => if f.LenField? then Some(m.(sig := f.bytes)) else None
    case _ => Some(m)
  }

  function DecodeSigner(s: Bytes): Option<Signer> { Decode(ApplySigner, EMPTY_SIGNER, s) }

  function ApplyBlock(m: Block, f: Field): Option<Block> {
    match f.num
    case 1 => if f.VarintField? then Some(m.(ts := f.value % TWO_64)) else None
    case 4 => if f.LenField? then Some(m.(attestToken := f.bytes)) else None
    case 2 =>
      if !f.LenField? then None else
      (match DecodeTxObj(f.bytes) case Some(v) => Some(m.(txObjs := m.txObjs + [v])) case None => None)
    case 3 =>
      if !f.LenField? then None else
      (match DecodeSigner(f.bytes) case Some(v) => Some(m.(signers := m.signers + [v])) case None => None)
    case _ => Some(m)
  }

  function DecodeBlock(s: Bytes): Option<Block> { Decode(ApplyBlock, EMPTY_BLOCK, s) }

  /** The clone idiom: `deserializeBinary(x.serializeBinary())`. */
  function CloneBlock(b: Block): Option<Block> { DecodeBlock(EncodeBlock(b)) }

  function CloneTx(t: Transaction): Option<Transaction> { DecodeTx(EncodeTx(t)) }

  // ---------- round trips ----------

  lemma FoldOne<M>(apply: (M, Field) -> Option<M>, m: M, f: Field)
    ensures Fold(apply, m, [f]) == apply(m, f)
  {
    assert [f][1..] == [];
  }

  lemma RepeatedPrintable(num: nat, bs: seq<Bytes>)
    ensures forall f | f in RepeatedField(num, bs) :: f.Printable()
  {
  }

  /** A repeated field is read back in order, for any message type whose reader adds one element per record. */
  lemma {:induction false} FoldRepeated<M(!new), A(!new)>(
      apply: (M, Field) -> Option<M>, add: (M, seq<A>) -> M, num: nat, enc: A -> Bytes, m: M, elems: seq<A>)
    requires forall m: M, a: A :: apply(m, LenField(num, enc(a))) == Some(add(m, [a]))
    requires forall m: M, a: A, s: seq<A> :: add(add(m, [a]), s) == add(m, [a] + s)
    requires forall m: M :: add(m, []) == m
    ensures Fold(apply, m, RepeatedField(num, Map(enc, elems))) == Some(add(m, elems))
    decreases |elems|
  {
    if elems != [] {
      var f := LenField(num, enc(elems[0]));
      FoldRepeated(apply, add, num, enc, add(m, [elems[0]]), elems[1..]);
      FoldOne(apply, m, f);
      FoldConcat(apply, m, [f], RepeatedField(num, Map(enc, elems[1..])), add(m, [elems[0]]));
      assert Map(enc, elems)[1..] == Map(enc, elems[1..]);
      assert [elems[0]] + elems[1..] == elems;
    }
  }

  // Each step: the records of one field set that field and nothing else.
  lemma TxStep(m: Transaction, num: nat, b: Bytes)
    requires num in {2, 3, 5, 6, 7, 8, 9}
    ensures var r := Fold(ApplyTx, m, BytesField(num, b));
      if b == [] then r == Some(m) else r == ApplyTx(m, LenField(num, b))
  {
    FoldOne(ApplyTx, m, LenField(num, b));
  }

  lemma TxRecipients(m: Transaction, rs: seq<Bytes>)
    ensures Fold(ApplyTx, m, RepeatedField(4, rs)) == Some(m.(recipients := m.recipients + rs))
  {
    var add := (m: Transaction, rs: seq<Bytes>) => m.(recipients := m.recipients + rs);
    forall m: Transaction ensures add(m, []) == m { assert m.recipients + [] == m.recipients; }
    forall m: Transaction, a: Bytes, s: seq<Bytes> ensures add(add(m, [a]), s) == add(m, [a] + s) {
      assert (m.recipients + [a]) + s == m.recipients + ([a] + s);
    }
    FoldRepeated(ApplyTx, add, 4, (b: Bytes) => b, m, rs);
    assert Map((b: Bytes) => b, rs) == rs;
  }

  // Fields 1 to 4, then 5 to 9.
  lemma TxHeadFold(t: Transaction)
    ensures Fold(ApplyTx, EMPTY_TX, TxHeadFields(t))
         == Some(Transaction(t.txType, t.category, t.sender, t.recipients, [], [], [], [], []))
  {
    var m1 := EMPTY_TX.(txType := t.txType);
    var m2 := m1.(category := t.category);
    var m3 := m2.(sender := t.sender);
    var f1 := NumberField(1, t.txType);
    var f2 := f1 + BytesField(2, t.category);
    var f3 := f2 + BytesField(3, t.sender);
    FoldOne(ApplyTx, EMPTY_TX, VarintField(1, t.txType));
    FoldConcat(ApplyTx, EMPTY_TX, f1, BytesField(2, t.category), m1);
    TxStep(m1, 2, t.category);
    FoldConcat(ApplyTx, EMPTY_TX, f2, BytesField(3, t.sender), m2);
    TxStep(m2, 3, t.sender);
    FoldConcat(ApplyTx, EMPTY_TX, f3, RepeatedField(4, t.recipients), m3);
    TxRecipients(m3, t.recipients);
    assert m3.recipients + t.recipients == t.recipients;
  }

  lemma TxFold(t: Transaction)
    ensures Fold(ApplyTx, EMPTY_TX, TxFields(t)) == Some(t)
  {
    var m4 := Transaction(t.txType, t.category, t.sender, t.recipients, [], [], [], [], []);
    var m5 := m4.(data := t.data);
    var m6 := m5.(salt := t.salt);
    var m7 := m6.(apiToken := t.apiToken);
    var m8 := m7.(signature := t.signature);
    var f4 := TxHeadFields(t);
    var f5 := f4 + BytesField(5, t.data);
    var f6 := f5 + BytesField(6, t.salt);
    var f7 := f6 + BytesField(7, t.apiToken);
    var f8 := f7 + BytesField(8, t.signature);
    TxHeadFold(t);
    FoldConcat(ApplyTx, EMPTY_TX, f4, BytesField(5, t.data), m4);
    TxStep(m4, 5, t.data);
    FoldConcat(ApplyTx, EMPTY_TX, f5, BytesField(6, t.salt), m5);
    TxStep(m5, 6, t.salt);
    FoldConcat(ApplyTx, EMPTY_TX, f6, BytesField(7, t.apiToken), m6);
    TxStep(m6, 7, t.apiToken);
    FoldConcat(ApplyTx, EMPTY_TX, f7, BytesField(8, t.signature), m7);
    TxStep(m7, 8, t.signature);
    FoldConcat(ApplyTx, EMPTY_TX, f8, BytesField(9, t.fee), m8);
    TxStep(m8, 9, t.fee);
  }

  lemma TxRoundTrip(t: Transaction)
    ensures CloneTx(t) == Some(t)
  {
    RepeatedPrintable(4, t.recipients);
    ParsePrinted(TxFields(t));
    TxFold(t);
  }

  lemma EnumRoundTrip(v: int64)
    ensures EnumFromWire(EnumToWire(v)) == v && (EnumToWire(v) == 0 <==> v == 0)
  {
  }

  lemma ValidatorDataRoundTrip(d: TxValidatorData)
    ensures DecodeValidatorData(EncodeValidatorData(d)) == Some(d)
  {
    var n := EnumToWire(d.vote);
    EnumRoundTrip(d.vote);
    ParsePrinted(ValidatorDataFields(d));
    var m1 := EMPTY_VALIDATOR_DATA.(vote := d.vote);
    FoldOne(ApplyValidatorData, EMPTY_VALIDATOR_DATA, VarintField(1, n));
    FoldConcat(ApplyValidatorData, EMPTY_VALIDATOR_DATA, NumberField(1, n), MessageField(2, d.didMapping), m1);
    if d.didMapping.Some? {
      FoldOne(ApplyValidatorData, m1, LenField(2, d.didMapping.value));
    }
  }

  lemma AttestorDataRoundTrip(d: TxAttestorData)
    ensures DecodeAttestorData(EncodeAttestorData(d)) == Some(d)
  {
    var n := EnumToWire(d.vote);
    EnumRoundTrip(d.vote);
    ParsePrinted(NumberField(1, n));
    FoldOne(ApplyAttestorData, EMPTY_ATTESTOR_DATA, VarintField(1, n));
  }

  lemma SignerRoundTrip(s: Signer)
    ensures DecodeSigner(EncodeSigner(s)) == Some(s)
  {
    ParsePrinted(BytesField(1, s.sig));
    FoldOne(ApplySigner, EMPTY_SIGNER, LenField(1, s.sig));
  }

  lemma TxObjAttestations(m: TransactionObj, ds: seq<TxAttestorData>)
    ensures Fold(ApplyTxObj, m, RepeatedField(3, Map(EncodeAttestorData, ds)))
         == Some(m.(attestorData := m.attestorData + ds))
  {
    var add := (m: TransactionObj, ds: seq<TxAttestorData>) => m.(attestorData := m.attestorData + ds);
    forall m: TransactionObj ensures add(m, []) == m { assert m.attestorData + [] == m.attestorData; }
    forall m: TransactionObj, a: TxAttestorData
      ensures ApplyTxObj(m, LenField(3, EncodeAttestorData(a))) == Some(add(m, [a]))
    {
      AttestorDataRoundTrip(a);
    }
    forall m: TransactionObj, a: TxAttestorData, s: seq<TxAttestorData>
      ensures add(add(m, [a]), s) == add(m, [a] + s)
    {
      assert (m.attestorData + [a]) + s == m.attestorData + ([a] + s);
    }
    FoldRepeated(ApplyTxObj, add, 3, EncodeAttestorData, m, ds);
  }

  lemma TxObjTx(m: TransactionObj, t: Transaction)
    ensures Fold(ApplyTxObj, m, [LenField(1, EncodeTx(t))]) == Some(m.(tx := Some(t)))
  {
    TxRoundTrip(t);
    FoldOne(ApplyTxObj, m, LenField(1, EncodeTx(t)));
  }

  lemma TxObjValidatorData(m: TransactionObj, d: TxValidatorData)
    ensures Fold(ApplyTxObj, m, [LenField(2, EncodeValidatorData(d))]) == Some(m.(validatorData := Some(d)))
  {
    ValidatorDataRoundTrip(d);
    FoldOne(ApplyTxObj, m, LenField(2, EncodeValidatorData(d)));
  }

  lemma TxObjFold(o: TransactionObj)
    ensures Fold(ApplyTxObj, EMPTY_TX_OBJ, TxObjFields(o)) == Some(o)
  {
    var f1 := MessageField(1, if o.tx.Some? then Some(EncodeTx(o.tx.value)) else None);
    var f2 := MessageField(2, if o.validatorData.Some? then Some(EncodeValidatorData(o.validatorData.value)) else None);
    var f3 := RepeatedField(3, Map(EncodeAttestorData, o.attestorData));
    var m1 := EMPTY_TX_OBJ.(tx := o.tx);
    var m2 := m1.(validatorData := o.validatorData);
    assert Fold(ApplyTxObj, EMPTY_TX_OBJ, f1) == Some(m1) by {
      if o.tx.Some? { TxObjTx(EMPTY_TX_OBJ, o.tx.value); }
    }
    assert Fold(ApplyTxObj, m1, f2) == Some(m2) by {
      if o.validatorData.Some? { TxObjValidatorData(m1, o.validatorData.value); }
    }
    assert Fold(ApplyTxObj, m2, f3) == Some(o) by {
      TxObjAttestations(m2, o.attestorData);
      assert m2.attestorData + o.attestorData == o.attestorData;
    }
    FoldConcat(ApplyTxObj, EMPTY_TX_OBJ, f1, f2, m1);
    FoldConcat(ApplyTxObj, EMPTY_TX_OBJ, f1 + f2, f3, m2);
  }

  lemma TxObjRoundTrip(o: TransactionObj)
    ensures DecodeTxObj(EncodeTxObj(o)) == Some(o)
  {
    RepeatedPrintable(3, Map(EncodeAttestorData, o.attestorData));
    ParsePrinted(TxObjFields(o));
    TxObjFold(o);
  }

  lemma BlockTxObjs(m: Block, os: seq<TransactionObj>)
    ensures Fold(ApplyBlock, m, RepeatedField(2, Map(EncodeTxObj, os))) == Some(m.(txObjs := m.txObjs + os))
  {
    var add := (m: Block, os: seq<TransactionObj>) => m.(txObjs := m.txObjs + os);
    forall m: Block ensures add(m, []) == m { assert m.txObjs + [] == m.txObjs; }
    forall m: Block, a: TransactionObj ensures ApplyBlock(m, LenField(2, EncodeTxObj(a))) == Some(add(m, [a])) {
      TxObjRoundTrip(a);
    }
    forall m: Block, a: TransactionObj, s: seq<TransactionObj> ensures add(add(m, [a]), s) == add(m, [a] + s) {
      assert (m.txObjs + [a]) + s == m.txObjs + ([a] + s);
    }
    FoldRepeated(ApplyBlock, add, 2, EncodeTxObj, m, os);
  }

  lemma BlockSigners(m: Block, ss: seq<Signer>)
    ensures Fold(ApplyBlock, m, RepeatedField(3, Map(EncodeSigner, ss))) == Some(m.(signers := m.signers + ss))
  {
    var add := (m: Block, ss: seq<Signer>) => m.(signers := m.signers + ss);
    forall m: Block ensures add(m, []) == m { assert m.signers + [] == m.signers; }
    forall m: Block, a: Signer ensures ApplyBlock(m, LenField(3, EncodeSigner(a))) == Some(add(m, [a])) {
      SignerRoundTrip(a);
    }
    forall m: Block, a: Signer, s: seq<Signer> ensures add(add(m, [a]), s) == add(m, [a] + s) {
      assert (m.signers + [a]) + s == m.signers + ([a] + s);
    }
    FoldRepeated(ApplyBlock, add, 3, EncodeSigner, m, ss);
  }

  lemma BlockTsAndToken(b: Block)
    ensures Fold(ApplyBlock, EMPTY_BLOCK, NumberField(1, b.ts)) == Some(EMPTY_BLOCK.(ts := b.ts))
    ensures Fold(ApplyBlock, EMPTY_BLOCK.(ts := b.ts), BytesField(4, b.attestToken))
         == Some(Block(b.ts, b.attestToken, [], []))
  {
    FoldOne(ApplyBlock, EMPTY_BLOCK, VarintField(1, b.ts));
    FoldOne(ApplyBlock, EMPTY_BLOCK.(ts := b.ts), LenField(4, b.attestToken));
  }

  lemma BlockFold(b: Block)
    ensures Fold(ApplyBlock, EMPTY_BLOCK, BlockFields(b)) == Some(b)
  {
    var f1 := NumberField(1, b.ts);
    var f4 := BytesField(4, b.attestToken);
    var f2 := RepeatedField(2, Map(EncodeTxObj, b.txObjs));
    var f3 := RepeatedField(3, Map(EncodeSigner, b.signers));
    var m1 := EMPTY_BLOCK.(ts := b.ts);
    var m2 := Block(b.ts, b.attestToken, [], []);
    var m3 := Block(b.ts, b.attestToken, b.txObjs, []);
    BlockTsAndToken(b);
    assert Fold(ApplyBlock, m2, f2) == Some(m3) by {
      BlockTxObjs(m2, b.txObjs);
      assert m2.txObjs + b.txObjs == b.txObjs;
    }
    assert Fold(ApplyBlock, m3, f3) == Some(b) by {
      BlockSigners(m3, b.signers);
      assert m3.signers + b.signers == b.signers;
    }
    FoldConcat(ApplyBlock, EMPTY_BLOCK, f1, f4, m1);
    FoldConcat(ApplyBlock, EMPTY_BLOCK, f1 + f4, f2, m2);
    FoldConcat(ApplyBlock, EMPTY_BLOCK, f1 + f4 + f2, f3, m3);
  }

  // ---------- the bytes of each message ----------

  /** A record with a tag below 128 and some bytes. */
  function Chunk(tag: byte, b: Bytes): Bytes { [tag] + (Varint(|b|) + b) }

  function OptionalChunk(tag: byte, b: Bytes): Bytes { if |b| == 0 then [] else Chunk(tag, b) }

  function OptionalNumber(tag: byte, n: nat): Bytes { if n == 0 then [] else [tag] + Varint(n) }

  function Chunks(tag: byte, bs: seq<Bytes>): Bytes {
    if |bs| == 0 then [] else Chunk(tag, bs[0]) + Chunks(tag, bs[1..])
  }

  lemma {:induction false} FieldsAreChunks(num: nat, n: nat, b: Bytes, bs: seq<Bytes>)
    requires num < 16
    ensures PrintFields(NumberField(num, n)) == OptionalNumber(8 * num, n)
    ensures PrintFields(BytesField(num, b)) == OptionalChunk(8 * num + 2, b)
    ensures PrintFields(MessageField(num, Some(b))) == Chunk(8 * num + 2, b)
    ensures PrintFields(MessageField(num, None)) == []
    ensures PrintFields(RepeatedField(num, bs)) == Chunks(8 * num + 2, bs)
    decreases |bs|
  {
    RecordFormat(num, n, b);
    assert PrintFields([]) == [];
    PrintOne(VarintField(num, n));
    PrintOne(LenField(num, b));
    if bs != [] {
      RecordFormat(num, n, bs[0]);
      FieldsAreChunks(num, n, b, bs[1..]);
      PrintConcat([LenField(num, bs[0])], RepeatedField(num, bs[1..]));
      PrintOne(LenField(num, bs[0]));
    }
  }

  lemma PrintOne(f: Field)
    ensures PrintFields([f]) == PrintField(f)
  {
    assert [f][1..] == [];
  }

  /** The bytes of a transaction: nine fields in order, empty ones left out. */
  lemma {:induction false} TxBytes(t: Transaction)
    ensures EncodeTx(t) ==
      OptionalNumber(8, t.txType) + OptionalChunk(18, t.category) + OptionalChunk(26, t.sender)
      + Chunks(34, t.recipients) + OptionalChunk(42, t.data) + OptionalChunk(50, t.salt)
      + OptionalChunk(58, t.apiToken) + OptionalChunk(66, t.signature) + OptionalChunk(74, t.fee)
  {
    hide PrintFields, OptionalNumber, OptionalChunk, Chunks, NumberField, BytesField, RepeatedField, MessageField;
    FieldsAreChunks(1, t.txType, [], []);
    FieldsAreChunks(2, 0, t.category, []);
    FieldsAreChunks(3, 0, t.sender, []);
    FieldsAreChunks(4, 0, [], t.recipients);
    FieldsAreChunks(5, 0, t.data, []);
    FieldsAreChunks(6, 0, t.salt, []);
    FieldsAreChunks(7, 0, t.apiToken, []);
    FieldsAreChunks(8, 0, t.signature, []);
    FieldsAreChunks(9, 0, t.fee, []);
    var f1 := NumberField(1, t.txType);
    var f2 := f1 + BytesField(2, t.category);
    var f3 := f2 + BytesField(3, t.sender);
    var f4 := f3 + RepeatedField(4, t.recipients);
    var f5 := f4 + BytesField(5, t.data);
    var f6 := f5 + BytesField(6, t.salt);
    var f7 := f6 + BytesField(7, t.apiToken);
    var f8 := f7 + BytesField(8, t.signature);
    PrintConcat(f1, BytesField(2, t.category));
    PrintConcat(f2, BytesField(3, t.sender));
    PrintConcat(f3, RepeatedField(4, t.recipients));
    PrintConcat(f4, BytesField(5, t.data));
    PrintConcat(f5, BytesField(6, t.salt));
    PrintConcat(f6, BytesField(7, t.apiToken));
    PrintConcat(f7, BytesField(8, t.signature));
    PrintConcat(f8, BytesField(9, t.fee));
  }

  /** An enum number on the wire: a negative one is its 64-bit two's complement. */
  function Vote64(v: int64): nat { if v < 0 then 0x1_0000_0000_0000_0000 + v else v }

  /** The bytes of votes and of a signer. */
  lemma {:induction false} VoteBytes(d: TxValidatorData, a: TxAttestorData, s: Signer)
    ensures EncodeValidatorData(d) == OptionalNumber(8, Vote64(d.vote))
      + (if d.didMapping.Some? then Chunk(18, d.didMapping.value) else [])
    ensures EncodeAttestorData(a) == OptionalNumber(8, Vote64(a.vote))
    ensures EncodeSigner(s) == OptionalChunk(10, s.sig)
  {
    hide PrintFields, OptionalNumber, OptionalChunk, NumberField, BytesField, MessageField;
    FieldsAreChunks(1, EnumToWire(d.vote), [], []);
    FieldsAreChunks(1, EnumToWire(a.vote), s.sig, []);
    FieldsAreChunks(2, 0, if d.didMapping.Some? then d.didMapping.value else [], []);
    PrintConcat(NumberField(1, EnumToWire(d.vote)), MessageField(2, d.didMapping));
  }

  /** The bytes of a transaction object: its nested messages, each as long as it says. */
  lemma {:induction false} TxObjBytes(o: TransactionObj)
    ensures EncodeTxObj(o) ==
      (if o.tx.Some? then Chunk(10, EncodeTx(o.tx.value)) else [])
      + (if o.validatorData.Some? then Chunk(18, EncodeValidatorData(o.validatorData.value)) else [])
      + Chunks(26, Map(EncodeAttestorData, o.attestorData))
  {
    hide PrintFields, Chunks, RepeatedField, MessageField, EncodeTx, EncodeValidatorData, Map;
    var f1 := MessageField(1, if o.tx.Some? then Some(EncodeTx(o.tx.value)) else None);
    var f2 := MessageField(2, if o.validatorData.Some? then Some(EncodeValidatorData(o.validatorData.value)) else None);
    var f3 := RepeatedField(3, Map(EncodeAttestorData, o.attestorData));
    FieldsAreChunks(1, 0, if o.tx.Some? then EncodeTx(o.tx.value) else [], []);
    FieldsAreChunks(2, 0, if o.validatorData.Some? then EncodeValidatorData(o.validatorData.value) else [], []);
    FieldsAreChunks(3, 0, [], Map(EncodeAttestorData, o.attestorData));
    PrintConcat(f1, f2);
    PrintConcat(f1 + f2, f3);
  }

  /** The bytes of a block, whose field 4 comes second. */
  lemma {:induction false} BlockBytes(b: Block)
    ensures EncodeBlock(b) == OptionalNumber(8, b.ts) + OptionalChunk(34, b.attestToken)
      + Chunks(18, Map(EncodeTxObj, b.txObjs)) + Chunks(26, Map(EncodeSigner, b.signers))
  {
    hide PrintFields, OptionalNumber, OptionalChunk, Chunks, NumberField, BytesField, RepeatedField, Map;
    var f1 := NumberField(1, b.ts);
    var f4 := f1 + BytesField(4, b.attestToken);
    var f2 := f4 + RepeatedField(2, Map(EncodeTxObj, b.txObjs));
    FieldsAreChunks(1, b.ts, [], []);
    FieldsAreChunks(4, 0, b.attestToken, []);
    FieldsAreChunks(2, 0, [], Map(EncodeTxObj, b.txObjs));
    FieldsAreChunks(3, 0, [], Map(EncodeSigner, b.signers));
    PrintConcat(f1, BytesField(4, b.attestToken));
    PrintConcat(f4, RepeatedField(2, Map(EncodeTxObj, b.txObjs)));
    PrintConcat(f2, RepeatedField(3, Map(EncodeSigner, b.signers)));
  }

  /** What any bytes of a known field read as: numbers modulo 2^32 or 2^64, votes as signed 64-bit numbers, the last of
      several values of a field that is not repeated. */
  lemma {:induction false} ReadNumbers(n: nat, m: nat, a: Bytes, b: Bytes)
    ensures DecodeTx([8] + Varint(n)) == Some(EMPTY_TX.(txType := n % 0x1_0000_0000))
    ensures DecodeBlock([8] + Varint(n)) == Some(EMPTY_BLOCK.(ts := n % 0x1_0000_0000_0000_0000))
    ensures DecodeAttestorData([8] + Varint(n)) == Some(TxAttestorData(
      var v := n % 0x1_0000_0000_0000_0000; if v >= 0x8000_0000_0000_0000 then v - 0x1_0000_0000_0000_0000 else v))
    ensures DecodeSigner(Chunk(10, a) + Chunk(10, b)) == Some(Signer(b))
  {
    hide PrintFields;
    var f := VarintField(1, n);
    RecordFormat(1, n, a);
    RecordFormat(1, n, b);
    PrintOne(f);
    assert Varint(8) == [8] && Varint(10) == [10];
    ParsePrinted([f]);
    FoldOne(ApplyTx, EMPTY_TX, f);
    FoldOne(ApplyBlock, EMPTY_BLOCK, f);
    FoldOne(ApplyAttestorData, EMPTY_ATTESTOR_DATA, f);
    var x, y := LenField(1, a), LenField(1, b);
    PrintOne(x);
    PrintOne(y);
    PrintConcat([x], [y]);
    ParsePrinted([x] + [y]);
    FoldOne(ApplySigner, EMPTY_SIGNER, x);
    FoldOne(ApplySigner, Signer(a), y);
    FoldConcat(ApplySigner, EMPTY_SIGNER, [x], [y], Signer(a));
  }

  /** Deserialize after serialize is the identity on every block. */
  lemma BlockRoundTrip(b: Block)
    ensures CloneBlock(b) == Some(b)
  {
    RepeatedPrintable(2, Map(EncodeTxObj, b.txObjs));
    RepeatedPrintable(3, Map(EncodeSigner, b.signers));
    ParsePrinted(BlockFields(b));
    BlockFold(b);
  }

  /** Different blocks never share their bytes, hence never the message that gets signed. */
  lemma BlockEncodingInjective(a: Block, b: Block)
    ensures EncodeBlock(a) == EncodeBlock(b) <==> a == b
  {
    BlockRoundTrip(a);
    BlockRoundTrip(b);
  }

  lemma TxEncodingInjective(a: Transaction, b: Transaction)
    ensures EncodeTx(a) == EncodeTx(b) <==> a == b
  {
    TxRoundTrip(a);
    TxRoundTrip(b);
  }

  // ---------- records a newer program adds ----------

  const TX_FIELDS: set<nat> := {1, 2, 3, 4, 5, 6, 7, 8, 9}
  const VALIDATOR_DATA_FIELDS: set<nat> := {1, 2}
  const ATTESTOR_DATA_FIELDS: set<nat> := {1}
  const TX_OBJ_FIELDS: set<nat> := {1, 2, 3}
  const SIGNER_FIELDS: set<nat> := {1}
  const BLOCK_FIELDS: set<nat> := {1, 2, 3, 4}

  predicate AllPrintable(fs: seq<Field>) { forall f | f in fs :: f.Printable() }

  /** A reader of any of the messages skips every record whose number it does not know, wherever it stands. */
  lemma UnknownFieldsSkipped(fs: seq<Field>)
    requires AllPrintable(fs)
    ensures DecodeTx(PrintFields(fs)) == DecodeTx(PrintFields(Known(fs, TX_FIELDS)))
    ensures DecodeValidatorData(PrintFields(fs)) == DecodeValidatorData(PrintFields(Known(fs, VALIDATOR_DATA_FIELDS)))
    ensures DecodeAttestorData(PrintFields(fs)) == DecodeAttestorData(PrintFields(Known(fs, ATTESTOR_DATA_FIELDS)))
    ensures DecodeTxObj(PrintFields(fs)) == DecodeTxObj(PrintFields(Known(fs, TX_OBJ_FIELDS)))
    ensures DecodeSigner(PrintFields(fs)) == DecodeSigner(PrintFields(Known(fs, SIGNER_FIELDS)))
    ensures DecodeBlock(PrintFields(fs)) == DecodeBlock(PrintFields(Known(fs, BLOCK_FIELDS)))
  {
    hide Decode, Known;
    DecodeSkips(ApplyTx, EMPTY_TX, fs, TX_FIELDS);
    DecodeSkips(ApplyValidatorData, EMPTY_VALIDATOR_DATA, fs, VALIDATOR_DATA_FIELDS);
    DecodeSkips(ApplyAttestorData, EMPTY_ATTESTOR_DATA, fs, ATTESTOR_DATA_FIELDS);
    DecodeSkips(ApplyTxObj, EMPTY_TX_OBJ, fs, TX_OBJ_FIELDS);
    DecodeSkips(ApplySigner, EMPTY_SIGNER, fs, SIGNER_FIELDS);
    DecodeSkips(ApplyBlock, EMPTY_BLOCK, fs, BLOCK_FIELDS);
  }

  /** A transaction, a vote or a signer with added records reads as the one without them. */
  lemma LeafWithExtensions(fs: seq<Field>, t: Transaction, v: TxValidatorData, a: TxAttestorData, s: Signer)
    requires AllPrintable(fs)
    ensures Known(fs, TX_FIELDS) == TxFields(t) ==> DecodeTx(PrintFields(fs)) == Some(t)
    ensures Known(fs, VALIDATOR_DATA_FIELDS) == ValidatorDataFields(v) ==>
      DecodeValidatorData(PrintFields(fs)) == Some(v)
    ensures Known(fs, ATTESTOR_DATA_FIELDS) == NumberField(1, EnumToWire(a.vote)) ==>
      DecodeAttestorData(PrintFields(fs)) == Some(a)
    ensures Known(fs, SIGNER_FIELDS) == BytesField(1, s.sig) ==> DecodeSigner(PrintFields(fs)) == Some(s)
  {
    UnknownFieldsSkipped(fs);
    TxRoundTrip(t);
    ValidatorDataRoundTrip(v);
    AttestorDataRoundTrip(a);
    SignerRoundTrip(s);
  }

  /** The records of a transaction object are the same up to what their nested messages read as. */
  predicate TxObjAlike(f: Field, g: Field) {
    f == g || (f.LenField? && g.LenField? && f.num == g.num
      && (|| (f.num == 1 && DecodeTx(f.bytes) == DecodeTx(g.bytes))
          || (f.num == 2 && DecodeValidatorData(f.bytes) == DecodeValidatorData(g.bytes))
          || (f.num == 3 && DecodeAttestorData(f.bytes) == DecodeAttestorData(g.bytes))))
  }

  predicate BlockAlike(f: Field, g: Field) {
    f == g || (f.LenField? && g.LenField? && f.num == g.num
      && (|| (f.num == 2 && DecodeTxObj(f.bytes) == DecodeTxObj(g.bytes))
          || (f.num == 3 && DecodeSigner(f.bytes) == DecodeSigner(g.bytes))))
  }

  predicate AllAlike(alike: (Field, Field) -> bool, fs: seq<Field>, gs: seq<Field>) {
    |fs| == |gs| && forall i | 0 <= i < |fs| :: alike(fs[i], gs[i])
  }

  lemma TxObjAlikeApplies(m: TransactionObj, f: Field, g: Field)
    requires TxObjAlike(f, g)
    ensures ApplyTxObj(m, f) == ApplyTxObj(m, g)
  {
    hide DecodeTx, DecodeValidatorData, DecodeAttestorData;
  }

  lemma BlockAlikeApplies(m: Block, f: Field, g: Field)
    requires BlockAlike(f, g)
    ensures ApplyBlock(m, f) == ApplyBlock(m, g)
  {
    hide DecodeTxObj, DecodeSigner;
  }

  /** Records may be added to a transaction object and inside its transaction, its validator data and its votes. */
  lemma TxObjWithExtensions(o: TransactionObj, fs: seq<Field>)
    requires AllPrintable(fs)
    requires AllAlike(TxObjAlike, Known(fs, TX_OBJ_FIELDS), TxObjFields(o))
    ensures DecodeTxObj(PrintFields(fs)) == Some(o)
  {
    var known, own := Known(fs, TX_OBJ_FIELDS), TxObjFields(o);
    DecodeSkips(ApplyTxObj, EMPTY_TX_OBJ, fs, TX_OBJ_FIELDS);
    TxObjFold(o);
    hide ApplyTxObj, TxObjFields, TxObjAlike, Known;
    forall m: TransactionObj, i | 0 <= i < |known| ensures ApplyTxObj(m, known[i]) == ApplyTxObj(m, own[i]) {
      TxObjAlikeApplies(m, known[i], own[i]);
    }
    FoldAlike(ApplyTxObj, EMPTY_TX_OBJ, known, own);
  }

  /** Forward compatibility: records a newer peer adds to a serialized block, or to the messages nested in it at any
      depth, do not change what is read. */
  lemma BlockWithExtensions(b: Block, fs: seq<Field>)
    requires AllPrintable(fs)
    requires AllAlike(BlockAlike, Known(fs, BLOCK_FIELDS), BlockFields(b))
    ensures DecodeBlock(PrintFields(fs)) == Some(b)
  {
    var known, own := Known(fs, BLOCK_FIELDS), BlockFields(b);
    DecodeSkips(ApplyBlock, EMPTY_BLOCK, fs, BLOCK_FIELDS);
    BlockFold(b);
    hide ApplyBlock, BlockFields, BlockAlike, Known;
    forall m: Block, i | 0 <= i < |known| ensures ApplyBlock(m, known[i]) == ApplyBlock(m, own[i]) {
      BlockAlikeApplies(m, known[i], own[i]);
    }
    FoldAlike(ApplyBlock, EMPTY_BLOCK, known, own);
  }
}
