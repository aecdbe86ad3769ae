/** The libraries that turn messages into bytes and sign them, as a value the theorems quantify over. */
module Crypto {
  import opened Bytes
  import opened Messages
  import opened Wire

  datatype Key = Key(secret: nat)

  /** A None or false result of `recover`, `pushAddrToEvmAddr` or the checks also stands for a thrown error. */
  datatype Scheme = Scheme(
    blockBytes: Block -> Bytes,                         // block.serializeBinary()
    txBytes: Transaction -> Bytes,                      // tx.serializeBinary()
    sign: (Key, Bytes) -> Bytes,                        // EthUtil.signBytes
    recover: (Bytes, Bytes) -> Option<Bytes>,           // address from (message, signature)
    address: Key -> Bytes,                              // the wallet's address text
    sha256: Bytes -> Bytes,
    lowerCase: Bytes -> Bytes,
    pushAddrToEvmAddr: Bytes -> Option<Bytes>,
    solanaVerify: (Bytes, Bytes, Bytes) -> bool,        // (address, message, signature)
    initDidCheck: Transaction -> bool)                  // the signature checks of an INIT_DID transaction
  {
    /** The serialization is the protobuf one. */
    ghost predicate Protobuf() {
      (forall b :: blockBytes(b) == EncodeBlock(b)) && (forall t :: txBytes(t) == EncodeTx(t))
    }

    ghost predicate Injective() {
      && (forall a, b :: blockBytes(a) == blockBytes(b) ==> a == b)
      && (forall a, b :: txBytes(a) == txBytes(b) ==> a == b)
    }

    /** Recovering from a signature yields the signer; a signature has at least the 65 bytes of an ECDSA one. */
    ghost predicate Sound() {
      forall k, m :: recover(m, sign(k, m)) == Some(address(k)) && |sign(k, m)| >= 65
    }

    /** The signature of k over m does not recover to k over m' unless the two are one message. */
    ghost predicate Binds(k: Key, m: Bytes, m': Bytes) {
      recover(m', sign(k, m)) == Some(address(k)) ==> m' == m
    }

    ghost predicate CollisionFree() {
      forall a, b :: sha256(a) == sha256(b) ==> a == b
    }
  }

  /** The protobuf serialization never maps two messages to the same bytes. */
  lemma ProtobufInjective(c: Scheme)
    requires c.Protobuf()
    ensures c.Injective()
  {
    forall a, b | c.blockBytes(a) == c.blockBytes(b) ensures a == b {
      BlockEncodingInjective(a, b);
    }
    forall a, b | c.txBytes(a) == c.txBytes(b) ensures a == b {
      TxEncodingInjective(a, b);
    }
  }

  // ---------- the assumptions hold together ----------

  function Zeros(n: nat): Bytes { seq(n, _ => 0) }

  // A signature that carries its key and its message.
  function PlainSign(k: Key, m: Bytes): Bytes { Zeros(65) + Varint(k.secret) + m }

  function PlainRecover(m: Bytes, sig: Bytes): Option<Bytes> {
    if |sig| < 65 then
      None
    else
      match ReadVarint(sig[65..])
      case ReadError => None
      case ReadOk(secret, rest) => if rest == m then Some(Varint(secret)) else None
  }

  ghost function PlainScheme(): Scheme {
    Scheme(EncodeBlock, EncodeTx, PlainSign, PlainRecover, (k: Key) => Varint(k.secret),
      (b: Bytes) => b, (b: Bytes) => b, (b: Bytes) => None,
      (a: Bytes, m: Bytes, s: Bytes) => false, (t: Transaction) => false)
  }

  lemma PlainRecovers(k: Key, m: Bytes, m': Bytes)
    ensures PlainRecover(m', PlainSign(k, m)) == if m' == m then Some(Varint(k.secret)) else None
  {
    assert PlainSign(k, m)[65..] == Varint(k.secret) + m;
    ReadVarintPrinted(k.secret, m);
  }

  /** PlainScheme meets every assumption the theorems make, with Binds for all keys and messages. */
  lemma {:induction false} PlainSchemeIsSound()
    ensures var c := PlainScheme();
      && c.Protobuf() && c.Injective() && c.Sound() && c.CollisionFree()
      && forall k: Key, m: Bytes, m': Bytes :: c.Binds(k, m, m')
  {
    var c := PlainScheme();
    forall k: Key, m: Bytes, m': Bytes ensures c.recover(m', c.sign(k, m)) ==
      if m' == m then Some(c.address(k)) else None
    {
      PlainRecovers(k, m, m');
    }
    ProtobufInjective(c);
  }

  /** The assumptions can hold together. */
  lemma AssumptionsHoldTogether()
    ensures exists c: Scheme ::
      && c.Protobuf() && c.Injective() && c.Sound() && c.CollisionFree()
      && forall k: Key, m: Bytes, m': Bytes :: c.Binds(k, m, m')
  {
    PlainSchemeIsSound();
    var c := PlainScheme();
    assert c.Protobuf() && c.Injective() && c.Sound() && c.CollisionFree();
  }
}
