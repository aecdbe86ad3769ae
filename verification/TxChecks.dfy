/** Transaction signatures and the per-transaction checks (blockUtil.ts, chainUtil.ts, pushSdkUtil.ts). */
module TxChecks {
  import opened Bytes
  import opened Messages
  import opened Crypto
  import opened MessageIO
  import BitUtil

  datatype CheckR = Ok | Fail(reason: Reason)

  datatype Reason =
    | BadToken | BadType | BadSender | BadRecipient | BadSalt | BadCaip | ShortSignature | BadSignature
    | BlockFull | BlockTooOld | EmptyTx | TxTooBig | BadValidatorData | TotalTooBig | NoSigners
    | AttestationCount | SignerCount | BadAttestorData | Unregistered | Thrown

  const INIT_DID: Bytes := [73, 78, 73, 84, 95, 68, 73, 68]
  const PUSH: Bytes := [112, 117, 115, 104]
  const EIP155: Bytes := [101, 105, 112, 49, 53, 53]
  const SOLANA: Bytes := [115, 111, 108, 97, 110, 97]
  const HEX_PREFIX: Bytes := [48, 120]
  const VAL_TOKEN_PREFIX: Bytes := [86, 84, 49]
  const ATT_TOKEN_PREFIX: Bytes := [65, 84, 49]
  const COLON: byte := 58

  // ---------- CAIP addresses ----------

  datatype Caip = Caip(namespace: Bytes, chainId: Option<Bytes>, addr: Bytes)

  function Split(s: Bytes): (parts: seq<Bytes>)
    ensures |parts| >= 1
    ensures forall p | p in parts :: COLON !in p
  {
    if s == [] then
      [[]]
    else
      var rest := Split(s[1..]);
      if s[0] == COLON then [[]] + rest else [[s[0]] + rest[0]] + rest[1..]
  }

  /** The length of the decoded string: one unit per character, two outside the basic plane. */
  function Utf16Length(s: Bytes): nat {
    if s == [] then
      0
    else
      (if 0x80 <= s[0] < 0xC0 then 0 else if s[0] >= 0xF0 then 2 else 1) + Utf16Length(s[1..])
  }

  predicate HasSize(s: Bytes, min: nat, max: nat) { min <= Utf16Length(s) <= max }

  function WithoutHexPrefix(addr: Bytes): Bytes {
    if StartsWith(addr, HEX_PREFIX) then addr[2..] else addr
  }

  /** None stands for the error text. */
  function ParseCaip(s: Bytes): Option<Caip> {
    var parts := Split(s);
    if |parts| == 3 && HasSize(parts[0], 1, 8) && HasSize(parts[1], 1, 32)
       && HasSize(WithoutHexPrefix(parts[2]), 4, 65) then
      Some(Caip(parts[0], Some(parts[1]), parts[2]))
    else if |parts| == 2 && HasSize(parts[0], 1, 8) && HasSize(WithoutHexPrefix(parts[1]), 4, 65) then
      Some(Caip(parts[0], None, parts[1]))
    else
      None
  }

  predicate IsFullCaip(s: Bytes) { ParseCaip(s).Some? && ParseCaip(s).value.chainId.Some? }

  function PrintCaip(c: Caip): Bytes {
    c.namespace + [COLON] + (if c.chainId.Some? then c.chainId.value + [COLON] else []) + c.addr
  }

  lemma {:induction false} SplitAtColon(head: Bytes, tail: Bytes)
    requires COLON !in head
    ensures Split(head + [COLON] + tail) == [head] + Split(tail)
  {
    var s := head + [COLON] + tail;
    if head == [] {
      assert s[1..] == tail;
    } else {
      SplitAtColon(head[1..], tail);
      assert s[1..] == head[1..] + [COLON] + tail;
      assert [s[0]] + head[1..] == head;
    }
  }

  lemma {:induction false} SplitPlain(s: Bytes)
    requires COLON !in s
    ensures Split(s) == [s]
  {
    if s != [] {
      SplitPlain(s[1..]);
      assert [s[0]] + s[1..] == s;
    }
  }

  lemma {:induction false} JoinSplit(s: Bytes)
    ensures Joined(Split(s)) == s
  {
    if s != [] {
      JoinSplit(s[1..]);
      var rest := Split(s[1..]);
      if s[0] == COLON {
        assert Split(s)[1..] == rest;
      } else {
        assert Split(s)[1..] == rest[1..];
      }
    }
  }

  function Joined(parts: seq<Bytes>): Bytes
    requires |parts| >= 1
  {
    if |parts| == 1 then parts[0] else parts[0] + [COLON] + Joined(parts[1..])
  }

  /** Parsing loses nothing: an accepted address is the printed form of what was parsed. */
  lemma PrintParsedCaip(s: Bytes)
    requires ParseCaip(s).Some?
    ensures PrintCaip(ParseCaip(s).value) == s
  {
    JoinSplit(s);
    var parts := Split(s);
    if |parts| == 3 {
      assert Joined(parts[1..]) == parts[1] + [COLON] + parts[2];
      assert Joined(parts) == parts[0] + [COLON] + (parts[1] + [COLON] + parts[2]);
    }
  }

  /** Two accepted texts with the same parts are the same text. */
  lemma ParseCaipInjective(a: Bytes, b: Bytes)
    requires ParseCaip(a).Some? && ParseCaip(a) == ParseCaip(b)
    ensures a == b
  {
    PrintParsedCaip(a);
    PrintParsedCaip(b);
  }

  /** A CAIP-10 address by its parts: colons only between them, and sizes of 1 to 8, 1 to 32, and 4 to 65 without 0x. */
  ghost predicate Address(s: Bytes, ns: Bytes, chain: Option<Bytes>, addr: Bytes) {
    && s == ns + [58] + (if chain.Some? then chain.value + [58] else []) + addr
    && 58 !in ns && (chain.Some? ==> 58 !in chain.value) && 58 !in addr
    && 1 <= Utf16Length(ns) <= 8 && (chain.Some? ==> 1 <= Utf16Length(chain.value) <= 32)
    && 4 <= Utf16Length(if |addr| >= 2 && addr[0] == 48 && addr[1] == 120 then addr[2..] else addr) <= 65
  }

  lemma SplitTwo(a: Bytes, b: Bytes)
    requires COLON !in a && COLON !in b
    ensures Split(a + [COLON] + b) == [a, b]
  {
    hide Split;
    SplitPlain(b);
    SplitAtColon(a, b);
  }

  lemma SplitThree(a: Bytes, b: Bytes, c: Bytes)
    requires COLON !in a && COLON !in b && COLON !in c
    ensures Split(a + [COLON] + (b + [COLON] + c)) == [a, b, c]
  {
    hide Split;
    SplitTwo(b, c);
    SplitAtColon(a, b + [COLON] + c);
  }

  lemma SplitOfAddress(s: Bytes, ns: Bytes, chain: Option<Bytes>, addr: Bytes)
    requires Address(s, ns, chain, addr)
    ensures Split(s) == [ns] + (if chain.Some? then [chain.value] else []) + [addr]
  {
    hide Utf16Length, Split;
    match chain {
      case None =>
        assert s == ns + [COLON] + addr;
        SplitTwo(ns, addr);
      case Some(id) =>
        assert s == ns + [COLON] + (id + [COLON] + addr);
        SplitThree(ns, id, addr);
    }
  }

  lemma WithoutPrefixIs(addr: Bytes)
    ensures WithoutHexPrefix(addr) == if |addr| >= 2 && addr[0] == 48 && addr[1] == 120 then addr[2..] else addr
  {
    if |addr| >= 2 {
      assert addr[..2] == [addr[0], addr[1]];
    }
  }

  /** Exactly the addresses parse, and to their own parts. */
  lemma {:induction false} ParseCaipIff(s: Bytes, ns: Bytes, chain: Option<Bytes>, addr: Bytes)
    ensures ParseCaip(s) == Some(Caip(ns, chain, addr)) <==> Address(s, ns, chain, addr)
  {
    WithoutPrefixIs(addr);
    if ParseCaip(s) == Some(Caip(ns, chain, addr)) {
      PrintParsedCaip(s);
      assert ns in Split(s) && addr in Split(s) && (chain.Some? ==> chain.value in Split(s));
      hide Utf16Length, Split, WithoutHexPrefix;
    } else if Address(s, ns, chain, addr) {
      SplitOfAddress(s, ns, chain, addr);
      hide Utf16Length, Split, WithoutHexPrefix;
    }
  }

  type CodePoint = n: int | 0 <= n < 0x110000

  /** The UTF-8 encoding of text, and its length in UTF-16 units. */
  function Utf8(text: seq<CodePoint>): Bytes {
    if text == [] then [] else Utf8Char(text[0]) + Utf8(text[1..])
  }

  function Utf8Char(c: CodePoint): Bytes {
    if c < 0x80 then [c]
    else if c < 0x800 then [0xC0 + c / 64, 0x80 + c % 64]
    else if c < 0x10000 then [0xE0 + c / 4096, 0x80 + c / 64 % 64, 0x80 + c % 64]
    else [0xF0 + c / 262144, 0x80 + c / 4096 % 64, 0x80 + c / 64 % 64, 0x80 + c % 64]
  }

  function Utf16Units(text: seq<CodePoint>): nat {
    if text == [] then 0 else (if text[0] < 0x10000 then 1 else 2) + Utf16Units(text[1..])
  }

  /** The length of a text is read off its bytes. */
  lemma {:induction false} Utf16LengthOfText(text: seq<CodePoint>)
    ensures Utf16Length(Utf8(text)) == Utf16Units(text)
  {
    if text != [] {
      Utf16LengthOfText(text[1..]);
      Utf16LengthAdds(Utf8Char(text[0]), Utf8(text[1..]));
      CharLength(text[0]);
    }
  }

  lemma CharLength(c: CodePoint)
    ensures Utf16Length(Utf8Char(c)) == if c < 0x10000 then 1 else 2
  {
    var s := Utf8Char(c);
    forall k | 0 <= k < |s| ensures Utf16Length(s[k..]) == Utf16Length(s[k + 1..]) +
      if 0x80 <= s[k] < 0xC0 then 0 else if s[k] >= 0xF0 then 2 else 1
    {
      assert s[k..][1..] == s[k + 1..];
    }
    assert s[0..] == s && s[|s|..] == [];
  }

  lemma {:induction false} Utf16LengthAdds(a: Bytes, b: Bytes)
    ensures Utf16Length(a + b) == Utf16Length(a) + Utf16Length(b)
  {
    if a == [] {
      assert a + b == b;
    } else {
      assert (a + b)[1..] == a[1..] + b;
      Utf16LengthAdds(a[1..], b);
    }
  }

  // ---------- transaction signatures ----------

  /** messageBytesToHashBytes: the text 0x... of the SHA-256 of the payload. */
  function HashBytes(c: Scheme, payload: Bytes): Bytes { HEX_PREFIX + BitUtil.BytesToBase16(c.sha256(payload)) }

  /** signTxEVM; None when the check on the empty signature throws. */
  function SignTx(c: Scheme, k: Key, tx: Transaction): Option<Transaction> {
    if tx.signature != [] then
      None
    else
      Some(tx.(signature := c.sign(k, HashBytes(c, c.txBytes(tx)))))
  }

  /** The message a signature is checked against. */
  function SignedMessage(c: Scheme, tx: Transaction): Bytes {
    HashBytes(c, c.txBytes(tx.(signature := [])))
  }

  /** How checkTxSignature obtains that message: serialize, read back, clear the signature, hash. */
  method MessageOfClone(c: Scheme, tx: Transaction) returns (message: Bytes)
    ensures message == SignedMessage(c, tx)
  {
    var bytes := SerializeTransaction(tx);
    var tmp := DeserializeFromReader(ApplyTx, EMPTY_TX, bytes);
    TxRoundTrip(tx);
    message := HashBytes(c, c.txBytes(tmp.value.(signature := [])));
  }

  function CheckNetworkSignature(c: Scheme, caip: Caip, message: Bytes, sig: Bytes): CheckR {
    if caip.namespace == PUSH then
      match (c.pushAddrToEvmAddr(caip.addr), c.recover(message, sig))
      case (Some(evm), Some(recovered)) =>
        if c.lowerCase(recovered) == c.lowerCase(evm) then Ok else Fail(BadSignature)
      case _ => Fail(Thrown)
    else if caip.namespace == EIP155 then
      match c.recover(message, sig)
      case Some(recovered) => if recovered == caip.addr then Ok else Fail(BadSignature)
      case None => Fail(Thrown)
    else if caip.namespace == SOLANA then
      if c.solanaVerify(caip.addr, message, sig) then Ok else Fail(BadSignature)
    else
      Fail(BadSignature)
  }

  function CheckTxSignature(c: Scheme, tx: Transaction): CheckR {
    match ParseCaip(tx.sender)
    case None => Fail(BadCaip)
    case Some(caip) =>
      if |tx.signature| < 4 then
        Fail(ShortSignature)
      else if tx.category == INIT_DID then
        if c.initDidCheck(tx) then Ok else Fail(BadSignature)
      else
        CheckNetworkSignature(c, caip, SignedMessage(c, tx), tx.signature)
  }

  /** The checked message depends on everything but the signature, and on nothing else. */
  lemma MessageIgnoresSignature(c: Scheme, a: Transaction, b: Transaction)
    ensures a.(signature := []) == b.(signature := []) ==> SignedMessage(c, a) == SignedMessage(c, b)
    ensures c.CollisionFree() && c.Injective() && SignedMessage(c, a) == SignedMessage(c, b) ==>
              a.(signature := []) == b.(signature := [])
  {
    var pa, pb := c.txBytes(a.(signature := [])), c.txBytes(b.(signature := []));
    if c.CollisionFree() && c.Injective() && SignedMessage(c, a) == SignedMessage(c, b) {
      HashBytesInjective(c, pa, pb);
    }
  }

  lemma HashBytesInjective(c: Scheme, a: Bytes, b: Bytes)
    requires c.CollisionFree()
    ensures HashBytes(c, a) == HashBytes(c, b) <==> a == b
  {
    var x, y := BitUtil.BytesToBase16(c.sha256(a)), BitUtil.BytesToBase16(c.sha256(b));
    assert (HEX_PREFIX + x)[2..] == x && (HEX_PREFIX + y)[2..] == y;
    BitUtil.HexInjective(c.sha256(a), c.sha256(b));
  }

  /** Sign, then check: a wallet's transaction passes iff the sender names that wallet. */
  lemma SignedTxAcceptedIffOwnSender(c: Scheme, k: Key, tx: Transaction)
    requires c.Sound()
    requires tx.signature == [] && tx.category != INIT_DID
    requires ParseCaip(tx.sender).Some? && ParseCaip(tx.sender).value.namespace == EIP155
    ensures SignTx(c, k, tx).Some?
    ensures CheckTxSignature(c, SignTx(c, k, tx).value).Ok? <==> ParseCaip(tx.sender).value.addr == c.address(k)
  {
    var signed := SignTx(c, k, tx).value;
    assert signed.(signature := []) == tx;
  }

  /** A signature carried over to another transaction of its author is accepted iff nothing else differs. */
  lemma SignatureNotTransferable(c: Scheme, k: Key, tx: Transaction, other: Transaction)
    requires c.Sound() && c.CollisionFree() && c.Injective()
    requires c.Binds(k, SignedMessage(c, tx), SignedMessage(c, other))
    requires tx.signature == [] && other.category != INIT_DID
    requires other.signature == SignTx(c, k, tx).value.signature
    requires ParseCaip(other.sender).Some?
    requires ParseCaip(other.sender).value.namespace == EIP155 && ParseCaip(other.sender).value.addr == c.address(k)
    ensures CheckTxSignature(c, other).Ok? <==> other.(signature := []) == tx
  {
    MessageIgnoresSignature(c, other, tx);
    assert tx.(signature := []) == tx;
    assert c.recover(SignedMessage(c, tx), other.signature) == Some(c.address(k));
  }

  // ---------- checkTx ----------

  predicate HasToken(token: Bytes, prefix: Bytes) { StartsWith(token, prefix) }

  /** checkTx in the order of its tests. checkTxPayload is not among them: it builds failures but returns ok. */
  function CheckTx(c: Scheme, tx: Transaction): CheckR {
    if !HasToken(tx.apiToken, VAL_TOKEN_PREFIX) then Fail(BadToken)
    else if tx.txType != 0 then Fail(BadType)
    else if !IsFullCaip(tx.sender) then Fail(BadSender)
    else if exists r | r in tx.recipients :: !IsFullCaip(r) then Fail(BadRecipient)
    else if |tx.salt| < 4 then Fail(BadSalt)
    else CheckTxSignature(c, tx)
  }

  /** The signature is right for an address of this namespace: the signed message is 0x and the hexadecimal SHA-256 of
      the transaction without its signature. */
  ghost predicate SignedFor(c: Scheme, tx: Transaction, ns: Bytes, addr: Bytes) {
    var message := [48, 120] + BitUtil.BytesToBase16(c.sha256(c.txBytes(tx.(signature := []))));
    if tx.category == [73, 78, 73, 84, 95, 68, 73, 68] then                             // INIT_DID
      c.initDidCheck(tx)
    else if ns == [112, 117, 115, 104] then                                             // push
      exists evm: Bytes, signer: Bytes ::
        && c.pushAddrToEvmAddr(addr) == Some(evm) && c.recover(message, tx.signature) == Some(signer)
        && c.lowerCase(signer) == c.lowerCase(evm)
    else if ns == [101, 105, 112, 49, 53, 53] then                                      // eip155
      c.recover(message, tx.signature) == Some(addr)
    else
      ns == [115, 111, 108, 97, 110, 97] && c.solanaVerify(addr, message, tx.signature) // solana
  }

  ghost predicate IsFullAddress(s: Bytes) { exists ns, chain, addr :: Address(s, ns, Some(chain), addr) }

  /** A transaction that may be in a block, by its own fields. */
  ghost predicate Acceptable(c: Scheme, tx: Transaction) {
    && |tx.apiToken| >= 3 && tx.apiToken[0] == 86 && tx.apiToken[1] == 84 && tx.apiToken[2] == 49      // VT1
    && tx.txType == 0
    && |tx.salt| >= 4 && |tx.signature| >= 4
    && (forall r | r in tx.recipients :: IsFullAddress(r))
    && exists ns, chain, addr :: Address(tx.sender, ns, Some(chain), addr) && SignedFor(c, tx, ns, addr)
  }

  lemma {:induction false} FullCaipIff(s: Bytes)
    ensures IsFullCaip(s) <==> IsFullAddress(s)
  {
    if IsFullCaip(s) {
      var p := ParseCaip(s).value;
      ParseCaipIff(s, p.namespace, p.chainId, p.addr);
      assert Address(s, p.namespace, Some(p.chainId.value), p.addr);
    }
    if IsFullAddress(s) {
      var ns, chain, addr :| Address(s, ns, Some(chain), addr);
      ParseCaipIff(s, ns, Some(chain), addr);
    }
  }

  lemma SignatureIff(c: Scheme, tx: Transaction, chain: Bytes, ns: Bytes, addr: Bytes)
    requires ParseCaip(tx.sender) == Some(Caip(ns, Some(chain), addr))
    ensures CheckTxSignature(c, tx).Ok? <==> |tx.signature| >= 4 && SignedFor(c, tx, ns, addr)
  {
    hide ParseCaip;
  }

  /** The checks pass for the acceptable transactions and for no others. */
  lemma {:induction false} CheckTxIff(c: Scheme, tx: Transaction)
    ensures CheckTx(c, tx).Ok? <==> Acceptable(c, tx)
  {
    hide ParseCaip, Address, SignedFor, CheckTxSignature;
    FullCaipIff(tx.sender);
    forall r | r in tx.recipients ensures IsFullCaip(r) <==> IsFullAddress(r) {
      FullCaipIff(r);
    }
    if IsFullAddress(tx.sender) {
      var p := ParseCaip(tx.sender).value;
      ParseCaipIff(tx.sender, p.namespace, p.chainId, p.addr);
      SignatureIff(c, tx, p.chainId.value, p.namespace, p.addr);
      forall ns, chain, addr | Address(tx.sender, ns, Some(chain), addr)
        ensures ns == p.namespace && chain == p.chainId.value && addr == p.addr
      {
        ParseCaipIff(tx.sender, ns, Some(chain), addr);
      }
    } else {
      assert !Acceptable(c, tx);
    }
  }
}
