/** The protobuf wire format ("Encoding" guide: Base 128 Varints, Length-Delimited Records):
    a printer and a parser for lists of field records, and the proof that they are inverse. */
module Wire {
  import opened Bytes

  /** One record of an encoded message. An end-group tag has no payload. */
  datatype Field =
    | VarintField(num: nat, value: nat)
    | Fixed64Field(num: nat, bytes: Bytes)
    | LenField(num: nat, bytes: Bytes)
    | Fixed32Field(num: nat, bytes: Bytes)
    | EndGroup(num: nat)
  {
    predicate Printable() {
      match this
      case VarintField(_, _) => true
      case Fixed64Field(_, b) => |b| == 8
      case LenField(_, _) => true
      case Fixed32Field(_, b) => |b| == 4
      case EndGroup(_) => false
    }
  }

  datatype Read<+T> = ReadOk(value: T, rest: Bytes) | ReadError

  // ---------- varints ----------

  function Varint(n: nat): Bytes {
    if n < 128 then [n] else [128 + n % 128] + Varint(n / 128)
  }

  function ReadVarint(s: Bytes): (r: Read<nat>)
    ensures r.ReadOk? ==> |r.rest| < |s|
  {
    if s == [] then
      ReadError
    else if s[0] < 128 then
      ReadOk(s[0], s[1..])
    else
      match ReadVarint(s[1..])
      case ReadOk(high, rest) => ReadOk(s[0] - 128 + 128 * high, rest)
      case ReadError => ReadError
  }

  lemma {:induction false} ReadVarintPrinted(n: nat, tail: Bytes)
    ensures ReadVarint(Varint(n) + tail) == ReadOk(n, tail)
  {
    if n < 128 {
      assert ([n] + tail)[1..] == tail;
    } else {
      var s := Varint(n) + tail;
      assert s[1..] == Varint(n / 128) + tail;
      ReadVarintPrinted(n / 128, tail);
    }
  }

  /** The number the bytes stand for: seven bits each, the lowest first. */
  function SevenBits(s: Bytes): nat { if s == [] then 0 else s[0] % 128 + 128 * SevenBits(s[1..]) }

  /** A varint has the continuation bit on all its bytes but the last, no useless byte, and the value of its groups. */
  lemma {:induction false} VarintFormat(n: nat)
    ensures (var s := Varint(n);
      && |s| > 0 && s[|s| - 1] < 128 && (forall i | 0 <= i < |s| - 1 :: s[i] >= 128)
      && SevenBits(s) == n && (|s| > 1 ==> s[|s| - 1] > 0))
  {
    var s := Varint(n);
    if n >= 128 {
      VarintFormat(n / 128);
      assert s[1..] == Varint(n / 128);
    } else {
      assert s[1..] == [];
    }
  }

  // ---------- records ----------

  function WireType(f: Field): nat {
    match f
    case VarintField(_, _) => 0
    case Fixed64Field(_, _) => 1
    case LenField(_, _) => 2
    case EndGroup(_) => 4
    case Fixed32Field(_, _) => 5
  }

  function Payload(f: Field): Bytes {
    match f
    case VarintField(_, v) => Varint(v)
    case Fixed64Field(_, b) => b
    case LenField(_, b) => Varint(|b|) + b
    case EndGroup(_) => []
    case Fixed32Field(_, b) => b
  }

  function PrintField(f: Field): Bytes {
    Varint(f.num * 8 + WireType(f)) + Payload(f)
  }

  function Take(s: Bytes, n: nat): (r: Read<Bytes>)
    ensures r.ReadOk? ==> |r.rest| <= |s|
  {
    if n <= |s| then ReadOk(s[..n], s[n..]) else ReadError
  }

  function ReadPayload(num: nat, wireType: nat, s: Bytes): (r: Read<Field>)
    ensures r.ReadOk? ==> |r.rest| <= |s|
  {
    if wireType == 0 then
      match ReadVarint(s)
      case ReadOk(v, rest) => ReadOk(VarintField(num, v), rest)
      case ReadError => ReadError
    else if wireType == 1 then
      match Take(s, 8)
      case ReadOk(b, rest) => ReadOk(Fixed64Field(num, b), rest)
      case ReadError => ReadError
    else if wireType == 2 then
      match ReadVarint(s)
      case ReadOk(len, rest) =>
        (match Take(rest, len)
         case ReadOk(b, rest') => ReadOk(LenField(num, b), rest')
         case ReadError => ReadError)
      case ReadError => ReadError
    else if wireType == 4 then
      ReadOk(EndGroup(num), s)
    else if wireType == 5 then
      match Take(s, 4)
      case ReadOk(b, rest) => ReadOk(Fixed32Field(num, b), rest)
      case ReadError => ReadError
    else
      ReadError
  }

  /** What one `nextField` plus the read or skip of its payload consumes. */
  function ReadField(s: Bytes): (r: Read<Field>)
    ensures r.ReadOk? ==> |r.rest| < |s|
  {
    match ReadVarint(s)
    case ReadOk(tag, rest) => ReadPayload(tag / 8, tag % 8, rest)
    case ReadError => ReadError
  }

  lemma ReadPayloadPrinted(f: Field, tail: Bytes)
    requires f.Printable()
    ensures ReadPayload(f.num, WireType(f), Payload(f) + tail) == ReadOk(f, tail)
  {
    match f {
      case VarintField(_, v) => ReadVarintPrinted(v, tail);
      case LenField(_, b) =>
        assert Payload(f) + tail == Varint(|b|) + (b + tail);
        ReadVarintPrinted(|b|, b + tail);
        assert (b + tail)[..|b|] == b && (b + tail)[|b|..] == tail;
      case Fixed64Field(_, b) => assert (b + tail)[..8] == b && (b + tail)[8..] == tail;
      case Fixed32Field(_, b) => assert (b + tail)[..4] == b && (b + tail)[4..] == tail;
    }
  }

  lemma ReadFieldPrinted(f: Field, tail: Bytes)
    requires f.Printable()
    ensures ReadField(PrintField(f) + tail) == ReadOk(f, tail)
  {
    var tag := f.num * 8 + WireType(f);
    var payload := Payload(f) + tail;
    assert PrintField(f) + tail == Varint(tag) + payload;
    assert tag / 8 == f.num && tag % 8 == WireType(f);
    ReadPayloadPrinted(f, tail);
    ReadVarintPrinted(tag, payload);
  }

  // ---------- whole messages ----------

  function PrintFields(fs: seq<Field>): Bytes {
    if fs == [] then [] else PrintField(fs[0]) + PrintFields(fs[1..])
  }

  /** All records up to the end of the buffer or the first end-group tag. */
  function ParseFields(s: Bytes): Option<seq<Field>>
    decreases |s|
  {
    if s == [] then
      Some([])
    else
      match ReadField(s)
      case ReadError => None
      case ReadOk(f, rest) =>
        if f.EndGroup? then
          Some([])
        else
          match ParseFields(rest)
          case Some(fs) => Some([f] + fs)
          case None => None
  }

  lemma {:induction false} ParsePrinted(fs: seq<Field>)
    requires forall f | f in fs :: f.Printable()
    ensures ParseFields(PrintFields(fs)) == Some(fs)
  {
    if fs != [] {
      ReadFieldPrinted(fs[0], PrintFields(fs[1..]));
      ParsePrinted(fs[1..]);
      assert [fs[0]] + fs[1..] == fs;
    }
  }

  lemma {:induction false} PrintConcat(a: seq<Field>, b: seq<Field>)
    ensures PrintFields(a + b) == PrintFields(a) + PrintFields(b)
  {
    if a == [] {
      assert a + b == b;
    } else {
      assert (a + b)[1..] == a[1..] + b;
      PrintConcat(a[1..], b);
    }
  }

  /** The bytes of each kind of record: the tag is eight times the number plus 0, 1, 2 or 5. */
  lemma RecordFormat(num: nat, value: nat, b: Bytes)
    ensures PrintField(VarintField(num, value)) == Varint(8 * num) + Varint(value)
    ensures PrintField(Fixed64Field(num, b)) == Varint(8 * num + 1) + b
    ensures PrintField(LenField(num, b)) == Varint(8 * num + 2) + (Varint(|b|) + b)
    ensures PrintField(Fixed32Field(num, b)) == Varint(8 * num + 5) + b
  {
  }

  lemma ReadTag(num: nat, wireType: nat, rest: Bytes)
    requires wireType < 8
    ensures ReadField(Varint(8 * num + wireType) + rest) == ReadPayload(num, wireType, rest)
    ensures |Varint(8 * num + wireType) + rest| > 0
  {
    hide ReadPayload;
    ReadVarintPrinted(8 * num + wireType, rest);
    VarintFormat(8 * num + wireType);
  }

  /** An end-group tag ends the message, whatever follows it. Wire types 3, 6 and 7 make it unreadable, and so does a
      record that is cut short. */
  lemma {:induction false} MessageEnds(fs: seq<Field>, num: nat, wireType: nat, tail: Bytes, len: nat)
    requires forall f | f in fs :: f.Printable()
    ensures wireType == 4 ==> ParseFields(PrintFields(fs) + (Varint(8 * num + wireType) + tail)) == Some(fs)
    ensures wireType in {3, 6, 7} ==> ParseFields(PrintFields(fs) + (Varint(8 * num + wireType) + tail)) == None
    ensures len > |tail| ==> ParseFields(PrintFields(fs) + (Varint(8 * num + 2) + (Varint(len) + tail))) == None
  {
    hide Varint, PrintFields, ReadVarint;
    var last, cut := Varint(8 * num + wireType) + tail, Varint(8 * num + 2) + (Varint(len) + tail);
    ParseAfter(fs, last);
    ParseAfter(fs, cut);
    assert fs + [] == fs;
    if wireType < 8 {
      ReadTag(num, wireType, tail);
    }
    ReadTag(num, 2, Varint(len) + tail);
    ReadVarintPrinted(len, tail);
  }

  lemma ParseOne(f: Field, rest: Bytes)
    requires f.Printable()
    ensures ParseFields(PrintField(f) + rest) ==
      match ParseFields(rest) case Some(fs) => Some([f] + fs) case None => None
  {
    VarintFormat(f.num * 8 + WireType(f));
    assert |PrintField(f)| > 0;
    hide PrintField;
    ReadFieldPrinted(f, rest);
  }

  lemma {:induction false} ParseAfter(fs: seq<Field>, bytes: Bytes)
    requires forall f | f in fs :: f.Printable()
    ensures ParseFields(PrintFields(fs) + bytes) ==
      match ParseFields(bytes) case Some(more) => Some(fs + more) case None => None
  {
    hide PrintField, ParseFields;
    if fs == [] {
      assert PrintFields(fs) + bytes == bytes;
      assert forall more: seq<Field> :: [] + more == more;
    } else {
      var rest := PrintFields(fs[1..]) + bytes;
      assert PrintFields(fs) + bytes == PrintField(fs[0]) + rest;
      ParseOne(fs[0], rest);
      ParseAfter(fs[1..], bytes);
      if ParseFields(bytes).Some? {
        assert [fs[0]] + (fs[1..] + ParseFields(bytes).value) == fs + ParseFields(bytes).value;
      }
    }
  }

  // ---------- interpreting records ----------

  /** The reader loop of a generated message class: apply each record in order, stop on a failure. */
  function Fold<M>(apply: (M, Field) -> Option<M>, m: M, fs: seq<Field>): Option<M> {
    if fs == [] then
      Some(m)
    else
      match apply(m, fs[0])
      case Some(m') => Fold(apply, m', fs[1..])
      case None => None
  }

  lemma {:induction false} FoldConcat<M>(apply: (M, Field) -> Option<M>, m: M, a: seq<Field>, b: seq<Field>, mid: M)
    requires Fold(apply, m, a) == Some(mid)
    ensures Fold(apply, m, a + b) == Fold(apply, mid, b)
  {
    if a == [] {
      assert a + b == b;
    } else {
      assert (a + b)[0] == a[0] && (a + b)[1..] == a[1..] + b;
      FoldConcat(apply, apply(m, a[0]).value, a[1..], b, mid);
    }
  }

  function Decode<M>(apply: (M, Field) -> Option<M>, empty: M, s: Bytes): Option<M> {
    match ParseFields(s)
    case Some(fs) => Fold(apply, empty, fs)
    case None => None
  }

  /** Records that `apply` ignores may be added anywhere without changing what is read. */
  lemma {:induction false} FoldSkips<M(!new)>(apply: (M, Field) -> Option<M>, m: M, fs: seq<Field>, known: set<nat>)
    requires forall m: M, f: Field | f.num !in known :: apply(m, f) == Some(m)
    ensures Fold(apply, m, fs) == Fold(apply, m, Known(fs, known))
  {
    if fs != [] {
      var rest := Known(fs[1..], known);
      if fs[0].num !in known {
        assert Known(fs, known) == rest;
      } else {
        assert Known(fs, known)[0] == fs[0] && Known(fs, known)[1..] == rest;
      }
      match apply(m, fs[0]) {
        case Some(m') => FoldSkips(apply, m', fs[1..], known);
        case None =>
      }
    }
  }

  function Known(fs: seq<Field>, known: set<nat>): seq<Field> {
    if fs == [] then [] else (if fs[0].num in known then [fs[0]] else []) + Known(fs[1..], known)
  }

  lemma KnownPrintable(fs: seq<Field>, known: set<nat>)
    requires forall f | f in fs :: f.Printable()
    ensures forall f | f in Known(fs, known) :: f.Printable()
  {
  }

  /** What is read depends on the records with known numbers only, for any kind of message. */
  lemma DecodeSkips<M(!new)>(apply: (M, Field) -> Option<M>, empty: M, fs: seq<Field>, known: set<nat>)
    requires forall f | f in fs :: f.Printable()
    requires forall m: M, f: Field | f.num !in known :: apply(m, f) == Some(m)
    ensures Decode(apply, empty, PrintFields(fs)) == Decode(apply, empty, PrintFields(Known(fs, known)))
    ensures Decode(apply, empty, PrintFields(fs)) == Fold(apply, empty, Known(fs, known))
  {
    KnownPrintable(fs, known);
    ParsePrinted(fs);
    ParsePrinted(Known(fs, known));
    FoldSkips(apply, empty, fs, known);
  }

  /** Records that do the same to every message may stand for each other. */
  lemma {:induction false} FoldAlike<M(!new)>(
      apply: (M, Field) -> Option<M>, m: M, fs: seq<Field>, gs: seq<Field>)
    requires |fs| == |gs|
    requires forall m: M, i | 0 <= i < |fs| :: apply(m, fs[i]) == apply(m, gs[i])
    ensures Fold(apply, m, fs) == Fold(apply, m, gs)
  {
    if fs != [] {
      match apply(m, fs[0]) {
        case Some(m') =>
          forall n: M, i | 0 <= i < |fs[1..]| ensures apply(n, fs[1..][i]) == apply(n, gs[1..][i]) {
            assert fs[1..][i] == fs[i + 1] && gs[1..][i] == gs[i + 1];
          }
          FoldAlike(apply, m', fs[1..], gs[1..]);
        case None =>
          assert apply(m, gs[0]) == None;
      }
    }
  }
}
