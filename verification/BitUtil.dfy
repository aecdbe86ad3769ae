/** Bit positions of a shard mask and the hexadecimal form in which raw blocks travel (bitUtil.ts). */
module BitUtil {
  import opened Bytes

  // ---------- bitsToPositions ----------

  function Pow2(n: nat): (r: nat)
    ensures r > 0
  {
    if n == 0 then 1 else 2 * Pow2(n - 1)
  }

  function SumOfPowers(ps: seq<nat>): nat {
    if ps == [] then 0 else SumOfPowers(ps[..|ps| - 1]) + Pow2(ps[|ps| - 1])
  }

  /** n >>> k */
  function Shift(n: nat, k: nat): nat { if k == 0 then n else Shift(n, k - 1) / 2 }

  predicate Bit(n: nat, k: nat) { Shift(n, k) % 2 == 1 }

  lemma {:induction false} ShiftZero(n: nat, j: nat, k: nat)
    requires j <= k && Shift(n, j) == 0
    ensures Shift(n, k) == 0
    decreases k
  {
    if j < k { ShiftZero(n, j, k - 1); }
  }

  predicate Increasing(ps: seq<nat>) {
    forall i, j | 0 <= i < j < |ps| :: ps[i] < ps[j]
  }

  /** The set-bit positions of a mask, read as the 32-bit value `>>>` makes of it, in increasing order.
      The closing sort of the source finds its input already sorted. */
  method BitsToPositions(number: int) returns (result: seq<nat>)
    ensures Increasing(result) && forall p | p in result :: p < 32
    ensures SumOfPowers(result) == number % TWO_32
    ensures forall p: nat :: p in result <==> Bit(number % TWO_32, p)
  {
    hide Pow2, SumOfPowers;
    result := [];
    assert SumOfPowers(result) == 0 && Pow2(0) == 1 by { NoPositions(); }
    // `number & 1` and `number >>> 1` see the number modulo 2^32.
    var n, position := number % TWO_32, 0;
    while n != 0
      invariant 0 <= n && n * Pow2(position) < TWO_32
      invariant Increasing(result) && forall k | 0 <= k < |result| :: result[k] < position
      invariant SumOfPowers(result) + n * Pow2(position) == number % TWO_32
      invariant position <= 32
      invariant n == Shift(number % TWO_32, position)
      invariant forall p: nat | p < position :: p in result <==> Bit(number % TWO_32, p)
      decreases n
    {
      PositionBelow32(n, position);
      Halve(n, position);
      var half := n / 2;
      if n % 2 == 1 {
        PushPosition(result, position);
        result := result + [position];
      }
      n := half;
      position := position + 1;
    }
    forall p: nat | position <= p ensures !Bit(number % TWO_32, p) {
      ShiftZero(number % TWO_32, position, p);
    }
  }

  /** Shifting is dividing by a power of two. */
  lemma {:induction false} ShiftDivides(n: nat, k: nat)
    ensures Shift(n, k) == n / Pow2(k)
  {
    if k > 0 {
      ShiftDivides(n, k - 1);
      DivideTwice(n, Pow2(k - 1));
    }
  }

  lemma DivideTwice(n: nat, d: nat)
    requires d > 0
    ensures n / d / 2 == n / (2 * d)
  {
    var q, r := n / d, n % d;
    assert n == q * d + r;
    assert n == (q / 2) * (2 * d) + ((q % 2) * d + r);
    assert (q % 2) * d + r < 2 * d;
    QuotientIs(n, 2 * d, q / 2, (q % 2) * d + r);
  }

  lemma QuotientIs(n: nat, d: nat, q: nat, r: nat)
    requires r < d && n == q * d + r
    ensures n / d == q
  {
    TimesMonotonic(n / d + 1, q, d);
    TimesMonotonic(q + 1, n / d, d);
  }

  lemma TimesMonotonic(a: nat, b: nat, d: nat)
    ensures a <= b ==> a * d <= b * d
  {
  }

  lemma NoPositions()
    ensures SumOfPowers([]) == 0 && Pow2(0) == 1
  {
  }

  lemma PushPosition(ps: seq<nat>, p: nat)
    ensures SumOfPowers(ps + [p]) == SumOfPowers(ps) + Pow2(p)
  {
    assert (ps + [p])[..|ps|] == ps;
  }

  lemma Halve(n: nat, position: nat)
    ensures n * Pow2(position) == (n % 2) * Pow2(position) + (n / 2) * Pow2(position + 1)
  {
    assert n == 2 * (n / 2) + n % 2;
    assert (2 * (n / 2)) * Pow2(position) == (n / 2) * Pow2(position + 1);
  }

  lemma {:induction false} PowMonotonic(a: nat, b: nat)
    requires a <= b
    ensures Pow2(a) <= Pow2(b)
    decreases b
  {
    if a < b { PowMonotonic(a, b - 1); }
  }

  lemma PowIs32()
    ensures Pow2(32) == TWO_32
  {
    assert Pow2(8) == 256;
    assert Pow2(16) == 65536 by {
      assert Pow2(12) == 4096;
    }
    assert Pow2(20) == 1048576;
    assert Pow2(24) == 16777216;
    assert Pow2(28) == 268435456;
  }

  lemma PositionBelow32(n: nat, position: nat)
    requires n > 0 && n * Pow2(position) < TWO_32
    ensures position < 32
  {
    assert Pow2(position) <= n * Pow2(position);
    if position >= 32 {
      PowMonotonic(32, position);
      PowIs32();
    }
  }

  lemma SumUnrolled(ps: seq<nat>)
    ensures SumOfPowers(ps) == if ps == [] then 0 else SumOfPowers(ps[..|ps| - 1]) + Pow2(ps[|ps| - 1])
  {
  }

  lemma SameTop(a: seq<nat>, b: seq<nat>)
    requires Increasing(a) && Increasing(b) && a != [] && b != []
    requires SumOfPowers(a) == SumOfPowers(b)
    ensures a[|a| - 1] == b[|b| - 1]
  {
    hide Pow2, SumOfPowers;
    TopPower(a);
    TopPower(b);
    var p, q := a[|a| - 1], b[|b| - 1];
    if p < q { PowMonotonic(p + 1, q); }
    if q < p { PowMonotonic(q + 1, p); }
  }

  /** A mask has one increasing list of positions: two that sum to the same value are equal. */
  lemma {:induction false} PositionsUnique(a: seq<nat>, b: seq<nat>)
    requires Increasing(a) && Increasing(b)
    requires SumOfPowers(a) == SumOfPowers(b)
    ensures a == b
    decreases |a|
  {
    hide Pow2, SumOfPowers;
    SumUnrolled(a);
    SumUnrolled(b);
    if a == [] || b == [] {
      if a != [] { TopPower(a); }
      if b != [] { TopPower(b); }
    } else {
      SameTop(a, b);
      var a', b' := a[..|a| - 1], b[..|b| - 1];
      PositionsUnique(a', b');
      assert a == a' + [a[|a| - 1]] && b == b' + [b[|b| - 1]];
    }
  }

  lemma {:induction false} TopPower(ps: seq<nat>)
    requires Increasing(ps) && ps != []
    ensures 0 < Pow2(ps[|ps| - 1]) <= SumOfPowers(ps) < Pow2(ps[|ps| - 1] + 1)
  {
    var rest := ps[..|ps| - 1];
    if rest != [] {
      TopPower(rest);
      PowMonotonic(rest[|rest| - 1] + 1, ps[|ps| - 1]);
    } else {
      PowMonotonic(0, ps[|ps| - 1]);
    }
  }

  // ---------- hexadecimal ----------

  function HexDigit(n: nat): byte
    requires n < 16
  {
    if n < 10 then 48 + n else 87 + n
  }

  /** None for a character that is not a hexadecimal digit; both cases are read. */
  function DigitValue(ch: byte): (r: Option<nat>)
    ensures r.Some? ==> r.value < 16
  {
    if 48 <= ch <= 57 then Some(ch - 48)
    else if 65 <= ch <= 70 then Some(ch - 55)
    else if 97 <= ch <= 102 then Some(ch - 87)
    else None
  }

  function BytesToBase16(b: Bytes): Bytes {
    if b == [] then [] else [HexDigit(b[0] / 16), HexDigit(b[0] % 16)] + BytesToBase16(b[1..])
  }

  function Pairs(s: Bytes): Option<Bytes> {
    if s == [] then
      Some([])
    else if |s| == 1 then
      None
    else
      match (DigitValue(s[0]), DigitValue(s[1]))
      case (Some(high), Some(low)) =>
        (match Pairs(s[2..]) case Some(rest) => Some([16 * high + low] + rest) case None => None)
      case _ => None
  }

  function Padded(s: Bytes): Bytes { if |s| % 2 == 1 then [48] + s else s }

  /** None when the check on the decoded length throws, which is when some character is not a digit. */
  function Base16ToBytes(s: Bytes): Option<Bytes> { Pairs(Padded(s)) }

  lemma DigitRoundTrip(n: nat)
    requires n < 16
    ensures DigitValue(HexDigit(n)) == Some(n)
  {
  }

  /** One byte in front of text that decodes. */
  lemma PairsOfByte(b: byte, rest: Bytes)
    ensures Pairs([HexDigit(b / 16), HexDigit(b % 16)] + rest) ==
      if Pairs(rest).Some? then Some([b] + Pairs(rest).value) else None
  {
    hide HexDigit, DigitValue;
    DigitRoundTrip(b / 16);
    DigitRoundTrip(b % 16);
    assert ([HexDigit(b / 16), HexDigit(b % 16)] + rest)[2..] == rest;
  }

  lemma {:induction false} PairsRoundTrip(b: Bytes)
    ensures |BytesToBase16(b)| == 2 * |b|
    ensures Pairs(BytesToBase16(b)) == Some(b)
  {
    hide Pairs, HexDigit;
    if b == [] {
      PairsOfNothing();
    } else {
      PairsRoundTrip(b[1..]);
      PairsOfByte(b[0], BytesToBase16(b[1..]));
      assert [b[0]] + b[1..] == b;
    }
  }

  lemma PairsOfNothing()
    ensures Pairs([]) == Some([])
  {
  }

  const HEX_DIGITS: Bytes := [48, 49, 50, 51, 52, 53, 54, 55, 56, 57, 97, 98, 99, 100, 101, 102]

  /** The text has two digits for each byte, the high one first. */
  lemma {:induction false} HexFormat(b: Bytes, i: nat)
    requires i < |b|
    ensures |BytesToBase16(b)| == 2 * |b|
    ensures BytesToBase16(b)[2 * i] == HEX_DIGITS[b[i] / 16] && BytesToBase16(b)[2 * i + 1] == HEX_DIGITS[b[i] % 16]
  {
    HexRoundTrip(b);
    DigitIs(b[0] / 16);
    DigitIs(b[0] % 16);
    var head, rest := [HexDigit(b[0] / 16), HexDigit(b[0] % 16)], BytesToBase16(b[1..]);
    assert BytesToBase16(b) == head + rest;
    hide BytesToBase16, HexDigit;
    if i > 0 {
      HexFormat(b[1..], i - 1);
      assert (head + rest)[2 * i] == rest[2 * (i - 1)] && (head + rest)[2 * i + 1] == rest[2 * (i - 1) + 1];
    }
  }

  lemma DigitIs(n: nat)
    requires n < 16
    ensures HexDigit(n) == HEX_DIGITS[n]
  {
  }

  predicate IsHexDigit(ch: byte) { 48 <= ch <= 57 || 65 <= ch <= 70 || 97 <= ch <= 102 }

  /** Text is read iff all its characters are hexadecimal digits; a zero is put before text of odd length. */
  lemma {:induction false} ReadableIff(s: Bytes)
    ensures Base16ToBytes(s).Some? <==> forall i | 0 <= i < |s| :: IsHexDigit(s[i])
    ensures |s| % 2 == 1 ==> Base16ToBytes(s) == Base16ToBytes([48] + s)
    ensures Base16ToBytes(s).Some? ==> |Base16ToBytes(s).value| == (|s| + 1) / 2
  {
    PairsDefined(Padded(s));
    if |s| % 2 == 1 {
      assert Padded(s) == [48] + s;
      assert forall i | 0 <= i < |s| :: Padded(s)[i + 1] == s[i];
      assert forall i | 0 < i < |Padded(s)| :: Padded(s)[i] == s[i - 1];
    }
  }

  lemma {:induction false} PairsDefined(s: Bytes)
    requires |s| % 2 == 0
    ensures Pairs(s).Some? <==> forall i | 0 <= i < |s| :: IsHexDigit(s[i])
    ensures Pairs(s).Some? ==> 2 * |Pairs(s).value| == |s|
  {
    if s != [] {
      PairsDefined(s[2..]);
      assert forall i | 0 <= i < |s| - 2 :: s[2..][i] == s[i + 2];
      assert forall i | 2 <= i < |s| :: s[i] == s[2..][i - 2];
    }
  }

  /** Printing bytes as hexadecimal text and reading it back gives the same bytes. */
  lemma HexRoundTrip(b: Bytes)
    ensures |BytesToBase16(b)| == 2 * |b|
    ensures Base16ToBytes(BytesToBase16(b)) == Some(b)
  {
    hide Pairs, BytesToBase16;
    PairsRoundTrip(b);
  }

  function LowerHex(s: Bytes): (r: Bytes)
    ensures |r| == |s|
  {
    seq(|s|, i requires 0 <= i < |s| => if 65 <= s[i] <= 70 then s[i] + 32 else s[i])
  }

  /** Decoding loses only the case of the digits and the leading zero that makes the length even. */
  lemma {:induction false} HexOfDecoded(s: Bytes)
    requires Pairs(s).Some?
    ensures BytesToBase16(Pairs(s).value) == LowerHex(s)
  {
    if s != [] {
      HexOfDecoded(s[2..]);
      assert LowerHex(s) == LowerHex(s)[..2] + LowerHex(s[2..]);
    }
  }

  lemma HexInjective(a: Bytes, b: Bytes)
    ensures BytesToBase16(a) == BytesToBase16(b) <==> a == b
  {
    HexRoundTrip(a);
    HexRoundTrip(b);
  }
}
