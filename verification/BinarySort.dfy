/** Sort-ordered encodings of scalars (internal/binarysort/binarysort.go). */
module BinarySort {

  import opened Prelude
  import opened Bytes

  // ------------------------------------------------------------------ int64

  /** The value shifted into the unsigned range, big-endian. */
  function AppendInt64(x: Int64): (s: ByteString)
    ensures |s| == 8
  {
    BigEndian(x + 0x8000_0000_0000_0000, 8)
  }

  function Read8(s: ByteString): Bits
    requires |s| >= 8
  {
    Pow256Of8();
    FromBigEndian(s[..8])
  }

  /** None stands for the error on a buffer shorter than eight bytes. */
  function DecodeInt64(s: ByteString): (r: Option<Int64>) {
    if |s| < 8 then None else Some(Read8(s) - 0x8000_0000_0000_0000)
  }

  lemma Int64Order(x: Int64, y: Int64)
    ensures Lex(AppendInt64(x), AppendInt64(y)) == Sign(x - y)
  {
    Pow256Of8();
    BigEndianOrder(x + 0x8000_0000_0000_0000, y + 0x8000_0000_0000_0000, 8);
  }

  lemma Int64RoundTrip(x: Int64, rest: ByteString)
    ensures DecodeInt64(AppendInt64(x) + rest) == Some(x)
  {
    Pow256Of8();
    BigEndianRoundTrip(x + 0x8000_0000_0000_0000, 8);
    assert (AppendInt64(x) + rest)[..8] == AppendInt64(x);
  }

  // ------------------------------------------------------------------- bool

  function AppendBool(x: bool): (s: ByteString)
    ensures |s| == 1
  {
    if x then [1] else [0]
  }

  function DecodeBool(s: ByteString): (r: Option<bool>) {
    if |s| == 0 then None else Some(s[0] == 1)
  }

  // ---------------------------------------------------------------- float64

  /** A double is its 64-bit pattern (section 3.4 of IEEE 754-2008): a sign bit
      over a magnitude that grows with the absolute value. */
  type Bits = n: int | 0 <= n < 0x1_0000_0000_0000_0000

  const NEGATIVE_ZERO: Bits := 0x8000_0000_0000_0000

  predicate Negative(b: Bits) { b >= 0x8000_0000_0000_0000 }

  function Magnitude(b: Bits): int { if Negative(b) then b - 0x8000_0000_0000_0000 else b }

  predicate IsNaN(b: Bits) { Magnitude(b) > 0x7FF0_0000_0000_0000 }

  /** Doubles that are not NaN compare as these keys do; both zeros have key 0. */
  function Key(b: Bits): int { if Negative(b) then 0 - Magnitude(b) else Magnitude(b) }

  /** Go's `x >= 0`: false for NaN, true for both zeros. */
  predicate AtLeastZero(b: Bits) { !IsNaN(b) && Key(b) >= 0 }

  function FlipSign(b: Bits): Bits {
    if b >= 0x8000_0000_0000_0000 then b - 0x8000_0000_0000_0000 else b + 0x8000_0000_0000_0000
  }

  function FlipAll(b: Bits): Bits { 0xFFFF_FFFF_FFFF_FFFF - b }

  function FloatToOrdered(b: Bits): Bits { if AtLeastZero(b) then FlipSign(b) else FlipAll(b) }

  function OrderedToFloat(x: Bits): Bits { if x >= 0x8000_0000_0000_0000 then FlipSign(x) else FlipAll(x) }

  function AppendFloat64(b: Bits): (s: ByteString)
    ensures |s| == 8
  {
    BigEndian(FloatToOrdered(b), 8)
  }

  function DecodeFloat64(s: ByteString): (r: Option<Bits>) {
    if |s| < 8 then None else Some(OrderedToFloat(Read8(s)))
  }

  /** Byte order is value order on doubles other than NaN and -0.0. */
  lemma Float64Order(a: Bits, b: Bits)
    requires !IsNaN(a) && !IsNaN(b) && a != NEGATIVE_ZERO && b != NEGATIVE_ZERO
    ensures Lex(AppendFloat64(a), AppendFloat64(b)) == Sign(Key(a) - Key(b))
  {
    Pow256Of8();
    BigEndianOrder(FloatToOrdered(a), FloatToOrdered(b), 8);
  }

  /** -0.0 sorts before every other number, although it equals 0.0. */
  lemma NegativeZeroSortsFirst(b: Bits)
    requires !IsNaN(b) && b != NEGATIVE_ZERO
    ensures Lex(AppendFloat64(NEGATIVE_ZERO), AppendFloat64(b)) < 0
  {
    Pow256Of8();
    BigEndianOrder(FloatToOrdered(NEGATIVE_ZERO), FloatToOrdered(b), 8);
  }

  /** And it is read back as a NaN. */
  lemma NegativeZeroComesBackAsNaN(rest: ByteString)
    ensures DecodeFloat64(AppendFloat64(NEGATIVE_ZERO) + rest) == Some(0xFFFF_FFFF_FFFF_FFFF)
    ensures IsNaN(0xFFFF_FFFF_FFFF_FFFF)
  {
    Float64RoundTripIff(NEGATIVE_ZERO, rest);
  }

  /** A double survives the encoding. */
  predicate Storable(b: Bits) { b != NEGATIVE_ZERO && !(IsNaN(b) && !Negative(b)) }

  lemma Float64RoundTripIff(b: Bits, rest: ByteString)
    ensures DecodeFloat64(AppendFloat64(b) + rest) == Some(OrderedToFloat(FloatToOrdered(b)))
    ensures DecodeFloat64(AppendFloat64(b) + rest) == Some(b) <==> Storable(b)
  {
    Pow256Of8();
    BigEndianRoundTrip(FloatToOrdered(b), 8);
    assert (AppendFloat64(b) + rest)[..8] == AppendFloat64(b);
  }

  lemma Float64Injective(a: Bits, b: Bits)
    requires !IsNaN(a) && !IsNaN(b)
    ensures AppendFloat64(a) == AppendFloat64(b) <==> a == b
  {
    Pow256Of8();
    BigEndianRoundTrip(FloatToOrdered(a), 8);
    BigEndianRoundTrip(FloatToOrdered(b), 8);
  }

  // ----------------------------------------------------------------- base64

  type Sextet = n: int | 0 <= n < 64

  /** The alphabet "-0..9A..Z_a..z", whose characters ascend. */
  function Letter(n: Sextet): (c: Byte)
    ensures c > 0x1F
  {
    if n == 0 then 45
    else if n <= 10 then 47 + n
    else if n <= 36 then 54 + n
    else if n == 37 then 95
    else 59 + n
  }

  function LetterIndex(c: Byte): (r: Option<Sextet>) {
    if c == 45 then Some(0)
    else if 48 <= c <= 57 then Some(c - 47)
    else if 65 <= c <= 90 then Some(c - 54)
    else if c == 95 then Some(37)
    else if 97 <= c <= 122 then Some(c - 59)
    else None
  }

  // the bits of one, two or three neighbouring bytes, six at a time, and back
  function Sextet0(b0: int): int { b0 / 4 }
  function Sextet1(b0: int, b1: int): int { b0 % 4 * 16 + b1 / 16 }
  function Sextet2(b1: int, b2: int): int { b1 % 16 * 4 + b2 / 64 }
  function Sextet3(b2: int): int { b2 % 64 }

  function Byte0(s0: int, s1: int): int { s0 * 4 + s1 / 16 }
  function Byte1(s1: int, s2: int): int { s1 % 16 * 16 + s2 / 4 }
  function Byte2(s2: int, s3: int): int { s2 % 4 * 64 + s3 }

  /** Six bits at a time, the last group filled up with zero bits. */
  function ToSextets(d: ByteString): seq<Sextet> {
    if |d| == 0 then []
    else if |d| == 1 then [Sextet0(d[0]), Sextet1(d[0], 0)]
    else if |d| == 2 then [Sextet0(d[0]), Sextet1(d[0], d[1]), Sextet2(d[1], 0)]
    else [Sextet0(d[0]), Sextet1(d[0], d[1]), Sextet2(d[1], d[2]), Sextet3(d[2])] + ToSextets(d[3..])
  }

  function FromSextets(s: seq<Sextet>): Option<ByteString> {
    if |s| == 0 then Some([])
    else if |s| == 1 then None
    else if |s| == 2 then Some([Byte0(s[0], s[1])])
    else if |s| == 3 then Some([Byte0(s[0], s[1]), Byte1(s[1], s[2])])
    else
      var rest := FromSextets(s[4..]);
      if rest.None? then None
      else Some([Byte0(s[0], s[1]), Byte1(s[1], s[2]), Byte2(s[2], s[3])] + rest.value)
  }

  function Letters(s: seq<Sextet>): (r: ByteString)
    ensures |r| == |s| && forall i :: 0 <= i < |s| ==> r[i] == Letter(s[i])
  {
    if s == [] then [] else [Letter(s[0])] + Letters(s[1..])
  }

  function LetterIndexes(d: ByteString): Option<seq<Sextet>> {
    if d == [] then Some([])
    else
      var first, rest := LetterIndex(d[0]), LetterIndexes(d[1..]);
      if first.None? || rest.None? then None else Some([first.value] + rest.value)
  }

  function AppendBase64(d: ByteString): ByteString { Letters(ToSextets(d)) }

  /** None stands for the error on a foreign character or an impossible length. */
  function DecodeBase64(d: ByteString): Option<ByteString> {
    var s := LetterIndexes(d);
    if s.None? then None else FromSextets(s.value)
  }

  lemma BlockRoundTrip(b0: Byte, b1: Byte, b2: Byte)
    ensures Byte0(Sextet0(b0), Sextet1(b0, b1)) == b0
    ensures Byte1(Sextet1(b0, b1), Sextet2(b1, b2)) == b1
    ensures Byte2(Sextet2(b1, b2), Sextet3(b2)) == b2
  {
  }

  lemma OneRoundTrip(b0: Byte)
    ensures FromSextets(ToSextets([b0])) == Some([b0])
  {
    var s := ToSextets([b0]);
    assert s == [Sextet0(b0), Sextet1(b0, 0)];
    FromTwo(s);
    HighBitsBack(b0, 0);
  }

  lemma HighBitsBack(b0: Byte, b1: Byte)
    ensures Byte0(Sextet0(b0), Sextet1(b0, b1)) == b0
  {
  }

  lemma FromTwo(s: seq<Sextet>)
    requires |s| == 2
    ensures 0 <= Byte0(s[0], s[1]) < 256 && FromSextets(s) == Some([Byte0(s[0], s[1])])
  {
  }

  lemma TwoRoundTrip(b0: Byte, b1: Byte)
    ensures FromSextets(ToSextets([b0, b1])) == Some([b0, b1])
  {
    BlockRoundTrip(b0, b1, 0);
    var s: seq<Sextet> := [Sextet0(b0), Sextet1(b0, b1), Sextet2(b1, 0)];
    assert ToSextets([b0, b1]) == s;
  }

  lemma {:induction false} SextetsRoundTrip(d: ByteString)
    ensures FromSextets(ToSextets(d)) == Some(d)
  {
    if |d| == 0 {
    } else if |d| == 1 {
      OneRoundTrip(d[0]);
      assert d == [d[0]];
    } else if |d| == 2 {
      TwoRoundTrip(d[0], d[1]);
      assert d == [d[0], d[1]];
    } else {
      SextetsRoundTrip(d[3..]);
      BlockRoundTrip(d[0], d[1], d[2]);
      FirstGroup(d);
      FromGroup(ToSextets(d));
      assert d == [d[0], d[1], d[2]] + d[3..];
    }
  }

  lemma FromGroup(s: seq<Sextet>)
    requires |s| >= 4 && FromSextets(s[4..]).Some?
    ensures FromSextets(s) ==
            Some([Byte0(s[0], s[1]), Byte1(s[1], s[2]), Byte2(s[2], s[3])] + FromSextets(s[4..]).value)
  {
  }

  lemma LetterRoundTrip(n: Sextet)
    ensures LetterIndex(Letter(n)) == Some(n)
  {
  }

  lemma {:induction false} LettersRoundTrip(s: seq<Sextet>)
    ensures LetterIndexes(Letters(s)) == Some(s)
  {
    if s != [] {
      LettersRoundTrip(s[1..]);
      LetterRoundTrip(s[0]);
      assert Letters(s)[1..] == Letters(s[1..]);
      assert s == [s[0]] + s[1..];
    }
  }

  lemma Base64RoundTrip(d: ByteString)
    ensures DecodeBase64(AppendBase64(d)) == Some(d)
  {
    LettersRoundTrip(ToSextets(d));
    SextetsRoundTrip(d);
  }

  lemma {:induction false} LettersOrder(s: seq<Sextet>, t: seq<Sextet>)
    ensures Lex(Letters(s), Letters(t)) == Lex(s, t)
  {
    if s != [] && t != [] {
      LettersOrder(s[1..], t[1..]);
      LexCons(Letter(s[0]), Letters(s[1..]), Letter(t[0]), Letters(t[1..]));
    }
  }

  // A smaller byte shows in the sextet that holds its high bits or in the next
  // one, whatever the neighbouring bytes are.

  lemma Smaller0(a: Byte, b: Byte, x: Byte, y: Byte)
    requires a < b
    ensures Sextet0(a) < Sextet0(b) || (Sextet0(a) == Sextet0(b) && Sextet1(a, x) < Sextet1(b, y))
  {
  }

  lemma Smaller1(p: Byte, a: Byte, b: Byte, x: Byte, y: Byte)
    requires a < b
    ensures Sextet1(p, a) < Sextet1(p, b) || (Sextet1(p, a) == Sextet1(p, b) && Sextet2(a, x) < Sextet2(b, y))
  {
  }

  lemma Smaller2(p: Byte, a: Byte, b: Byte)
    requires a < b
    ensures Sextet2(p, a) < Sextet2(p, b) || (Sextet2(p, a) == Sextet2(p, b) && Sextet3(a) < Sextet3(b))
  {
  }

  function At(d: ByteString, i: nat): Byte { if i < |d| then d[i] else 0 }

  /** The first group of sextets, missing bytes read as zero. */
  lemma FirstGroup(d: ByteString)
    requires d != []
    ensures var s := ToSextets(d);
            && |s| >= (if |d| >= 3 then 4 else |d| + 1)
            && (|d| < 3 ==> |s| == |d| + 1)
            && s[0] == Sextet0(d[0]) && s[1] == Sextet1(d[0], At(d, 1))
            && (|d| >= 2 ==> s[2] == Sextet2(d[1], At(d, 2)))
            && (|d| >= 3 ==> s[3] == Sextet3(d[2]) && s[4..] == ToSextets(d[3..]))
  {
  }

  lemma {:induction false} SextetsMonotone(a: ByteString, b: ByteString)
    requires Lex(a, b) < 0
    ensures Lex(ToSextets(a), ToSextets(b)) < 0
    decreases |a|, 2
  {
    if a != [] {
      LexNegative(a, b);
      FirstGroup(a);
      FirstGroup(b);
      if a[0] < b[0] {
        MonotoneAt0(a, b);
      } else {
        MonotoneAt1(a, b);
      }
    }
  }

  lemma MonotoneAt0(a: ByteString, b: ByteString)
    requires a != [] && b != [] && a[0] < b[0]
    ensures Lex(ToSextets(a), ToSextets(b)) < 0
  {
    var s, t := ToSextets(a), ToSextets(b);
    Smaller0(a[0], b[0], At(a, 1), At(b, 1));
    LexFirstDifference(s, t, if s[0] < t[0] then 0 else 1);
  }

  lemma MonotoneAt1(a: ByteString, b: ByteString)
    requires a != [] && b != [] && a[0] == b[0] && Lex(a[1..], b[1..]) < 0
    ensures Lex(ToSextets(a), ToSextets(b)) < 0
    decreases |a|, 1
  {
    var s, t := ToSextets(a), ToSextets(b);
    FirstGroup(a);
    FirstGroup(b);
    if |a| == 1 {
      EndsOrDiffers(s, t, 1);
    } else {
      LexNegative(a[1..], b[1..]);
      if a[1] < b[1] {
        Smaller1(a[0], a[1], b[1], At(a, 2), At(b, 2));
        LexFirstDifference(s, t, if s[1] < t[1] then 1 else 2);
      } else {
        assert a[1..][1..] == a[2..] && b[1..][1..] == b[2..];
        MonotoneAt2(a, b);
      }
    }
  }

  lemma EndsOrDiffers(s: seq<int>, t: seq<int>, k: nat)
    requires |s| == k + 1 < |t| && (forall i :: 0 <= i < k ==> s[i] == t[i]) && s[k] <= t[k]
    ensures Lex(s, t) < 0
  {
    if s[k] < t[k] {
      LexFirstDifference(s, t, k);
    } else {
      assert s == t[..k + 1];
      LexProperPrefix(s, t);
    }
  }

  lemma SameGroup(s: seq<int>, t: seq<int>, k: nat)
    requires k <= |s| && k <= |t| && (forall i :: 0 <= i < k ==> s[i] == t[i]) && Lex(s[k..], t[k..]) < 0
    ensures Lex(s, t) < 0
  {
    assert s == s[..k] + s[k..] && t == s[..k] + t[k..];
    LexSamePrefix(s[..k], s[k..], t[k..]);
  }

  lemma MonotoneAt2(a: ByteString, b: ByteString)
    requires |a| >= 2 && |b| >= 2 && a[0] == b[0] && a[1] == b[1] && Lex(a[2..], b[2..]) < 0
    ensures Lex(ToSextets(a), ToSextets(b)) < 0
    decreases |a|, 0
  {
    var s, t := ToSextets(a), ToSextets(b);
    FirstGroup(a);
    FirstGroup(b);
    if |a| == 2 {
      EndsOrDiffers(s, t, 2);
    } else {
      LexNegative(a[2..], b[2..]);
      assert a[2..][1..] == a[3..] && b[2..][1..] == b[3..];
      if a[2] == b[2] {
        SextetsMonotone(a[3..], b[3..]);
      }
      MonotoneAt3(a, b);
    }
  }

  lemma MonotoneAt3(a: ByteString, b: ByteString)
    requires |a| >= 3 && |b| >= 3 && a[0] == b[0] && a[1] == b[1]
    requires a[2] < b[2] || (a[2] == b[2] && Lex(ToSextets(a[3..]), ToSextets(b[3..])) < 0)
    ensures Lex(ToSextets(a), ToSextets(b)) < 0
  {
    var s, t := ToSextets(a), ToSextets(b);
    FirstGroup(a);
    FirstGroup(b);
    if a[2] < b[2] {
      Smaller2(a[1], a[2], b[2]);
      LexFirstDifference(s, t, if s[2] < t[2] then 2 else 3);
    } else {
      SameGroup(s, t, 4);
    }
  }

  /** The encoding keeps lexicographic order both ways, prefixes included. */
  lemma {:induction false} Base64Order(a: ByteString, b: ByteString)
    ensures Lex(AppendBase64(a), AppendBase64(b)) == Lex(a, b)
  {
    LettersOrder(ToSextets(a), ToSextets(b));
    if Lex(a, b) < 0 {
      SextetsMonotone(a, b);
    } else if Lex(a, b) > 0 {
      LexAntisymmetric(a, b);
      SextetsMonotone(b, a);
      LexAntisymmetric(ToSextets(a), ToSextets(b));
    } else {
      LexEqual(a, b);
      LexEqual(ToSextets(a), ToSextets(b));
    }
  }
}
