/** Byte strings and their lexicographic order, the order of every store. */
module Bytes {

  type Byte = b: int | 0 <= b < 256
  type ByteString = seq<Byte>

  /** -1, 0 or 1, as bytes.Compare answers: the first difference decides, and a
      proper prefix comes first. */
  function Lex(a: seq<int>, b: seq<int>): (c: int)
    ensures -1 <= c <= 1
  {
    if a == [] then (if b == [] then 0 else -1)
    else if b == [] then 1
    else if a[0] < b[0] then -1
    else if a[0] > b[0] then 1
    else Lex(a[1..], b[1..])
  }

  function Sign(d: int): int { if d < 0 then -1 else if d > 0 then 1 else 0 }

  lemma LexCons(x: int, s: seq<int>, y: int, t: seq<int>)
    ensures Lex([x] + s, [y] + t) == if x < y then -1 else if x > y then 1 else Lex(s, t)
  {
    assert ([x] + s)[1..] == s && ([y] + t)[1..] == t;
  }

  lemma {:induction false} LexEqual(a: seq<int>, b: seq<int>)
    ensures Lex(a, b) == 0 <==> a == b
  {
    if a != [] && b != [] {
      LexEqual(a[1..], b[1..]);
      assert a == [a[0]] + a[1..] && b == [b[0]] + b[1..];
    }
  }

  lemma {:induction false} LexAntisymmetric(a: seq<int>, b: seq<int>)
    ensures Lex(a, b) == -Lex(b, a)
  {
    if a != [] && b != [] {
      LexAntisymmetric(a[1..], b[1..]);
    }
  }

  lemma {:induction false} LexTransitive(a: seq<int>, b: seq<int>, c: seq<int>)
    ensures Lex(a, b) <= 0 && Lex(b, c) <= 0 ==> Lex(a, c) <= 0
    ensures Lex(a, b) < 0 && Lex(b, c) <= 0 ==> Lex(a, c) < 0
    ensures Lex(a, b) <= 0 && Lex(b, c) < 0 ==> Lex(a, c) < 0
  {
    if a != [] && b != [] && c != [] {
      LexTransitive(a[1..], b[1..], c[1..]);
    }
  }

  lemma {:induction false} LexSamePrefix(p: seq<int>, a: seq<int>, b: seq<int>)
    ensures Lex(p + a, p + b) == Lex(a, b)
  {
    if p == [] {
      assert p + a == a && p + b == b;
    } else {
      LexSamePrefix(p[1..], a, b);
      assert p + a == [p[0]] + (p[1..] + a) && p + b == [p[0]] + (p[1..] + b);
      LexCons(p[0], p[1..] + a, p[0], p[1..] + b);
    }
  }

  /** With leading parts of one length, those decide unless they are equal. */
  lemma {:induction false} LexFixedWidth(a: seq<int>, x: seq<int>, b: seq<int>, y: seq<int>)
    requires |a| == |b|
    ensures Lex(a + x, b + y) == if a == b then Lex(x, y) else Lex(a, b)
  {
    if a == [] {
      assert a + x == x && b + y == y;
    } else {
      LexFixedWidth(a[1..], x, b[1..], y);
      assert a + x == [a[0]] + (a[1..] + x) && b + y == [b[0]] + (b[1..] + y);
      LexCons(a[0], a[1..] + x, b[0], b[1..] + y);
      assert a == [a[0]] + a[1..] && b == [b[0]] + b[1..];
    }
  }

  /** A difference inside both strings is not undone by what follows. */
  lemma {:induction false} LexDecidedEarly(a: seq<int>, x: seq<int>, b: seq<int>, y: seq<int>)
    requires Lex(a, b) < 0 && !(a <= b)
    ensures Lex(a + x, b + y) < 0
  {
    if a[0] == b[0] {
      assert a == [a[0]] + a[1..] && b == [b[0]] + b[1..];
      LexDecidedEarly(a[1..], x, b[1..], y);
    }
    assert a + x == [a[0]] + (a[1..] + x) && b + y == [b[0]] + (b[1..] + y);
    LexCons(a[0], a[1..] + x, b[0], b[1..] + y);
  }

  lemma LexFirstDifference(s: seq<int>, t: seq<int>, k: nat)
    requires k < |s| && k < |t| && s[..k] == t[..k] && s[k] < t[k]
    ensures Lex(s, t) < 0
  {
    assert s == s[..k] + s[k..] && t == s[..k] + t[k..];
    LexSamePrefix(s[..k], s[k..], t[k..]);
  }

  lemma LexProperPrefix(s: seq<int>, t: seq<int>)
    requires |s| < |t| && s == t[..|s|]
    ensures Lex(s, t) < 0
  {
    assert s == s + [] && t == s + t[|s|..];
    LexSamePrefix(s, [], t[|s|..]);
  }

  /** What a negative comparison says, at its first step. */
  lemma LexNegative(a: seq<int>, b: seq<int>)
    requires Lex(a, b) < 0 && a != []
    ensures b != [] && (a[0] < b[0] || (a[0] == b[0] && Lex(a[1..], b[1..]) < 0))
  {
  }

  lemma LexSnoc(a: seq<int>, x: int, b: seq<int>, y: int)
    requires |a| == |b|
    ensures Lex(a + [x], b + [y]) == if Lex(a, b) != 0 then Lex(a, b) else Sign(x - y)
  {
    LexFixedWidth(a, [x], b, [y]);
    LexEqual(a, b);
  }

  // ------------------------------------------------------ big-endian numbers

  function Pow256(w: nat): nat { if w == 0 then 1 else 256 * Pow256(w - 1) }

  lemma Pow256Of8()
    ensures Pow256(8) == 0x1_0000_0000_0000_0000
  {
    assert Pow256(4) == 0x1_0000_0000;
    assert Pow256(6) == 0x1_0000_0000_0000;
  }

  /** The w low-order bytes of n, most significant first. */
  function BigEndian(n: nat, w: nat): (s: ByteString)
    ensures |s| == w
  {
    if w == 0 then [] else BigEndian(n / 256, w - 1) + [n % 256]
  }

  function FromBigEndian(s: ByteString): (n: nat)
    ensures n < Pow256(|s|)
  {
    if s == [] then 0 else FromBigEndian(s[..|s| - 1]) * 256 + s[|s| - 1]
  }

  lemma {:induction false} BigEndianRoundTrip(n: nat, w: nat)
    requires n < Pow256(w)
    ensures FromBigEndian(BigEndian(n, w)) == n
  {
    if w > 0 {
      BigEndianRoundTrip(n / 256, w - 1);
      assert BigEndian(n, w)[..w - 1] == BigEndian(n / 256, w - 1);
    }
  }

  lemma {:induction false} BigEndianOrder(m: nat, n: nat, w: nat)
    requires m < Pow256(w) && n < Pow256(w)
    ensures Lex(BigEndian(m, w), BigEndian(n, w)) == Sign(m - n)
  {
    if w > 0 {
      BigEndianOrder(m / 256, n / 256, w - 1);
      LexSnoc(BigEndian(m / 256, w - 1), m % 256, BigEndian(n / 256, w - 1), n % 256);
    }
  }
}
