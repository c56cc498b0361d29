/** Variable-length integers, as encoding/binary writes and reads them. */
module Varints {

  import opened Prelude
  import opened Bytes

  /** Seven bits per byte, low bits first; the top bit says that more follow. */
  function PutUvarint(n: nat): (s: ByteString)
    ensures |s| >= 1
  {
    if n < 128 then [n] else [n % 128 + 128] + PutUvarint(n / 128)
  }

  datatype Read = Read(value: nat, size: nat)

  /** None when the buffer ends too early or the number does not fit in 64 bits. */
  function Uvarint(s: ByteString): (r: Option<Read>)
    ensures r.Some? ==> 1 <= r.value.size <= |s|
  {
    UvarintAt(s, 0)
  }

  /** Reading from the i-th byte of the number on. */
  function UvarintAt(s: ByteString, i: nat): (r: Option<Read>)
    ensures r.Some? ==> 1 <= r.value.size <= |s|
    decreases s
  {
    if s == [] then None
    else if s[0] < 128 then
      (if i > 9 || (i == 9 && s[0] > 1) then None else Some(Read(s[0], 1)))
    else
      var rest := UvarintAt(s[1..], i + 1);
      if rest.None? then None
      else Some(Read(s[0] - 128 + 128 * rest.value.value, rest.value.size + 1))
  }

  /** What still fits when i bytes of seven bits have been read. */
  function Room(i: nat): nat
    requires i <= 9
  {
    match i
    case 0 => 0x1_0000_0000_0000_0000
    case 1 => 0x200_0000_0000_0000
    case 2 => 0x4_0000_0000_0000
    case 3 => 0x800_0000_0000
    case 4 => 0x10_0000_0000
    case 5 => 0x2000_0000
    case 6 => 0x40_0000
    case 7 => 0x8000
    case 8 => 0x100
    case 9 => 0x2
  }

  lemma {:induction false} UvarintAtRoundTrip(n: nat, i: nat, rest: ByteString)
    requires i <= 9 && n < Room(i)
    ensures UvarintAt(PutUvarint(n) + rest, i) == Some(Read(n, |PutUvarint(n)|))
  {
    if n >= 128 {
      UvarintAtRoundTrip(n / 128, i + 1, rest);
      assert (PutUvarint(n) + rest)[1..] == PutUvarint(n / 128) + rest;
    }
  }

  lemma UvarintRoundTrip(n: nat, rest: ByteString)
    requires n < 0x1_0000_0000_0000_0000
    ensures Uvarint(PutUvarint(n) + rest) == Some(Read(n, |PutUvarint(n)|))
  {
    UvarintAtRoundTrip(n, 0, rest);
  }

  /** Signed integers are folded into unsigned ones. */
  function Fold(x: Int64): nat { if x >= 0 then 2 * x else 0 - 2 * x - 1 }

  function Unfold(u: nat): int { if u % 2 == 0 then u / 2 else -(u / 2) - 1 }

  function PutVarint(x: Int64): (s: ByteString)
    ensures |s| >= 1
  {
    PutUvarint(Fold(x))
  }

  /** Varint, with the 0 it answers on a bad buffer. */
  function Varint(s: ByteString): (x: int) {
    match Uvarint(s)
    case None => 0
    case Some(r) => Unfold(r.value)
  }

  lemma VarintRoundTrip(x: Int64, rest: ByteString)
    ensures Varint(PutVarint(x) + rest) == x
  {
    UvarintRoundTrip(Fold(x), rest);
  }

  lemma VarintInjective(x: Int64, y: Int64)
    ensures PutVarint(x) == PutVarint(y) <==> x == y
  {
    VarintRoundTrip(x, []);
    VarintRoundTrip(y, []);
  }

  lemma {:induction false} UvarintAtFits(s: ByteString, i: nat)
    requires i <= 9 && UvarintAt(s, i).Some?
    ensures UvarintAt(s, i).value.value < Room(i)
  {
    if s[0] >= 128 {
      if i == 9 {
        NothingPastTen(s[1..], 10);
      } else {
        UvarintAtFits(s[1..], i + 1);
      }
    }
  }

  lemma {:induction false} NothingPastTen(s: ByteString, i: nat)
    requires i > 9
    ensures UvarintAt(s, i).None?
  {
    if s != [] {
      NothingPastTen(s[1..], i + 1);
    }
  }

  /** What Varint reads is an int64. */
  lemma VarintFits(s: ByteString)
    ensures Fits(Varint(s))
  {
    if Uvarint(s).Some? {
      UvarintAtFits(s, 0);
    }
  }
}
