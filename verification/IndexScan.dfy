/** Index scans in place of a filter on a full scan (internal/planner/optimizer.go,
    internal/stream/range.go and internal/stream/scan.go), for one typed column and a
    filter `path op literal`.
  */
module IndexScan {

  import opened Prelude
  import opened Bytes
  import opened BinarySort
  import opened Float
  import opened Varints
  import opened Values
  import opened Compare
  import opened ValueEncoding
  import opened Indexing
  import opened Tables

  // ---------------------------------------------------------------- planning

  datatype Range = Range(min: Option<Value>, max: Option<Value>, exclusive: bool, exact: bool)

  function BuildRange(op: Operator, literal: Value): Range {
    match op
    case Eq => Range(Some(literal), None, false, true)
    case Gt => Range(Some(literal), None, true, false)
    case Gte => Range(Some(literal), None, false, false)
    case Lt => Range(None, Some(literal), true, false)
    case Lte => Range(None, Some(literal), false, false)
  }

  /** int64(f): the double cut towards zero; what comes of a value that does not fit
      is up to the machine. */
  function ToInt64(x: int, wild: Int64): Int64 { if Prelude.Fits(x) then x else wild }

  /** float64(int64(f)) == f. */
  predicate CastsBack(f: Bits, wild: Int64) {
    !IsNaN(f) && Key(FloatOfInt(ToInt64(Trunc(f), wild))) == Key(f)
  }

  /** A bound after its conversion to the type of the column, and the flag that may
      change with it. */
  datatype Converted = Converted(v: Value, exclusive: bool)

  function ConvertBound(c: Column, v: Value, r: Range, isMin: bool, wild: Int64): Converted {
    if v.Integer? && c.DoubleColumn? then Converted(Double(FloatOfInt(v.i)), r.exclusive)
    else if v.Double? && c.IntegerColumn? then
      if CastsBack(v.d, wild) then Converted(Integer(ToInt64(Trunc(v.d), wild)), r.exclusive)
      else if r.exact then Converted(v, r.exclusive)
      else Converted(Integer(ToInt64(Ceil(v.d), wild)), !isMin && r.min.None?)
    else Converted(v, r.exclusive)
  }

  /** A range over encoded values. */
  datatype Bounds = Bounds(min: Option<ByteString>, max: Option<ByteString>, exclusive: bool, exact: bool)

  /** None when the literal cannot be given the type of the column: nothing is read. */
  function EncodedRange(c: Column, r: Range, wild: Int64): Option<Bounds>
    requires r.min.Some? != r.max.Some?
  {
    var isMin := r.min.Some?;
    var b := ConvertBound(c, if isMin then r.min.value else r.max.value, r, isMin, wild);
    if !HasType(c, b.v) then None
    else if isMin then Some(Bounds(Some(Content(b.v)), None, b.exclusive, r.exact))
    else Some(Bounds(None, Some(Content(b.v)), b.exclusive, r.exact))
  }

  function Plan(c: Column, op: Operator, literal: Value, wild: Int64): Option<Bounds> {
    EncodedRange(c, BuildRange(op, literal), wild)
  }

  predicate IsInRange(r: Bounds, value: ByteString) {
    var cmpMin := if r.min.Some? then Lex(value, r.min.value) else 1;
    if r.exact then cmpMin == 0
    else if r.exclusive && cmpMin == 0 then false
    else
      var cmpMax := if r.max.Some? then Lex(value, r.max.value) else -1;
      if r.exclusive && cmpMax == 0 then false
      else cmpMin >= 0 && cmpMax <= 0
  }

  // ------------------------------------------- the range against the filter

  /** Any literal but NaN. What a double beyond int64 does on an INTEGER column is known
      only where the conversion gives the least int64. */
  predicate Usable(c: Column, literal: Value, wild: Int64) {
    literal.Double? ==>
      !IsNaN(literal.d) && (c.IntegerColumn? ==> Prelude.Fits(Trunc(literal.d)) || wild == MIN_INT64)
  }

  /** The range and the filter agree on a value. */
  predicate Agree(c: Column, op: Operator, literal: Value, v: Value, wild: Int64) {
    var p := Plan(c, op, literal, wild);
    (p.Some? && IsInRange(p.value, Content(v))) <==> Answer(op, v, literal)
  }

  const MAX_INT64: Int64 := 0x7FFF_FFFF_FFFF_FFFF

  /** The integers of a column that a double literal goes wrong for: other integers that
      become the literal when they are made a double, on the side the operator looks at;
      and nearly all of them when the literal is too high for int64. */
  predicate MisreadInteger(op: Operator, f: Bits, x: Int64) {
    var same := Key(FloatOfInt(x)) == Key(f);
    if Trunc(f) > MAX_INT64 then
      match op
      case Eq => same
      case Gt | Lte => true
      case Gte | Lt => !same
    else
      Whole(f) && same && x != Trunc(f) && (op.Eq? || ((op.Gt? || op.Lte?) <==> x > Trunc(f)))
  }

  /** The doubles of a column that a double literal goes wrong for: -0.0 is taken for less
      than every other number, as a value and as a literal. */
  predicate MisreadDouble(op: Operator, f: Bits, d: Bits) {
    if d == NEGATIVE_ZERO && f != NEGATIVE_ZERO then
      (Key(f) < 0 && !op.Eq?) || (Key(f) == 0 && !op.Gt? && !op.Lte?)
    else if f == NEGATIVE_ZERO && d != NEGATIVE_ZERO then
      (Key(d) < 0 && !op.Eq?) || (Key(d) == 0 && !op.Gte? && !op.Lt?)
    else false
  }

  predicate Misread(c: Column, op: Operator, literal: Value, v: Value)
    requires HasType(c, v)
  {
    match c
    case BoolColumn => false
    case IntegerColumn => literal.Double? && MisreadInteger(op, literal.d, v.i)
    case DoubleColumn => IsNumber(literal) && MisreadDouble(op, AsDouble(literal), v.d)
  }

  function Standard(op: Operator, bound: ByteString): Bounds {
    match op
    case Eq => Bounds(Some(bound), None, false, true)
    case Gt => Bounds(Some(bound), None, true, false)
    case Gte => Bounds(Some(bound), None, false, false)
    case Lt => Bounds(None, Some(bound), true, false)
    case Lte => Bounds(None, Some(bound), false, false)
  }

  lemma StandardReads(op: Operator, bound: ByteString, value: ByteString)
    ensures IsInRange(Standard(op, bound), value) <==> Reads(op, Lex(value, bound))
  {
  }

  // ------------------------------------------------------------ DOUBLE columns

  /** Where a double is put in the order of the encodings. */
  function SortKey(d: Bits): int { if d == NEGATIVE_ZERO then MIN_INT64 else Key(d) }

  lemma SortOrder(a: Bits, b: Bits)
    requires !IsNaN(a) && !IsNaN(b)
    ensures Lex(AppendFloat64(a), AppendFloat64(b)) == Sign(SortKey(a) - SortKey(b))
  {
    if a == b {
      LexEqual(AppendFloat64(a), AppendFloat64(b));
    } else if a == NEGATIVE_ZERO {
      NegativeZeroSortsFirst(b);
    } else if b == NEGATIVE_ZERO {
      NegativeZeroSortsFirst(a);
      LexAntisymmetric(AppendFloat64(a), AppendFloat64(b));
    } else {
      Float64Order(a, b);
    }
  }

  lemma {:induction false} DoubleAgreesIff(op: Operator, f: Bits, d: Bits, wild: Int64)
    requires !IsNaN(f) && !IsNaN(d)
    ensures Agree(DoubleColumn, op, Double(f), Double(d), wild) <==> !MisreadDouble(op, f, d)
  {
    SortOrder(d, f);
    assert Plan(DoubleColumn, op, Double(f), wild) == Some(Standard(op, AppendFloat64(f)));
    StandardReads(op, AppendFloat64(f), AppendFloat64(d));
  }

  /** An integer literal on a DOUBLE column is the double it becomes. */
  lemma IntegerAsDouble(op: Operator, y: Int64, d: Bits, wild: Int64)
    ensures Agree(DoubleColumn, op, Integer(y), Double(d), wild) <==>
            Agree(DoubleColumn, op, Double(FloatOfInt(y)), Double(d), wild)
  {
  }

  /** A literal is right for every double that can be stored exactly when it is above zero,
      or is 0.0 with > or <=, or is below zero with =. */
  lemma {:induction false} DoubleRightIff(op: Operator, f: Bits, wild: Int64)
    requires !IsNaN(f)
    ensures (forall d: Bits :: !IsNaN(d) ==> Agree(DoubleColumn, op, Double(f), Double(d), wild)) <==>
            f != NEGATIVE_ZERO && (Key(f) > 0 || (Key(f) == 0 && (op.Gt? || op.Lte?)) || (Key(f) < 0 && op.Eq?))
  {
    forall d: Bits | !IsNaN(d)
      ensures Agree(DoubleColumn, op, Double(f), Double(d), wild) <==> !MisreadDouble(op, f, d)
    {
      DoubleAgreesIff(op, f, d, wild);
    }
    if f == NEGATIVE_ZERO {
      assert MisreadDouble(op, f, 0) || MisreadDouble(op, f, 0x8000_0000_0000_0001);
    } else {
      assert MisreadDouble(op, f, NEGATIVE_ZERO) <==>
             !(Key(f) > 0 || (Key(f) == 0 && (op.Gt? || op.Lte?)) || (Key(f) < 0 && op.Eq?));
    }
  }

  /** `a < -1.0` finds a stored -0.0 in the index, and `a >= 0.0` misses it. */
  lemma NegativeZeroMisread(wild: Int64)
    ensures !Agree(DoubleColumn, Lt, Double(0xBFF0_0000_0000_0000), Double(NEGATIVE_ZERO), wild)
    ensures !Agree(DoubleColumn, Gte, Double(0), Double(NEGATIVE_ZERO), wild)
  {
    DoubleAgreesIff(Lt, 0xBFF0_0000_0000_0000, NEGATIVE_ZERO, wild);
    DoubleAgreesIff(Gte, 0, NEGATIVE_ZERO, wild);
  }

  // ----------------------------------------------------------- INTEGER columns

  lemma IntegerLiteralAgrees(op: Operator, y: Int64, x: Int64, wild: Int64)
    ensures Agree(IntegerColumn, op, Integer(y), Integer(x), wild)
  {
    Int64Order(x, y);
    assert Plan(IntegerColumn, op, Integer(y), wild) == Some(Standard(op, AppendInt64(y)));
    StandardReads(op, AppendInt64(y), AppendInt64(x));
  }

  /** A whole bound becomes an integer bound. */
  lemma {:induction false} WholeAgreesIff(op: Operator, f: Bits, x: Int64, wild: Int64)
    requires !IsNaN(f) && Prelude.Fits(Trunc(f)) && Whole(f)
    ensures Agree(IntegerColumn, op, Double(f), Integer(x), wild) <==> !MisreadInteger(op, f, x)
  {
    CastBackIffWhole(f);
    AnyWholeOrder(x, f);
    Int64Order(x, Trunc(f));
    assert Plan(IntegerColumn, op, Double(f), wild) == Some(Standard(op, AppendInt64(Trunc(f))));
    StandardReads(op, AppendInt64(Trunc(f)), AppendInt64(x));
  }

  /** A bound that is not whole is rounded up: at least for a lower one, below for an
      upper one, and no value at all for equality. That is right for every int64. */
  lemma {:induction false} BetweenAgrees(op: Operator, f: Bits, x: Int64, wild: Int64)
    requires !IsNaN(f) && Prelude.Fits(Trunc(f)) && !Whole(f)
    ensures Agree(IntegerColumn, op, Double(f), Integer(x), wild)
  {
    BetweenPlan(op, f, wild);
    AnyBetweenOrder(x, f);
    Int64Order(x, Ceil(f));
    var bound := AppendInt64(Ceil(f));
    StandardReads(Gte, bound, AppendInt64(x));
    StandardReads(Lt, bound, AppendInt64(x));
  }

  lemma BetweenPlan(op: Operator, f: Bits, wild: Int64)
    requires !IsNaN(f) && Prelude.Fits(Trunc(f)) && !Whole(f)
    ensures Prelude.Fits(Ceil(f))
    ensures Plan(IntegerColumn, op, Double(f), wild)
            == if op.Eq? then None
               else Some(Standard(if op.Gt? || op.Gte? then Gte else Lt, AppendInt64(Ceil(f))))
  {
    CastBackIffWhole(f);
    CeilFits(f);
  }

  lemma TooHighAgreesIff(op: Operator, f: Bits, x: Int64)
    requires !IsNaN(f) && Trunc(f) > MAX_INT64
    ensures Agree(IntegerColumn, op, Double(f), Integer(x), MIN_INT64) <==> !MisreadInteger(op, f, x)
  {
    BeyondInt64(0, f);
    TooHighIsMore(x, f);
    assert !CastsBack(f, MIN_INT64);
    WildPlan(op, f);
    Int64Order(x, MIN_INT64);
    StandardReads(Gte, AppendInt64(MIN_INT64), AppendInt64(x));
    StandardReads(Lt, AppendInt64(MIN_INT64), AppendInt64(x));
  }

  lemma TooLowAgrees(op: Operator, f: Bits, x: Int64)
    requires !IsNaN(f) && Trunc(f) < MIN_INT64
    ensures Agree(IntegerColumn, op, Double(f), Integer(x), MIN_INT64) && !MisreadInteger(op, f, x)
  {
    BeyondInt64(0, f);
    TooLowIsLess(f);
    FloatMonotone(MIN_INT64, x);
    assert !CastsBack(f, MIN_INT64);
    WildPlan(op, f);
    Int64Order(x, MIN_INT64);
    StandardReads(Gte, AppendInt64(MIN_INT64), AppendInt64(x));
    StandardReads(Lt, AppendInt64(MIN_INT64), AppendInt64(x));
  }

  lemma WildPlan(op: Operator, f: Bits)
    requires !CastsBack(f, MIN_INT64) && !Prelude.Fits(Ceil(f))
    ensures Plan(IntegerColumn, op, Double(f), MIN_INT64)
            == if op.Eq? then None
               else Some(Standard(if op.Gt? || op.Gte? then Gte else Lt, AppendInt64(MIN_INT64)))
  {
  }

  lemma {:induction false} IntegerAgreesIff(op: Operator, f: Bits, x: Int64, wild: Int64)
    requires !IsNaN(f) && (Prelude.Fits(Trunc(f)) || wild == MIN_INT64)
    ensures Agree(IntegerColumn, op, Double(f), Integer(x), wild) <==> !MisreadInteger(op, f, x)
  {
    if Trunc(f) > MAX_INT64 {
      TooHighAgreesIff(op, f, x);
    } else if Trunc(f) < MIN_INT64 {
      TooLowAgrees(op, f, x);
    } else if Whole(f) {
      WholeAgreesIff(op, f, x, wild);
    } else {
      BetweenAgrees(op, f, x, wild);
    }
  }

  /** The literals that are right for every int64, by operator. */
  predicate IntegerRight(op: Operator, f: Bits) {
    match op
    case Eq => !Ambiguous(f)
    case Gt | Lte => Trunc(f) <= MAX_INT64 && (!Ambiguous(f) || Trunc(f) == -0x20_0000_0000_0000)
    case Lt | Gte => Trunc(f) <= MAX_INT64 && (!Ambiguous(f) || Trunc(f) == 0x20_0000_0000_0000 || Trunc(f) == MIN_INT64)
  }

  /** Where an int64 that does not fit becomes the least one: a double literal is right for
      every integer that can be stored exactly when it stands for one integer only, or the
      others it stands for are not on the side the operator looks at, and it is not too
      high. */
  lemma {:induction false} IntegerRightIff(op: Operator, f: Bits)
    requires !IsNaN(f)
    ensures (forall x: Int64 :: Agree(IntegerColumn, op, Double(f), Integer(x), MIN_INT64)) <==> IntegerRight(op, f)
  {
    forall x: Int64
      ensures Agree(IntegerColumn, op, Double(f), Integer(x), MIN_INT64) <==> !MisreadInteger(op, f, x)
    {
      IntegerAgreesIff(op, f, x, MIN_INT64);
    }
    if IntegerRight(op, f) {
      forall x: Int64 ensures !MisreadInteger(op, f, x) { NoneMisread(op, f, x); }
    } else {
      var x := SomeMisread(op, f);
      assert !Agree(IntegerColumn, op, Double(f), Integer(x), MIN_INT64);
    }
  }

  lemma SomeMisread(op: Operator, f: Bits) returns (x: Int64)
    requires !IsNaN(f) && !IntegerRight(op, f)
    ensures MisreadInteger(op, f, x)
  {
    if Trunc(f) > MAX_INT64 {
      BeyondInt64(0, f);
      x := 0;
      if op.Eq? {
        var y;
        x, y := AmbiguousShared(f);
      }
    } else {
      AmbiguousNext(f);
      if op.Eq? {
        x := if Trunc(f) == -0x20_0000_0000_0000 then Trunc(f) - 1 else Trunc(f) + 1;
      } else if op.Gt? || op.Lte? {
        x := Trunc(f) + 1;
      } else {
        x := Trunc(f) - 1;
      }
    }
  }

  lemma NoneMisread(op: Operator, f: Bits, x: Int64)
    requires !IsNaN(f) && IntegerRight(op, f)
    ensures !MisreadInteger(op, f, x)
  {
    if Key(FloatOfInt(x)) == Key(f) {
      if Trunc(f) > MAX_INT64 {
        HighIsAmbiguous(f, x);
      } else if Trunc(f) < MIN_INT64 {
        TooLowAgrees(op, f, x);
      } else if Whole(f) && x != Trunc(f) {
        CastBackIffWhole(f);
        if x < Trunc(f) { SharedIsAmbiguous(f, x, Trunc(f)); } else { SharedIsAmbiguous(f, Trunc(f), x); }
        EdgesApart(x);
      }
    }
  }

  lemma HighIsAmbiguous(f: Bits, x: Int64)
    requires Trunc(f) > MAX_INT64 && Key(FloatOfInt(x)) == Key(f)
    ensures Ambiguous(f)
  {
    FloatMonotone(x, MAX_INT64);
    MaxInt64Below(f);
    TopsAlike();
    SharedIsAmbiguous(f, MAX_INT64 - 1, MAX_INT64);
  }

  /** `a = 9007199254740992.0` misses the stored 2^53 + 1, which the filter takes for equal. */
  lemma LargeIntegerMissed(wild: Int64)
    ensures !Agree(IntegerColumn, Eq, Double(0x4340_0000_0000_0000), Integer(0x20_0000_0000_0001), wild)
  {
    LeastAmbiguous();
    AmbiguousNext(0x4340_0000_0000_0000);
    WholeAgreesIff(Eq, 0x4340_0000_0000_0000, 0x20_0000_0000_0001, wild);
  }

  // ------------------------------------------------------------- all columns

  /** The range and the filter agree on a value of the column exactly when it is not
      misread. */
  lemma {:induction false} AgreesIff(c: Column, op: Operator, literal: Value, v: Value, wild: Int64)
    requires HasType(c, v) && Proper(v) && Usable(c, literal, wild)
    ensures Agree(c, op, literal, v, wild) <==> !Misread(c, op, literal, v)
  {
    match c
    case BoolColumn =>
      if literal.Bool? {
        assert Plan(c, op, literal, wild) == Some(Standard(op, Content(literal)));
        StandardReads(op, Content(literal), Content(v));
      }
    case IntegerColumn =>
      if literal.Integer? { IntegerLiteralAgrees(op, literal.i, v.i, wild); }
      if literal.Double? { IntegerAgreesIff(op, literal.d, v.i, wild); }
    case DoubleColumn =>
      if literal.Integer? { IntegerAsDouble(op, literal.i, v.d, wild); }
      if IsNumber(literal) { DoubleAgreesIff(op, AsDouble(literal), v.d, wild); }
  }

  /** Integers of up to 53 bits are misread only by literals too high for int64, and doubles
      only around -0.0. */
  lemma NeverMisread(c: Column, op: Operator, literal: Value, v: Value)
    requires HasType(c, v) && (literal.Double? ==> !IsNaN(literal.d))
    requires c.IntegerColumn? && literal.Double? ==>
               -0x20_0000_0000_0000 <= v.i <= 0x20_0000_0000_0000 && Trunc(literal.d) <= MAX_INT64
    requires c.DoubleColumn? ==> v.d != NEGATIVE_ZERO && literal != Double(NEGATIVE_ZERO)
    ensures !Misread(c, op, literal, v)
  {
    if c.IntegerColumn? && literal.Double? && Whole(literal.d) { IntWholeOrder(v.i, literal.d); }
    if c.DoubleColumn? && literal.Integer? { SignOfFloat(literal.i); }
  }

  // ----------------------------------------------------------------- the scan

  class EncodedIndexRange {
    const range: Range
    var exclusive: bool
    var encodedMin: Option<ByteString>
    var encodedMax: Option<ByteString>

    function Value(): Bounds reads this { Bounds(encodedMin, encodedMax, exclusive, range.exact) }

    constructor (range: Range)
      ensures this.range == range && Value() == Bounds(None, None, range.exclusive, range.exact)
    {
      this.range, exclusive, encodedMin, encodedMax := range, range.exclusive, None, None;
    }

    method Convert(c: Column, v: Value, isMin: bool, wild: Int64) returns (converted: Value, ok: bool)
      requires exclusive == range.exclusive
      modifies this`exclusive
      ensures Converted(converted, exclusive) == ConvertBound(c, v, range, isMin, wild)
      ensures ok <==> HasType(c, converted)
    {
      converted := v;
      if v.Integer? && c.DoubleColumn? {
        converted := Double(FloatOfInt(v.i));
      } else if v.Double? && c.IntegerColumn? {
        if CastsBack(v.d, wild) {
          converted := Integer(ToInt64(Trunc(v.d), wild));
        } else if !range.exact {
          converted := Integer(ToInt64(Ceil(v.d), wild));
          exclusive := if isMin then false else range.min.None?;
        }
      }
      ok := HasType(c, converted);
    }

    /** Fills in the bounds; false when nothing can be in the range. */
    method Encode(c: Column, wild: Int64) returns (ok: bool)
      requires range.min.Some? != range.max.Some?
      requires Value() == Bounds(None, None, range.exclusive, range.exact)
      modifies this
      ensures ok <==> EncodedRange(c, range, wild).Some?
      ensures ok ==> EncodedRange(c, range, wild) == Some(Value())
    {
      var v;
      if range.min.Some? {
        v, ok := Convert(c, range.min.value, true, wild);
        if !ok { return; }
        encodedMin := Some(Content(v));
      } else {
        v, ok := Convert(c, range.max.value, false, wild);
        if !ok { return; }
        encodedMax := Some(Content(v));
      }
    }
  }

  /** The keys of the documents whose values are in the range, in the order of the index. */
  function Select(es: seq<Entry>, w: nat, r: Bounds): seq<ByteString>
    requires Long(es, w)
  {
    if es == [] then []
    else
      var rest, last := Select(es[..|es| - 1], w, r), es[|es| - 1];
      if IsInRange(r, last.key[..w]) then rest + [last.key[w..]] else rest
  }

  predicate Long(es: seq<Entry>, w: nat) { forall i :: 0 <= i < |es| ==> |es[i].key| > w }

  lemma SelectStep(es: seq<Entry>, i: nat, w: nat, r: Bounds)
    requires i < |es| && Long(es, w)
    ensures Select(es[..i + 1], w, r)
            == if IsInRange(r, es[i].key[..w]) then Select(es[..i], w, r) + [es[i].key[w..]] else Select(es[..i], w, r)
  {
    assert es[..i + 1][..i] == es[..i];
  }

  /** Between two places nothing is in the range. */
  lemma {:induction false} SelectNothing(es: seq<Entry>, i: nat, j: nat, w: nat, r: Bounds)
    requires i <= j <= |es| && Long(es, w)
    requires forall n :: i <= n < j ==> !IsInRange(r, es[n].key[..w])
    ensures Select(es[..j], w, r) == Select(es[..i], w, r)
  {
    if i < j {
      SelectNothing(es, i, j - 1, w, r);
      SelectStep(es, j - 1, w, r);
    }
  }

  lemma {:induction false} SelectMember(es: seq<Entry>, w: nat, r: Bounds, k: ByteString)
    requires Long(es, w)
    ensures k in Select(es, w, r) <==> exists n :: 0 <= n < |es| && IsInRange(r, es[n].key[..w]) && es[n].key[w..] == k
  {
    if es != [] {
      SelectMember(es[..|es| - 1], w, r, k);
    }
  }

  /** The places, in order, of the entries in the range. */
  ghost predicate InRangeAt(es: seq<Entry>, w: nat, r: Bounds, at: seq<nat>)
    requires Long(es, w)
  {
    && (forall i, j :: 0 <= i < j < |at| ==> at[i] < at[j])
    && (forall i :: 0 <= i < |at| ==> at[i] < |es|)
    && (forall n :: 0 <= n < |es| ==> (n in at <==> IsInRange(r, es[n].key[..w])))
  }

  /** The scan follows the index: the entries in the range, each once, in the order of
      their places. */
  lemma {:induction false} SelectInOrder(es: seq<Entry>, w: nat, r: Bounds) returns (at: seq<nat>)
    requires Long(es, w)
    ensures Follows(es, w, r, at, Select(es, w, r))
    decreases |es|
  {
    if es == [] {
      at := [];
    } else {
      var keys := Select(es[..|es| - 1], w, r);
      at := SelectInOrder(es[..|es| - 1], w, r);
      at := FollowsOneMore(es, w, r, at, keys);
    }
  }

  ghost predicate Follows(es: seq<Entry>, w: nat, r: Bounds, at: seq<nat>, keys: seq<ByteString>)
    requires Long(es, w)
  {
    InRangeAt(es, w, r, at) && KeysAt(es, w, at, keys)
  }

  lemma FollowsOneMore(es: seq<Entry>, w: nat, r: Bounds, at: seq<nat>, keys: seq<ByteString>) returns (all: seq<nat>)
    requires es != [] && Long(es, w) && Follows(es[..|es| - 1], w, r, at, keys)
    ensures var last := es[|es| - 1].key;
            Follows(es, w, r, all, if IsInRange(r, last[..w]) then keys + [last[w..]] else keys)
  {
    InRangeOneMore(es, w, r, at);
    KeysOneMore(es, w, at, keys);
    all := if IsInRange(r, es[|es| - 1].key[..w]) then at + [|es| - 1] else at;
  }

  ghost predicate KeysAt(es: seq<Entry>, w: nat, at: seq<nat>, keys: seq<ByteString>)
    requires Long(es, w)
  {
    |keys| == |at| && forall i :: 0 <= i < |at| ==> at[i] < |es| && keys[i] == es[at[i]].key[w..]
  }

  lemma KeysOneMore(es: seq<Entry>, w: nat, at: seq<nat>, keys: seq<ByteString>)
    requires es != [] && Long(es, w) && KeysAt(es[..|es| - 1], w, at, keys)
    ensures KeysAt(es, w, at, keys) && KeysAt(es, w, at + [|es| - 1], keys + [es[|es| - 1].key[w..]])
  {
  }

  lemma InRangeOneMore(es: seq<Entry>, w: nat, r: Bounds, at: seq<nat>)
    requires es != [] && Long(es, w) && InRangeAt(es[..|es| - 1], w, r, at)
    ensures InRangeAt(es, w, r, if IsInRange(r, es[|es| - 1].key[..w]) then at + [|es| - 1] else at)
  {
    var n := |es| - 1;
    var all := if IsInRange(r, es[n].key[..w]) then at + [n] else at;
    assert n !in at;
    forall m | 0 <= m < |es| ensures m in all <==> IsInRange(r, es[m].key[..w]) {
      assert m < n ==> es[..n][m] == es[m];
    }
  }

  /** An entry before the seek position is below the lower bound. */
  lemma BeforeBound(key: ByteString, w: nat, bound: ByteString)
    requires |key| > w == |bound| && Lex(key, bound) < 0
    ensures Lex(key[..w], bound) < 0
  {
    assert key == key[..w] + key[w..] && bound == bound + [];
    LexFixedWidth(key[..w], key[w..], bound, []);
  }

  /** Values do not descend along the index. */
  lemma ValuesAscend(a: ByteString, b: ByteString, w: nat)
    requires |a| > w && |b| > w && Lex(a, b) < 0
    ensures Lex(a[..w], b[..w]) <= 0
  {
    assert a == a[..w] + a[w..] && b == b[..w] + b[w..];
    LexFixedWidth(a[..w], a[w..], b[..w], b[w..]);
    LexEqual(a[..w], b[..w]);
  }

  /** Past a value above the upper bound nothing is in the range. */
  lemma PastTheEnd(es: seq<Entry>, w: nat, r: Bounds, i: nat)
    requires Sorted(es) && Long(es, w) && i < |es|
    requires r.max.Some? && !r.exact && Lex(es[i].key[..w], r.max.value) > 0
    ensures Select(es, w, r) == Select(es[..i], w, r)
  {
    forall j | i <= j < |es| ensures !IsInRange(r, es[j].key[..w]) {
      if i < j { ValuesAscend(es[i].key, es[j].key, w); }
      StaysAbove(es[i].key[..w], es[j].key[..w], r.max.value);
    }
    SelectNothing(es, i, |es|, w, r);
    assert es[..|es|] == es;
  }

  lemma StaysAbove(a: ByteString, b: ByteString, bound: ByteString)
    requires (a == b || Lex(a, b) <= 0) && Lex(a, bound) > 0
    ensures Lex(b, bound) > 0
  {
    LexAntisymmetric(a, bound);
    LexAntisymmetric(b, bound);
    LexTransitive(bound, a, b);
  }

  lemma BeforeTheStart(es: seq<Entry>, w: nat, r: Bounds)
    requires Long(es, w) && r.min.Some? && |r.min.value| == w
    ensures Select(es[..SeekPosition(es, r.min.value)], w, r) == []
  {
    var p := SeekPosition(es, r.min.value);
    forall j | 0 <= j < p ensures !IsInRange(r, es[j].key[..w]) {
      BeforeBound(es[j].key, w, r.min.value);
    }
    SelectNothing(es, 0, p, w, r);
  }

  /** The value and the key of an entry, cut where its value says. */
  method Split(e: Entry, ghost w: nat) returns (val: ByteString, key: ByteString)
    requires |e.key| > w && e.value == PutUvarint(w) && w < 0x1_0000_0000_0000_0000
    ensures val == e.key[..w] && key == e.key[w..]
  {
    UvarintRoundTrip(w, []);
    assert PutUvarint(w) + [] == PutUvarint(w);
    var offset := Uvarint(e.value).value.value;
    return e.key[..offset], e.key[offset..];
  }

  ghost predicate Refer(es: seq<Entry>, w: nat, docs: Documents) {
    forall i :: 0 <= i < |es| ==> |es[i].key| > w && es[i].value == PutUvarint(w) && es[i].key[w..] in docs
  }

  /** Seeks the lower bound, walks on to the end of the index or past the upper bound,
      and fetches the documents in the range. */
  method Walk(es: seq<Entry>, ghost w: nat, r: Bounds, docs: Documents) returns (found: Option<seq<ByteString>>)
    requires Sorted(es) && Refer(es, w, docs) && w < 0x1_0000_0000_0000_0000
    requires (r.min.Some? ==> |r.min.value| == w) && (r.max.Some? ==> !r.exact)
    ensures found == Some(Select(es, w, r))
  {
    var i := 0;
    if r.min.Some? {
      BeforeTheStart(es, w, r);
      i := SeekPosition(es, r.min.value);
    }
    var keys := [];
    while i < |es|
      invariant i <= |es|
      invariant keys == Select(es[..i], w, r)
    {
      SelectStep(es, i, w, r);
      var val, key := Split(es[i], w);
      if !IsInRange(r, val) {
        if r.max.Some? && Lex(val, r.max.value) > 0 {
          PastTheEnd(es, w, r, i);
          return Some(keys);
        }
      } else {
        if key !in docs { return None; }
        keys := keys + [key];
      }
      i := i + 1;
    }
    assert es[..i] == es;
    return Some(keys);
  }

  /** Iterate. */
  method Scan(idx: Index, docs: Documents, c: Column, op: Operator, literal: Value, wild: Int64)
    returns (found: Option<seq<ByteString>>)
    requires idx.Valid() && idx.columns == [c] && Refer(idx.entries, Width([c]), docs)
    ensures var p := Plan(c, op, literal, wild);
            found == Some(if p.None? then [] else Select(idx.entries, Width([c]), p.value))
  {
    var rng := new EncodedIndexRange(BuildRange(op, literal));
    var ok := rng.Encode(c, wild);
    if !ok { return Some([]); }
    PlanShape(c, op, literal, wild);
    found := Walk(idx.entries, Width([c]), rng.Value(), docs);
  }

  lemma PlanShape(c: Column, op: Operator, literal: Value, wild: Int64)
    requires Plan(c, op, literal, wild).Some?
    ensures var b := Plan(c, op, literal, wild).value;
            && (b.min.Some? ==> |b.min.value| == Width([c]))
            && (b.exact ==> b.max.None?)
            && (b.max.Some? ==> b.min.None?)
  {
  }

  // ------------------------------------------------------------- the theorem

  /** The full scan with the filter: the documents, in any order given, that the
      filter keeps. */
  function SeqScan(order: seq<ByteString>, docs: Documents, p: Path, op: Operator, literal: Value): seq<ByteString>
    requires forall k :: k in order ==> k in docs
  {
    if order == [] then []
    else
      (if Answer(op, Tuple([p], docs[order[0]])[0], literal) then [order[0]] else []) + SeqScan(order[1..], docs, p, op, literal)
  }

  ghost predicate NoRepeats(s: seq<ByteString>) { forall i, j :: 0 <= i < j < |s| ==> s[i] != s[j] }

  lemma {:induction false} SeqScanMember(order: seq<ByteString>, docs: Documents, p: Path, op: Operator, literal: Value, k: ByteString)
    requires forall x :: x in order ==> x in docs
    ensures k in SeqScan(order, docs, p, op, literal) <==> k in order && Answer(op, Tuple([p], docs[k])[0], literal)
  {
    if order != [] {
      SeqScanMember(order[1..], docs, p, op, literal, k);
      assert order == [order[0]] + order[1..];
    }
  }

  lemma {:induction false} SeqScanNoRepeats(order: seq<ByteString>, docs: Documents, p: Path, op: Operator, literal: Value)
    requires (forall x :: x in order ==> x in docs) && NoRepeats(order)
    ensures NoRepeats(SeqScan(order, docs, p, op, literal))
  {
    if order != [] {
      var rest := SeqScan(order[1..], docs, p, op, literal);
      SeqScanNoRepeats(order[1..], docs, p, op, literal);
      SeqScanMember(order[1..], docs, p, op, literal, order[0]);
    }
  }

  lemma {:induction false} SelectNoRepeats(es: seq<Entry>, w: nat, r: Bounds)
    requires Long(es, w) && forall i, j :: 0 <= i < j < |es| ==> es[i].key[w..] != es[j].key[w..]
    ensures NoRepeats(Select(es, w, r))
  {
    if es != [] {
      SelectNoRepeats(es[..|es| - 1], w, r);
      SelectMember(es[..|es| - 1], w, r, es[|es| - 1].key[w..]);
    }
  }

  /** Without repetitions, the same members are the same multiset. */
  lemma {:induction false} SameMembers(a: seq<ByteString>, b: seq<ByteString>)
    requires NoRepeats(a) && NoRepeats(b) && forall k :: k in a <==> k in b
    ensures multiset(a) == multiset(b)
  {
    forall k ensures multiset(a)[k] == multiset(b)[k] {
      OnceOnly(a, k);
      OnceOnly(b, k);
    }
  }

  lemma {:induction false} OnceOnly(s: seq<ByteString>, k: ByteString)
    requires NoRepeats(s)
    ensures multiset(s)[k] == if k in s then 1 else 0
  {
    if s != [] {
      OnceOnly(s[1..], k);
      assert s == [s[0]] + s[1..];
    }
  }

  /** The index mirrors the documents, and no value in it is NaN. */
  ghost predicate Ready(c: Column, p: Path, docs: Documents, es: seq<Entry>) {
    && Sorted(es) && Formed(es, Width([c]))
    && AllConform(Info([c], [p]), docs)
    && Held(es) == Image(Info([c], [p]), docs)
    && forall k :: k in docs ==> Proper(Tuple([p], docs[k])[0])
  }

  lemma EncodedOne(c: Column, vs: seq<Value>)
    requires |vs| == 1 && HasType(c, vs[0])
    ensures Typed([c], vs) && EncodeValues([c], vs) == Content(vs[0])
  {
  }

  /** Each entry is the one of a document. */
  lemma EntryIsOwn(c: Column, p: Path, docs: Documents, es: seq<Entry>, n: nat)
    requires Ready(c, p, docs, es) && n < |es|
    ensures var w := Width([c]);
            && |es[n].key| > w && es[n].key[w..] in docs && es[n].value == PutUvarint(w)
            && es[n] == Own(Info([c], [p]), es[n].key[w..], docs[es[n].key[w..]])
            && es[n].key[..w] == Content(Tuple([p], docs[es[n].key[w..]])[0])
  {
    var info := Info([c], [p]);
    assert es[n] in Held(es);
    var k :| k in docs && es[n] == Own(info, k, docs[k]);
    OwnSplits(info, k, docs[k]);
    EncodedOne(c, Tuple([p], docs[k]));
  }

  /** Each document has its entry. */
  lemma OwnIsEntry(c: Column, p: Path, docs: Documents, es: seq<Entry>, k: ByteString) returns (n: nat)
    requires Ready(c, p, docs, es) && k in docs
    ensures n < |es| && |es[n].key| > Width([c]) && es[n].key[Width([c])..] == k
  {
    var info := Info([c], [p]);
    OwnSplits(info, k, docs[k]);
    assert Own(info, k, docs[k]) in Image(info, docs);
    assert Own(info, k, docs[k]) in Held(es);
    n :| n < |es| && es[n] == Own(info, k, docs[k]);
  }

  lemma AllReferred(c: Column, p: Path, docs: Documents, es: seq<Entry>)
    requires Ready(c, p, docs, es)
    ensures Refer(es, Width([c]), docs) && Long(es, Width([c]))
  {
    forall n | 0 <= n < |es|
      ensures |es[n].key| > Width([c]) && es[n].value == PutUvarint(Width([c])) && es[n].key[Width([c])..] in docs
    {
      EntryIsOwn(c, p, docs, es, n);
    }
  }

  lemma OneEntryEach(c: Column, p: Path, docs: Documents, es: seq<Entry>, i: nat, j: nat)
    requires Ready(c, p, docs, es) && i < j < |es| && |es[i].key| > Width([c]) && |es[j].key| > Width([c])
    ensures es[i].key[Width([c])..] != es[j].key[Width([c])..]
  {
    EntryIsOwn(c, p, docs, es, i);
    EntryIsOwn(c, p, docs, es, j);
    LexEqual(es[i].key, es[j].key);
  }

  /** What the scan of the index would yield. */
  function Found(c: Column, es: seq<Entry>, op: Operator, literal: Value, wild: Int64): seq<ByteString>
    requires Long(es, Width([c]))
  {
    var plan := Plan(c, op, literal, wild);
    if plan.None? then [] else Select(es, Width([c]), plan.value)
  }

  /** The value of a document in the column. */
  function ValueOf(p: Path, d: Value): Value { Tuple([p], d)[0] }

  lemma ValueHasType(c: Column, p: Path, docs: Documents, es: seq<Entry>, k: ByteString)
    requires Ready(c, p, docs, es) && k in docs
    ensures HasType(c, ValueOf(p, docs[k])) && Proper(ValueOf(p, docs[k]))
  {
    assert Conforms(Info([c], [p]), docs[k]);
    assert HasType([c][0], Tuple([p], docs[k])[0]);
  }

  /** A document is found when the filter keeps it, or else when it is misread. */
  lemma FoundIffKept(c: Column, p: Path, docs: Documents, es: seq<Entry>, op: Operator, literal: Value, wild: Int64, k: ByteString)
    requires Ready(c, p, docs, es) && Usable(c, literal, wild) && Long(es, Width([c]))
    ensures k in docs ==> HasType(c, ValueOf(p, docs[k]))
    ensures k in Found(c, es, op, literal, wild) <==>
            k in docs && (Answer(op, ValueOf(p, docs[k]), literal) != Misread(c, op, literal, ValueOf(p, docs[k])))
  {
    var plan, w := Plan(c, op, literal, wild), Width([c]);
    if k in docs {
      var n := OwnIsEntry(c, p, docs, es, k);
      EntryIsOwn(c, p, docs, es, n);
      ValueHasType(c, p, docs, es, k);
      AgreesIff(c, op, literal, ValueOf(p, docs[k]), wild);
      if plan.Some? { SelectAtEntry(c, p, docs, es, plan.value, n); }
    } else if plan.Some? {
      SelectMember(es, w, plan.value, k);
      forall n | 0 <= n < |es| ensures es[n].key[w..] != k { EntryIsOwn(c, p, docs, es, n); }
    }
  }

  lemma SelectAtEntry(c: Column, p: Path, docs: Documents, es: seq<Entry>, r: Bounds, n: nat)
    requires Ready(c, p, docs, es) && Long(es, Width([c])) && n < |es|
    ensures es[n].key[Width([c])..] in Select(es, Width([c]), r) <==> IsInRange(r, es[n].key[..Width([c])])
  {
    var w := Width([c]);
    SelectMember(es, w, r, es[n].key[w..]);
    forall m | 0 <= m < |es| && es[m].key[w..] == es[n].key[w..] ensures m == n {
      if m < n { OneEntryEach(c, p, docs, es, m, n); }
      if n < m { OneEntryEach(c, p, docs, es, n, m); }
    }
  }

  lemma FoundNoRepeats(c: Column, p: Path, docs: Documents, es: seq<Entry>, op: Operator, literal: Value, wild: Int64)
    requires Ready(c, p, docs, es) && Long(es, Width([c]))
    ensures NoRepeats(Found(c, es, op, literal, wild))
  {
    var plan, w := Plan(c, op, literal, wild), Width([c]);
    if plan.Some? {
      forall i, j | 0 <= i < j < |es| ensures es[i].key[w..] != es[j].key[w..] { OneEntryEach(c, p, docs, es, i, j); }
      SelectNoRepeats(es, w, plan.value);
    }
  }

  ghost predicate ReadAt(c: Column, p: Path, docs: Documents, op: Operator, literal: Value, k: ByteString) {
    k in docs ==> HasType(c, ValueOf(p, docs[k])) && !Misread(c, op, literal, ValueOf(p, docs[k]))
  }

  /** No document is misread. */
  ghost predicate AllRead(c: Column, p: Path, docs: Documents, op: Operator, literal: Value) {
    forall k :: ReadAt(c, p, docs, op, literal, k)
  }

  lemma MembersIff(a: seq<ByteString>, b: seq<ByteString>)
    requires NoRepeats(a) && NoRepeats(b)
    ensures multiset(a) == multiset(b) <==> forall k :: k in a <==> k in b
  {
    if forall k :: k in a <==> k in b {
      SameMembers(a, b);
    } else {
      var k :| (k in a) != (k in b);
      OnceOnly(a, k);
      OnceOnly(b, k);
    }
  }

  lemma FoundKeptIff(c: Column, p: Path, docs: Documents, es: seq<Entry>, op: Operator, literal: Value, wild: Int64, order: seq<ByteString>, k: ByteString)
    requires Ready(c, p, docs, es) && Usable(c, literal, wild) && Long(es, Width([c]))
    requires forall x :: x in order <==> x in docs
    ensures (k in Found(c, es, op, literal, wild) <==> k in SeqScan(order, docs, p, op, literal)) <==>
            ReadAt(c, p, docs, op, literal, k)
  {
    FoundIffKept(c, p, docs, es, op, literal, wild, k);
    SeqScanMember(order, docs, p, op, literal, k);
  }

  /** The index scan yields the documents that the full scan and the filter yield, each
      once, exactly when no document is misread. */
  lemma ScanIsFilteredScan(c: Column, p: Path, docs: Documents, es: seq<Entry>, op: Operator, literal: Value, wild: Int64, order: seq<ByteString>)
    requires Ready(c, p, docs, es) && Usable(c, literal, wild) && Long(es, Width([c]))
    requires NoRepeats(order) && forall k :: k in order <==> k in docs
    ensures NoRepeats(Found(c, es, op, literal, wild))
    ensures multiset(Found(c, es, op, literal, wild)) == multiset(SeqScan(order, docs, p, op, literal)) <==>
            AllRead(c, p, docs, op, literal)
  {
    var found, kept := Found(c, es, op, literal, wild), SeqScan(order, docs, p, op, literal);
    FoundNoRepeats(c, p, docs, es, op, literal, wild);
    SeqScanNoRepeats(order, docs, p, op, literal);
    MembersIff(found, kept);
    forall k ensures (k in found <==> k in kept) <==> ReadAt(c, p, docs, op, literal, k) {
      FoundKeptIff(c, p, docs, es, op, literal, wild, order, k);
    }
  }

  /** The planned scan of a one-column index of a table in place of its full scan. */
  method IndexScanInstead(t: Table, n: nat, c: Column, p: Path, op: Operator, literal: Value, wild: Int64, ghost order: seq<ByteString>)
    returns (found: Option<seq<ByteString>>)
    requires t.Valid() && n < |t.indexes| && t.infos[n] == Info([c], [p])
    requires Usable(c, literal, wild) && forall k :: k in t.docs ==> Proper(ValueOf(p, t.docs[k]))
    requires NoRepeats(order) && forall k :: k in order <==> k in t.docs
    ensures found.Some? && NoRepeats(found.value)
    ensures multiset(found.value) == multiset(SeqScan(order, t.docs, p, op, literal)) <==> AllRead(c, p, t.docs, op, literal)
  {
    t.OneMirrors(0, |t.indexes|, t.docs, n);
    AllReferred(c, p, t.docs, t.indexes[n].entries);
    ScanIsFilteredScan(c, p, t.docs, t.indexes[n].entries, op, literal, wild, order);
    found := Scan(t.indexes[n], t.docs, c, op, literal, wild);
  }
}
