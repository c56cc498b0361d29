/** When the comparison of values is transitive (document/compare.go): through which
    values every comparison chains, and what happens through the others. */
module Transitivity {

  import opened Prelude
  import opened Bytes
  import opened BinarySort
  import opened Float
  import opened Values
  import opened Compare

  /** The numbers that may occur in the values looked at. */
  datatype Numbers = Integers | Doubles | Mixed

  predicate Within(kind: Numbers, v: Value) { kind.Mixed? || OneNumberType(kind.Integers?, v) }

  /** No number that shares its double with two integers, where numbers are mixed. */
  predicate Sharp(kind: Numbers, v: Value) {
    match v
    case Integer(i) => kind.Mixed? ==> !Ambiguous(FloatOfInt(i))
    case Double(d) => kind.Mixed? ==> !Ambiguous(d)
    case Array(vs) => forall i :: 0 <= i < |vs| ==> Sharp(kind, vs[i])
    case Document(fields) => forall i :: 0 <= i < |fields| ==> Sharp(kind, fields[i].value)
    case _ => true
  }

  /** The same of doubles only. */
  predicate SharpDoubles(kind: Numbers, v: Value) {
    match v
    case Double(d) => kind.Mixed? ==> !Ambiguous(d)
    case Array(vs) => forall i :: 0 <= i < |vs| ==> SharpDoubles(kind, vs[i])
    case Document(fields) => forall i :: 0 <= i < |fields| ==> SharpDoubles(kind, fields[i].value)
    case _ => true
  }

  /** Every document, at any depth, is empty. */
  predicate NoFields(v: Value) {
    match v
    case Array(vs) => forall i :: 0 <= i < |vs| ==> NoFields(vs[i])
    case Document(fields) => fields == []
    case _ => true
  }

  /** Every document, at any depth, has n fields. */
  predicate SameWidth(n: nat, v: Value) {
    match v
    case Array(vs) => forall i :: 0 <= i < |vs| ==> SameWidth(n, vs[i])
    case Document(fields) => |fields| == n && forall i :: 0 <= i < |fields| ==> SameWidth(n, fields[i].value)
    case _ => true
  }

  predicate Clear(kind: Numbers, v: Value) { NoFields(v) && Sharp(kind, v) }

  /** All forms of transitivity for three comparisons. */
  predicate Chains(ab: int, bc: int, ac: int) {
    && (ab <= 0 && bc <= 0 ==> ac <= 0)
    && (ab < 0 && bc <= 0 ==> ac < 0)
    && (ab <= 0 && bc < 0 ==> ac < 0)
  }

  /** Nothing in the way of documents: b has only empty ones, or all have one width. */
  predicate Fit(w: Option<nat>, a: Value, b: Value, c: Value) {
    match w
    case None => NoFields(b)
    case Some(n) => SameWidth(n, a) && SameWidth(n, b) && SameWidth(n, c)
  }

  // ------------------------------------------------------------------ numbers

  /** An integer whose double is its own keeps its distance to others. */
  lemma StrictlyMonotone(x: Int64, y: Int64)
    requires x < y && !(Ambiguous(FloatOfInt(x)) && Ambiguous(FloatOfInt(y)))
    ensures Key(FloatOfInt(x)) < Key(FloatOfInt(y))
  {
    FloatMonotone(x, y);
    if Key(FloatOfInt(x)) == Key(FloatOfInt(y)) {
      SharedIsAmbiguous(FloatOfInt(x), x, y);
      SharedIsAmbiguous(FloatOfInt(y), x, y);
    }
  }

  lemma NumbersChain(kind: Numbers, a: Value, b: Value, c: Value)
    requires IsNumber(a) && IsNumber(b) && IsNumber(c)
    requires Within(kind, a) && Within(kind, b) && Within(kind, c) && Sharp(kind, b)
    ensures Chains(Order(a, b), Order(b, c), Order(a, c))
  {
    if a.Integer? && b.Integer? && c.Double? {
      IntegersThenDouble(a.i, b.i);
    } else if a.Double? && b.Integer? && c.Integer? {
      IntegersThenDouble(b.i, c.i);
      IntegersThenDouble(c.i, b.i);
    } else if a.Integer? && b.Double? && c.Integer? && Order(a, b) <= 0 && Order(b, c) <= 0 {
      DoubleBetween(a.i, b.d, c.i);
    }
  }

  lemma IntegersThenDouble(x: Int64, y: Int64)
    requires !(Ambiguous(FloatOfInt(x)) && Ambiguous(FloatOfInt(y)))
    ensures Sign(Key(FloatOfInt(x)) - Key(FloatOfInt(y))) == Sign(x - y)
  {
    if x < y { StrictlyMonotone(x, y); }
    if y < x { StrictlyMonotone(y, x); }
  }

  lemma DoubleBetween(x: Int64, d: Bits, z: Int64)
    requires !Ambiguous(d) && Key(FloatOfInt(x)) <= Key(d) <= Key(FloatOfInt(z))
    ensures x <= z && (Key(FloatOfInt(x)) < Key(FloatOfInt(z)) ==> x < z)
  {
    if z < x {
      FloatMonotone(z, x);
      SharedIsAmbiguous(d, z, x);
    }
  }

  // ---------------------------------------------------------- what does chain

  lemma FieldWithin(kind: Numbers, d: Value, i: nat)
    requires d.Document? && i < |d.fields| && Within(kind, d)
    ensures Within(kind, FieldAt(d, i))
  {
  }

  lemma FieldSharp(kind: Numbers, n: nat, d: Value, i: nat)
    requires d.Document? && i < |d.fields|
    ensures Sharp(kind, d) ==> Sharp(kind, FieldAt(d, i))
    ensures SameWidth(n, d) ==> SameWidth(n, FieldAt(d, i))
  {
  }

  lemma DocumentsCompared(a: Value, b: Value)
    requires a.Document? && b.Document?
    ensures Order(a, b) == if a.fields == [] || b.fields == [] then Sign(|a.fields|) - Sign(|b.fields|)
                           else FieldsOrder(a, b, 0)
  {
  }

  /** Every comparison chains through a value whose documents are empty and whose
      numbers are sharp; and through one with other documents too, when all documents
      of the three values have the same number of fields. */
  lemma {:induction false} Through(kind: Numbers, w: Option<nat>, a: Value, b: Value, c: Value)
    requires Within(kind, a) && Within(kind, b) && Within(kind, c)
    requires Sharp(kind, b) && Fit(w, a, b, c)
    ensures Chains(Order(a, b), Order(b, c), Order(a, c))
    decreases b, 1
  {
    if IsNumber(a) && IsNumber(b) && IsNumber(c) {
      NumbersChain(kind, a, b, c);
    } else if Type(a) == Type(b) == Type(c) {
      if a.Text? {
        LexTransitive(a.t, b.t, c.t);
      } else if a.Blob? {
        LexTransitive(a.data, b.data, c.data);
      } else if a.Array? {
        ArraysThrough(kind, w, a, b, c, 0);
      } else if a.Document? {
        DocumentsCompared(a, b);
        DocumentsCompared(b, c);
        DocumentsCompared(a, c);
        if w.Some? && w.value > 0 { FieldsThrough(kind, w.value, a, b, c, 0); }
      }
    }
  }

  lemma {:induction false} ArraysThrough(kind: Numbers, w: Option<nat>, a: Value, b: Value, c: Value, i: nat)
    requires a.Array? && b.Array? && c.Array? && i <= |a.vs| && i <= |b.vs| && i <= |c.vs|
    requires Within(kind, a) && Within(kind, b) && Within(kind, c)
    requires Sharp(kind, b) && Fit(w, a, b, c)
    ensures Chains(ArrayOrder(a, b, i), ArrayOrder(b, c, i), ArrayOrder(a, c, i))
    decreases b, 0, |b.vs| - i
  {
    if i < |a.vs| && i < |b.vs| && i < |c.vs| {
      Through(kind, w, a.vs[i], b.vs[i], c.vs[i]);
      ArraysThrough(kind, w, a, b, c, i + 1);
    }
  }

  lemma {:induction false} FieldsThrough(kind: Numbers, n: nat, a: Value, b: Value, c: Value, i: nat)
    requires a.Document? && b.Document? && c.Document? && i <= n
    requires Within(kind, a) && Within(kind, b) && Within(kind, c) && Sharp(kind, b)
    requires SameWidth(n, a) && SameWidth(n, b) && SameWidth(n, c)
    ensures Chains(FieldsOrder(a, b, i), FieldsOrder(b, c, i), FieldsOrder(a, c, i))
    decreases b, 0, n - i
  {
    if i < n {
      LexTransitive(FieldNames(a.fields)[i], FieldNames(b.fields)[i], FieldNames(c.fields)[i]);
      LexEqual(FieldNames(a.fields)[i], FieldNames(b.fields)[i]);
      LexEqual(FieldNames(b.fields)[i], FieldNames(c.fields)[i]);
      FieldWithin(kind, a, i);
      FieldWithin(kind, b, i);
      FieldWithin(kind, c, i);
      FieldSharp(kind, n, a, i);
      FieldSharp(kind, n, b, i);
      FieldSharp(kind, n, c, i);
      Through(kind, Some(n), FieldAt(a, i), FieldAt(b, i), FieldAt(c, i));
      FieldsThrough(kind, n, a, b, c, i + 1);
    }
  }

  /** The values of the fields are clear, if there are any. */
  predicate ClearFields(kind: Numbers, d: Value)
    requires d.Document?
  {
    forall i :: 0 <= i < |d.fields| ==> Clear(kind, d.fields[i].value)
  }

  /** `<` alone chains also through a document with clear fields, whatever it is compared
      with. */
  lemma LessThrough(kind: Numbers, a: Value, b: Value, c: Value)
    requires Within(kind, a) && Within(kind, b) && Within(kind, c)
    requires Clear(kind, b) || (b.Document? && ClearFields(kind, b))
    ensures Order(a, b) < 0 && Order(b, c) < 0 ==> Order(a, c) < 0
  {
    if Clear(kind, b) {
      Through(kind, None, a, b, c);
    } else if a.Document? && c.Document? {
      DocumentsCompared(a, b);
      DocumentsCompared(b, c);
      DocumentsCompared(a, c);
      if a.fields != [] && c.fields != [] { FieldsLess(kind, a, b, c, 0); }
    }
  }

  lemma FieldClear(kind: Numbers, d: Value, i: nat)
    requires d.Document? && i < |d.fields| && ClearFields(kind, d)
    ensures Clear(kind, FieldAt(d, i))
  {
  }

  lemma {:induction false} FieldsLess(kind: Numbers, a: Value, b: Value, c: Value, i: nat)
    requires a.Document? && b.Document? && c.Document? && i <= |a.fields| && i <= |b.fields| && i <= |c.fields|
    requires Within(kind, a) && Within(kind, b) && Within(kind, c) && ClearFields(kind, b)
    ensures FieldsOrder(a, b, i) < 0 && FieldsOrder(b, c, i) < 0 ==> FieldsOrder(a, c, i) < 0
    decreases |b.fields| - i
  {
    if i < |a.fields| && i < |b.fields| && i < |c.fields| {
      LexTransitive(FieldNames(a.fields)[i], FieldNames(b.fields)[i], FieldNames(c.fields)[i]);
      LexEqual(FieldNames(a.fields)[i], FieldNames(b.fields)[i]);
      LexEqual(FieldNames(b.fields)[i], FieldNames(c.fields)[i]);
      FieldWithin(kind, a, i);
      FieldWithin(kind, b, i);
      FieldWithin(kind, c, i);
      FieldClear(kind, b, i);
      Through(kind, None, FieldAt(a, i), FieldAt(b, i), FieldAt(c, i));
      FieldsLess(kind, a, b, c, i + 1);
    }
  }

  /** Equality alone chains through integers as well, sharp or not. */
  lemma {:induction false} EqualThrough(kind: Numbers, a: Value, b: Value, c: Value)
    requires Within(kind, a) && Within(kind, b) && Within(kind, c)
    requires NoFields(b) && SharpDoubles(kind, b)
    ensures Order(a, b) == 0 && Order(b, c) == 0 ==> Order(a, c) == 0
    decreases b, 1
  {
    if Order(a, b) == 0 && Order(b, c) == 0 {
      if IsNumber(b) {
        EqualNumbers(kind, a, b, c);
      } else if b.Text? {
        LexEqual(a.t, b.t);
        LexEqual(b.t, c.t);
      } else if b.Blob? {
        LexEqual(a.data, b.data);
        LexEqual(b.data, c.data);
      } else if b.Array? {
        EqualArrays(kind, a, b, c, 0);
      } else if b.Document? {
        DocumentsCompared(a, b);
        DocumentsCompared(b, c);
      }
    }
  }

  lemma EqualNumbers(kind: Numbers, a: Value, b: Value, c: Value)
    requires IsNumber(a) && IsNumber(b) && IsNumber(c) && Order(a, b) == 0 && Order(b, c) == 0
    requires Within(kind, a) && Within(kind, b) && Within(kind, c) && SharpDoubles(kind, b)
    ensures Order(a, c) == 0
  {
    if a.Integer? && b.Double? && c.Integer? {
      if a.i < c.i { SharedIsAmbiguous(b.d, a.i, c.i); }
      if c.i < a.i { SharedIsAmbiguous(b.d, c.i, a.i); }
    }
  }

  lemma {:induction false} EqualArrays(kind: Numbers, a: Value, b: Value, c: Value, i: nat)
    requires a.Array? && b.Array? && c.Array? && i <= |a.vs| && i <= |b.vs| && i <= |c.vs|
    requires Within(kind, a) && Within(kind, b) && Within(kind, c)
    requires NoFields(b) && SharpDoubles(kind, b)
    requires ArrayOrder(a, b, i) == 0 && ArrayOrder(b, c, i) == 0
    ensures ArrayOrder(a, c, i) == 0
    decreases b, 0, |b.vs| - i
  {
    if i < |a.vs| && i < |b.vs| && i < |c.vs| {
      EqualThrough(kind, a.vs[i], b.vs[i], c.vs[i]);
      EqualArrays(kind, a, b, c, i + 1);
    }
  }

  // ------------------------------------------------- leading parts of documents

  /** The i-th fields, in name order, have one name and equal values. */
  ghost predicate EqualAt(a: Value, b: Value, i: nat)
    requires a.Document? && b.Document? && i < |a.fields| && i < |b.fields|
  {
    FieldNames(a.fields)[i] == FieldNames(b.fields)[i] && Order(FieldAt(a, i), FieldAt(b, i)) == 0
  }

  ghost predicate EqualFrom(a: Value, b: Value, i: nat)
    requires a.Document? && b.Document?
  {
    forall k :: i <= k < |a.fields| && k < |b.fields| ==> EqualAt(a, b, k)
  }

  lemma FieldsStep(a: Value, b: Value, i: nat)
    requires a.Document? && b.Document? && i < |a.fields| && i < |b.fields|
    ensures FieldsOrder(a, b, i) == 0 <==> EqualAt(a, b, i) && FieldsOrder(a, b, i + 1) == 0
  {
    LexEqual(FieldNames(a.fields)[i], FieldNames(b.fields)[i]);
  }

  lemma EqualFromStep(a: Value, b: Value, i: nat)
    requires a.Document? && b.Document? && i < |a.fields| && i < |b.fields|
    ensures EqualFrom(a, b, i) <==> EqualAt(a, b, i) && EqualFrom(a, b, i + 1)
  {
  }

  lemma {:induction false} FieldsEqualIff(a: Value, b: Value, i: nat)
    requires a.Document? && b.Document? && i <= |a.fields| && i <= |b.fields|
    ensures FieldsOrder(a, b, i) == 0 <==> EqualFrom(a, b, i)
    decreases |a.fields| - i
  {
    if i < |a.fields| && i < |b.fields| {
      FieldsEqualIff(a, b, i + 1);
      FieldsStep(a, b, i);
      EqualFromStep(a, b, i);
    }
  }

  /** Documents with fields are equal exactly when the shorter one is, field by field in
      name order, a leading part of the other. */
  lemma LeadingPartEqual(a: Value, b: Value)
    requires a.Document? && b.Document? && a.fields != [] && b.fields != []
    ensures Order(a, b) == 0 <==> EqualFrom(a, b, 0)
  {
    DocumentsCompared(a, b);
    FieldsEqualIff(a, b, 0);
  }

  /** The i-th fields, in name order, are the first that differ, and those of a come first. */
  ghost predicate LessAt(a: Value, b: Value, i: nat)
    requires a.Document? && b.Document?
  {
    && i < |a.fields| && i < |b.fields|
    && (forall k :: 0 <= k < i ==> EqualAt(a, b, k))
    && (|| Lex(FieldNames(a.fields)[i], FieldNames(b.fields)[i]) < 0
        || (FieldNames(a.fields)[i] == FieldNames(b.fields)[i] && Order(FieldAt(a, i), FieldAt(b, i)) < 0))
  }

  lemma {:induction false} FieldsLessIff(a: Value, b: Value, i: nat)
    requires a.Document? && b.Document? && i <= |a.fields| && i <= |b.fields|
    requires forall k :: 0 <= k < i ==> EqualAt(a, b, k)
    ensures FieldsOrder(a, b, i) < 0 <==> exists j: nat :: i <= j && LessAt(a, b, j)
    decreases |a.fields| - i
  {
    if i < |a.fields| && i < |b.fields| {
      LexEqual(FieldNames(a.fields)[i], FieldNames(b.fields)[i]);
      if EqualAt(a, b, i) {
        FieldsLessIff(a, b, i + 1);
        assert !LessAt(a, b, i);
      } else {
        assert FieldsOrder(a, b, i) < 0 <==> LessAt(a, b, i);
      }
    }
  }

  /** Which of two documents is the lesser: an empty one before any other; else the one
      that comes first, by name and then by value, in the first fields that differ. */
  lemma DocumentLessIff(a: Value, b: Value)
    requires a.Document? && b.Document?
    ensures Order(a, b) < 0 <==> (a.fields == [] && b.fields != []) || exists i: nat :: LessAt(a, b, i)
  {
    DocumentsCompared(a, b);
    FieldsLessIff(a, b, 0);
  }

  /** A name after all the names of a document. */
  function LastName(fields: seq<Field>): (z: ByteString)
    ensures |z| >= 1 && forall i :: 0 <= i < |z| ==> z[i] == 255
  {
    if fields == [] then [255]
    else
      var z := LastName(fields[1..]);
      if |z| > |fields[0].name| then z else seq(|fields[0].name| + 1, _ => 255)
  }

  lemma {:induction false} LastNameLonger(fields: seq<Field>, i: nat)
    requires i < |fields|
    ensures |LastName(fields)| > |fields[i].name|
  {
    if i > 0 { LastNameLonger(fields[1..], i - 1); }
  }

  lemma {:induction false} LongerAllOnes(name: ByteString, z: ByteString)
    requires |z| > |name| && forall i :: 0 <= i < |z| ==> z[i] == 255
    ensures Lex(name, z) < 0
  {
    if name != [] {
      LongerAllOnes(name[1..], z[1..]);
    }
  }

  ghost predicate After(fields: seq<Field>, z: ByteString) {
    forall i :: 0 <= i < |fields| ==> Lex(fields[i].name, z) < 0
  }

  lemma LastNameAfter(fields: seq<Field>)
    ensures After(fields, LastName(fields))
  {
    forall i | 0 <= i < |fields| ensures Lex(fields[i].name, LastName(fields)) < 0 {
      LastNameLonger(fields, i);
      LongerAllOnes(fields[i].name, LastName(fields));
    }
  }

  lemma {:induction false} InsertBeforeLast(name: ByteString, names: seq<ByteString>, z: ByteString)
    requires Lex(name, z) < 0
    ensures Insert(name, names + [z]) == Insert(name, names) + [z]
  {
    if names != [] && Lex(name, names[0]) > 0 {
      assert (names + [z])[1..] == names[1..] + [z];
      InsertBeforeLast(name, names[1..], z);
    }
  }

  lemma {:induction false} NamesWithLast(fields: seq<Field>, z: ByteString, v: Value)
    requires After(fields, z)
    ensures FieldNames(fields + [Field(z, v)]) == FieldNames(fields) + [z]
  {
    if fields == [] {
      assert fields + [Field(z, v)] == [Field(z, v)];
    } else {
      assert (fields + [Field(z, v)])[1..] == fields[1..] + [Field(z, v)];
      NamesWithLast(fields[1..], z, v);
      InsertBeforeLast(fields[0].name, FieldNames(fields[1..]), z);
    }
  }

  lemma {:induction false} GetWithLast(fields: seq<Field>, f: Field, name: ByteString)
    ensures HasField(fields, name) ==> GetByField(fields + [f], name) == GetByField(fields, name)
    ensures !HasField(fields, name) && f.name == name ==> GetByField(fields + [f], name) == Some(f.value)
  {
    if fields == [] {
      assert fields + [f] == [f];
    } else {
      assert (fields + [f])[1..] == fields[1..] + [f];
      GetWithLast(fields[1..], f, name);
      HasFieldStep(fields, name);
    }
  }

  lemma HasFieldStep(fields: seq<Field>, name: ByteString)
    requires fields != []
    ensures HasField(fields, name) <==> fields[0].name == name || HasField(fields[1..], name)
  {
    if HasField(fields, name) && fields[0].name != name {
      var k :| 0 <= k < |fields| && fields[k].name == name;
      assert fields[1..][k - 1].name == name;
    }
    if HasField(fields[1..], name) {
      var k :| 0 <= k < |fields[1..]| && fields[1..][k].name == name;
      assert fields[k + 1].name == name;
    }
  }

  /** A document with one more field at the end of its names. */
  function Extended(d: Value, v: Value): Value
    requires d.Document?
  {
    Document(d.fields + [Field(LastName(d.fields), v)])
  }

  lemma ExtendedFields(d: Value, v: Value)
    requires d.Document?
    ensures var e, n := Extended(d, v), |d.fields|;
            && FieldNames(e.fields) == FieldNames(d.fields) + [LastName(d.fields)]
            && (forall i :: 0 <= i < n ==> FieldAt(e, i) == FieldAt(d, i))
            && FieldAt(e, n) == v
  {
    var z := LastName(d.fields);
    LastNameAfter(d.fields);
    NamesWithLast(d.fields, z, v);
    forall i | 0 <= i < |d.fields| ensures FieldAt(Extended(d, v), i) == FieldAt(d, i) {
      NamesAreFields(d.fields, i);
      GetWithLast(d.fields, Field(z, v), FieldNames(d.fields)[i]);
    }
    GetWithLast(d.fields, Field(z, v), z);
    if HasField(d.fields, z) {
      var k :| 0 <= k < |d.fields| && d.fields[k].name == z;
      LexEqual(d.fields[k].name, z);
    }
  }

  /** Every document with fields equals two others that differ from each other. */
  lemma ExtensionsDiffer(d: Value)
    requires d.Document? && d.fields != []
    ensures Order(Extended(d, Bool(false)), d) == 0 && Order(d, Extended(d, Bool(true))) == 0
    ensures Order(Extended(d, Bool(false)), Extended(d, Bool(true))) < 0
  {
    var low, high, n := Extended(d, Bool(false)), Extended(d, Bool(true)), |d.fields|;
    ExtendedFields(d, Bool(false));
    ExtendedFields(d, Bool(true));
    forall i | 0 <= i < n ensures EqualAt(low, d, i) && EqualAt(d, high, i) && EqualAt(low, high, i) {
      OrderAntisymmetric(FieldAt(d, i), FieldAt(d, i));
    }
    LeadingPartEqual(low, d);
    LeadingPartEqual(d, high);
    DocumentsCompared(low, high);
    EqualUpTo(low, high, 0, n);
    LexEqual(LastName(d.fields), LastName(d.fields));
  }

  lemma {:induction false} EqualUpTo(a: Value, b: Value, i: nat, n: nat)
    requires a.Document? && b.Document? && i <= n <= |a.fields| && n <= |b.fields|
    requires forall k :: i <= k < n ==> EqualAt(a, b, k)
    ensures FieldsOrder(a, b, i) == FieldsOrder(a, b, n)
    decreases n - i
  {
    if i < n {
      assert EqualAt(a, b, i);
      LexEqual(FieldNames(a.fields)[i], FieldNames(b.fields)[i]);
      EqualUpTo(a, b, i + 1, n);
    }
  }

  // -------------------------------------------------- what does not, exactly

  /** No document has two fields of one name. */
  predicate DistinctNames(v: Value) {
    match v
    case Array(vs) => forall i :: 0 <= i < |vs| ==> DistinctNames(vs[i])
    case Document(fields) =>
      && (forall i, j :: 0 <= i < j < |fields| ==> fields[i].name != fields[j].name)
      && forall i :: 0 <= i < |fields| ==> DistinctNames(fields[i].value)
    case _ => true
  }

  /** The values the theorems speak of. */
  predicate Among(kind: Numbers, v: Value) { NaNFree(v) && DistinctNames(v) && Within(kind, v) }

  lemma AmongExtended(kind: Numbers, d: Value, b: bool)
    requires d.Document? && Among(kind, d)
    ensures Among(kind, Extended(d, Bool(b)))
  {
    var z := LastName(d.fields);
    LastNameAfter(d.fields);
    forall i | 0 <= i < |d.fields| ensures d.fields[i].name != z { LexEqual(d.fields[i].name, z); }
  }

  lemma {:induction false} LiftFrom(vs: seq<Value>, i: nat, p: Value, q: Value, k: nat)
    requires i < |vs| && k <= |vs|
    ensures ArrayOrder(Array(vs[i := p]), Array(vs[i := q]), k) == if k <= i then Order(p, q) else 0
    decreases |vs| - k
  {
    if k < |vs| {
      LiftFrom(vs, i, p, q, k + 1);
      OrderAntisymmetric(vs[k], vs[k]);
    }
  }

  /** Arrays that differ in one element compare as those elements. */
  lemma Lift(vs: seq<Value>, i: nat, p: Value, q: Value)
    requires i < |vs|
    ensures Order(Array(vs[i := p]), Array(vs[i := q])) == Order(p, q)
  {
    LiftFrom(vs, i, p, q, 0);
  }

  /** Two equalities and a difference. */
  ghost predicate Odd(kind: Numbers, p: Value, q: Value, r: Value) {
    && Among(kind, p) && Among(kind, q) && Among(kind, r)
    && Order(p, q) == 0 && Order(q, r) == 0 && Order(p, r) < 0
  }

  predicate Chained(kind: Numbers, v: Value) { NoFields(v) && SharpDoubles(kind, v) }

  /** Every value that is not clear is part of such a triple, and in the middle of one
      unless only its integers are at fault. */
  lemma {:induction false} OddTriple(kind: Numbers, b: Value) returns (p: Value, q: Value, r: Value)
    requires Among(kind, b) && !Clear(kind, b)
    ensures Odd(kind, p, q, r) && (b == p || b == q || b == r)
    ensures !Chained(kind, b) ==> b == q
    decreases b
  {
    match b
    case Integer(i) => p, q, r := OddInteger(i);
    case Double(d) =>
      var x, y := AmbiguousShared(d);
      p, q, r := Integer(x), b, Integer(y);
    case Document(_) =>
      ExtensionsDiffer(b);
      p, q, r := Extended(b, Bool(false)), b, Extended(b, Bool(true));
      AmongExtended(kind, b, false);
      AmongExtended(kind, b, true);
    case Array(vs) =>
      var i := FaultyElement(kind, vs);
      var p', q', r' := OddTriple(kind, vs[i]);
      Lift(vs, i, p', q');
      Lift(vs, i, q', r');
      Lift(vs, i, p', r');
      assert vs[i := vs[i]] == vs;
      p, q, r := Array(vs[i := p']), Array(vs[i := q']), Array(vs[i := r']);
  }

  lemma OddInteger(i: Int64) returns (p: Value, q: Value, r: Value)
    requires Ambiguous(FloatOfInt(i))
    ensures Odd(Mixed, p, q, r) && (Integer(i) == p || Integer(i) == r)
  {
    var x, y := AmbiguousShared(FloatOfInt(i));
    q := Double(FloatOfInt(i));
    var other := if x != i then x else y;
    if other < i {
      p, r := Integer(other), Integer(i);
    } else {
      p, r := Integer(i), Integer(other);
    }
  }

  lemma FaultyElement(kind: Numbers, vs: seq<Value>) returns (i: nat)
    requires Among(kind, Array(vs)) && !Clear(kind, Array(vs))
    ensures i < |vs| && Among(kind, vs[i]) && !Clear(kind, vs[i])
    ensures !Chained(kind, Array(vs)) ==> !Chained(kind, vs[i])
  {
    if !Chained(kind, Array(vs)) {
      i :| 0 <= i < |vs| && !Chained(kind, vs[i]);
      UnchainedUnclear(kind, vs[i]);
    } else {
      i :| 0 <= i < |vs| && !Clear(kind, vs[i]);
    }
  }

  lemma {:induction false} SharpIsSharp(kind: Numbers, v: Value)
    ensures Sharp(kind, v) ==> SharpDoubles(kind, v)
    decreases v
  {
    match v
    case Array(vs) =>
      forall i | 0 <= i < |vs| ensures Sharp(kind, vs[i]) ==> SharpDoubles(kind, vs[i]) { SharpIsSharp(kind, vs[i]); }
    case Document(fields) =>
      forall i | 0 <= i < |fields| ensures Sharp(kind, fields[i].value) ==> SharpDoubles(kind, fields[i].value) {
        SharpIsSharp(kind, fields[i].value);
      }
    case _ =>
  }

  lemma UnchainedUnclear(kind: Numbers, v: Value)
    requires !Chained(kind, v)
    ensures !Clear(kind, v)
  {
    SharpIsSharp(kind, v);
  }

  /** Comparisons chain through a value, whatever they compare it with, exactly when it
      has no document with fields and, where numbers are mixed, no number that shares
      its double with two integers. */
  lemma ChainsIff(kind: Numbers, b: Value)
    requires Among(kind, b)
    ensures (forall a, c :: Among(kind, a) && Among(kind, c) ==> Chains(Order(a, b), Order(b, c), Order(a, c))) <==>
            Clear(kind, b)
  {
    if Clear(kind, b) {
      forall a, c | Among(kind, a) && Among(kind, c) ensures Chains(Order(a, b), Order(b, c), Order(a, c)) {
        Through(kind, None, a, b, c);
      }
    } else {
      var p, q, r := OddTriple(kind, b);
      OrderAntisymmetric(p, q);
      OrderAntisymmetric(q, r);
      OrderAntisymmetric(p, r);
      assert b == p ==> !Chains(Order(q, b), Order(b, r), Order(q, r));
      assert b == q ==> !Chains(Order(r, b), Order(b, p), Order(r, p));
      assert b == r ==> !Chains(Order(p, b), Order(b, q), Order(p, q));
    }
  }

  /** Equality chains through a value exactly when it has no document with fields and,
      where numbers are mixed, no double that is two integers. */
  lemma EqualityIff(kind: Numbers, b: Value)
    requires Among(kind, b)
    ensures (forall a, c :: Among(kind, a) && Among(kind, c) && Order(a, b) == 0 && Order(b, c) == 0 ==> Order(a, c) == 0) <==>
            Chained(kind, b)
  {
    if Chained(kind, b) {
      forall a, c | Among(kind, a) && Among(kind, c) && Order(a, b) == 0 && Order(b, c) == 0 ensures Order(a, c) == 0 {
        EqualThrough(kind, a, b, c);
      }
    } else {
      var p, r := EqualityBreaks(kind, b);
    }
  }

  lemma EqualityBreaks(kind: Numbers, b: Value) returns (p: Value, r: Value)
    requires Among(kind, b) && !Chained(kind, b)
    ensures Among(kind, p) && Among(kind, r) && Order(p, b) == 0 && Order(b, r) == 0 && Order(p, r) < 0
  {
    UnchainedUnclear(kind, b);
    var q;
    p, q, r := OddTriple(kind, b);
  }

  /** Three values, each less than the next. */
  ghost predicate Cycle(x: Value, y: Value, z: Value) { Order(x, y) < 0 && Order(y, z) < 0 && Order(z, x) < 0 }

  function Marked(v: Value, mark: Value): Value { Array([v, mark]) }

  lemma MarkedOrder(v: Value, m: Value, w: Value, n: Value)
    ensures Order(Marked(v, m), Marked(w, n)) == if Order(v, w) != 0 then Order(v, w) else Order(m, n)
  {
    var a, b := Marked(v, m), Marked(w, n);
    assert ArrayOrder(a, b, 2) == 0;
    assert ArrayOrder(a, b, 1) == Order(m, n);
  }

  /** An odd triple with marks in the other order is a circle. */
  lemma OddCycle(p: Value, q: Value, r: Value, mp: Value, mq: Value, mr: Value)
    requires Order(p, q) == 0 && Order(q, r) == 0 && Order(p, r) < 0
    requires Order(mr, mq) < 0 && Order(mq, mp) < 0
    ensures Cycle(Marked(p, mp), Marked(r, mr), Marked(q, mq))
  {
    OrderAntisymmetric(p, q);
    OrderAntisymmetric(q, r);
    MarkedOrder(p, mp, r, mr);
    MarkedOrder(r, mr, q, mq);
    MarkedOrder(q, mq, p, mp);
  }

  lemma AmongMarked(kind: Numbers, v: Value, mark: Value)
    requires Among(kind, v) && mark in {Null, Bool(false), Text([]), Blob([]), Array([])}
    ensures Among(kind, Marked(v, mark))
    ensures Clear(kind, v) ==> Clear(kind, Marked(v, mark))
  {
  }

  /** A value next to an empty text lies on a circle of `<` exactly when it is not clear. */
  lemma CycleIff(kind: Numbers, b: Value)
    requires Among(kind, b)
    ensures (exists x, y :: Among(kind, x) && Among(kind, y) && Cycle(x, y, Marked(b, Text([])))) <==> !Clear(kind, b)
  {
    var z := Marked(b, Text([]));
    if Clear(kind, b) {
      forall x, y | Among(kind, x) && Among(kind, y) ensures !Cycle(x, y, z) {
        AmongMarked(kind, b, Text([]));
        Through(kind, None, y, z, x);
        OrderAntisymmetric(x, y);
      }
    } else {
      var x, y := CircleThrough(kind, b);
    }
  }

  lemma CircleThrough(kind: Numbers, b: Value) returns (x: Value, y: Value)
    requires Among(kind, b) && !Clear(kind, b)
    ensures Among(kind, x) && Among(kind, y) && Cycle(x, y, Marked(b, Text([])))
  {
    var p, q, r := OddTriple(kind, b);
    var mp, mq, mr := Blob([]), Text([]), Null;
    if b == p {
      mp, mq, mr := Text([]), Bool(false), Null;
    } else if b == r {
      mp, mq, mr := Array([]), Blob([]), Text([]);
    }
    OddCycle(p, q, r, mp, mq, mr);
    AmongMarked(kind, p, mp);
    AmongMarked(kind, q, mq);
    AmongMarked(kind, r, mr);
    if b == p {
      x, y := Marked(r, mr), Marked(q, mq);
    } else if b == r {
      x, y := Marked(q, mq), Marked(p, mp);
    } else {
      x, y := Marked(p, mp), Marked(r, mr);
    }
  }
}
