/** Comparison of values (document/compare.go, document/array.go). */
module Compare {

  import opened Prelude
  import opened Bytes
  import opened BinarySort
  import opened Float
  import opened Values

  datatype Operator = Eq | Gt | Gte | Lt | Lte

  /** The reading of a three-way result by an operator. */
  predicate Reads(op: Operator, c: int) {
    match op
    case Eq => c == 0
    case Gt => c > 0
    case Gte => c >= 0
    case Lt => c < 0
    case Lte => c <= 0
  }

  // -------------------------------------------------------------- the order

  /** CastAsDouble, on numbers. */
  function AsDouble(v: Value): Bits
    requires IsNumber(v)
  {
    if v.Integer? then FloatOfInt(v.i) else v.d
  }

  /** Values the operators compare by content; others only by type rank. */
  predicate Comparable(l: Value, r: Value) { Type(l) == Type(r) || (IsNumber(l) && IsNumber(r)) }

  /** One three-way order on all values. */
  function Order(l: Value, r: Value): (c: int)
    ensures -1 <= c <= 1
    decreases l, 1
  {
    if !Comparable(l, r) then Sign(Type(l) - Type(r))
    else if l.Null? then 0
    else if l.Bool? then (if l.b == r.b then 0 else if r.b then -1 else 1)
    else if l.Integer? && r.Integer? then Sign(l.i - r.i)
    else if IsNumber(l) then Sign(Key(AsDouble(l)) - Key(AsDouble(r)))
    else if l.Text? then Lex(l.t, r.t)
    else if l.Blob? then Lex(l.data, r.data)
    else if l.Array? then ArrayOrder(l, r, 0)
    else DocumentOrder(l, r)
  }

  /** Arrays: the first pair of elements that differ decides, then the length. */
  function ArrayOrder(l: Value, r: Value, i: nat): (c: int)
    requires l.Array? && r.Array? && i <= |l.vs| && i <= |r.vs|
    ensures -1 <= c <= 1
    decreases l, 0, |l.vs| - i
  {
    if i == |l.vs| || i == |r.vs| then Sign(|l.vs| - |r.vs|)
    else
      var c := Order(l.vs[i], r.vs[i]);
      if c != 0 then c else ArrayOrder(l, r, i + 1)
  }

  function Insert(name: ByteString, names: seq<ByteString>): (r: seq<ByteString>)
    ensures |r| == |names| + 1
  {
    if names == [] || Lex(name, names[0]) <= 0 then [name] + names
    else [names[0]] + Insert(name, names[1..])
  }

  /** Fields(d): the field names, sorted. */
  function FieldNames(fields: seq<Field>): (r: seq<ByteString>)
    ensures |r| == |fields|
  {
    if fields == [] then [] else Insert(fields[0].name, FieldNames(fields[1..]))
  }

  lemma {:induction false} InsertMembers(name: ByteString, names: seq<ByteString>, i: nat)
    requires i <= |names|
    ensures Insert(name, names)[i] == name || Insert(name, names)[i] in names
  {
    if names != [] && Lex(name, names[0]) > 0 && i > 0 {
      InsertMembers(name, names[1..], i - 1);
    }
  }

  lemma {:induction false} NamesAreFields(fields: seq<Field>, i: nat)
    requires i < |fields|
    ensures HasField(fields, FieldNames(fields)[i])
  {
    var rest := FieldNames(fields[1..]);
    var n := FieldNames(fields)[i];
    InsertMembers(fields[0].name, rest, i);
    if n == fields[0].name {
      assert fields[0].name == n;
    } else {
      var k :| 0 <= k < |rest| && rest[k] == n;
      NamesAreFields(fields[1..], k);
      var m :| 0 <= m < |fields[1..]| && fields[1..][m].name == n;
      assert fields[m + 1].name == n;
    }
  }

  /** The value of the i-th field in name order. */
  function FieldAt(d: Value, i: nat): (v: Value)
    requires d.Document? && i < |d.fields|
    ensures exists k :: 0 <= k < |d.fields| && d.fields[k].value == v
  {
    NamesAreFields(d.fields, i);
    GetByField(d.fields, FieldNames(d.fields)[i]).value
  }

  ghost predicate SortedNames(names: seq<ByteString>) {
    forall i, j :: 0 <= i < j < |names| ==> Lex(names[i], names[j]) <= 0
  }

  lemma {:induction false} InsertSorts(name: ByteString, names: seq<ByteString>)
    requires SortedNames(names)
    ensures SortedNames(Insert(name, names))
    ensures multiset(Insert(name, names)) == multiset{name} + multiset(names)
  {
    var r := Insert(name, names);
    if names == [] {
    } else if Lex(name, names[0]) <= 0 {
      forall j | 0 < j < |r| ensures Lex(r[0], r[j]) <= 0 {
        LexTransitive(name, names[0], names[j - 1]);
        LexEqual(names[0], names[0]);
      }
    } else {
      assert names == [names[0]] + names[1..];
      InsertSorts(name, names[1..]);
      LexAntisymmetric(name, names[0]);
      forall j | 0 < j < |r| ensures Lex(r[0], r[j]) <= 0 {
        InsertMembers(name, names[1..], j - 1);
      }
    }
  }

  function NamesOf(fields: seq<Field>): seq<ByteString> {
    if fields == [] then [] else [fields[0].name] + NamesOf(fields[1..])
  }

  /** FieldNames lists exactly the field names, in order. */
  lemma {:induction false} FieldNamesSorted(fields: seq<Field>)
    ensures SortedNames(FieldNames(fields))
    ensures multiset(FieldNames(fields)) == multiset(NamesOf(fields))
  {
    if fields != [] {
      FieldNamesSorted(fields[1..]);
      InsertSorts(fields[0].name, FieldNames(fields[1..]));
    }
  }

  /** Documents: an empty one comes first; otherwise names and values are compared
      in name order until one document runs out of fields, and then they are equal. */
  function DocumentOrder(l: Value, r: Value): (c: int)
    requires l.Document? && r.Document?
    ensures -1 <= c <= 1
    decreases l, 0, |l.fields| + 1
  {
    if l.fields == [] || r.fields == [] then Sign(|l.fields|) - Sign(|r.fields|)
    else FieldsOrder(l, r, 0)
  }

  function FieldsOrder(l: Value, r: Value, i: nat): (c: int)
    requires l.Document? && r.Document? && i <= |l.fields| && i <= |r.fields|
    ensures -1 <= c <= 1
    decreases l, 0, |l.fields| - i
  {
    if i == |l.fields| || i == |r.fields| then 0
    else
      var n := Lex(FieldNames(l.fields)[i], FieldNames(r.fields)[i]);
      if n != 0 then n
      else
        var c := Order(FieldAt(l, i), FieldAt(r, i));
        if c != 0 then c else FieldsOrder(l, r, i + 1)
  }

  /** Values that are not compared by content: NULL, booleans, numbers, texts, blobs,
      arrays and documents come in this order. */
  lemma TypesInOrder(l: Value, r: Value)
    requires !Comparable(l, r)
    ensures Order(l, r) < 0 <==>
            || l.Null? || (l.Bool? && !r.Null?) || (IsNumber(l) && !r.Null? && !r.Bool?)
            || (l.Text? && (r.Blob? || r.Array? || r.Document?))
            || (l.Blob? && (r.Array? || r.Document?))
            || (l.Array? && r.Document?)
  {
  }

  // ------------------------------------------------------------ restrictions

  predicate NaNFree(v: Value) {
    match v
    case Double(d) => !IsNaN(d)
    case Array(vs) => forall i :: 0 <= i < |vs| ==> NaNFree(vs[i])
    case Document(fields) => forall i :: 0 <= i < |fields| ==> NaNFree(fields[i].value)
    case _ => true
  }

  /** What an operator should answer. */
  predicate Answer(op: Operator, l: Value, r: Value) { Comparable(l, r) && Reads(op, Order(l, r)) }

  // -------------------------------------------------------------- operations

  /** compare: dispatch on the two types. */
  method CompareValues(op: Operator, l: Value, r: Value) returns (ok: bool)
    ensures NaNFree(l) && NaNFree(r) ==> ok == Answer(op, l, r)
    decreases l, 3
  {
    if l.Null? || r.Null? {
      ok := CompareWithNull(op, l, r);
    } else if l.Bool? && r.Bool? {
      ok := CompareBooleans(op, l.b, r.b);
    } else if l.Text? && r.Text? {
      ok := CompareBytes(op, l.t, r.t);
    } else if r.Blob? && l.Blob? {
      ok := CompareBytes(op, l.data, r.data);
    } else if l.Integer? && r.Integer? {
      ok := CompareIntegers(op, l.i, r.i);
    } else if IsNumber(l) && IsNumber(r) {
      ok := CompareDoubles(op, AsDouble(l), AsDouble(r));
    } else if l.Array? && r.Array? {
      ok := CompareArrays(op, l, r);
    } else if l.Document? && r.Document? {
      ok := CompareDocuments(op, l, r);
    } else {
      ok := false;
    }
  }

  method CompareWithNull(op: Operator, l: Value, r: Value) returns (ok: bool)
    requires l.Null? || r.Null?
    ensures ok == Answer(op, l, r)
  {
    match op
    case Eq | Gte | Lte => ok := Type(l) == Type(r);
    case Gt | Lt => ok := false;
  }

  method CompareBooleans(op: Operator, a: bool, b: bool) returns (ok: bool)
    ensures ok == Reads(op, Order(Bool(a), Bool(b)))
  {
    match op
    case Eq => ok := a == b;
    case Gt => ok := a && !b;
    case Gte => ok := a == b || a;
    case Lt => ok := !a && b;
    case Lte => ok := a == b || !a;
  }

  /** Texts and blobs alike. */
  method CompareBytes(op: Operator, l: ByteString, r: ByteString) returns (ok: bool)
    ensures ok == Reads(op, Lex(l, r))
  {
    LexEqual(l, r);
    match op
    case Eq => ok := l == r;
    case Gt => ok := Lex(l, r) > 0;
    case Gte => ok := Lex(l, r) >= 0;
    case Lt => ok := Lex(l, r) < 0;
    case Lte => ok := Lex(l, r) <= 0;
  }

  method CompareIntegers(op: Operator, l: Int64, r: Int64) returns (ok: bool)
    ensures ok == Reads(op, Sign(l - r))
  {
    match op
    case Eq => ok := l == r;
    case Gt => ok := l > r;
    case Gte => ok := l >= r;
    case Lt => ok := l < r;
    case Lte => ok := l <= r;
  }

  /** Every comparison with NaN is false. */
  method CompareDoubles(op: Operator, a: Bits, b: Bits) returns (ok: bool)
    ensures ok == (!IsNaN(a) && !IsNaN(b) && Reads(op, Sign(Key(a) - Key(b))))
  {
    if IsNaN(a) || IsNaN(b) {
      return false;
    }
    match op
    case Eq => ok := Key(a) == Key(b);
    case Gt => ok := Key(a) > Key(b);
    case Gte => ok := Key(a) >= Key(b);
    case Lt => ok := Key(a) < Key(b);
    case Lte => ok := Key(a) <= Key(b);
  }

  /** One step of the loops below: two elements or field values. `decided` says
      that they settle the comparison, with answer `ok`. */
  method CompareElements(op: Operator, lv: Value, rv: Value) returns (decided: bool, ok: bool)
    ensures NaNFree(lv) && NaNFree(rv) ==> decided == (Order(lv, rv) != 0)
    ensures NaNFree(lv) && NaNFree(rv) && decided ==> ok == Reads(op, Order(lv, rv))
    decreases lv, 4
  {
    if Type(lv) == Type(rv) || (IsNumber(lv) && IsNumber(rv)) {
      var isEq := CompareValues(Eq, lv, rv);
      if !isEq && op != Eq {
        ok := CompareValues(op, lv, rv);
        return true, ok;
      }
      return !isEq, false;
    }
    match op
    case Eq => return true, false;
    case Gt | Gte => return true, Type(lv) > Type(rv);
    case Lt | Lte => return true, Type(lv) < Type(rv);
  }

  /** What the loops answer once one side has run out, from how far each index went. */
  method CompareEnds(op: Operator, i: nat, j: nat) returns (ok: bool)
    ensures ok == Reads(op, Sign(i - j))
  {
    if i > j {
      ok := op != Eq && op != Lt && op != Lte;
    } else if i < j {
      ok := op != Eq && op != Gt && op != Gte;
    } else {
      ok := op == Eq || op == Gte || op == Lte;
    }
  }

  method CompareArrays(op: Operator, l: Value, r: Value) returns (ok: bool)
    requires l.Array? && r.Array?
    ensures NaNFree(l) && NaNFree(r) ==> ok == Reads(op, ArrayOrder(l, r, 0))
    decreases l, 0
  {
    var i, j := 0, 0;
    while true
      invariant i == j && i <= |l.vs| && j <= |r.vs|
      invariant NaNFree(l) && NaNFree(r) ==> ArrayOrder(l, r, 0) == ArrayOrder(l, r, i)
      decreases |l.vs| - i
    {
      var lerr, rerr := i >= |l.vs|, j >= |r.vs|;
      if lerr || rerr {
        if !lerr {
          i := i + 1;
        }
        if !rerr {
          j := j + 1;
        }
        break;
      }
      var lv, rv := l.vs[i], r.vs[j];
      i, j := i + 1, j + 1;
      var decided, answer := CompareElements(op, lv, rv);
      if decided {
        return answer;
      }
    }
    ok := CompareEnds(op, i, j);
  }

  method CompareDocuments(op: Operator, l: Value, r: Value) returns (ok: bool)
    requires l.Document? && r.Document?
    ensures NaNFree(l) && NaNFree(r) ==> ok == Reads(op, DocumentOrder(l, r))
    decreases l, 2
  {
    var lf, rf := FieldNames(l.fields), FieldNames(r.fields);
    if |lf| == 0 && |rf| > 0 {
      return op == Lt || op == Lte;
    }
    if |rf| == 0 && |lf| > 0 {
      return op == Gt || op == Gte;
    }
    ok := CompareFields(op, l, r);
  }

  /** Different field names settle the comparison. */
  method CompareNames(op: Operator, cmp: int) returns (ok: bool)
    requires cmp != 0
    ensures ok == Reads(op, cmp)
  {
    match op
    case Eq => ok := false;
    case Gt => ok := cmp > 0;
    case Gte => ok := cmp >= 0;
    case Lt => ok := cmp < 0;
    case Lte => ok := cmp <= 0;
  }

  lemma FieldNaNFree(d: Value, i: nat)
    requires d.Document? && NaNFree(d) && i < |d.fields|
    ensures NaNFree(FieldAt(d, i))
  {
  }

  /** What is left to compare from each field on. */
  ghost predicate AreOrders(l: Value, r: Value, o: seq<int>)
    requires l.Document? && r.Document?
  {
    && |o| == (if |l.fields| < |r.fields| then |l.fields| else |r.fields|) + 1
    && forall i {:trigger FieldsOrder(l, r, i)} :: 0 <= i < |o| ==> o[i] == FieldsOrder(l, r, i)
  }

  lemma Orders(l: Value, r: Value) returns (o: seq<int>)
    requires l.Document? && r.Document?
    ensures AreOrders(l, r, o) && o[0] == FieldsOrder(l, r, 0) && o[|o| - 1] == 0
  {
    var n := if |l.fields| < |r.fields| then |l.fields| else |r.fields|;
    o := seq(n + 1, i requires 0 <= i <= n => FieldsOrder(l, r, i));
  }

  /** One round of the loop below: the i-th names, then the i-th values. */
  method CompareFieldAt(op: Operator, l: Value, r: Value, i: nat, ghost o: seq<int>) returns (decided: bool, ok: bool)
    requires l.Document? && r.Document? && i < |l.fields| && i < |r.fields| && AreOrders(l, r, o)
    ensures NaNFree(l) && NaNFree(r) && decided ==> ok == Reads(op, o[i])
    ensures NaNFree(l) && NaNFree(r) && !decided ==> o[i] == o[i + 1]
    decreases l, 0
  {
    assert o[i] == FieldsOrder(l, r, i) && o[i + 1] == FieldsOrder(l, r, i + 1);
    var cmp := Lex(FieldNames(l.fields)[i], FieldNames(r.fields)[i]);
    if cmp != 0 {
      ok := CompareNames(op, cmp);
      return true, ok;
    }
    if NaNFree(l) && NaNFree(r) {
      FieldNaNFree(l, i);
      FieldNaNFree(r, i);
    }
    decided, ok := CompareElements(op, FieldAt(l, i), FieldAt(r, i));
  }

  /** The loop over the sorted field names of both documents. */
  method CompareFields(op: Operator, l: Value, r: Value) returns (ok: bool)
    requires l.Document? && r.Document?
    ensures NaNFree(l) && NaNFree(r) ==> ok == Reads(op, FieldsOrder(l, r, 0))
    decreases l, 1
  {
    var i, j := 0, 0;
    ghost var o := Orders(l, r);
    ghost var clean := NaNFree(l) && NaNFree(r);
    while i < |l.fields| && j < |r.fields|
      invariant i == j && i <= |l.fields| && j <= |r.fields|
      invariant clean ==> o[0] == o[i]
    {
      var decided, answer := CompareFieldAt(op, l, r, i, o);
      if decided {
        return answer;
      }
      i, j := i + 1, j + 1;
    }
    ok := CompareEnds(op, i, j);
  }

  // ------------------------------------------------------------ one order

  lemma {:induction false} OrderAntisymmetric(l: Value, r: Value)
    ensures Order(l, r) == -Order(r, l)
    decreases l, 1
  {
    if l.Text? && r.Text? {
      LexAntisymmetric(l.t, r.t);
    } else if l.Blob? && r.Blob? {
      LexAntisymmetric(l.data, r.data);
    } else if l.Array? && r.Array? {
      ArrayAntisymmetric(l, r, 0);
    } else if l.Document? && r.Document? && l.fields != [] && r.fields != [] {
      FieldsAntisymmetric(l, r, 0);
    }
  }

  lemma {:induction false} ArrayAntisymmetric(l: Value, r: Value, i: nat)
    requires l.Array? && r.Array? && i <= |l.vs| && i <= |r.vs|
    ensures ArrayOrder(l, r, i) == -ArrayOrder(r, l, i)
    decreases l, 0, |l.vs| - i
  {
    if i < |l.vs| && i < |r.vs| {
      OrderAntisymmetric(l.vs[i], r.vs[i]);
      ArrayAntisymmetric(l, r, i + 1);
    }
  }

  lemma {:induction false} FieldsAntisymmetric(l: Value, r: Value, i: nat)
    requires l.Document? && r.Document? && i <= |l.fields| && i <= |r.fields|
    ensures FieldsOrder(l, r, i) == -FieldsOrder(r, l, i)
    decreases l, 0, |l.fields| - i
  {
    if i < |l.fields| && i < |r.fields| {
      LexAntisymmetric(FieldNames(l.fields)[i], FieldNames(r.fields)[i]);
      OrderAntisymmetric(FieldAt(l, i), FieldAt(r, i));
      FieldsAntisymmetric(l, r, i + 1);
    }
  }

  /** The five operators are five readings of one comparison, and swapping the
      operands mirrors it. Values of unrelated types satisfy no operator. */
  lemma FiveReadings(l: Value, r: Value)
    ensures Answer(Lt, l, r) <==> Answer(Gt, r, l)
    ensures Answer(Eq, l, r) <==> Answer(Eq, r, l)
    ensures Answer(Gte, l, r) <==> Answer(Gt, l, r) || Answer(Eq, l, r)
    ensures Answer(Lte, l, r) <==> Answer(Lt, l, r) || Answer(Eq, l, r)
    ensures Comparable(l, r) <==> Answer(Lt, l, r) || Answer(Eq, l, r) || Answer(Gt, l, r)
    ensures !(Answer(Lt, l, r) && Answer(Eq, l, r)) && !(Answer(Lt, l, r) && Answer(Gt, l, r))
    ensures !(Answer(Eq, l, r) && Answer(Gt, l, r))
  {
    OrderAntisymmetric(l, r);
  }

  // ----------------------------------------------------- kinds of values

  predicate DocumentFree(v: Value) {
    match v
    case Array(vs) => forall i :: 0 <= i < |vs| ==> DocumentFree(vs[i])
    case Document(_) => false
    case _ => true
  }

  /** No number of the other type than `ints` says, at any depth. */
  predicate OneNumberType(ints: bool, v: Value) {
    match v
    case Integer(_) => ints
    case Double(_) => !ints
    case Array(vs) => forall i :: 0 <= i < |vs| ==> OneNumberType(ints, vs[i])
    case Document(fields) => forall i :: 0 <= i < |fields| ==> OneNumberType(ints, fields[i].value)
    case _ => true
  }
}
