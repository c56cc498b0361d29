/** Sort-ordered encoding of nested values (document/value_encoding.go). */
module ValueEncoding {

  import opened Bytes
  import opened BinarySort
  import opened Values
  import opened Compare

  const ARRAY_VALUE_DELIM: Byte := 0x1F
  const ARRAY_END: Byte := 0x1E
  const DOCUMENT_VALUE_DELIM: Byte := 0x1C
  const DOCUMENT_END: Byte := 0x1D

  // ------------------------------------------------------------ the encoding

  /** The bytes of a value: its type, then its content. */
  function Encode(v: Value): ByteString
    decreases v, 1
  {
    [Type(v)] + Content(v)
  }

  function Content(v: Value): ByteString
    decreases v, 0
  {
    match v
    case Null => []
    case Bool(b) => AppendBool(b)
    case Integer(i) => AppendInt64(i)
    case Double(d) => AppendFloat64(d)
    case Text(t) => AppendBase64(t)
    case Blob(data) => AppendBase64(data)
    case Array(vs) => Elements(v, 0)
    case Document(fields) => FieldsFrom(v, 0)
  }

  /** The elements of an array from the i-th on, with separators and end marker. */
  function Elements(v: Value, i: nat): ByteString
    requires v.Array? && i <= |v.vs|
    decreases v, 0, |v.vs| - i
  {
    if i == |v.vs| then [ARRAY_END]
    else Separator(i, ARRAY_VALUE_DELIM) + Encode(v.vs[i]) + Elements(v, i + 1)
  }

  function FieldsFrom(v: Value, i: nat): ByteString
    requires v.Document? && i <= |v.fields|
    decreases v, 0, |v.fields| - i
  {
    if i == |v.fields| then [DOCUMENT_END]
    else FieldLead(v.fields[i].name, i) + Encode(v.fields[i].value) + FieldsFrom(v, i + 1)
  }

  /** What comes before the value of the i-th field. */
  function FieldLead(name: ByteString, i: nat): ByteString {
    Separator(i, DOCUMENT_VALUE_DELIM) + AppendBase64(name) + [DOCUMENT_VALUE_DELIM]
  }

  function Separator(i: nat, delim: Byte): ByteString { if i > 0 then [delim] else [] }

  lemma Regroup(before: ByteString, a: ByteString, b: ByteString, rest: ByteString)
    ensures before + (a + b + rest) == before + a + b + rest
    ensures before + (a + b) == before + a + b
  {
  }

  /** The encoder: it appends to a writer and reuses one scratch buffer. */
  class ValueEncoder {
    var w: ByteString
    var buf: ByteString

    constructor ()
      ensures w == []
    {
      w, buf := [], [];
    }

    method Append(data: ByteString)
      modifies this
      ensures w == old(w) + data && buf == old(buf)
    {
      w := w + data;
    }

    method AppendValue(v: Value)
      modifies this
      ensures w == old(w) + Encode(v)
      decreases v, 1
    {
      Append([Type(v)]);
      match v {
        case Null =>
        case Array(_) => AppendArray(v);
        case Document(_) => AppendDocument(v);
        case _ => AppendScalar(v);
      }
      Regroup(old(w), [Type(v)], Content(v), []);
    }

    method AppendScalar(v: Value)
      requires !v.Null? && !v.Array? && !v.Document?
      modifies this
      ensures w == old(w) + Content(v)
    {
      match v {
        case Blob(data) => buf := AppendBase64(data);
        case Text(t) => buf := AppendBase64(t);
        case Bool(b) => buf := AppendBool(b);
        case Integer(i) => buf := AppendInt64(i);
        case Double(d) => buf := AppendFloat64(d);
      }
      Append(buf);
    }

    method AppendArray(v: Value)
      requires v.Array?
      modifies this
      ensures w == old(w) + Elements(v, 0)
      decreases v, 0
    {
      var i := 0;
      while i < |v.vs|
        invariant 0 <= i <= |v.vs|
        invariant w + Elements(v, i) == old(w) + Elements(v, 0)
      {
        ghost var before, rest := w, Elements(v, i + 1);
        if i > 0 {
          Append([ARRAY_VALUE_DELIM]);
        }
        AppendValue(v.vs[i]);
        assert before + Separator(i, ARRAY_VALUE_DELIM) + Encode(v.vs[i]) == w;
        Regroup(before, Separator(i, ARRAY_VALUE_DELIM), Encode(v.vs[i]), rest);
        i := i + 1;
      }
      Append([ARRAY_END]);
    }

    method AppendFieldLead(name: ByteString, i: nat)
      modifies this
      ensures w == old(w) + FieldLead(name, i)
    {
      if i > 0 {
        Append([DOCUMENT_VALUE_DELIM]);
      }
      buf := AppendBase64(name);
      Append(buf);
      Append([DOCUMENT_VALUE_DELIM]);
    }

    method AppendDocument(v: Value)
      requires v.Document?
      modifies this
      ensures w == old(w) + FieldsFrom(v, 0)
      decreases v, 0
    {
      var i := 0;
      while i < |v.fields|
        invariant 0 <= i <= |v.fields|
        invariant w + FieldsFrom(v, i) == old(w) + FieldsFrom(v, 0)
      {
        ghost var before, rest := w, FieldsFrom(v, i + 1);
        AppendFieldLead(v.fields[i].name, i);
        AppendValue(v.fields[i].value);
        Regroup(before, FieldLead(v.fields[i].name, i), Encode(v.fields[i].value), rest);
        i := i + 1;
      }
      Append([DOCUMENT_END]);
    }
  }

  // ------------------------------------------------------------------ order

  /** No NaN and no -0.0, at any depth. */
  predicate ProperDoubles(v: Value) {
    match v
    case Double(d) => !IsNaN(d) && d != NEGATIVE_ZERO
    case Array(vs) => forall i :: 0 <= i < |vs| ==> ProperDoubles(vs[i])
    case Document(fields) => forall i :: 0 <= i < |fields| ==> ProperDoubles(fields[i].value)
    case _ => true
  }

  /** The values the theorem is about: nulls, booleans, texts, blobs, arrays and
      numbers of one type. */
  predicate Sortable(ints: bool, v: Value) {
    DocumentFree(v) && OneNumberType(ints, v) && ProperDoubles(v)
  }

  /** What may follow a value: nothing, or a separator or end marker. Every base64
      letter is above these. */
  predicate Terminator(x: ByteString) { x == [] || x[0] <= ARRAY_VALUE_DELIM }

  function Then(c: int, x: ByteString, y: ByteString): int { if c != 0 then c else Lex(x, y) }

  lemma Base64Followed(s: ByteString, t: ByteString, x: ByteString, y: ByteString)
    requires Terminator(x) && Terminator(y)
    ensures Lex(AppendBase64(s) + x, AppendBase64(t) + y) == Then(Lex(s, t), x, y)
  {
    Base64Order(s, t);
    if Lex(s, t) == 0 {
      LexEqual(s, t);
      LexSamePrefix(AppendBase64(s), x, y);
    } else if Lex(s, t) < 0 {
      Base64Less(s, t, x, y);
    } else {
      LexAntisymmetric(s, t);
      Base64Order(t, s);
      Base64Less(t, s, y, x);
      LexAntisymmetric(AppendBase64(s) + x, AppendBase64(t) + y);
    }
  }

  lemma Base64Less(s: ByteString, t: ByteString, x: ByteString, y: ByteString)
    requires Terminator(x) && Lex(AppendBase64(s), AppendBase64(t)) < 0
    ensures Lex(AppendBase64(s) + x, AppendBase64(t) + y) < 0
  {
    var p, q := AppendBase64(s), AppendBase64(t);
    if p <= q {
      LexEqual(p, q);
      assert |p| < |q|;
      assert q[|p|] > 0x1F;
      assert q + y == p + (q[|p|..] + y);
      LexSamePrefix(p, x, q[|p|..] + y);
    } else {
      LexDecidedEarly(p, x, q, y);
    }
  }

  /** The main induction: behind any two terminators, byte order is value order. */
  lemma {:induction false} EncodingFollowed(ints: bool, a: Value, b: Value, x: ByteString, y: ByteString)
    requires Sortable(ints, a) && Sortable(ints, b) && Terminator(x) && Terminator(y)
    ensures Lex(Encode(a) + x, Encode(b) + y) == Then(Order(a, b), x, y)
    decreases a, 1
  {
    TypesFirst(a, b, x, y);
    if Type(a) == Type(b) {
      ContentFollowed(ints, a, b, x, y);
    } else {
      TypesDecide(ints, a, b);
    }
  }

  lemma TypesFirst(a: Value, b: Value, x: ByteString, y: ByteString)
    ensures Lex(Encode(a) + x, Encode(b) + y) ==
            if Type(a) == Type(b) then Lex(Content(a) + x, Content(b) + y) else Sign(Type(a) - Type(b))
  {
    assert Encode(a) + x == [Type(a)] + (Content(a) + x);
    assert Encode(b) + y == [Type(b)] + (Content(b) + y);
    LexCons(Type(a), Content(a) + x, Type(b), Content(b) + y);
  }

  lemma TypesDecide(ints: bool, a: Value, b: Value)
    requires OneNumberType(ints, a) && OneNumberType(ints, b) && Type(a) != Type(b)
    ensures Order(a, b) == Sign(Type(a) - Type(b))
  {
  }

  lemma {:induction false} ContentFollowed(ints: bool, a: Value, b: Value, x: ByteString, y: ByteString)
    requires Sortable(ints, a) && Sortable(ints, b) && Terminator(x) && Terminator(y) && Type(a) == Type(b)
    ensures Lex(Content(a) + x, Content(b) + y) == Then(Order(a, b), x, y)
    decreases a, 0
  {
    match a {
      case Null =>
        assert [] + x == x && [] + y == y;
      case Bool(_) | Integer(_) | Double(_) =>
        LexFixedWidth(Content(a), x, Content(b), y);
        LexEqual(Content(a), Content(b));
        ScalarOrder(a, b);
      case Text(t) => Base64Followed(t, b.t, x, y);
      case Blob(data) => Base64Followed(data, b.data, x, y);
      case Array(_) => ElementsFollowed(ints, a, b, 0, x, y);
    }
  }

  lemma ScalarOrder(a: Value, b: Value)
    requires Type(a) == Type(b) && (a.Bool? || a.Integer? || a.Double?) && ProperDoubles(a) && ProperDoubles(b)
    ensures Lex(Content(a), Content(b)) == Order(a, b)
  {
    if a.Integer? {
      Int64Order(a.i, b.i);
    } else if a.Double? {
      Float64Order(a.d, b.d);
    }
  }

  lemma {:induction false} ElementsFollowed(ints: bool, a: Value, b: Value, i: nat, x: ByteString, y: ByteString)
    requires a.Array? && b.Array? && i <= |a.vs| && i <= |b.vs|
    requires Sortable(ints, a) && Sortable(ints, b) && Terminator(x) && Terminator(y)
    ensures Lex(Elements(a, i) + x, Elements(b, i) + y) == Then(ArrayOrder(a, b, i), x, y)
    decreases a, 0, |a.vs| - i
  {
    if i < |a.vs| && i < |b.vs| {
      var x', y' := Elements(a, i + 1) + x, Elements(b, i + 1) + y;
      ElementsTerminate(a, i + 1, x);
      ElementsTerminate(b, i + 1, y);
      EncodingFollowed(ints, a.vs[i], b.vs[i], x', y');
      ElementsFollowed(ints, a, b, i + 1, x, y);
      FirstElements(a, b, i, x, y);
    } else {
      ElementsEnd(a, b, i, x, y);
    }
  }

  lemma FirstElements(a: Value, b: Value, i: nat, x: ByteString, y: ByteString)
    requires a.Array? && b.Array? && i < |a.vs| && i < |b.vs|
    ensures Lex(Elements(a, i) + x, Elements(b, i) + y) ==
            Lex(Encode(a.vs[i]) + (Elements(a, i + 1) + x), Encode(b.vs[i]) + (Elements(b, i + 1) + y))
  {
    var p := Separator(i, ARRAY_VALUE_DELIM);
    var s, t := Encode(a.vs[i]) + (Elements(a, i + 1) + x), Encode(b.vs[i]) + (Elements(b, i + 1) + y);
    assert Elements(a, i) + x == p + s;
    assert Elements(b, i) + y == p + t;
    LexSamePrefix(p, s, t);
  }

  lemma ElementsEnd(a: Value, b: Value, i: nat, x: ByteString, y: ByteString)
    requires a.Array? && b.Array? && i <= |a.vs| && i <= |b.vs| && (i == |a.vs| || i == |b.vs|)
    ensures Lex(Elements(a, i) + x, Elements(b, i) + y) == Then(ArrayOrder(a, b, i), x, y)
  {
    ElementsStart(a, i, x);
    ElementsStart(b, i, y);
    if i == |a.vs| == |b.vs| {
      LexSamePrefix([ARRAY_END], x, y);
    }
  }

  lemma ElementsTerminate(v: Value, i: nat, x: ByteString)
    requires v.Array? && 0 < i <= |v.vs|
    ensures Terminator(Elements(v, i) + x)
  {
    ElementsStart(v, i, x);
  }

  /** The end marker is below the separator, and both are below every type byte. */
  lemma ElementsStart(v: Value, i: nat, x: ByteString)
    requires v.Array? && i <= |v.vs|
    ensures var s := Elements(v, i) + x;
            s != [] && s[0] == (if i == |v.vs| then ARRAY_END else if i > 0 then ARRAY_VALUE_DELIM else Type(v.vs[0]))
  {
    if i < |v.vs| && i == 0 {
      assert Elements(v, 0) == [] + Encode(v.vs[0]) + Elements(v, 1);
      assert Encode(v.vs[0])[0] == Type(v.vs[0]);
    }
  }

  /** Equal in the order means equal. */
  lemma {:induction false} OrderZero(ints: bool, a: Value, b: Value)
    requires Sortable(ints, a) && Sortable(ints, b)
    ensures Order(a, b) == 0 <==> a == b
    decreases a, 1
  {
    if Type(a) == Type(b) {
      match a {
        case Text(t) => LexEqual(t, b.t);
        case Blob(data) => LexEqual(data, b.data);
        case Array(_) => ArrayZero(ints, a, b, 0);
        case _ =>
      }
    }
  }

  lemma {:induction false} ArrayZero(ints: bool, a: Value, b: Value, i: nat)
    requires a.Array? && b.Array? && i <= |a.vs| && i <= |b.vs|
    requires Sortable(ints, a) && Sortable(ints, b)
    ensures ArrayOrder(a, b, i) == 0 <==> a.vs[i..] == b.vs[i..]
    decreases a, 0, |a.vs| - i
  {
    if i < |a.vs| && i < |b.vs| {
      OrderZero(ints, a.vs[i], b.vs[i]);
      ArrayZero(ints, a, b, i + 1);
      assert a.vs[i..] == [a.vs[i]] + a.vs[i + 1..];
      assert b.vs[i..] == [b.vs[i]] + b.vs[i + 1..];
    }
  }

  /** Byte order of the encodings is the order of the values, and only equal values
      have equal encodings. */
  lemma EncodingOrder(ints: bool, a: Value, b: Value)
    requires Sortable(ints, a) && Sortable(ints, b)
    ensures Lex(Encode(a), Encode(b)) == Order(a, b)
    ensures Encode(a) == Encode(b) <==> a == b
  {
    assert Encode(a) + [] == Encode(a) && Encode(b) + [] == Encode(b);
    EncodingFollowed(ints, a, b, [], []);
    OrderZero(ints, a, b);
    LexEqual(Encode(a), Encode(b));
  }

  /** Not so for documents: of two documents that begin alike, the one with more
      fields sorts first. */
  lemma LongerDocumentFirst(a: Value, b: Value)
    requires a.Document? && b.Document? && a.fields < b.fields && a.fields != []
    ensures Lex(Encode(b), Encode(a)) < 0
  {
    SameFieldsFirst(a, b, 0);
    LexCons(Type(b), Content(b), Type(a), Content(a));
  }

  lemma {:induction false} SameFieldsFirst(a: Value, b: Value, i: nat)
    requires a.Document? && b.Document? && a.fields < b.fields && i <= |a.fields| && a.fields != []
    ensures Lex(FieldsFrom(b, i), FieldsFrom(a, i)) < 0
    decreases |a.fields| - i
  {
    if i < |a.fields| {
      SameFieldsFirst(a, b, i + 1);
      LexSamePrefix(FieldLead(a.fields[i].name, i) + Encode(a.fields[i].value), FieldsFrom(b, i + 1), FieldsFrom(a, i + 1));
    } else {
      assert FieldLead(b.fields[i].name, i)[0] == DOCUMENT_VALUE_DELIM;
      assert FieldsFrom(b, i)[0] == DOCUMENT_VALUE_DELIM;
    }
  }

  // ------------------------------------------------------- telling values apart

  lemma SamePrefix(p: ByteString, x: ByteString, q: ByteString, y: ByteString)
    requires |p| == |q| && p + x == q + y
    ensures p == q && x == y
  {
    assert (p + x)[..|p|] == p && (q + y)[..|p|] == q;
    assert (p + x)[|p|..] == x && (q + y)[|p|..] == y;
  }

  lemma SameBase64(s: ByteString, t: ByteString, x: ByteString, y: ByteString)
    requires Terminator(x) && Terminator(y) && AppendBase64(s) + x == AppendBase64(t) + y
    ensures s == t && x == y
  {
    Base64Followed(s, t, x, y);
    LexEqual(AppendBase64(s) + x, AppendBase64(t) + y);
    LexEqual(s, t);
    LexEqual(x, y);
  }

  /** Behind any terminators: the bytes tell where a value ends, and which value it is. */
  lemma {:induction false} SameBytes(a: Value, b: Value, x: ByteString, y: ByteString)
    requires NaNFree(a) && NaNFree(b) && Terminator(x) && Terminator(y)
    requires Encode(a) + x == Encode(b) + y
    ensures a == b && x == y
    decreases a, 1
  {
    assert Encode(a) + x == [Type(a)] + (Content(a) + x) && Encode(b) + y == [Type(b)] + (Content(b) + y);
    SamePrefix([Type(a)], Content(a) + x, [Type(b)], Content(b) + y);
    SameContent(a, b, x, y);
  }

  lemma {:induction false} SameContent(a: Value, b: Value, x: ByteString, y: ByteString)
    requires NaNFree(a) && NaNFree(b) && Terminator(x) && Terminator(y)
    requires Type(a) == Type(b) && Content(a) + x == Content(b) + y
    ensures a == b && x == y
    decreases a, 0
  {
    match a {
      case Null => SamePrefix([], x, [], y);
      case Bool(_) => SamePrefix(Content(a), x, Content(b), y);
      case Integer(i) =>
        SamePrefix(Content(a), x, Content(b), y);
        Int64Order(i, b.i);
        LexEqual(Content(a), Content(b));
      case Double(d) =>
        SamePrefix(Content(a), x, Content(b), y);
        Float64Injective(d, b.d);
      case Text(t) => SameBase64(t, b.t, x, y);
      case Blob(data) => SameBase64(data, b.data, x, y);
      case Array(_) => SameElements(a, b, 0, x, y);
      case Document(_) => SameFields(a, b, 0, x, y);
    }
  }

  lemma {:induction false} SameElements(a: Value, b: Value, i: nat, x: ByteString, y: ByteString)
    requires a.Array? && b.Array? && i <= |a.vs| && i <= |b.vs| && forall k :: 0 <= k < i ==> a.vs[k] == b.vs[k]
    requires NaNFree(a) && NaNFree(b) && Terminator(x) && Terminator(y)
    requires Elements(a, i) + x == Elements(b, i) + y
    ensures a == b && x == y
    decreases a, 0, |a.vs| - i
  {
    SameEnd(a, b, i, x, y);
    if i < |a.vs| {
      SameElement(a, b, i, x, y);
      ElementsTerminate(a, i + 1, x);
      ElementsTerminate(b, i + 1, y);
      SameBytes(a.vs[i], b.vs[i], Elements(a, i + 1) + x, Elements(b, i + 1) + y);
      SameElements(a, b, i + 1, x, y);
    } else {
      assert a.vs == b.vs;
    }
  }

  lemma SameEnd(a: Value, b: Value, i: nat, x: ByteString, y: ByteString)
    requires a.Array? && b.Array? && i <= |a.vs| && i <= |b.vs| && Elements(a, i) + x == Elements(b, i) + y
    ensures i == |a.vs| <==> i == |b.vs|
    ensures i == |a.vs| ==> x == y
  {
    ElementsStart(a, i, x);
    ElementsStart(b, i, y);
    if i == |a.vs| {
      SamePrefix([ARRAY_END], x, [ARRAY_END], y);
    }
  }

  lemma SameElement(a: Value, b: Value, i: nat, x: ByteString, y: ByteString)
    requires a.Array? && b.Array? && i < |a.vs| && i < |b.vs| && Elements(a, i) + x == Elements(b, i) + y
    ensures Encode(a.vs[i]) + (Elements(a, i + 1) + x) == Encode(b.vs[i]) + (Elements(b, i + 1) + y)
  {
    FirstElement(a, i, x);
    FirstElement(b, i, y);
    var p := Separator(i, ARRAY_VALUE_DELIM);
    SamePrefix(p, Encode(a.vs[i]) + (Elements(a, i + 1) + x), p, Encode(b.vs[i]) + (Elements(b, i + 1) + y));
  }

  lemma FirstElement(v: Value, i: nat, x: ByteString)
    requires v.Array? && i < |v.vs|
    ensures Elements(v, i) + x == Separator(i, ARRAY_VALUE_DELIM) + (Encode(v.vs[i]) + (Elements(v, i + 1) + x))
  {
  }

  lemma FirstField(v: Value, i: nat, x: ByteString)
    requires v.Document? && i < |v.fields|
    ensures FieldsFrom(v, i) + x ==
            Separator(i, DOCUMENT_VALUE_DELIM)
            + (AppendBase64(v.fields[i].name)
               + ([DOCUMENT_VALUE_DELIM] + (Encode(v.fields[i].value) + (FieldsFrom(v, i + 1) + x))))
  {
    Sixfold(Separator(i, DOCUMENT_VALUE_DELIM), AppendBase64(v.fields[i].name), [DOCUMENT_VALUE_DELIM],
            Encode(v.fields[i].value), FieldsFrom(v, i + 1), x);
  }

  lemma Sixfold(a: ByteString, b: ByteString, c: ByteString, d: ByteString, e: ByteString, f: ByteString)
    ensures a + b + c + d + e + f == a + (b + (c + (d + (e + f))))
  {
  }

  /** The end marker is neither the separator nor a base64 letter. */
  lemma FieldsStart(v: Value, i: nat, x: ByteString)
    requires v.Document? && i <= |v.fields|
    ensures var s := FieldsFrom(v, i) + x;
            s != [] && (s[0] == DOCUMENT_END <==> i == |v.fields|) && (i > 0 ==> Terminator(s))
  {
    if i < |v.fields| {
      FirstField(v, i, x);
      var letters := AppendBase64(v.fields[i].name);
      assert letters != [] ==> letters[0] > 0x1F;
    }
  }

  lemma {:induction false} SameFields(a: Value, b: Value, i: nat, x: ByteString, y: ByteString)
    requires a.Document? && b.Document? && i <= |a.fields| && i <= |b.fields| && forall k :: 0 <= k < i ==> a.fields[k] == b.fields[k]
    requires NaNFree(a) && NaNFree(b) && Terminator(x) && Terminator(y)
    requires FieldsFrom(a, i) + x == FieldsFrom(b, i) + y
    ensures a == b && x == y
    decreases a, 0, |a.fields| - i
  {
    FieldsStart(a, i, x);
    FieldsStart(b, i, y);
    if i < |a.fields| {
      var x', y' := FieldsFrom(a, i + 1) + x, FieldsFrom(b, i + 1) + y;
      SameName(a, b, i, x, y);
      FieldsStart(a, i + 1, x);
      FieldsStart(b, i + 1, y);
      SameBytes(a.fields[i].value, b.fields[i].value, x', y');
      SameFields(a, b, i + 1, x, y);
    } else {
      assert a.fields == b.fields;
      SamePrefix([DOCUMENT_END], x, [DOCUMENT_END], y);
    }
  }

  lemma SameName(a: Value, b: Value, i: nat, x: ByteString, y: ByteString)
    requires a.Document? && b.Document? && i < |a.fields| && i < |b.fields|
    requires FieldsFrom(a, i) + x == FieldsFrom(b, i) + y
    ensures a.fields[i].name == b.fields[i].name
    ensures Encode(a.fields[i].value) + (FieldsFrom(a, i + 1) + x) == Encode(b.fields[i].value) + (FieldsFrom(b, i + 1) + y)
  {
    FirstField(a, i, x);
    FirstField(b, i, y);
    var p, m, n := Separator(i, DOCUMENT_VALUE_DELIM), a.fields[i].name, b.fields[i].name;
    var s, t := Encode(a.fields[i].value) + (FieldsFrom(a, i + 1) + x), Encode(b.fields[i].value) + (FieldsFrom(b, i + 1) + y);
    var d := [DOCUMENT_VALUE_DELIM];
    SamePrefix(p, AppendBase64(m) + (d + s), p, AppendBase64(n) + (d + t));
    SameBase64(m, n, d + s, d + t);
    SamePrefix(d, s, d, t);
  }

  /** Different values without NaN, documents included, have different encodings. */
  lemma EncodingInjective(a: Value, b: Value)
    requires NaNFree(a) && NaNFree(b)
    ensures Encode(a) == Encode(b) <==> a == b
  {
    if Encode(a) == Encode(b) {
      SameBytes(a, b, [], []);
    }
  }
}
