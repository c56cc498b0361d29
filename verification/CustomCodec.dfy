/** The custom document codec (document/encoding/custom/codec.go and format.go).

    A document or array is a header, which lists for every field its name, type,
    size and offset, followed by a body with the data of all fields. A value that is
    decoded lazily in the program appears here as what decoding it gives. Errors
    and slices out of range are both `None`.
  */
module CustomCodec {

  import opened Prelude
  import opened Bytes
  import opened BinarySort
  import opened Varints
  import opened Values

  const LIMIT: nat := 0x1_0000_0000_0000_0000

  // ---------------------------------------------------------------- format

  /** One field as the codec handles it: a name, a type and encoded data. */
  datatype Entry = Entry(name: ByteString, tag: nat, data: ByteString)

  datatype FieldHeader = FieldHeader(name: ByteString, tag: nat, size: nat, offset: nat)

  /** FieldHeader.WriteTo. */
  function HeaderBytes(h: FieldHeader): (s: ByteString)
    ensures |s| >= 1
  {
    PutUvarint(|h.name|) + h.name + NumberBytes([h.tag, h.size, h.offset])
  }

  /** The numbers, one after the other. */
  function NumberBytes(ns: seq<nat>): ByteString {
    if ns == [] then [] else PutUvarint(ns[0]) + NumberBytes(ns[1..])
  }

  /** The headers of the entries, whose data begin at `offset` in the body. */
  function Headers(es: seq<Entry>, offset: nat): (hs: seq<FieldHeader>)
    ensures |hs| == |es|
  {
    if es == [] then []
    else [FieldHeader(es[0].name, es[0].tag, |es[0].data|, offset)] + Headers(es[1..], offset + |es[0].data|)
  }

  function HeadersBytes(hs: seq<FieldHeader>): ByteString {
    if hs == [] then [] else HeaderBytes(hs[0]) + HeadersBytes(hs[1..])
  }

  function Body(es: seq<Entry>): ByteString {
    if es == [] then [] else es[0].data + Body(es[1..])
  }

  function HeaderPart(es: seq<Entry>): ByteString {
    PutUvarint(|es|) + HeadersBytes(Headers(es, 0))
  }

  function Format(es: seq<Entry>): ByteString {
    PutUvarint(|HeaderPart(es)|) + HeaderPart(es) + Body(es)
  }

  // --------------------------------------------------------------- encoding

  function EncodeValue(v: Value): ByteString
    decreases v, 1
  {
    match v
    case Document(_) => Format(DocumentEntries(v, 0))
    case Array(_) => Format(ArrayEntries(v, 0))
    case Blob(data) => data
    case Text(t) => t
    case Bool(b) => AppendBool(b)
    case Integer(i) => PutVarint(i)
    case Double(d) => AppendFloat64(d)
    case Null => []
  }

  /** The fields of a document from the i-th on. */
  function DocumentEntries(v: Value, i: nat): (es: seq<Entry>)
    requires v.Document? && i <= |v.fields|
    ensures |es| == |v.fields| - i
    decreases v, 0, |v.fields| - i
  {
    if i == |v.fields| then []
    else [Entry(v.fields[i].name, Type(v.fields[i].value), EncodeValue(v.fields[i].value))] + DocumentEntries(v, i + 1)
  }

  /** The elements of an array; their names are their indexes. */
  function ArrayEntries(v: Value, i: nat): (es: seq<Entry>)
    requires v.Array? && i <= |v.vs|
    ensures |es| == |v.vs| - i
    decreases v, 0, |v.vs| - i
  {
    if i == |v.vs| then []
    else [Entry(IndexName(i), Type(v.vs[i]), EncodeValue(v.vs[i]))] + ArrayEntries(v, i + 1)
  }

  /** int64(i) wraps for an index no slice can have; such names are never written. */
  function IndexName(i: int): ByteString {
    if Fits(i) then PutVarint(i) else []
  }

  // --------------------------------------------------------------- decoding

  datatype HeaderRead = HeaderRead(header: FieldHeader, size: nat)

  /** FieldHeader.Decode. */
  function ReadHeader(s: ByteString): (r: Option<HeaderRead>)
    ensures r.Some? ==> 1 <= r.value.size <= |s|
  {
    var n := Uvarint(s);
    if n.None? || n.value.size + n.value.value > |s| then None
    else
      var start := n.value.size;
      var end := start + n.value.value;
      var rest := ReadNumbers(s[end..], 3);
      if rest.None? then None
      else
        var ns := rest.value.ns;
        Some(HeaderRead(FieldHeader(s[start..end], ns[0], ns[1], ns[2]), end + rest.value.read))
  }

  datatype Numbers = Numbers(ns: seq<nat>, read: nat)

  /** The next k numbers: type, size and offset of a field. */
  function ReadNumbers(s: ByteString, k: nat): (r: Option<Numbers>)
    ensures r.Some? ==> r.value.read <= |s| && |r.value.ns| == k
    decreases |s|
  {
    if k == 0 then Some(Numbers([], 0))
    else
      var n := Uvarint(s);
      if n.None? then None
      else
        var rest := ReadNumbers(s[n.value.size..], k - 1);
        if rest.None? then None
        else Some(Numbers([n.value.value] + rest.value.ns, n.value.size + rest.value.read))
  }

  /** The loop of Header.Decode: field headers until the header part is used up. */
  function ReadHeaders(s: ByteString): Option<seq<FieldHeader>>
    decreases |s|
  {
    if s == [] then Some([])
    else
      var h := ReadHeader(s);
      if h.None? then None
      else
        var rest := ReadHeaders(s[h.value.size..]);
        if rest.None? then None else Some([h.value.header] + rest.value)
  }

  datatype Parts = Parts(headers: ByteString, body: ByteString)

  /** Splits off the header part, without its size and field count, and the body. */
  function Split(data: ByteString): (r: Option<Parts>)
    ensures r.Some? ==> |r.value.body| < |data|
  {
    var n := Uvarint(data);
    if n.None? || n.value.size + n.value.value > |data| then None
    else
      var end := n.value.size + n.value.value;
      var hdata := data[n.value.size..end];
      var count := Uvarint(hdata);
      if count.None? then None else Some(Parts(hdata[count.value.size..], data[end..]))
  }

  function Slice(h: FieldHeader, body: ByteString): (r: Option<ByteString>)
    ensures r.Some? ==> |r.value| <= |body|
  {
    if h.offset + h.size > |body| then None else Some(body[h.offset..h.offset + h.size])
  }

  function Slices(hs: seq<FieldHeader>, body: ByteString): (r: Option<seq<Entry>>)
    ensures r.Some? ==> forall k :: 0 <= k < |r.value| ==> |r.value[k].data| <= |body|
    ensures r.Some? ==> |r.value| == |hs|
    ensures r.Some? ==> forall k :: 0 <= k < |hs| ==>
              Slice(hs[k], body) == Some(r.value[k].data) && r.value[k].name == hs[k].name && r.value[k].tag == hs[k].tag
  {
    if hs == [] then Some([])
    else
      var data, rest := Slice(hs[0], body), Slices(hs[1..], body);
      if data.None? || rest.None? then None
      else Some([Entry(hs[0].name, hs[0].tag, data.value)] + rest.value)
  }

  /** Everything a document or array holds. */
  function ReadEntries(data: ByteString): (r: Option<seq<Entry>>)
    ensures r.Some? ==> forall k :: 0 <= k < |r.value| ==> |r.value[k].data| < |data|
  {
    var parts := Split(data);
    if parts.None? then None
    else
      var hs := ReadHeaders(parts.value.headers);
      if hs.None? then None else Slices(hs.value, parts.value.body)
  }

  function DecodeValue(tag: nat, data: ByteString): Option<Value>
    decreases |data|, 1
  {
    if tag == 0xF0 then
      var es := ReadEntries(data);
      if es.None? then None
      else
        var fields := DecodeFields(es.value, |data|);
        if fields.None? then None else Some(Document(fields.value))
    else if tag == 0xE0 then
      var es := ReadEntries(data);
      if es.None? then None
      else
        var fields := DecodeFields(es.value, |data|);
        if fields.None? then None else Some(Array(FieldValues(fields.value)))
    else DecodeScalar(tag, data)
  }

  function DecodeScalar(tag: nat, data: ByteString): Option<Value> {
    if tag == 0xD0 then Some(Blob(data))
    else if tag == 0xC0 then Some(Text(data))
    else if tag == 0x81 then
      var b := DecodeBool(data); if b.None? then None else Some(Bool(b.value))
    else if tag == 0x90 then
      VarintFits(data); Some(Integer(Varint(data)))
    else if tag == 0xA0 then
      var d := DecodeFloat64(data); if d.None? then None else Some(Double(d.value))
    else if tag == 0x80 then Some(Null)
    else None
  }

  function DecodeFields(es: seq<Entry>, bound: nat): (r: Option<seq<Field>>)
    requires forall k :: 0 <= k < |es| ==> |es[k].data| < bound
    ensures r.Some? ==> |r.value| == |es|
    decreases bound, 0, |es|
  {
    if es == [] then Some([])
    else
      var v, rest := DecodeValue(es[0].tag, es[0].data), DecodeFields(es[1..], bound);
      if v.None? || rest.None? then None else Some([Field(es[0].name, v.value)] + rest.value)
  }

  function FieldValues(fields: seq<Field>): (vs: seq<Value>)
    ensures |vs| == |fields| && forall i :: 0 <= i < |fields| ==> vs[i] == fields[i].value
  {
    if fields == [] then [] else [fields[0].value] + FieldValues(fields[1..])
  }

  // ------------------------------------------------- reading back the format

  predicate SmallHeader(h: FieldHeader) {
    |h.name| < LIMIT && h.tag < LIMIT && h.size < LIMIT && h.offset < LIMIT
  }

  lemma {:induction false} ReadNumbersRoundTrip(ns: seq<nat>, rest: ByteString)
    requires forall i :: 0 <= i < |ns| ==> ns[i] < LIMIT
    ensures ReadNumbers(NumberBytes(ns) + rest, |ns|) == Some(Numbers(ns, |NumberBytes(ns)|))
  {
    if ns != [] {
      var more := NumberBytes(ns[1..]);
      UvarintRoundTrip(ns[0], more + rest);
      ReadNumbersRoundTrip(ns[1..], rest);
      ReadNumbersStep(PutUvarint(ns[0]), ns[0], more + rest, Numbers(ns[1..], |more|), |ns|);
      NumbersApart(ns, rest);
    }
  }

  lemma {:induction false} NumbersApart(ns: seq<nat>, rest: ByteString)
    requires ns != []
    ensures NumberBytes(ns) + rest == PutUvarint(ns[0]) + (NumberBytes(ns[1..]) + rest)
    ensures |NumberBytes(ns)| == |PutUvarint(ns[0])| + |NumberBytes(ns[1..])| && ns == [ns[0]] + ns[1..]
  {
    Associates(PutUvarint(ns[0]), NumberBytes(ns[1..]), rest);
  }

  lemma Associates(a: ByteString, b: ByteString, c: ByteString)
    ensures a + b + c == a + (b + c)
  {
  }

  lemma ReadNumbersStep(a: ByteString, v: nat, s: ByteString, nums: Numbers, k: nat)
    requires k > 0 && Uvarint(a + s) == Some(Read(v, |a|)) && ReadNumbers(s, k - 1) == Some(nums)
    ensures ReadNumbers(a + s, k) == Some(Numbers([v] + nums.ns, |a| + nums.read))
  {
    assert (a + s)[|a|..] == s;
  }

  /** ReadHeader from its parts: the coded size, the name, the numbers. */
  lemma ReadHeaderParts(s: ByteString, a: nat, name: ByteString, nums: Numbers)
    requires Uvarint(s) == Some(Read(|name|, a)) && a + |name| <= |s|
    requires s[a..a + |name|] == name && ReadNumbers(s[a + |name|..], 3) == Some(nums)
    ensures ReadHeader(s) ==
            Some(HeaderRead(FieldHeader(name, nums.ns[0], nums.ns[1], nums.ns[2]), a + |name| + nums.read))
  {
  }

  lemma ReadHeaderRoundTrip(h: FieldHeader, rest: ByteString)
    requires SmallHeader(h)
    ensures ReadHeader(HeaderBytes(h) + rest) == Some(HeaderRead(h, |HeaderBytes(h)|))
  {
    var ns := [h.tag, h.size, h.offset];
    ReadNamedNumbers(h.name, PutUvarint(|h.name|), ns, NumberBytes(ns), HeaderBytes(h) + rest, rest);
  }

  lemma ReadNamedNumbers(name: ByteString, a: ByteString, ns: seq<nat>, n: ByteString, s: ByteString, rest: ByteString)
    requires |ns| == 3 && |name| < LIMIT && forall i :: 0 <= i < |ns| ==> ns[i] < LIMIT
    requires a == PutUvarint(|name|) && n == NumberBytes(ns) && s == a + name + n + rest
    ensures ReadHeader(s) == Some(HeaderRead(FieldHeader(name, ns[0], ns[1], ns[2]), |a| + |name| + |n|))
  {
    UvarintRoundTrip(|name|, name + (n + rest));
    ReadNumbersRoundTrip(ns, rest);
    ReadPieces(name, a, ns, n, s, rest);
  }

  lemma ReadPieces(name: ByteString, a: ByteString, ns: seq<nat>, n: ByteString, s: ByteString, rest: ByteString)
    requires |ns| == 3 && s == a + name + n + rest
    requires Uvarint(a + (name + (n + rest))) == Some(Read(|name|, |a|))
    requires ReadNumbers(n + rest, 3) == Some(Numbers(ns, |n|))
    ensures ReadHeader(s) == Some(HeaderRead(FieldHeader(name, ns[0], ns[1], ns[2]), |a| + |name| + |n|))
  {
    FourPieces(s, a, name, n, rest);
    ReadHeaderParts(s, |a|, name, Numbers(ns, |n|));
  }

  lemma FourPieces(s: ByteString, a: ByteString, b: ByteString, c: ByteString, d: ByteString)
    requires s == a + b + c + d
    ensures s == a + (b + (c + d)) && |s| == |a| + |b| + |c| + |d|
    ensures s[|a|..|a| + |b|] == b && s[|a| + |b|..] == c + d
  {
  }

  lemma {:induction false} ReadHeadersRoundTrip(hs: seq<FieldHeader>)
    requires forall k :: 0 <= k < |hs| ==> SmallHeader(hs[k])
    ensures ReadHeaders(HeadersBytes(hs)) == Some(hs)
  {
    if hs != [] {
      ReadHeaderRoundTrip(hs[0], HeadersBytes(hs[1..]));
      ReadHeadersRoundTrip(hs[1..]);
      ReadHeadersAfter(HeaderBytes(hs[0]), hs[0], HeadersBytes(hs[1..]), hs[1..]);
      assert hs == [hs[0]] + hs[1..];
    }
  }

  lemma ReadHeadersAfter(a: ByteString, h: FieldHeader, s: ByteString, rest: seq<FieldHeader>)
    requires a != [] && ReadHeader(a + s) == Some(HeaderRead(h, |a|)) && ReadHeaders(s) == Some(rest)
    ensures ReadHeaders(a + s) == Some([h] + rest)
  {
    assert (a + s)[|a|..] == s;
    ReadHeadersStep(a + s, h, |a|, rest);
  }

  lemma ReadHeadersStep(s: ByteString, h: FieldHeader, size: nat, rest: seq<FieldHeader>)
    requires s != [] && ReadHeader(s) == Some(HeaderRead(h, size)) && ReadHeaders(s[size..]) == Some(rest)
    ensures ReadHeaders(s) == Some([h] + rest)
  {
  }

  predicate ByteTags(es: seq<Entry>) { forall k :: 0 <= k < |es| ==> es[k].tag < 256 }

  lemma {:induction false} HeadersSmall(es: seq<Entry>, offset: nat)
    requires ByteTags(es) && offset + |Body(es)| < LIMIT && |HeadersBytes(Headers(es, offset))| < LIMIT
    ensures forall k :: 0 <= k < |Headers(es, offset)| ==> SmallHeader(Headers(es, offset)[k])
  {
    if es != [] {
      var hs := Headers(es, offset);
      assert hs[1..] == Headers(es[1..], offset + |es[0].data|);
      HeadersSmall(es[1..], offset + |es[0].data|);
      assert |hs[0].name| <= |HeaderBytes(hs[0])| <= |HeadersBytes(hs)|;
    }
  }

  lemma MiddlePiece(before: ByteString, data: ByteString, rest: ByteString)
    ensures (before + (data + rest))[|before|..|before| + |data|] == data
    ensures before + (data + rest) == before + data + rest
  {
  }

  lemma SlicesStep(hs: seq<FieldHeader>, body: ByteString, data: ByteString, rest: seq<Entry>)
    requires hs != [] && Slice(hs[0], body) == Some(data) && Slices(hs[1..], body) == Some(rest)
    ensures Slices(hs, body) == Some([Entry(hs[0].name, hs[0].tag, data)] + rest)
  {
  }

  /** Every header points at its own data. */
  lemma {:induction false} SlicesRoundTrip(es: seq<Entry>, before: ByteString)
    ensures Slices(Headers(es, |before|), before + Body(es)) == Some(es)
  {
    if es != [] {
      var hs := Headers(es, |before|);
      MiddlePiece(before, es[0].data, Body(es[1..]));
      assert hs[1..] == Headers(es[1..], |before + es[0].data|);
      SlicesRoundTrip(es[1..], before + es[0].data);
      SlicesStep(hs, before + Body(es), es[0].data, es[1..]);
      assert es == [es[0]] + es[1..];
    }
  }

  lemma SplitFormat(es: seq<Entry>)
    requires |Format(es)| < LIMIT
    ensures |es| < LIMIT ==> Split(Format(es)) == Some(Parts(HeadersBytes(Headers(es, 0)), Body(es)))
  {
    if |es| < LIMIT {
      var h := HeaderPart(es);
      var n := PutUvarint(|h|);
      assert Format(es) == n + (h + Body(es));
      UvarintRoundTrip(|h|, h + Body(es));
      var data := Format(es);
      assert data[|n|..|n| + |h|] == h && data[|n| + |h|..] == Body(es);
      UvarintRoundTrip(|es|, HeadersBytes(Headers(es, 0)));
      assert h[|PutUvarint(|es|)|..] == HeadersBytes(Headers(es, 0));
    }
  }

  lemma {:induction false} CountSmall(es: seq<Entry>, offset: nat)
    ensures |es| <= |HeadersBytes(Headers(es, offset))|
  {
    if es != [] {
      CountSmall(es[1..], offset + |es[0].data|);
      assert Headers(es, offset)[1..] == Headers(es[1..], offset + |es[0].data|);
    }
  }

  lemma {:induction false} FormatRoundTrip(es: seq<Entry>)
    requires ByteTags(es) && |Format(es)| < LIMIT
    ensures ReadEntries(Format(es)) == Some(es)
  {
    CountSmall(es, 0);
    SplitFormat(es);
    HeadersSmall(es, 0);
    ReadHeadersRoundTrip(Headers(es, 0));
    SlicesRoundTrip(es, []);
    assert [] + Body(es) == Body(es);
  }

  lemma {:induction false} DataShorter(es: seq<Entry>, k: nat)
    requires k < |es|
    ensures |es[k].data| <= |Body(es)|
  {
    if k > 0 {
      DataShorter(es[1..], k - 1);
    }
  }

  // -------------------------------------------------------------- round trip

  /** What a stored value comes back as: only doubles can change. */
  function Normalize(v: Value): Value {
    match v
    case Double(d) => Double(OrderedToFloat(FloatToOrdered(d)))
    case Array(vs) => Array(seq(|vs|, i requires 0 <= i < |vs| => Normalize(vs[i])))
    case Document(fields) =>
      Document(seq(|fields|, i requires 0 <= i < |fields| => Field(fields[i].name, Normalize(fields[i].value))))
    case _ => v
  }

  /** No -0.0 and no positive NaN, at any depth. */
  predicate StorableValue(v: Value) {
    match v
    case Double(d) => Storable(d)
    case Array(vs) => forall i :: 0 <= i < |vs| ==> StorableValue(vs[i])
    case Document(fields) => forall i :: 0 <= i < |fields| ==> StorableValue(fields[i].value)
    case _ => true
  }

  lemma {:induction false} NormalizeIff(v: Value)
    ensures Normalize(v) == v <==> StorableValue(v)
  {
    match v
    case Double(d) => Float64RoundTripIff(d, []);
    case Array(vs) =>
      forall i | 0 <= i < |vs| ensures Normalize(vs[i]) == vs[i] <==> StorableValue(vs[i]) {
        NormalizeIff(vs[i]);
      }
      if Normalize(v) == v {
        forall i | 0 <= i < |vs| ensures StorableValue(vs[i]) {
          assert Normalize(v).vs[i] == vs[i];
        }
      } else {
        assert exists i :: 0 <= i < |vs| && Normalize(v).vs[i] != vs[i];
      }
    case Document(fields) =>
      forall i | 0 <= i < |fields| ensures Normalize(fields[i].value) == fields[i].value <==> StorableValue(fields[i].value) {
        NormalizeIff(fields[i].value);
      }
      if Normalize(v) == v {
        forall i | 0 <= i < |fields| ensures StorableValue(fields[i].value) {
          assert Normalize(v).fields[i] == fields[i];
        }
      } else {
        assert exists i :: 0 <= i < |fields| && Normalize(v).fields[i] != fields[i];
      }
    case _ =>
  }

  lemma DocumentEntryAt(v: Value, i: nat, k: nat)
    requires v.Document? && i <= k < |v.fields|
    ensures DocumentEntries(v, i)[k - i] ==
            Entry(v.fields[k].name, Type(v.fields[k].value), EncodeValue(v.fields[k].value))
    decreases k - i
  {
    if i < k {
      DocumentEntryAt(v, i + 1, k);
    }
  }

  lemma ArrayEntryAt(v: Value, i: nat, k: nat)
    requires v.Array? && i <= k < |v.vs|
    ensures ArrayEntries(v, i)[k - i] == Entry(IndexName(k), Type(v.vs[k]), EncodeValue(v.vs[k]))
    decreases k - i
  {
    if i < k {
      ArrayEntryAt(v, i + 1, k);
    }
  }

  /** DecodeFields decodes entry by entry. */
  lemma {:induction false} DecodeFieldsEach(es: seq<Entry>, bound: nat, out: seq<Field>)
    requires |out| == |es|
    requires forall k :: 0 <= k < |es| ==> |es[k].data| < bound
    requires forall k :: 0 <= k < |es| ==>
               out[k].name == es[k].name && DecodeValue(es[k].tag, es[k].data) == Some(out[k].value)
    ensures DecodeFields(es, bound) == Some(out)
  {
    if es != [] {
      DecodeFieldsEach(es[1..], bound, out[1..]);
      assert out == [out[0]] + out[1..];
    }
  }

  /** Every value decodes back to itself, up to the doubles that cannot be stored. */
  lemma {:induction false} DecodeEncode(v: Value)
    requires |EncodeValue(v)| < LIMIT
    ensures DecodeValue(Type(v), EncodeValue(v)) == Some(Normalize(v))
    decreases v, 1
  {
    match v
    case Document(_) => DecodeDocument(v);
    case Array(_) => DecodeArray(v);
    case _ => DecodeEncodeScalar(v);
  }

  lemma DecodeEncodeScalar(v: Value)
    requires !v.Document? && !v.Array?
    ensures DecodeScalar(Type(v), EncodeValue(v)) == Some(Normalize(v))
  {
    match v
    case Integer(i) =>
      VarintRoundTrip(i, []);
      assert PutVarint(i) + [] == PutVarint(i);
    case Double(d) =>
      Float64RoundTripIff(d, []);
      assert AppendFloat64(d) + [] == AppendFloat64(d);
    case _ =>
  }

  /** A document or array decodes entry by entry. */
  lemma DecodeEntries(es: seq<Entry>, out: seq<Field>)
    requires |Format(es)| < LIMIT && |out| == |es|
    requires forall k :: 0 <= k < |es| ==>
               es[k].tag < 256 && out[k].name == es[k].name && DecodeValue(es[k].tag, es[k].data) == Some(out[k].value)
    ensures DecodeValue(0xF0, Format(es)) == Some(Document(out))
    ensures DecodeValue(0xE0, Format(es)) == Some(Array(FieldValues(out)))
  {
    FormatRoundTrip(es);
    DecodeFieldsEach(es, |Format(es)|, out);
  }

  lemma ChildSmaller(es: seq<Entry>, k: nat)
    requires k < |es| && |Format(es)| < LIMIT
    ensures |es[k].data| < LIMIT
  {
    DataShorter(es, k);
  }

  lemma {:induction false} DecodeDocument(v: Value)
    requires v.Document? && |EncodeValue(v)| < LIMIT
    ensures DecodeValue(0xF0, EncodeValue(v)) == Some(Normalize(v))
    decreases v, 0
  {
    var es, out := DocumentEntries(v, 0), Normalize(v).fields;
    forall k | 0 <= k < |es|
      ensures es[k].tag < 256
      ensures out[k].name == es[k].name && DecodeValue(es[k].tag, es[k].data) == Some(out[k].value)
    {
      DocumentEntryAt(v, 0, k);
      ChildSmaller(es, k);
      DecodeEncode(v.fields[k].value);
    }
    DecodeEntries(es, out);
  }

  /** An array's decoded entries: its elements, named by index. */
  function IndexedValues(v: Value): (out: seq<Field>)
    requires v.Array?
    ensures |out| == |v.vs| && forall k :: 0 <= k < |out| ==> out[k] == Field(IndexName(k), Normalize(v.vs[k]))
  {
    seq(|v.vs|, k requires 0 <= k < |v.vs| => Field(IndexName(k), Normalize(v.vs[k])))
  }

  lemma ValuesOfIndexed(v: Value)
    requires v.Array?
    ensures Array(FieldValues(IndexedValues(v))) == Normalize(v)
  {
    assert FieldValues(IndexedValues(v)) == Normalize(v).vs;
  }

  lemma {:induction false} DecodeArray(v: Value)
    requires v.Array? && |EncodeValue(v)| < LIMIT
    ensures DecodeValue(0xE0, EncodeValue(v)) == Some(Normalize(v))
    decreases v, 0
  {
    var es, out := ArrayEntries(v, 0), IndexedValues(v);
    forall k | 0 <= k < |es|
      ensures es[k].tag < 256
      ensures out[k].name == es[k].name && DecodeValue(es[k].tag, es[k].data) == Some(out[k].value)
    {
      ArrayEntryAt(v, 0, k);
      ChildSmaller(es, k);
      DecodeEncode(v.vs[k]);
    }
    DecodeEntries(es, out);
    ValuesOfIndexed(v);
  }

  /** A document survives exactly when all its doubles do. */
  lemma {:induction false} RoundTripIff(v: Value)
    requires |EncodeValue(v)| < LIMIT
    ensures DecodeValue(Type(v), EncodeValue(v)) == Some(v) <==> StorableValue(v)
  {
    DecodeEncode(v);
    NormalizeIff(v);
  }

  // ----------------------------------------------------------- random access

  datatype Access = Found(value: Value) | NotFound | Malformed

  function Decoded(v: Option<Value>): Access { if v.None? then Malformed else Found(v.value) }

  /** The first entry that carries the name, decoded. */
  function FirstEntry(es: seq<Entry>, name: ByteString): Access {
    if es == [] then NotFound
    else if es[0].name == name then Decoded(DecodeValue(es[0].tag, es[0].data))
    else FirstEntry(es[1..], name)
  }

  /** The headers that can be read, and whether they are all there is. */
  datatype Leading = Leading(hs: seq<FieldHeader>, whole: bool)

  function LeadingHeaders(s: ByteString): Leading
    decreases |s|
  {
    if s == [] then Leading([], true)
    else
      var h := ReadHeader(s);
      if h.None? then Leading([], false)
      else
        var rest := LeadingHeaders(s[h.value.size..]);
        Leading([h.value.header] + rest.hs, rest.whole)
  }

  function FirstHeader(hs: seq<FieldHeader>, name: ByteString): Option<FieldHeader> {
    if hs == [] then None else if hs[0].name == name then Some(hs[0]) else FirstHeader(hs[1..], name)
  }

  function AtHeader(h: FieldHeader, body: ByteString): Access {
    var data := Slice(h, body);
    if data.None? then Malformed else Decoded(DecodeValue(h.tag, data.value))
  }

  /** What access by name gives on any bytes: the field at the first readable header of
      that name, whatever comes after it. */
  function AccessIn(l: Leading, body: ByteString, name: ByteString): Access {
    match FirstHeader(l.hs, name)
    case Some(h) => AtHeader(h, body)
    case None => if l.whole then NotFound else Malformed
  }

  lemma {:induction false} WholeLeading(s: ByteString)
    ensures ReadHeaders(s).Some? <==> LeadingHeaders(s).whole
    ensures ReadHeaders(s).Some? ==> LeadingHeaders(s).hs == ReadHeaders(s).value
    decreases |s|
  {
    if s != [] && ReadHeader(s).Some? { WholeLeading(s[ReadHeader(s).value.size..]); }
  }

  lemma {:induction false} AccessIsSearch(hs: seq<FieldHeader>, body: ByteString, name: ByteString)
    requires Slices(hs, body).Some?
    ensures AccessIn(Leading(hs, true), body, name) == FirstEntry(Slices(hs, body).value, name)
  {
    if hs != [] {
      EntriesStep(hs, body);
      AccessIsSearch(hs[1..], body, name);
    }
  }

  /** decodeValueFromDocument: reads headers one by one and stops at the first with
      the name. On well-formed bytes it finds what a search of all entries finds. */
  method DecodeValueFromDocument(data: ByteString, field: ByteString) returns (r: Access)
    ensures var parts := Split(data);
            r == if parts.None? then Malformed else AccessIn(LeadingHeaders(parts.value.headers), parts.value.body, field)
    ensures ReadEntries(data).Some? ==> r == FirstEntry(ReadEntries(data).value, field)
  {
    var parts := Split(data);
    if parts.None? {
      return Malformed;
    }
    var hdata, body := parts.value.headers, parts.value.body;
    WholeLeading(hdata);
    if ReadEntries(data).Some? { AccessIsSearch(ReadHeaders(hdata).value, body, field); }
    ghost var goal := AccessIn(LeadingHeaders(hdata), body, field);
    while |hdata| > 0
      invariant AccessIn(LeadingHeaders(hdata), body, field) == goal
      decreases |hdata|
    {
      var h := ReadHeader(hdata);
      if h.None? {
        return Malformed;
      }
      hdata := hdata[h.value.size..];
      if field == h.value.header.name {
        var slice := Slice(h.value.header, body);
        if slice.None? {
          return Malformed;
        }
        return Decoded(DecodeValue(h.value.header.tag, slice.value));
      }
    }
    return NotFound;
  }

  lemma EntriesStep(hs: seq<FieldHeader>, body: ByteString)
    requires hs != [] && Slices(hs, body).Some?
    ensures Slices(hs[1..], body).Some? && Slices(hs, body).value[1..] == Slices(hs[1..], body).value
  {
  }

  /** GetByIndex: an element is the field named by its index. */
  method DecodeValueAtIndex(data: ByteString, i: Int64) returns (r: Access)
    ensures ReadEntries(data).Some? ==> r == FirstEntry(ReadEntries(data).value, PutVarint(i))
  {
    r := DecodeValueFromDocument(data, PutVarint(i));
  }

  /** Random access by field into an encoded document gives the first field of that
      name of the document itself, or nothing. */
  lemma {:induction false} FieldAccess(v: Value, name: ByteString)
    requires v.Document? && |EncodeValue(v)| < LIMIT
    ensures ReadEntries(EncodeValue(v)).Some?
    ensures FirstEntry(ReadEntries(EncodeValue(v)).value, name) ==
            match GetByField(v.fields, name)
            case None => NotFound
            case Some(w) => Found(Normalize(w))
  {
    var es := DocumentEntries(v, 0);
    DocumentReadable(v);
    FieldAccessFrom(v, name, 0);
    assert v.fields[0..] == v.fields;
  }

  lemma DocumentReadable(v: Value)
    requires v.Document? && |EncodeValue(v)| < LIMIT
    ensures ReadEntries(EncodeValue(v)) == Some(DocumentEntries(v, 0))
  {
    DocumentTags(v);
    FormatRoundTrip(DocumentEntries(v, 0));
  }

  lemma DocumentTags(v: Value)
    requires v.Document?
    ensures ByteTags(DocumentEntries(v, 0))
  {
    forall k | 0 <= k < |v.fields| ensures DocumentEntries(v, 0)[k].tag < 256 { DocumentEntryAt(v, 0, k); }
  }

  lemma {:induction false} FieldAccessFrom(v: Value, name: ByteString, i: nat)
    requires v.Document? && i <= |v.fields| && |EncodeValue(v)| < LIMIT
    ensures FirstEntry(DocumentEntries(v, i), name) ==
            match GetByField(v.fields[i..], name)
            case None => NotFound
            case Some(w) => Found(Normalize(w))
    decreases |v.fields| - i
  {
    if i < |v.fields| {
      FieldAccessFrom(v, name, i + 1);
      DocumentEntryAt(v, 0, i);
      ChildSmaller(DocumentEntries(v, 0), i);
      DecodeEncode(v.fields[i].value);
      assert DocumentEntries(v, i)[1..] == DocumentEntries(v, i + 1);
      assert v.fields[i..][1..] == v.fields[i + 1..];
    }
  }

  /** Random access by index into an encoded array gives that element, or nothing. */
  lemma {:induction false} IndexAccess(v: Value, k: Int64)
    requires v.Array? && |EncodeValue(v)| < LIMIT && Fits(|v.vs|)
    ensures ReadEntries(EncodeValue(v)).Some?
    ensures FirstEntry(ReadEntries(EncodeValue(v)).value, PutVarint(k)) ==
            if 0 <= k < |v.vs| then Found(Normalize(v.vs[k])) else NotFound
  {
    ArrayReadable(v);
    IndexAccessFrom(v, k, 0);
  }

  lemma ArrayReadable(v: Value)
    requires v.Array? && |EncodeValue(v)| < LIMIT
    ensures ReadEntries(EncodeValue(v)) == Some(ArrayEntries(v, 0))
  {
    var es := ArrayEntries(v, 0);
    forall k | 0 <= k < |es| ensures es[k].tag < 256 {
      ArrayEntryAt(v, 0, k);
    }
    FormatRoundTrip(es);
  }

  lemma {:induction false} IndexAccessFrom(v: Value, k: Int64, i: nat)
    requires v.Array? && i <= |v.vs| && |EncodeValue(v)| < LIMIT && Fits(|v.vs|)
    ensures FirstEntry(ArrayEntries(v, i), PutVarint(k)) ==
            if i <= k < |v.vs| then Found(Normalize(v.vs[k])) else NotFound
    decreases |v.vs| - i
  {
    if i < |v.vs| {
      IndexAccessFrom(v, k, i + 1);
      ElementDecodes(v, i);
      VarintInjective(i, k);
      FirstEntryStep(ArrayEntries(v, i), PutVarint(k));
      assert ArrayEntries(v, i)[1..] == ArrayEntries(v, i + 1);
    }
  }

  lemma FirstEntryStep(es: seq<Entry>, name: ByteString)
    requires es != []
    ensures FirstEntry(es, name) ==
            if es[0].name == name then Decoded(DecodeValue(es[0].tag, es[0].data)) else FirstEntry(es[1..], name)
  {
  }

  lemma ElementSmall(v: Value, i: nat)
    requires v.Array? && i < |v.vs| && |EncodeValue(v)| < LIMIT
    ensures |EncodeValue(v.vs[i])| < LIMIT
  {
    ArrayEntryAt(v, 0, i);
    ChildSmaller(ArrayEntries(v, 0), i);
  }

  lemma ElementDecodes(v: Value, i: nat)
    requires v.Array? && i < |v.vs| && |EncodeValue(v)| < LIMIT
    ensures var e := ArrayEntries(v, i)[0];
            e.name == IndexName(i) && DecodeValue(e.tag, e.data) == Some(Normalize(v.vs[i]))
  {
    ElementSmall(v, i);
    ArrayEntryAt(v, i, i);
    DecodeEncode(v.vs[i]);
  }

  // ------------------------------------------------- the encoder's own loops

  method Encode(v: Value) returns (data: ByteString)
    ensures data == EncodeValue(v)
    decreases v, 1
  {
    match v {
      case Document(_) => data := EncodeDocument(v);
      case Array(_) => data := EncodeArray(v);
      case Blob(d) => data := d;
      case Text(t) => data := t;
      case Bool(b) => data := AppendBool(b);
      case Integer(i) => data := PutVarint(i);
      case Double(d) => data := AppendFloat64(d);
      case Null => data := [];
    }
  }

  /** The field headers collected so far, and the data they describe, make up the
      whole together with the entries still to come. */
  ghost predicate Collected(headers: seq<FieldHeader>, body: ByteString, rest: seq<Entry>, all: seq<Entry>) {
    && headers + Headers(rest, |body|) == Headers(all, 0)
    && body + Body(rest) == Body(all)
  }

  lemma CollectOne(headers: seq<FieldHeader>, body: ByteString, rest: seq<Entry>, all: seq<Entry>)
    requires rest != [] && Collected(headers, body, rest, all)
    ensures Collected(headers + [FieldHeader(rest[0].name, rest[0].tag, |rest[0].data|, |body|)],
                      body + rest[0].data, rest[1..], all)
  {
    var h := FieldHeader(rest[0].name, rest[0].tag, |rest[0].data|, |body|);
    assert Headers(rest, |body|) == [h] + Headers(rest[1..], |body + rest[0].data|);
    assert headers + ([h] + Headers(rest[1..], |body + rest[0].data|))
        == headers + [h] + Headers(rest[1..], |body + rest[0].data|);
    assert body + (rest[0].data + Body(rest[1..])) == body + rest[0].data + Body(rest[1..]);
  }

  lemma CollectedAll(headers: seq<FieldHeader>, body: ByteString, all: seq<Entry>)
    requires Collected(headers, body, [], all)
    ensures headers == Headers(all, 0) && body == Body(all)
  {
    assert headers + [] == headers && body + [] == body;
  }

  method EncodeDocument(v: Value) returns (data: ByteString)
    requires v.Document?
    ensures data == EncodeValue(v)
    decreases v, 0
  {
    var headers, body: ByteString := [], [];
    var i := 0;
    assert [] + Body(DocumentEntries(v, 0)) == Body(DocumentEntries(v, 0));
    while i < |v.fields|
      invariant 0 <= i <= |v.fields|
      invariant Collected(headers, body, DocumentEntries(v, i), DocumentEntries(v, 0))
    {
      CollectOne(headers, body, DocumentEntries(v, i), DocumentEntries(v, 0));
      assert DocumentEntries(v, i)[1..] == DocumentEntries(v, i + 1);
      var d := Encode(v.fields[i].value);
      headers := headers + [FieldHeader(v.fields[i].name, Type(v.fields[i].value), |d|, |body|)];
      body := body + d;
      i := i + 1;
    }
    CollectedAll(headers, body, DocumentEntries(v, 0));
    var h := WriteHeader(headers);
    data := h + body;
  }

  method EncodeArray(v: Value) returns (data: ByteString)
    requires v.Array?
    ensures data == EncodeValue(v)
    decreases v, 0
  {
    var headers, body: ByteString := [], [];
    var i := 0;
    assert [] + Body(ArrayEntries(v, 0)) == Body(ArrayEntries(v, 0));
    while i < |v.vs|
      invariant 0 <= i <= |v.vs|
      invariant Collected(headers, body, ArrayEntries(v, i), ArrayEntries(v, 0))
    {
      CollectOne(headers, body, ArrayEntries(v, i), ArrayEntries(v, 0));
      assert ArrayEntries(v, i)[1..] == ArrayEntries(v, i + 1);
      var d := Encode(v.vs[i]);
      headers := headers + [FieldHeader(IndexName(i), Type(v.vs[i]), |d|, |body|)];
      body := body + d;
      i := i + 1;
    }
    CollectedAll(headers, body, ArrayEntries(v, 0));
    var h := WriteHeader(headers);
    data := h + body;
  }

  /** Header.WriteTo: the field count and the field headers, after their size. */
  method WriteHeader(hs: seq<FieldHeader>) returns (data: ByteString)
    ensures var part := PutUvarint(|hs|) + HeadersBytes(hs); data == PutUvarint(|part|) + part
  {
    var buf := PutUvarint(|hs|);
    var i := 0;
    while i < |hs|
      invariant 0 <= i <= |hs|
      invariant buf + HeadersBytes(hs[i..]) == PutUvarint(|hs|) + HeadersBytes(hs)
    {
      WriteOne(buf, hs[i..]);
      assert hs[i..][1..] == hs[i + 1..];
      buf := buf + HeaderBytes(hs[i]);
      i := i + 1;
    }
    assert hs[i..] == [] && buf + [] == buf;
    data := PutUvarint(|buf|) + buf;
  }

  lemma WriteOne(buf: ByteString, hs: seq<FieldHeader>)
    requires hs != []
    ensures buf + HeadersBytes(hs) == buf + HeaderBytes(hs[0]) + HeadersBytes(hs[1..])
  {
  }
}
