/** Document values (document/value.go, document/document.go).

    Go strings are byte strings, and doubles are bit patterns. A document is the
    list of its fields in the order they were added.
  */
module Values {

  import opened Prelude
  import opened Bytes
  import opened BinarySort

  datatype Value =
    | Null
    | Bool(b: bool)
    | Integer(i: Int64)
    | Double(d: Bits)
    | Text(t: ByteString)
    | Blob(data: ByteString)
    | Array(vs: seq<Value>)
    | Document(fields: seq<Field>)

  datatype Field = Field(name: ByteString, value: Value)

  /** The type byte; types sort in this order. */
  function Type(v: Value): Byte {
    match v
    case Null => 0x80
    case Bool(_) => 0x81
    case Integer(_) => 0x90
    case Double(_) => 0xA0
    case Text(_) => 0xC0
    case Blob(_) => 0xD0
    case Array(_) => 0xE0
    case Document(_) => 0xF0
  }

  predicate IsNumber(v: Value) { v.Integer? || v.Double? }

  predicate HasField(fields: seq<Field>, name: ByteString) {
    exists k :: 0 <= k < |fields| && fields[k].name == name
  }

  /** GetByField: the first field with that name. */
  function GetByField(fields: seq<Field>, name: ByteString): (r: Option<Value>)
    ensures r.Some? <==> HasField(fields, name)
    ensures r.Some? ==> exists k :: 0 <= k < |fields| && fields[k].value == r.value
  {
    if fields == [] then None
    else if fields[0].name == name then
      assert fields[0].value == fields[0].value;
      Some(fields[0].value)
    else
      var r := GetByField(fields[1..], name);
      assert forall k :: 0 <= k < |fields[1..]| ==> fields[1..][k] == fields[k + 1];
      assert HasField(fields, name) ==> HasField(fields[1..], name) by {
        if HasField(fields, name) {
          var k :| 0 <= k < |fields| && fields[k].name == name;
          assert fields[1..][k - 1].name == name;
        }
      }
      r
  }
}
