/** Indexes over fixed-width typed columns (internal/database/index.go).

    An index entry is the encoded values followed by the key of the document, with
    the length of the encoded values as its value. The store keeps its entries in
    the order of their keys.
  */
module Indexing {

  import opened Prelude
  import opened Bytes
  import opened BinarySort
  import opened Varints
  import opened Values
  import opened ValueEncoding

  // ------------------------------------------------------------------ columns

  datatype Column = BoolColumn | IntegerColumn | DoubleColumn

  predicate HasType(c: Column, v: Value) {
    match c
    case BoolColumn => v.Bool?
    case IntegerColumn => v.Integer?
    case DoubleColumn => v.Double?
  }

  predicate Typed(cs: seq<Column>, vs: seq<Value>) {
    |vs| == |cs| && forall i :: 0 <= i < |cs| ==> HasType(cs[i], vs[i])
  }

  function ColumnWidth(c: Column): nat { if c.BoolColumn? then 1 else 8 }

  function Width(cs: seq<Column>): nat {
    if cs == [] then 0
    else if |cs| == 1 then ColumnWidth(cs[0])
    else ColumnWidth(cs[0]) + 1 + Width(cs[1..])
  }

  /** The values one after the other, with a separator in between. */
  function EncodeValues(cs: seq<Column>, vs: seq<Value>): (s: ByteString)
    requires Typed(cs, vs)
    ensures |s| == Width(cs)
  {
    if cs == [] then []
    else if |cs| == 1 then Content(vs[0])
    else Content(vs[0]) + [ARRAY_VALUE_DELIM] + EncodeValues(cs[1..], vs[1..])
  }

  predicate Proper(v: Value) { v.Double? ==> !IsNaN(v.d) }

  lemma ColumnInjective(c: Column, v: Value, w: Value)
    requires HasType(c, v) && HasType(c, w) && Proper(v) && Proper(w)
    ensures Content(v) == Content(w) ==> v == w
  {
    match c
    case BoolColumn =>
    case IntegerColumn =>
      Int64Order(v.i, w.i);
      LexEqual(AppendInt64(v.i), AppendInt64(w.i));
    case DoubleColumn => Float64Injective(v.d, w.d);
  }

  lemma ColumnWidths(c: Column, v: Value)
    requires HasType(c, v)
    ensures |Content(v)| == ColumnWidth(c)
  {
  }

  /** Different tuples have different encodings. */
  lemma {:induction false} TupleInjective(cs: seq<Column>, vs: seq<Value>, ws: seq<Value>)
    requires Typed(cs, vs) && Typed(cs, ws)
    requires forall i :: 0 <= i < |cs| ==> Proper(vs[i]) && Proper(ws[i])
    ensures EncodeValues(cs, vs) == EncodeValues(cs, ws) <==> vs == ws
  {
    if cs != [] && EncodeValues(cs, vs) == EncodeValues(cs, ws) {
      var n := ColumnWidth(cs[0]);
      ColumnWidths(cs[0], vs[0]);
      ColumnWidths(cs[0], ws[0]);
      assert EncodeValues(cs, vs)[..n] == Content(vs[0]) && EncodeValues(cs, ws)[..n] == Content(ws[0]);
      ColumnInjective(cs[0], vs[0], ws[0]);
      if |cs| > 1 {
        assert EncodeValues(cs, vs)[n + 1..] == EncodeValues(cs[1..], vs[1..]);
        assert EncodeValues(cs, ws)[n + 1..] == EncodeValues(cs[1..], ws[1..]);
        TupleInjective(cs[1..], vs[1..], ws[1..]);
        assert vs == [vs[0]] + vs[1..] && ws == [ws[0]] + ws[1..];
      }
    }
  }

  // ------------------------------------------------------------- sorted store

  datatype Entry = Entry(key: ByteString, value: ByteString)

  ghost predicate Sorted(es: seq<Entry>) {
    forall i, j :: 0 <= i < j < |es| ==> Lex(es[i].key, es[j].key) < 0
  }

  /** Seek: how many entries come before a key. */
  function SeekPosition(es: seq<Entry>, key: ByteString): (p: nat)
    ensures p <= |es|
    ensures forall i :: 0 <= i < p ==> Lex(es[i].key, key) < 0
    ensures p < |es| ==> Lex(es[p].key, key) >= 0
  {
    if es == [] || Lex(es[0].key, key) >= 0 then 0
    else
      var p := SeekPosition(es[1..], key);
      assert forall i :: 0 < i <= p ==> es[i] == es[1..][i - 1];
      p + 1
  }

  lemma AfterSeek(es: seq<Entry>, key: ByteString, i: nat)
    requires Sorted(es) && i < |es|
    ensures i >= SeekPosition(es, key) <==> Lex(es[i].key, key) >= 0
  {
    var p := SeekPosition(es, key);
    if p < i {
      assert Lex(es[p].key, es[i].key) < 0;
      LexAntisymmetric(es[p].key, key);
      LexAntisymmetric(es[i].key, key);
      LexTransitive(key, es[p].key, es[i].key);
    }
  }

  function PutEntry(es: seq<Entry>, e: Entry): seq<Entry> {
    var p := SeekPosition(es, e.key);
    if p < |es| && es[p].key == e.key then es[p := e] else es[..p] + [e] + es[p..]
  }

  function RemoveAt(es: seq<Entry>, p: nat): seq<Entry>
    requires p < |es|
  {
    es[..p] + es[p + 1..]
  }

  lemma PutKeepsSorted(es: seq<Entry>, e: Entry)
    requires Sorted(es)
    ensures Sorted(PutEntry(es, e))
  {
    var p := SeekPosition(es, e.key);
    if !(p < |es| && es[p].key == e.key) {
      var r := PutEntry(es, e);
      forall i, j | 0 <= i < j < |r| ensures Lex(r[i].key, r[j].key) < 0 {
        if i == p {
          assert r[j] == es[j - 1];
          AfterSeek(es, e.key, j - 1);
          LexAntisymmetric(es[j - 1].key, e.key);
          LexEqual(e.key, es[j - 1].key);
          assert j - 1 > p ==> Lex(es[p].key, es[j - 1].key) < 0;
          LexTransitive(e.key, es[p].key, es[j - 1].key);
          LexAntisymmetric(es[p].key, e.key);
        } else {
          assert r[i] == es[if i < p then i else i - 1];
          assert j != p ==> r[j] == es[if j < p then j else j - 1];
        }
      }
    }
  }

  lemma RemoveKeepsSorted(es: seq<Entry>, p: nat)
    requires Sorted(es) && p < |es|
    ensures Sorted(RemoveAt(es, p))
  {
    var r := RemoveAt(es, p);
    assert forall i :: 0 <= i < |r| ==> r[i] == es[if i < p then i else i + 1];
  }

  /** The entries as a set. */
  ghost function Held(es: seq<Entry>): set<Entry> { set e | e in es }

  lemma PutHeld(es: seq<Entry>, e: Entry)
    requires forall x :: x in es && x.key == e.key ==> x == e
    ensures Held(PutEntry(es, e)) == Held(es) + {e}
  {
    var p := SeekPosition(es, e.key);
    if p < |es| && es[p].key == e.key {
      assert es[p] in es;
      assert es[p := e] == es;
    } else {
      InsertedHeld(es, p, e);
    }
  }

  lemma InsertedHeld(es: seq<Entry>, p: nat, e: Entry)
    requires p <= |es|
    ensures Held(es[..p] + [e] + es[p..]) == Held(es) + {e}
  {
    assert es == es[..p] + es[p..];
  }

  lemma RemovedOther(es: seq<Entry>, p: nat, i: nat)
    requires Sorted(es) && p < |es| && i < |es| - 1
    ensures RemoveAt(es, p)[i] == es[if i < p then i else i + 1] != es[p]
  {
    var j := if i < p then i else i + 1;
    LexEqual(es[j].key, es[p].key);
    LexEqual(es[p].key, es[j].key);
  }

  lemma RemoveHeld(es: seq<Entry>, p: nat)
    requires Sorted(es) && p < |es|
    ensures Held(RemoveAt(es, p)) == Held(es) - {es[p]}
  {
    var r := RemoveAt(es, p);
    forall e | e in r ensures e in es && e != es[p] {
      var i :| 0 <= i < |r| && r[i] == e;
      RemovedOther(es, p, i);
    }
    forall e | e in es && e != es[p] ensures e in r {
      var j :| 0 <= j < |es| && es[j] == e;
      assert e == r[if j < p then j else j - 1];
    }
  }

  // --------------------------------------------------------------- the index

  datatype Outcome =
    | Done
    | ErrNoKey
    | ErrNoValues
    | ErrArity
    | ErrWrongType
    | ErrIndexDuplicateValue
    | ErrKeyNotFound
    | Panics

  function EntryOf(cs: seq<Column>, vs: seq<Value>, key: ByteString): Entry
    requires Typed(cs, vs)
  {
    Entry(EncodeValues(cs, vs) + key, PutUvarint(Width(cs)))
  }

  /** Every entry is encoded values and a key, and its value tells them apart. */
  ghost predicate Formed(es: seq<Entry>, w: nat) {
    forall e :: e in es ==> |e.key| > w && e.value == PutUvarint(w)
  }

  /** Some entry begins with these bytes. */
  ghost predicate Present(es: seq<Entry>, seek: ByteString) {
    exists e :: e in es && seek <= e.key
  }

  lemma PrefixAfter(seek: ByteString, key: ByteString)
    requires seek <= key
    ensures Lex(key, seek) >= 0
  {
    LexAntisymmetric(key, seek);
    assert key == seek + key[|seek|..] && seek == seek + [];
    LexSamePrefix(seek, [], key[|seek|..]);
  }

  lemma NonePresent(es: seq<Entry>, seek: ByteString)
    requires forall j :: SeekPosition(es, seek) <= j < |es| ==> !(seek <= es[j].key)
    ensures !Present(es, seek)
  {
    forall j | 0 <= j < SeekPosition(es, seek) ensures !(seek <= es[j].key) {
      if seek <= es[j].key { PrefixAfter(seek, es[j].key); }
    }
  }

  /** The first entry from p on that ends with the key of a document. */
  function FirstEnding(es: seq<Entry>, p: nat, w: nat, key: ByteString): (i: nat)
    requires p <= |es| && forall e :: e in es ==> |e.key| > w
    ensures p <= i <= |es|
    ensures forall j :: p <= j < i ==> es[j].key[w..] != key
    ensures i < |es| ==> es[i].key[w..] == key
    decreases |es| - p
  {
    if p == |es| || es[p].key[w..] == key then p else FirstEnding(es, p + 1, w, key)
  }

  /** When one entry ends with the key, and it is the one of the values given, that is
      the one found. */
  lemma {:induction false} FoundIsOwn(es: seq<Entry>, cs: seq<Column>, vs: seq<Value>, key: ByteString)
    requires Sorted(es) && Formed(es, Width(cs)) && Typed(cs, vs)
    requires EntryOf(cs, vs, key) in es
    requires forall e :: e in es && e.key[Width(cs)..] == key ==> e == EntryOf(cs, vs, key)
    ensures var i := FirstEnding(es, SeekPosition(es, EncodeValues(cs, vs)), Width(cs), key);
            i < |es| && es[i] == EntryOf(cs, vs, key)
  {
    var seek, own := EncodeValues(cs, vs), EntryOf(cs, vs, key);
    var j :| 0 <= j < |es| && es[j] == own;
    assert seek <= own.key && own.key[Width(cs)..] == key;
    PrefixAfter(seek, own.key);
    AfterSeek(es, seek, j);
  }

  class Index {
    const columns: seq<Column>
    const unique: bool
    /** The store of the index is created by the first write. */
    var hasStore: bool
    var entries: seq<Entry>

    ghost predicate Valid() reads this {
      && Sorted(entries)
      && Formed(entries, Width(columns))
      && Width(columns) < 0x1_0000_0000_0000_0000
      && (!hasStore ==> entries == [])
    }

    constructor (columns: seq<Column>, unique: bool)
      requires Width(columns) < 0x1_0000_0000_0000_0000
      ensures Valid() && entries == [] && this.columns == columns && this.unique == unique
    {
      this.columns, this.unique, hasStore, entries := columns, unique, false, [];
    }

    /** Walks the entries from the encoded values on; the first one that begins with
        them gives the key of its document. */
    method FindPrefix(seek: ByteString) returns (key: Option<ByteString>)
      requires Formed(entries, Width(columns)) && |seek| == Width(columns)
      ensures key.Some? <==> Present(entries, seek)
      ensures key.Some? ==> Entry(seek + key.value, PutUvarint(Width(columns))) in entries
    {
      var i := SeekPosition(entries, seek);
      while i < |entries|
        invariant SeekPosition(entries, seek) <= i <= |entries|
        invariant forall j :: SeekPosition(entries, seek) <= j < i ==> !(seek <= entries[j].key)
      {
        var k := entries[i].key;
        assert entries[i] in entries;
        if seek == k[..|seek|] {
          assert Entry(seek + k[|seek|..], PutUvarint(Width(columns))) == entries[i];
          return Some(k[|seek|..]);
        }
        i := i + 1;
      }
      NonePresent(entries, seek);
      return None;
    }

    /** Exists: whether a tuple is in the index, and the key of its document. Without a
        store nothing is, and the tuple is not looked at. */
    method Exists(vs: seq<Value>) returns (r: Outcome, key: Option<ByteString>)
      requires Valid()
      ensures r == if |vs| != |columns| then ErrArity else if hasStore && !Typed(columns, vs) then Panics else Done
      ensures r.Done? ==> (key.Some? <==> Typed(columns, vs) && Present(entries, EncodeValues(columns, vs)))
      ensures r.Done? && key.Some? ==> EntryOf(columns, vs, key.value) in entries
    {
      if |vs| != |columns| { return ErrArity, None; }
      if !hasStore { return Done, None; }
      if !Typed(columns, vs) { return Panics, None; }
      key := FindPrefix(EncodeValues(columns, vs));
      r := Done;
    }

    /** Set: adds the entry of a document, unless the index is unique and has the tuple. */
    method Set(vs: seq<Value>, key: ByteString) returns (r: Outcome)
      requires Valid()
      modifies this
      ensures Valid()
      ensures r == if key == [] then ErrNoKey
                   else if vs == [] then ErrNoValues
                   else if |vs| != |columns| then ErrArity
                   else if !Typed(columns, vs) then ErrWrongType
                   else if unique && Present(old(entries), EncodeValues(columns, vs)) then ErrIndexDuplicateValue
                   else Done
      ensures !r.Done? ==> entries == old(entries)
      ensures r.Done? ==> Held(entries) == Held(old(entries)) + {EntryOf(columns, vs, key)}
    {
      if key == [] { return ErrNoKey; }
      if vs == [] { return ErrNoValues; }
      if |vs| != |columns| { return ErrArity; }
      if !Typed(columns, vs) { return ErrWrongType; }
      hasStore := true;
      var storeKey := EncodeValues(columns, vs);
      if unique {
        var found := FindPrefix(storeKey);
        if found.Some? { return ErrIndexDuplicateValue; }
      }
      var e := Entry(storeKey + key, PutUvarint(|storeKey|));
      PutHeld(entries, e);
      PutKeepsSorted(entries, e);
      PutFormed(entries, e, Width(columns));
      entries := PutEntry(entries, e);
      return Done;
    }

    /** Delete: removes the first entry, from the encoded values on, that ends with the
        key. The values may be fewer than the columns. */
    method Delete(vs: seq<Value>, key: ByteString) returns (r: Outcome)
      requires Valid()
      modifies this
      ensures Valid()
      ensures |vs| > |columns| ==> r == ErrArity
      ensures |vs| <= |columns| && !Typed(columns[..|vs|], vs) ==> r == Panics
      ensures |vs| <= |columns| && Typed(columns[..|vs|], vs) ==>
                var seek := EncodeValues(columns[..|vs|], vs);
                var i := FirstEnding(old(entries), SeekPosition(old(entries), seek), Width(columns), key);
                if i < |old(entries)| then r == Done && entries == RemoveAt(old(entries), i) else r == ErrKeyNotFound
      ensures !r.Done? ==> entries == old(entries)
    {
      hasStore := true;
      if |vs| > |columns| { return ErrArity; }
      if !Typed(columns[..|vs|], vs) { return Panics; }
      var i := FindEnding(EncodeValues(columns[..|vs|], vs), key);
      if i == |entries| { return ErrKeyNotFound; }
      RemoveKeepsSorted(entries, i);
      RemoveFormed(entries, i, Width(columns));
      entries := RemoveAt(entries, i);
      return Done;
    }

    /** Walks the entries from a place on, to the first that ends with the key. */
    method FindEnding(seek: ByteString, key: ByteString) returns (i: nat)
      requires Formed(entries, Width(columns)) && Width(columns) < 0x1_0000_0000_0000_0000
      ensures i == FirstEnding(entries, SeekPosition(entries, seek), Width(columns), key)
    {
      ghost var w := Width(columns);
      i := SeekPosition(entries, seek);
      ghost var p := i;
      UvarintRoundTrip(w, []);
      assert PutUvarint(w) + [] == PutUvarint(w);
      while i < |entries|
        invariant p <= i <= |entries|
        invariant FirstEnding(entries, i, w, key) == FirstEnding(entries, p, w, key)
      {
        assert entries[i] in entries;
        var size := Uvarint(entries[i].value);
        if entries[i].key[size.value.value..] == key { break; }
        i := i + 1;
      }
    }
  }

  lemma PutFormed(es: seq<Entry>, e: Entry, w: nat)
    requires Formed(es, w) && |e.key| > w && e.value == PutUvarint(w)
    ensures Formed(PutEntry(es, e), w)
  {
  }

  lemma RemoveFormed(es: seq<Entry>, p: nat, w: nat)
    requires Formed(es, w) && p < |es|
    ensures Formed(RemoveAt(es, p), w)
  {
  }
}
