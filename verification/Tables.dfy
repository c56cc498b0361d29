/** Tables and the indexes that mirror them (internal/database/table.go).

    Documents are shown decoded. The document passed in is the one left by the
    validation of the field constraints, and its key is given.
  */
module Tables {

  import opened Prelude
  import opened Bytes
  import opened Values
  import opened Indexing

  // -------------------------------------------------------- values at paths

  datatype Fragment = FieldName(name: ByteString) | ArrayIndex(i: int)

  type Path = seq<Fragment>

  function ValueAt(p: Path, v: Value): Option<Value> {
    if p == [] then None
    else
      var next := match p[0]
        case FieldName(name) => if v.Document? then GetByField(v.fields, name) else None
        case ArrayIndex(i) => if v.Array? && 0 <= i < |v.vs| then Some(v.vs[i]) else None;
      if next.None? || |p| == 1 then next else ValueAt(p[1..], next.value)
  }

  /** A field name gives the value of the first field of that name. */
  lemma {:induction false} ValueAtField(name: ByteString, fields: seq<Field>, v: Value)
    ensures ValueAt([FieldName(name)], Document(fields)) == Some(v) <==>
            exists k :: 0 <= k < |fields| && fields[k] == Field(name, v) && forall j :: 0 <= j < k ==> fields[j].name != name
    decreases |fields|
  {
    if fields != [] && fields[0].name != name {
      var rest := fields[1..];
      ValueAtField(name, rest, v);
      if k :| 0 <= k < |rest| && rest[k] == Field(name, v) && forall j :: 0 <= j < k ==> rest[j].name != name {
        forall j | 0 <= j < k + 1 ensures fields[j].name != name { assert j > 0 ==> rest[j - 1] == fields[j]; }
        assert fields[k + 1] == Field(name, v);
      }
      if k :| 0 <= k < |fields| && fields[k] == Field(name, v) && forall j :: 0 <= j < k ==> fields[j].name != name {
        forall j | 0 <= j < k - 1 ensures rest[j].name != name { assert rest[j] == fields[j + 1]; }
        assert rest[k - 1] == Field(name, v);
      }
    }
  }

  /** An index gives the element at that place, and neither gives anything elsewhere. */
  lemma ValueAtIndex(i: int, v: Value, w: Value)
    ensures ValueAt([ArrayIndex(i)], v) == Some(w) <==> v.Array? && 0 <= i < |v.vs| && v.vs[i] == w
    ensures forall name :: !v.Document? ==> ValueAt([FieldName(name)], v) == None
  {
  }

  /** The value at a path is looked up step by step. */
  lemma {:induction false} ValueAtAppend(p: Path, q: Path, v: Value)
    requires p != [] && q != []
    ensures ValueAt(p + q, v) == if ValueAt(p, v).None? then None else ValueAt(q, ValueAt(p, v).value)
  {
    assert (p + q)[1..] == p[1..] + q;
    if |p| == 1 {
      assert p[1..] + q == q;
    } else {
      var next := ValueAt([p[0]], v);
      if next.Some? { ValueAtAppend(p[1..], q, next.value); }
    }
  }

  /** The tuple a document is indexed by; a missing value counts as NULL. */
  function Tuple(paths: seq<Path>, d: Value): (vs: seq<Value>)
    ensures |vs| == |paths|
  {
    seq(|paths|, i requires 0 <= i < |paths| => var v := ValueAt(paths[i], d); if v.None? then Null else v.value)
  }

  type Documents = map<ByteString, Value>

  datatype Info = Info(columns: seq<Column>, paths: seq<Path>)

  /** The document carries a value of the column's type at every path. */
  predicate Conforms(info: Info, d: Value) { Typed(info.columns, Tuple(info.paths, d)) }

  function Encoded(info: Info, d: Value): ByteString
    requires Conforms(info, d)
  {
    EncodeValues(info.columns, Tuple(info.paths, d))
  }

  function Own(info: Info, key: ByteString, d: Value): Entry
    requires Conforms(info, d)
  {
    EntryOf(info.columns, Tuple(info.paths, d), key)
  }

  ghost predicate AllConform(info: Info, docs: Documents) {
    forall k :: k in docs ==> k != [] && Conforms(info, docs[k])
  }

  /** What the index should hold: one entry per document. */
  ghost function Image(info: Info, docs: Documents): set<Entry>
    requires AllConform(info, docs)
  {
    set k | k in docs :: Own(info, k, docs[k])
  }

  /** Two documents have the same tuple, as far as the index can tell. */
  predicate Clash(info: Info, a: Value, b: Value)
    requires Conforms(info, a) && Conforms(info, b)
  {
    Encoded(info, a) == Encoded(info, b)
  }

  /** No document has the tuple of this one. */
  ghost predicate IsNew(info: Info, docs: Documents, d: Value)
    requires AllConform(info, docs) && Conforms(info, d)
  {
    forall k {:trigger Clash(info, docs[k], d)} :: k in docs ==> !Clash(info, docs[k], d)
  }

  /** No two documents have the same tuple. */
  ghost predicate AllDiffer(info: Info, docs: Documents)
    requires AllConform(info, docs)
  {
    forall k, m {:trigger Clash(info, docs[k], docs[m])} ::
      k in docs && m in docs && k != m ==> !Clash(info, docs[k], docs[m])
  }

  // ------------------------------------------------------- about the image

  lemma OwnSplits(info: Info, key: ByteString, d: Value)
    requires Conforms(info, d)
    ensures var w := Width(info.columns);
            && Own(info, key, d).key[..w] == Encoded(info, d)
            && Own(info, key, d).key[w..] == key
  {
  }

  lemma ImageInserted(info: Info, docs: Documents, key: ByteString, d: Value)
    requires AllConform(info, docs) && key != [] && Conforms(info, d) && key !in docs
    ensures AllConform(info, docs[key := d])
    ensures Image(info, docs[key := d]) == Image(info, docs) + {Own(info, key, d)}
  {
    var after := docs[key := d];
    forall e | e in Image(info, after) ensures e in Image(info, docs) + {Own(info, key, d)} {
      var k :| k in after && e == Own(info, k, after[k]);
      if k != key { assert k in docs && e == Own(info, k, docs[k]); }
    }
    forall e | e in Image(info, docs) + {Own(info, key, d)} ensures e in Image(info, after) {
      if e == Own(info, key, d) {
        assert key in after;
      } else {
        var k :| k in docs && e == Own(info, k, docs[k]);
        assert k in after && after[k] == docs[k];
      }
    }
  }

  /** In the image, the entry that ends with a key is the one of its document. */
  lemma OnlyOwnEnds(info: Info, docs: Documents, key: ByteString, e: Entry)
    requires AllConform(info, docs) && key in docs && e in Image(info, docs)
    requires |e.key| > Width(info.columns) && e.key[Width(info.columns)..] == key
    ensures e == Own(info, key, docs[key])
  {
    var k :| k in docs && e == Own(info, k, docs[k]);
    OwnSplits(info, k, docs[k]);
  }

  lemma ImageRemoved(info: Info, docs: Documents, key: ByteString)
    requires AllConform(info, docs) && key in docs
    ensures AllConform(info, docs - {key})
    ensures Image(info, docs - {key}) == Image(info, docs) - {Own(info, key, docs[key])}
  {
    var rest := docs - {key};
    OwnSplits(info, key, docs[key]);
    forall e | e in Image(info, rest) ensures e in Image(info, docs) && e != Own(info, key, docs[key]) {
      var k :| k in rest && e == Own(info, k, rest[k]);
      assert k in docs && docs[k] == rest[k];
      OwnSplits(info, k, docs[k]);
    }
    forall e | e in Image(info, docs) && e != Own(info, key, docs[key]) ensures e in Image(info, rest) {
      var k :| k in docs && e == Own(info, k, docs[k]);
      assert k in rest && rest[k] == docs[k];
    }
  }

  /** A tuple is present in the index exactly when some document has it. */
  lemma PresentIffTaken(info: Info, docs: Documents, es: seq<Entry>, d: Value)
    requires AllConform(info, docs) && Conforms(info, d) && Held(es) == Image(info, docs)
    ensures Present(es, Encoded(info, d)) <==> !IsNew(info, docs, d)
  {
    var s := Encoded(info, d);
    if Present(es, s) {
      var e :| e in es && s <= e.key;
      assert e in Held(es);
      var k :| k in docs && e == Own(info, k, docs[k]);
      OwnSplits(info, k, docs[k]);
      assert Clash(info, docs[k], d);
    }
    if !IsNew(info, docs, d) {
      var k :| k in docs && Clash(info, docs[k], d);
      assert Own(info, k, docs[k]) in Held(es);
      assert s <= Own(info, k, docs[k]).key;
    }
  }

  /** As many entries as documents. */
  lemma {:induction false} ImageSize(info: Info, docs: Documents)
    requires AllConform(info, docs)
    ensures |Image(info, docs)| == |docs|
    decreases |docs|
  {
    if k :| k in docs {
      ImageRemoved(info, docs, k);
      ImageSize(info, docs - {k});
      assert Own(info, k, docs[k]) in Image(info, docs);
    } else {
      assert docs == map[] && Image(info, docs) == {};
    }
  }

  ghost predicate AllProper(vs: seq<Value>) { forall i :: 0 <= i < |vs| ==> Proper(vs[i]) }

  /** Without NaN, a new encoding is a new tuple of values. */
  lemma NewIsNewTuple(info: Info, docs: Documents, d: Value)
    requires AllConform(info, docs) && Conforms(info, d) && AllProper(Tuple(info.paths, d))
    requires forall k :: k in docs ==> AllProper(Tuple(info.paths, docs[k]))
    ensures IsNew(info, docs, d) <==>
            forall k :: k in docs ==> Tuple(info.paths, docs[k]) != Tuple(info.paths, d)
  {
    forall k | k in docs
      ensures Clash(info, docs[k], d) <==> Tuple(info.paths, docs[k]) == Tuple(info.paths, d)
    {
      TupleInjective(info.columns, Tuple(info.paths, docs[k]), Tuple(info.paths, d));
    }
  }

  lemma DifferInserted(info: Info, docs: Documents, key: ByteString, d: Value)
    requires AllConform(info, docs) && key != [] && Conforms(info, d) && key !in docs && AllConform(info, docs[key := d])
    requires AllDiffer(info, docs) && IsNew(info, docs, d)
    ensures AllDiffer(info, docs[key := d])
  {
    var after := docs[key := d];
    forall k, m | k in after && m in after && k != m ensures !Clash(info, after[k], after[m]) {
      if k == key {
        assert !Clash(info, docs[m], d);
      } else if m == key {
        assert !Clash(info, docs[k], d);
      } else {
        assert !Clash(info, docs[k], docs[m]);
      }
    }
  }

  lemma DifferRemoved(info: Info, docs: Documents, key: ByteString)
    requires AllConform(info, docs) && AllConform(info, docs - {key}) && AllDiffer(info, docs)
    ensures AllDiffer(info, docs - {key})
  {
    var rest := docs - {key};
    forall k, m | k in rest && m in rest && k != m ensures !Clash(info, rest[k], rest[m]) {
      assert !Clash(info, docs[k], docs[m]);
    }
  }

  // --------------------------------------------------------------- the table

  datatype Reply =
    | Ok
    | ErrReadOnly
    | ErrDuplicateDocument(other: Option<ByteString>)
    | ErrDocumentNotFound
    | ErrEmptyKey
    | ErrIndex(cause: Outcome)

  class Table {
    const readOnly: bool
    const infos: seq<Info>
    const indexes: seq<Index>
    var docs: Documents

    ghost predicate Shaped() {
      && |infos| == |indexes|
      && (forall i :: 0 <= i < |infos| ==>
            indexes[i].columns == infos[i].columns && |infos[i].paths| == |infos[i].columns| > 0)
      && forall i, j :: 0 <= i < j < |indexes| ==> indexes[i] != indexes[j]
    }

    /** The i-th index holds one entry for each of the documents and nothing else, and
        no tuple twice if it is unique. */
    ghost predicate Mirrors(i: nat, ds: Documents)
      requires i < |infos| && i < |indexes|
      reads indexes[i]
    {
      && indexes[i].Valid()
      && AllConform(infos[i], ds)
      && Held(indexes[i].entries) == Image(infos[i], ds)
      && (indexes[i].unique ==> AllDiffer(infos[i], ds))
    }

    ghost predicate AllMirror(a: nat, b: nat, ds: Documents)
      requires a <= b <= |indexes| && |infos| == |indexes|
      reads set i | a <= i < b :: indexes[i]
      decreases b - a
    {
      a == b || (AllMirror(a, b - 1, ds) && Mirrors(b - 1, ds))
    }

    lemma {:induction false} OneMirrors(a: nat, b: nat, ds: Documents, i: nat)
      requires a <= i < b <= |indexes| && |infos| == |indexes| && AllMirror(a, b, ds)
      ensures Mirrors(i, ds)
      decreases b
    {
      if i < b - 1 { OneMirrors(a, b - 1, ds, i); }
    }

    lemma {:induction false} FirstAndRest(a: nat, b: nat, ds: Documents)
      requires a < b <= |indexes| && |infos| == |indexes| && AllMirror(a, b, ds)
      ensures Mirrors(a, ds) && AllMirror(a + 1, b, ds)
      decreases b
    {
      if a < b - 1 { FirstAndRest(a, b - 1, ds); }
    }

    lemma {:induction false} FirstAndRestBack(a: nat, b: nat, ds: Documents)
      requires a < b <= |indexes| && |infos| == |indexes| && Mirrors(a, ds) && AllMirror(a + 1, b, ds)
      ensures AllMirror(a, b, ds)
      decreases b
    {
      if a < b - 1 { FirstAndRestBack(a, b - 1, ds); }
    }

    ghost predicate Valid() reads this, indexes { Shaped() && [] !in docs && AllMirror(0, |indexes|, docs) }

    /** What an index asks of a document added to others: a value of the column's type
        at every path, and a new tuple if it is unique. */
    ghost predicate Accepts(i: nat, ds: Documents, d: Value)
      requires i < |infos| && i < |indexes| && AllConform(infos[i], ds)
    {
      Conforms(infos[i], d) && (indexes[i].unique ==> IsNew(infos[i], ds, d))
    }

    /** What the look ahead asks: a new tuple of a unique index, if it is one at all. */
    ghost predicate Passes(i: nat, ds: Documents, d: Value)
      requires i < |infos| && i < |indexes| && AllConform(infos[i], ds)
    {
      indexes[i].unique && Conforms(infos[i], d) ==> IsNew(infos[i], ds, d)
    }

    /** The first n indexes accept the document, or let it pass. */
    ghost predicate AcceptUpTo(n: nat, ds: Documents, d: Value)
      requires n <= |infos| && n <= |indexes|
    {
      n == 0 || (AcceptUpTo(n - 1, ds, d) && AllConform(infos[n - 1], ds) && Accepts(n - 1, ds, d))
    }

    ghost predicate PassUpTo(n: nat, ds: Documents, d: Value)
      requires n <= |infos| && n <= |indexes|
    {
      n == 0 || (PassUpTo(n - 1, ds, d) && AllConform(infos[n - 1], ds) && Passes(n - 1, ds, d))
    }

    lemma {:induction false} OneAccepts(n: nat, ds: Documents, d: Value, i: nat)
      requires i < n <= |infos| && n <= |indexes| && AcceptUpTo(n, ds, d)
      ensures AllConform(infos[i], ds) && Accepts(i, ds, d)
    {
      if i < n - 1 { OneAccepts(n - 1, ds, d, i); }
    }

    /** Every index accepts the document. */
    ghost predicate AllAccept(ds: Documents, d: Value)
      requires |infos| == |indexes|
    {
      AcceptUpTo(|indexes|, ds, d)
    }

    lemma OneRefuses(ds: Documents, d: Value, i: nat)
      requires |infos| == |indexes| && i < |indexes| && AllConform(infos[i], ds) && !Accepts(i, ds, d)
      ensures !AllAccept(ds, d)
    {
      if AllAccept(ds, d) { OneAccepts(|indexes|, ds, d, i); }
    }

    predicate ConformsUpTo(n: nat, d: Value)
      requires n <= |infos|
    {
      n == 0 || (ConformsUpTo(n - 1, d) && Conforms(infos[n - 1], d))
    }

    predicate ConformsToAll(d: Value) { ConformsUpTo(|infos|, d) }

    constructor (readOnly: bool, infos: seq<Info>, indexes: seq<Index>)
      requires |infos| == |indexes|
      requires forall i :: 0 <= i < |infos| ==>
                 indexes[i].columns == infos[i].columns && |infos[i].paths| == |infos[i].columns| > 0
      requires forall i, j :: 0 <= i < j < |indexes| ==> indexes[i] != indexes[j]
      requires forall i :: 0 <= i < |indexes| ==> indexes[i].Valid() && indexes[i].entries == []
      ensures Valid() && docs == map[]
    {
      this.readOnly, this.infos, this.indexes, docs := readOnly, infos, indexes, map[];
      new;
      EmptyMirrors(|indexes|);
    }

    lemma {:induction false} EmptyMirrors(n: nat)
      requires n <= |indexes| && |infos| == |indexes|
      requires forall i :: 0 <= i < n ==> indexes[i].Valid() && indexes[i].entries == []
      ensures AllMirror(0, n, map[])
    {
      if n > 0 {
        EmptyMirrors(n - 1);
        assert Held([]) == {} == Image(infos[n - 1], map[]);
      }
    }

    /** Adds the entry of a new document to one index. */
    method SetOne(i: nat, key: ByteString, d: Value, ghost before: Documents) returns (r: Outcome)
      requires Shaped() && i < |indexes| && Mirrors(i, before) && key != [] && key !in before
      modifies indexes[i]
      ensures r.Done? <==> Accepts(i, before, d)
      ensures !r.Done? && Conforms(infos[i], d) ==> r == ErrIndexDuplicateValue
      ensures Mirrors(i, if r.Done? then before[key := d] else before)
    {
      ghost var es := indexes[i].entries;
      r := indexes[i].Set(Tuple(infos[i].paths, d), key);
      if Conforms(infos[i], d) {
        PresentIffTaken(infos[i], before, es, d);
      }
      if r.Done? {
        ImageInserted(infos[i], before, key, d);
        if indexes[i].unique { DifferInserted(infos[i], before, key, d); }
      }
    }

    /** Removes the entry of a document from one index. */
    method DeleteOne(i: nat, key: ByteString, d: Value, ghost before: Documents) returns (r: Outcome)
      requires Shaped() && i < |indexes| && Mirrors(i, before) && key in before && before[key] == d
      modifies indexes[i]
      ensures r.Done? && Mirrors(i, before - {key})
    {
      ghost var es := indexes[i].entries;
      DeletedIsOwn(infos[i], before, es, key);
      assert infos[i].columns[..|infos[i].columns|] == infos[i].columns;
      r := indexes[i].Delete(Tuple(infos[i].paths, d), key);
      ImageRemoved(infos[i], before, key);
      if indexes[i].unique { DifferRemoved(infos[i], before, key); }
    }

    lemma Alone(i: nat)
      requires Shaped() && i < |indexes|
      ensures forall j :: 0 <= j < |indexes| && j != i ==> indexes[j] != indexes[i]
    {
    }

    /** The indexes before the i-th mirror one set of documents, the others another. */
    ghost predicate Halfway(i: nat, before: Documents, after: Documents)
      requires i <= |indexes| && |infos| == |indexes|
      reads indexes
    {
      AllMirror(0, i, after) && AllMirror(i, |indexes|, before)
    }

    /** The first i indexes took the document and hold it, the others do not yet. */
    ghost predicate TakenUpTo(i: nat, d: Value, before: Documents, after: Documents)
      requires i <= |indexes| && |infos| == |indexes|
      reads indexes
    {
      AcceptUpTo(i, before, d) && Halfway(i, before, after)
    }

    /** One round of the loop below. */
    method SetNext(i: nat, key: ByteString, d: Value, ghost before: Documents, ghost after: Documents) returns (r: Outcome)
      requires Shaped() && i < |indexes| && key != [] && key !in before && after == before[key := d]
      requires TakenUpTo(i, d, before, after)
      modifies indexes
      ensures r.Done? ==> TakenUpTo(i + 1, d, before, after)
      ensures !r.Done? ==> TakenUpTo(i, d, before, after) && !AllAccept(before, d)
      ensures !r.Done? && ConformsToAll(d) ==> r == ErrIndexDuplicateValue
    {
      FirstAndRest(i, |indexes|, before);
      Alone(i);
      if ConformsToAll(d) { OneConforms(|indexes|, d, i); }
      r := SetOne(i, key, d, before);
      if !r.Done? {
        OneRefuses(before, d, i);
        FirstAndRestBack(i, |indexes|, before);
      }
    }

    /** Adds the document to one index after the other, up to the first that refuses. */
    method SetAll(key: ByteString, d: Value, ghost before: Documents) returns (r: Outcome, ghost reached: nat)
      requires Shaped() && AllMirror(0, |indexes|, before) && key != [] && key !in before
      modifies indexes
      ensures r.Done? <==> AllAccept(before, d)
      ensures reached <= |indexes| && (r.Done? <==> reached == |indexes|)
      ensures Halfway(reached, before, before[key := d])
      ensures !r.Done? && ConformsToAll(d) ==> r == ErrIndexDuplicateValue
    {
      ghost var after := before[key := d];
      reached := 0;
      for i := 0 to |indexes|
        invariant reached == i && TakenUpTo(i, d, before, after)
      {
        r := SetNext(i, key, d, before, after);
        if !r.Done? { return; }
        reached := i + 1;
      }
      return Done, reached;
    }

    /** One round of the loop below. */
    method DeleteNext(i: nat, key: ByteString, d: Value, ghost before: Documents, ghost after: Documents) returns (r: Outcome)
      requires Shaped() && i < |indexes| && key in before && before[key] == d && after == before - {key}
      requires Halfway(i, before, after)
      modifies indexes[i]
      ensures r.Done? && Halfway(i + 1, before, after)
    {
      FirstAndRest(i, |indexes|, before);
      Alone(i);
      r := DeleteOne(i, key, d, before);
    }

    method DeleteAll(key: ByteString, d: Value, ghost before: Documents) returns (r: Outcome)
      requires Shaped() && AllMirror(0, |indexes|, before) && key in before && before[key] == d
      modifies indexes
      ensures r.Done? && AllMirror(0, |indexes|, before - {key})
    {
      ghost var after := before - {key};
      for i := 0 to |indexes|
        invariant Halfway(i, before, after)
      {
        r := DeleteNext(i, key, d, before, after);
        if !r.Done? { return; }
      }
      return Done;
    }

    /** A document that takes the same tuple of a unique index. */
    ghost predicate Takes(i: nat, ds: Documents, d: Value, k: ByteString)
      requires i < |infos| && i < |indexes| && AllConform(infos[i], ds)
    {
      indexes[i].unique && Conforms(infos[i], d) && k in ds && Clash(infos[i], ds[k], d)
    }

    method CheckOne(i: nat, d: Value) returns (r: Outcome, other: Option<ByteString>)
      requires Shaped() && i < |indexes| && Mirrors(i, docs) && indexes[i].unique
      ensures r == Done || r == ErrIndexDuplicateValue || r == Panics
      ensures r == Done ==> Passes(i, docs, d)
      ensures r != Done ==> !Accepts(i, docs, d)
      ensures r == Panics ==> !Conforms(infos[i], d)
      ensures r == ErrIndexDuplicateValue ==> other.Some? && Takes(i, docs, d, other.value)
    {
      r, other := indexes[i].Exists(Tuple(infos[i].paths, d));
      if !r.Done? { return Panics, None; }
      if Conforms(infos[i], d) { PresentIffTaken(infos[i], docs, indexes[i].entries, d); }
      if other.Some? {
        EntryTakes(infos[i], docs, indexes[i].entries, d, other.value);
        r := ErrIndexDuplicateValue;
      }
    }

    /** The look at the unique indexes before anything is written. */
    method CheckUnique(d: Value) returns (r: Outcome, other: Option<ByteString>)
      requires Valid()
      ensures r == Done || r == ErrIndexDuplicateValue || r == Panics
      ensures r == Done ==> (AllAccept(docs, d) <==> ConformsToAll(d))
      ensures r != Done ==> !AllAccept(docs, d)
      ensures r == Panics ==> !ConformsToAll(d)
      ensures r == ErrIndexDuplicateValue ==>
                other.Some? && exists i :: 0 <= i < |indexes| && AllConform(infos[i], docs) && Takes(i, docs, d, other.value)
    {
      other := None;
      for i := 0 to |indexes|
        invariant PassUpTo(i, docs, d)
      {
        OneMirrors(0, |indexes|, docs, i);
        if ConformsToAll(d) { OneConforms(|indexes|, d, i); }
        if indexes[i].unique {
          r, other := CheckOne(i, d);
          if !r.Done? {
            OneRefuses(docs, d, i);
            return;
          }
        }
      }
      AcceptIfConform(|indexes|, docs, d);
      r := Done;
    }

    lemma {:induction false} OneConforms(n: nat, d: Value, i: nat)
      requires i < n <= |infos| && ConformsUpTo(n, d)
      ensures Conforms(infos[i], d)
    {
      if i < n - 1 { OneConforms(n - 1, d, i); }
    }

    lemma {:induction false} AcceptIfConform(n: nat, ds: Documents, d: Value)
      requires n <= |indexes| && |infos| == |indexes| && PassUpTo(n, ds, d)
      ensures AcceptUpTo(n, ds, d) <==> ConformsUpTo(n, d)
    {
      if n > 0 { AcceptIfConform(n - 1, ds, d); }
    }

    /** Insert succeeds exactly when the key is new and every index accepts the document.
        A refusal for a duplicate names a document in the way. With a document of the right
        types, a failure writes nothing; else it can leave the document and some entries. */
    method Insert(key: ByteString, d: Value) returns (a: Reply)
      requires Valid()
      modifies this, indexes
      ensures a.Ok? <==> !readOnly && key != [] && key !in old(docs) && AllAccept(old(docs), d)
      ensures a.Ok? ==> Valid() && docs == old(docs)[key := d]
      ensures readOnly ==> a == ErrReadOnly
      ensures !readOnly && key in old(docs) ==> a == ErrDuplicateDocument(Some(key))
      ensures !readOnly && key !in old(docs) && ConformsToAll(d) ==>
                if !AllAccept(old(docs), d) then a.ErrDuplicateDocument? else a == if key == [] then ErrEmptyKey else Ok
      ensures a.ErrDuplicateDocument? ==> a.other.Some? && a.other.value in old(docs)
      ensures a.ErrDuplicateDocument? ==>
                (a.other.value == key ||
                    exists i :: 0 <= i < |indexes| && AllConform(infos[i], old(docs)) && Takes(i, old(docs), d, a.other.value))
      ensures !a.Ok? && ConformsToAll(d) ==>
                Valid() && docs == old(docs) && forall i :: 0 <= i < |indexes| ==> indexes[i].entries == old(indexes[i].entries)
      ensures !a.Ok? && docs != old(docs) ==>
                docs == old(docs)[key := d] && exists i :: 0 <= i < |indexes| && Halfway(i, old(docs), docs)
      ensures !a.Ok? && docs == old(docs) ==> Valid()
    {
      if readOnly { return ErrReadOnly; }
      if key in docs { return ErrDuplicateDocument(Some(key)); }
      var u, other := CheckUnique(d);
      if u == Panics { return ErrIndex(Panics); }
      if u != Done { return ErrDuplicateDocument(other); }
      if key == [] { return ErrEmptyKey; }
      ghost var before := docs;
      docs := docs[key := d];
      var r;
      ghost var reached;
      r, reached := SetAll(key, d, before);
      if !r.Done? { return ErrIndex(r); }
      return Ok;
    }

    /** Delete succeeds exactly when the document is there. */
    method Delete(key: ByteString) returns (a: Reply)
      requires Valid()
      modifies this, indexes
      ensures Valid()
      ensures a == if readOnly then ErrReadOnly else if key !in old(docs) then ErrDocumentNotFound else Ok
      ensures docs == if a.Ok? then old(docs) - {key} else old(docs)
    {
      if readOnly { return ErrReadOnly; }
      if key !in docs { return ErrDocumentNotFound; }
      var r := DeleteAll(key, docs[key], docs);
      if !r.Done? { return ErrIndex(r); }
      docs := docs - {key};
      return Ok;
    }

    /** Replace succeeds exactly when the document is there and every index accepts the
        new one among the other documents. Refused by an index, it leaves the new document
        with the entries of the indexes before that one, and no entry in the others. */
    method Replace(key: ByteString, d: Value) returns (a: Reply)
      requires Valid()
      modifies this, indexes
      ensures a.Ok? <==> !readOnly && key in old(docs) && AllAccept(old(docs) - {key}, d)
      ensures a.Ok? ==> Valid() && docs == old(docs)[key := d]
      ensures readOnly || key !in old(docs) ==>
                Valid() && docs == old(docs) && a == if readOnly then ErrReadOnly else ErrDocumentNotFound
      ensures !a.Ok? && !readOnly && key in old(docs) && ConformsToAll(d) ==> a == ErrDuplicateDocument(None)
      ensures !a.Ok? && !readOnly && key in old(docs) ==>
                docs == old(docs)[key := d] && exists i :: 0 <= i < |indexes| && Halfway(i, old(docs) - {key}, docs)
    {
      if readOnly { return ErrReadOnly; }
      if key !in docs { return ErrDocumentNotFound; }
      ghost var others := docs - {key};
      var r := DeleteAll(key, docs[key], docs);
      if !r.Done? { return ErrIndex(r); }
      docs := docs[key := d];
      assert others[key := d] == docs;
      ghost var reached;
      r, reached := SetAll(key, d, others);
      if !r.Done? { return if r == ErrIndexDuplicateValue then ErrDuplicateDocument(None) else ErrIndex(r); }
      return Ok;
    }
  }

  lemma EntryTakes(info: Info, docs: Documents, es: seq<Entry>, d: Value, k: ByteString)
    requires AllConform(info, docs) && Conforms(info, d) && Held(es) == Image(info, docs)
    requires EntryOf(info.columns, Tuple(info.paths, d), k) in es
    ensures k in docs && Clash(info, docs[k], d)
  {
    var e := EntryOf(info.columns, Tuple(info.paths, d), k);
    assert e == Own(info, k, d) && e in Held(es);
    var m :| m in docs && e == Own(info, m, docs[m]);
    OwnSplits(info, m, docs[m]);
    OwnSplits(info, k, d);
  }

  lemma {:induction false} DeletedIsOwn(info: Info, docs: Documents, es: seq<Entry>, key: ByteString)
    requires AllConform(info, docs) && key in docs && Held(es) == Image(info, docs)
    requires Sorted(es) && Formed(es, Width(info.columns))
    ensures var i := FirstEnding(es, SeekPosition(es, Encoded(info, docs[key])), Width(info.columns), key);
            i < |es| && es[i] == Own(info, key, docs[key]) && Held(RemoveAt(es, i)) == Held(es) - {es[i]}
  {
    assert Own(info, key, docs[key]) in Held(es);
    forall e | e in es && e.key[Width(info.columns)..] == key ensures e == Own(info, key, docs[key]) {
      assert e in Held(es);
      OnlyOwnEnds(info, docs, key, e);
    }
    FoundIsOwn(es, info.columns, Tuple(info.paths, docs[key]), key);
    RemoveHeld(es, FirstEnding(es, SeekPosition(es, Encoded(info, docs[key])), Width(info.columns), key));
  }
}
