/** The catalog cache and its rollback hooks (internal/catalog/cache.go and
    internal/database/transaction.go).
  */
module CatalogCache {

  import opened Prelude

  datatype Kind = TableKind | IndexKind | SequenceKind

  /** A table, index or sequence description. Adding one without a name names it. */
  class Relation {
    const kind: Kind
    const base: string
    var name: string

    constructor (kind: Kind, base: string, name: string)
      ensures this.kind == kind && this.base == base && this.name == name
    {
      this.kind, this.base, this.name := kind, base, name;
    }
  }

  // ---------------------------------------------------- the catalog as a value

  type Names = map<string, Relation>

  datatype Catalog = Catalog(tables: Names, indexes: Names, sequences: Names)

  function Of(c: Catalog, kind: Kind): Names {
    match kind
    case TableKind => c.tables
    case IndexKind => c.indexes
    case SequenceKind => c.sequences
  }

  predicate Exists(c: Catalog, name: string) {
    name in c.tables || name in c.sequences || name in c.indexes
  }

  /** A name lives in at most one of the three maps. */
  ghost predicate Exclusive(c: Catalog) {
    forall a: Kind, b: Kind, name :: name in Of(c, a) && name in Of(c, b) ==> a == b
  }

  function Lookup(c: Catalog, kind: Kind, name: string): Option<Relation> {
    if name in Of(c, kind) then Some(Of(c, kind)[name]) else None
  }

  function Written(m: Names, name: string, o: Option<Relation>): Names {
    if o.Some? then m[name := o.value] else m - {name}
  }

  function Assign(c: Catalog, kind: Kind, name: string, o: Option<Relation>): Catalog {
    match kind
    case TableKind => c.(tables := Written(c.tables, name, o))
    case IndexKind => c.(indexes := Written(c.indexes, name, o))
    case SequenceKind => c.(sequences := Written(c.sequences, name, o))
  }

  /** One name of one kind has become r; everything else is as it was. */
  ghost predicate OneChange(before: Catalog, after: Catalog, kind: Kind, name: string, r: Option<Relation>) {
    && Lookup(after, kind, name) == r
    && forall k: Kind, n :: k != kind || n != name ==> Lookup(after, k, n) == Lookup(before, k, n)
  }

  lemma AssignIsOneChange(c: Catalog, kind: Kind, name: string, o: Option<Relation>)
    ensures OneChange(c, Assign(c, kind, name, o), kind, name, o)
  {
  }

  /** What a rollback hook should do: give a name back what it had. */
  datatype Fix = Fix(kind: Kind, name: string, was: Option<Relation>)

  function Fixed(c: Catalog, f: Fix): Catalog { Assign(c, f.kind, f.name, f.was) }

  function Replayed(fixes: seq<Fix>, c: Catalog): Catalog {
    if fixes == [] then c else Replayed(fixes[..|fixes| - 1], Fixed(c, fixes[|fixes| - 1]))
  }

  lemma AssignFixed(c: Catalog, kind: Kind, name: string, o: Option<Relation>)
    ensures Fixed(Assign(c, kind, name, o), Fix(kind, name, Lookup(c, kind, name))) == c
  {
    var m := Of(c, kind);
    assert Written(Written(m, name, o), name, Lookup(c, kind, name)) == m;
  }

  /** A change and its fix leave the outcome of a replay as it was. */
  lemma ReplayAfterChange(fixes: seq<Fix>, c: Catalog, kind: Kind, name: string, o: Option<Relation>)
    ensures Replayed(fixes + [Fix(kind, name, Lookup(c, kind, name))], Assign(c, kind, name, o)) == Replayed(fixes, c)
  {
    AssignFixed(c, kind, name, o);
    assert (fixes + [Fix(kind, name, Lookup(c, kind, name))])[..|fixes|] == fixes;
  }

  lemma AssignKeepsExclusive(c: Catalog, kind: Kind, name: string, o: Option<Relation>)
    requires Exclusive(c)
    requires o.Some? ==> !Exists(c, name) || name in Of(c, kind)
    ensures Exclusive(Assign(c, kind, name, o))
  {
    var d := Assign(c, kind, name, o);
    forall a: Kind, b: Kind, n | n in Of(d, a) && n in Of(d, b) ensures a == b {
      assert n != name ==> n in Of(c, a) && n in Of(c, b);
      if n == name {
        assert a != kind ==> n in Of(c, a);
        assert b != kind ==> n in Of(c, b);
      }
    }
  }

  // ---------------------------------------------------------- unused names

  function Digit(d: nat): char requires d < 10 { '0' + d as char }

  function Decimal(i: nat): (s: string)
    ensures |s| > 0
  {
    if i < 10 then [Digit(i)] else Decimal(i / 10) + [Digit(i % 10)]
  }

  lemma {:induction false} DecimalInjective(i: nat, j: nat)
    ensures Decimal(i) == Decimal(j) ==> i == j
  {
    if Decimal(i) == Decimal(j) {
      var s := Decimal(i);
      assert s[|s| - 1] == Digit(i % 10) == Digit(j % 10);
      assert i % 10 == j % 10;
      if i >= 10 && j >= 10 {
        assert s[..|s| - 1] == Decimal(i / 10) == Decimal(j / 10);
        DecimalInjective(i / 10, j / 10);
      }
    }
  }

  /** The names tried: the base itself, then the base followed by 1, 2, ... */
  function Candidate(base: string, i: nat): string { if i == 0 then base else base + Decimal(i) }

  /** The number a string of digits stands for. */
  function Numeral(s: string): int {
    if s == "" then 0 else Numeral(s[..|s| - 1]) * 10 + (s[|s| - 1] as int - '0' as int)
  }

  lemma {:induction false} DecimalIs(i: nat)
    ensures Numeral(Decimal(i)) == i
    ensures i > 0 ==> Decimal(i)[0] != '0'
  {
    var s := Decimal(i);
    assert s[|s| - 1] == Digit(i % 10);
    if i >= 10 {
      DecimalIs(i / 10);
      assert s[..|s| - 1] == Decimal(i / 10);
    } else {
      assert s[..0] == "";
    }
  }

  /** The i-th name tried is the base with the numeral of i, which for the first is empty. */
  lemma CandidateIs(base: string, i: nat)
    ensures base <= Candidate(base, i)
    ensures var tail := Candidate(base, i)[|base|..];
            Numeral(tail) == i && (tail != "" ==> tail[0] != '0')
  {
    if i > 0 {
      DecimalIs(i);
      assert Candidate(base, i)[|base|..] == Decimal(i);
    }
  }

  lemma CandidateInjective(base: string, i: nat, j: nat)
    ensures Candidate(base, i) == Candidate(base, j) ==> i == j
  {
    if Candidate(base, i) == Candidate(base, j) && i > 0 && j > 0 {
      assert Candidate(base, i)[|base|..] == Decimal(i);
      assert Candidate(base, j)[|base|..] == Decimal(j);
      DecimalInjective(i, j);
    }
  }

  function AllNames(c: Catalog): set<string> { c.tables.Keys + c.indexes.Keys + c.sequences.Keys }

  /** As many names as candidates are taken, since the candidates differ. */
  lemma {:induction false} TakenCandidates(base: string, names: set<string>, i: nat)
    requires forall j: nat :: j < i ==> Candidate(base, j) in names
    ensures i <= |names|
  {
    if i > 0 {
      var last := Candidate(base, i - 1);
      forall j: nat | j < i - 1 ensures Candidate(base, j) in names - {last} {
        CandidateInjective(base, i - 1, j);
      }
      TakenCandidates(base, names - {last}, i - 1);
    }
  }

  // ------------------------------------------------------------- transactions

  /** A rollback hook as the closure captures it: the hook of Replace looks the name
      up in the relation when it runs. */
  datatype Hook =
    | RemoveAdded(kind: Kind, name: string)
    | UndoReplace(o: Relation, previous: Relation)
    | PutBack(kind: Kind, name: string, o: Relation)

  class Transaction {
    var onRollbackHooks: seq<Hook>
    ghost var fixes: seq<Fix>
    ghost const begin: Catalog
    /** The relations a hook will ask for their names. */
    ghost var replaced: set<Relation>

    constructor (ghost c: Catalog)
      ensures onRollbackHooks == [] && fixes == [] && begin == c && replaced == {}
    {
      onRollbackHooks, fixes, begin, replaced := [], [], c, {};
    }
  }

  datatype Error = AlreadyExistsError(name: string) | NotFoundError(name: string)

  class Cache {
    var tables: Names
    var indexes: Names
    var sequences: Names

    function Content(): Catalog reads this { Catalog(tables, indexes, sequences) }

    constructor (c: Catalog)
      ensures Content() == c
    {
      tables, indexes, sequences := c.tables, c.indexes, c.sequences;
    }

    // ------------------------------------------------------------ invariant

    /** The hook would now do what it should. */
    ghost predicate Does(tx: Transaction, h: Hook, f: Fix) reads tx, tx.replaced {
      match h
      case RemoveAdded(kind, name) => f == Fix(kind, name, None)
      case PutBack(kind, name, o) => f == Fix(kind, name, Some(o))
      case UndoReplace(o, previous) =>
        o in tx.replaced && f == Fix(o.kind, o.name, Some(previous))
    }

    ghost predicate HooksDo(tx: Transaction) reads tx, tx.replaced {
      && |tx.onRollbackHooks| == |tx.fixes|
      && forall i :: 0 <= i < |tx.fixes| ==> Does(tx, tx.onRollbackHooks[i], tx.fixes[i])
    }

    /** A name lives in one map, and replaying the hooks newest first leads back to the
        start. */
    ghost predicate Valid(tx: Transaction) reads this, tx, tx.replaced {
      && Exclusive(Content()) && Exclusive(tx.begin)
      && HooksDo(tx)
      && Replayed(tx.fixes, Content()) == tx.begin
    }

    // ----------------------------------------------------------- operations

    method ObjectExists(name: string) returns (r: bool)
      ensures r <==> Exists(Content(), name)
      ensures r <==> exists kind: Kind :: name in Of(Content(), kind)
    {
      r := name in tables || name in sequences || name in indexes;
      assert Of(Content(), TableKind) == tables && Of(Content(), IndexKind) == indexes
          && Of(Content(), SequenceKind) == sequences;
    }

    /** Finds the first free name of the base, base1, base2, ... */
    method GenerateUnusedName(base: string) returns (name: string)
      ensures !Exists(Content(), name)
      ensures exists k: nat :: name == Candidate(base, k)
                               && forall j: nat :: j < k ==> Exists(Content(), Candidate(base, j))
    {
      name := base;
      var i := 0;
      while Exists(Content(), name)
        invariant name == Candidate(base, i)
        invariant forall j: nat :: j < i ==> Exists(Content(), Candidate(base, j))
        decreases |AllNames(Content())| - i
      {
        i := i + 1;
        name := Candidate(base, i);
        TakenCandidates(base, AllNames(Content()), i);
      }
    }

    method Write(kind: Kind, name: string, o: Option<Relation>)
      modifies this
      ensures Content() == Assign(old(Content()), kind, name, o)
    {
      match kind
      case TableKind => tables := Written(tables, name, o);
      case IndexKind => indexes := Written(indexes, name, o);
      case SequenceKind => sequences := Written(sequences, name, o);
    }

    /** Changes a name and appends the hook that gives it back what it had. */
    method Change(tx: Transaction, h: Hook, kind: Kind, name: string, o: Option<Relation>)
      requires Valid(tx)
      requires o.Some? ==> !Exists(Content(), name) || name in Of(Content(), kind)
      requires h.UndoReplace? ==> h.o.kind == kind && h.o.name == name
                                  && Lookup(Content(), kind, name) == Some(h.previous)
      requires h.RemoveAdded? ==> h == RemoveAdded(kind, name) && Lookup(Content(), kind, name).None?
      requires h.PutBack? ==> h.kind == kind && h.name == name && Lookup(Content(), kind, name) == Some(h.o)
      modifies this, tx
      ensures Valid(tx) && OneChange(old(Content()), Content(), kind, name, o)
      ensures tx.onRollbackHooks == old(tx.onRollbackHooks) + [h]
    {
      ReplayAfterChange(tx.fixes, Content(), kind, name, o);
      AssignKeepsExclusive(Content(), kind, name, o);
      AssignIsOneChange(Content(), kind, name, o);
      tx.fixes := tx.fixes + [Fix(kind, name, Lookup(Content(), kind, name))];
      Write(kind, name, o);
      tx.onRollbackHooks := tx.onRollbackHooks + [h];
      if h.UndoReplace? { tx.replaced := tx.replaced + {h.o}; }
    }

    /** Files a relation under its own name, refused when any of the maps has it, or
        under the first unused one. A relation filed under the empty name by Replace must
        not be named anew before the rollback, since its hook reads the name then. */
    method Add(tx: Transaction, o: Relation) returns (e: Option<Error>)
      requires Valid(tx)
      requires o.name != "" || o !in tx.replaced
      modifies this, tx, o
      ensures Valid(tx)
      ensures e == if old(o.name) != "" && Exists(old(Content()), old(o.name))
                   then Some(AlreadyExistsError(old(o.name))) else None
      ensures e.Some? ==> Content() == old(Content()) && o.name == old(o.name)
      ensures e.None? ==> !Exists(old(Content()), o.name)
                          && OneChange(old(Content()), Content(), o.kind, o.name, Some(o))
      ensures old(o.name) != "" ==> o.name == old(o.name)
      ensures old(o.name) == "" ==>
                exists k: nat :: o.name == Candidate(o.base, k)
                                 && forall j: nat :: j < k ==> Exists(old(Content()), Candidate(o.base, j))
    {
      var name := o.name;
      if name != "" {
        var taken := ObjectExists(name);
        if taken { return Some(AlreadyExistsError(name)); }
      } else {
        name := GenerateUnusedName(o.base);
        o.name := name;
      }
      Change(tx, RemoveAdded(o.kind, name), o.kind, name, Some(o));
      return None;
    }

    method Replace(tx: Transaction, o: Relation) returns (e: Option<Error>)
      requires Valid(tx)
      modifies this, tx
      ensures Valid(tx)
      ensures e == if o.name in Of(old(Content()), o.kind) then None else Some(NotFoundError(o.name))
      ensures e.Some? ==> Content() == old(Content())
      ensures e.None? ==> OneChange(old(Content()), Content(), o.kind, o.name, Some(o))
    {
      var found := Lookup(Content(), o.kind, o.name);
      if found.None? { return Some(NotFoundError(o.name)); }
      Change(tx, UndoReplace(o, found.value), o.kind, o.name, Some(o));
      return None;
    }

    method Delete(tx: Transaction, kind: Kind, name: string) returns (o: Option<Relation>)
      requires Valid(tx)
      modifies this, tx
      ensures Valid(tx)
      ensures o == Lookup(old(Content()), kind, name)
      ensures o.None? ==> Content() == old(Content())
      ensures OneChange(old(Content()), Content(), kind, name, None)
    {
      o := Lookup(Content(), kind, name);
      if o.None? { return; }
      Change(tx, PutBack(kind, name, o.value), kind, name, None);
    }

    method RunHook(h: Hook)
      modifies this
      ensures Content() == match h
                           case RemoveAdded(kind, name) => Assign(old(Content()), kind, name, None)
                           case PutBack(kind, name, o) => Assign(old(Content()), kind, name, Some(o))
                           case UndoReplace(o, previous) => Assign(old(Content()), o.kind, o.name, Some(previous))
    {
      match h
      case RemoveAdded(kind, name) => Write(kind, name, None);
      case PutBack(kind, name, o) => Write(kind, name, Some(o));
      case UndoReplace(o, previous) => Write(o.kind, o.name, Some(previous));
    }

    /** Rollback: when the engine has rolled back, the hooks run newest first and leave
        the three maps as they were when the transaction began. */
    method Rollback(tx: Transaction, engineRolledBack: bool)
      requires Valid(tx)
      modifies this
      ensures Content() == if engineRolledBack then tx.begin else old(Content())
      ensures Exclusive(Content())
    {
      if !engineRolledBack { return; }
      var i := |tx.onRollbackHooks|;
      assert tx.fixes[..i] == tx.fixes;
      while i > 0
        invariant 0 <= i <= |tx.onRollbackHooks|
        invariant HooksDo(tx) && Replayed(tx.fixes[..i], Content()) == tx.begin
      {
        i := i - 1;
        assert tx.fixes[..i + 1][..i] == tx.fixes[..i];
        assert Does(tx, tx.onRollbackHooks[i], tx.fixes[i]);
        RunHook(tx.onRollbackHooks[i]);
      }
    }
  }
}
