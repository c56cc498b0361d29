/** Transactions of the memory engine (engine/memoryengine/engine.go and store.go):
    tombstones, the undo list, rollback and commit.

    A tree is known by a number, an item by its tree and key. A handle to a store
    keeps its tree even after the store is dropped.
  */
module MemoryEngine {

  import opened Prelude
  import opened Bytes

  type Name = ByteString

  datatype Cell = Cell(tree: nat, key: ByteString)

  /** `deleted` marks an item deleted during the current transaction. */
  datatype Item = Item(v: ByteString, deleted: bool)

  /** Trees are numbered below `trees`. */
  datatype State = State(stores: map<Name, nat>, items: map<Cell, Item>, trees: nat)

  /** One entry of the undo list, as the closure in the program captures it. */
  datatype Undo =
    | Inserted(c: Cell)
    | Overwrote(c: Cell, v: ByteString, deleted: bool)
    | Deleted(c: Cell)
    | Created(n: Name)
    | Dropped(n: Name, tree: nat)

  datatype Op =
    | Put(c: Cell, v: ByteString)
    | Delete(c: Cell)
    | CreateStore(n: Name)
    | DropStore(n: Name)

  // ------------------------------------------------------------- operations

  /** None when the operation is refused and changes nothing. */
  function Undoes(s: State, op: Op): Option<Undo> {
    match op
    case Put(c, v) =>
      if c.key == [] || v == [] then None
      else if c in s.items then Some(Overwrote(c, s.items[c].v, s.items[c].deleted))
      else Some(Inserted(c))
    case Delete(c) => if c in s.items && !s.items[c].deleted then Some(Deleted(c)) else None
    case CreateStore(n) => if n in s.stores then None else Some(Created(n))
    case DropStore(n) => if n in s.stores then Some(Dropped(n, s.stores[n])) else None
  }

  function Step(s: State, op: Op): State {
    if Undoes(s, op).None? then s
    else
      match op
      case Put(c, v) => s.(items := s.items[c := Item(v, false)])
      case Delete(c) => s.(items := s.items[c := s.items[c].(deleted := true)])
      case CreateStore(n) => s.(stores := s.stores[n := s.trees], trees := s.trees + 1)
      case DropStore(n) => s.(stores := s.stores - {n})
  }

  /** Running one undo closure. An item already taken out of its tree is no longer
      reached through the tree, so writing to it changes nothing. */
  function Undone(s: State, u: Undo): State {
    match u
    case Inserted(c) => s.(items := s.items - {c})
    case Overwrote(c, v, d) => if c in s.items then s.(items := s.items[c := Item(v, d)]) else s
    case Deleted(c) => if c in s.items then s.(items := s.items[c := s.items[c].(deleted := false)]) else s
    case Created(n) => s.(stores := s.stores - {n})
    case Dropped(n, t) => s.(stores := s.stores[n := t])
  }

  /** A transaction: the operations since Begin, latest outermost. */
  datatype History = Begin | After(before: History, op: Op)

  function Now(s0: State, h: History): State {
    match h
    case Begin => s0
    case After(before, op) => Step(Now(s0, before), op)
  }

  /** The undo list, oldest first. */
  function Log(s0: State, h: History): seq<Undo> {
    match h
    case Begin => []
    case After(before, op) =>
      var u := Undoes(Now(s0, before), op);
      if u.None? then Log(s0, before) else Log(s0, before) + [u.value]
  }

  /** The commit list: one entry per deletion. */
  function Doomed(s0: State, h: History): seq<Cell> {
    match h
    case Begin => []
    case After(before, op) =>
      var u := Undoes(Now(s0, before), op);
      if u.Some? && u.value.Deleted? then Doomed(s0, before) + [op.c] else Doomed(s0, before)
  }

  // ------------------------------------------------------ rolling back right

  /** The order that undoes a history: latest change first. */
  function NewestFirst(log: seq<Undo>, s: State): State {
    if log == [] then s else NewestFirst(log[..|log| - 1], Undone(s, log[|log| - 1]))
  }

  predicate Same(a: State, b: State) { a.stores == b.stores && a.items == b.items }

  lemma StepUndone(s: State, op: Op)
    requires Undoes(s, op).Some?
    ensures Same(Undone(Step(s, op), Undoes(s, op).value), s)
  {
    match op
    case Put(c, v) => assert c !in s.items ==> s.items[c := Item(v, false)] - {c} == s.items;
    case Delete(c) =>
    case CreateStore(n) => assert s.stores[n := s.trees] - {n} == s.stores;
    case DropStore(n) => assert (s.stores - {n})[n := s.stores[n]] == s.stores;
  }

  lemma {:induction false} NewestFirstCongruent(log: seq<Undo>, a: State, b: State)
    requires Same(a, b)
    ensures Same(NewestFirst(log, a), NewestFirst(log, b))
    decreases |log|
  {
    if log != [] {
      NewestFirstCongruent(log[..|log| - 1], Undone(a, log[|log| - 1]), Undone(b, log[|log| - 1]));
    }
  }

  /** Undoing newest first restores the state at Begin, after any operations. */
  lemma {:induction false} NewestFirstRestores(s0: State, h: History)
    ensures Same(NewestFirst(Log(s0, h), Now(s0, h)), s0)
  {
    match h
    case Begin =>
    case After(before, op) =>
      NewestFirstRestores(s0, before);
      var s, log := Now(s0, before), Log(s0, before);
      var u := Undoes(s, op);
      if u.Some? {
        StepUndone(s, op);
        assert (log + [u.value])[..|log|] == log;
        NewestFirstCongruent(log, Undone(Step(s, op), u.value), s);
      }
  }

  // --------------------------------------------------- rolling back as written

  /** The order of transaction.Rollback: oldest change first. */
  function OldestFirst(log: seq<Undo>, s: State): State {
    if log == [] then s else Undone(OldestFirst(log[..|log| - 1], s), log[|log| - 1])
  }

  function Binding(s: State, n: Name): Option<nat> { if n in s.stores then Some(s.stores[n]) else None }

  /** The binding an undo puts back, if it is about that store. */
  function RestoresStore(u: Undo, n: Name): Option<Option<nat>> {
    if u.Created? && u.n == n then Some(None)
    else if u.Dropped? && u.n == n then Some(Some(u.tree))
    else None
  }

  function RestoresValue(u: Undo, c: Cell): Option<ByteString> {
    if u.Overwrote? && u.c == c then Some(u.v) else None
  }

  function RestoresFlag(u: Undo, c: Cell): Option<bool> {
    if u.Overwrote? && u.c == c then Some(u.deleted)
    else if u.Deleted? && u.c == c then Some(false)
    else None
  }

  // For a store, or for the value or the tombstone of an item: what the first and
  // the last entry about it put back.

  function FirstStore(log: seq<Undo>, n: Name): Option<Option<nat>> {
    if log == [] then None
    else
      var earlier := FirstStore(log[..|log| - 1], n);
      if earlier.Some? then earlier else RestoresStore(log[|log| - 1], n)
  }

  function LastStore(log: seq<Undo>, n: Name): Option<Option<nat>> {
    if log == [] then None
    else
      var latest := RestoresStore(log[|log| - 1], n);
      if latest.Some? then latest else LastStore(log[..|log| - 1], n)
  }

  function FirstValue(log: seq<Undo>, c: Cell): Option<ByteString> {
    if log == [] then None
    else
      var earlier := FirstValue(log[..|log| - 1], c);
      if earlier.Some? then earlier else RestoresValue(log[|log| - 1], c)
  }

  function LastValue(log: seq<Undo>, c: Cell): Option<ByteString> {
    if log == [] then None
    else
      var latest := RestoresValue(log[|log| - 1], c);
      if latest.Some? then latest else LastValue(log[..|log| - 1], c)
  }

  function FirstFlag(log: seq<Undo>, c: Cell): Option<bool> {
    if log == [] then None
    else
      var earlier := FirstFlag(log[..|log| - 1], c);
      if earlier.Some? then earlier else RestoresFlag(log[|log| - 1], c)
  }

  function LastFlag(log: seq<Undo>, c: Cell): Option<bool> {
    if log == [] then None
    else
      var latest := RestoresFlag(log[|log| - 1], c);
      if latest.Some? then latest else LastFlag(log[..|log| - 1], c)
  }

  predicate InsertedIn(log: seq<Undo>, c: Cell) { Inserted(c) in log }

  /** What a look at the undo list tells before the rollback: for every store, and for
      every item not new in the transaction, the last entry puts back what the first
      one would. */
  ghost predicate Consistent(log: seq<Undo>) {
    && (forall n :: FirstStore(log, n) == LastStore(log, n))
    && (forall c :: !InsertedIn(log, c) ==> FirstValue(log, c) == LastValue(log, c))
    && (forall c :: !InsertedIn(log, c) ==> FirstFlag(log, c) == LastFlag(log, c))
  }

  function Or<T>(o: Option<T>, t: T): T { if o.Some? then o.value else t }

  /** Replaying oldest first leaves, for each store, what the last entry puts back. */
  lemma {:induction false} OldestFirstStore(log: seq<Undo>, s: State, n: Name)
    ensures Binding(OldestFirst(log, s), n) == Or(LastStore(log, n), Binding(s, n))
  {
    if log != [] { OldestFirstStore(log[..|log| - 1], s, n); }
  }

  /** Replaying oldest first takes out the new items and leaves in the others what
      the last entries put back. */
  lemma {:induction false} OldestFirstItem(log: seq<Undo>, s: State, c: Cell)
    ensures var after := OldestFirst(log, s).items;
            && (c in after <==> c in s.items && !InsertedIn(log, c))
            && (c in after ==>
                  after[c] == Item(Or(LastValue(log, c), s.items[c].v), Or(LastFlag(log, c), s.items[c].deleted)))
  {
    if log != [] {
      assert log == log[..|log| - 1] + [log[|log| - 1]];
      OldestFirstItem(log[..|log| - 1], s, c);
    }
  }

  /** At every moment of a transaction the first entry about a store holds its state
      at Begin, and a store without entry has not changed. */
  lemma {:induction false} FirstStoreIsBegin(s0: State, h: History, n: Name)
    ensures Binding(s0, n) == Or(FirstStore(Log(s0, h), n), Binding(Now(s0, h), n))
  {
    match h
    case Begin =>
    case After(before, op) =>
      FirstStoreIsBegin(s0, before, n);
      FirstStoreStep(Log(s0, before), Now(s0, before), op, n);
  }

  lemma FirstStoreStep(log: seq<Undo>, s: State, op: Op, n: Name)
    ensures var u := Undoes(s, op);
            Or(FirstStore(log, n), Binding(s, n))
            == Or(FirstStore(if u.Some? then log + [u.value] else log, n), Binding(Step(s, op), n))
  {
    var u := Undoes(s, op);
    if u.Some? {
      assert (log + [u.value])[..|log|] == log;
    }
  }

  lemma Snoc(log: seq<Undo>, u: Undo, c: Cell)
    ensures InsertedIn(log + [u], c) <==> InsertedIn(log, c) || u == Inserted(c)
    ensures FirstValue(log + [u], c) == if FirstValue(log, c).Some? then FirstValue(log, c) else RestoresValue(u, c)
    ensures FirstFlag(log + [u], c) == if FirstFlag(log, c).Some? then FirstFlag(log, c) else RestoresFlag(u, c)
  {
    assert (log + [u])[..|log|] == log;
  }

  /** How the first entries about an item tell its state at Begin from its state now. */
  predicate Tells(s0: State, log: seq<Undo>, s: State, c: Cell) {
    && (InsertedIn(log, c) ==> c !in s0.items && c in s.items)
    && (!InsertedIn(log, c) ==> (c in s0.items <==> c in s.items))
    && (c in s0.items ==>
          s0.items[c] == Item(Or(FirstValue(log, c), s.items[c].v), Or(FirstFlag(log, c), s.items[c].deleted)))
    && (c !in s.items ==> FirstValue(log, c).None? && FirstFlag(log, c).None?)
  }

  lemma TellsStep(s0: State, log: seq<Undo>, s: State, op: Op, c: Cell)
    requires Tells(s0, log, s, c)
    ensures var u := Undoes(s, op);
            Tells(s0, if u.Some? then log + [u.value] else log, Step(s, op), c)
  {
    var u := Undoes(s, op);
    if u.Some? {
      Snoc(log, u.value, c);
    }
  }

  /** The same for items: the new ones are those with an insertion in the list. */
  lemma {:induction false} FirstItemIsBegin(s0: State, h: History, c: Cell)
    ensures Tells(s0, Log(s0, h), Now(s0, h), c)
  {
    match h
    case Begin =>
    case After(before, op) =>
      FirstItemIsBegin(s0, before, c);
      TellsStep(s0, Log(s0, before), Now(s0, before), op, c);
  }

  lemma {:induction false} FirstHasLast(log: seq<Undo>, n: Name, c: Cell)
    ensures FirstStore(log, n).Some? <==> LastStore(log, n).Some?
    ensures FirstValue(log, c).Some? <==> LastValue(log, c).Some?
    ensures FirstFlag(log, c).Some? <==> LastFlag(log, c).Some?
  {
    if log != [] { FirstHasLast(log[..|log| - 1], n, c); }
  }

  ghost predicate RestoredStore(s0: State, h: History, n: Name) {
    Binding(OldestFirst(Log(s0, h), Now(s0, h)), n) == Binding(s0, n)
  }

  function Lookup(s: State, c: Cell): Option<Item> { if c in s.items then Some(s.items[c]) else None }

  ghost predicate RestoredItem(s0: State, h: History, c: Cell) {
    Lookup(OldestFirst(Log(s0, h), Now(s0, h)), c) == Lookup(s0, c)
  }

  lemma StoreRestoredIff(s0: State, h: History, n: Name)
    ensures RestoredStore(s0, h, n) <==> FirstStore(Log(s0, h), n) == LastStore(Log(s0, h), n)
  {
    FirstStoreIsBegin(s0, h, n);
    OldestFirstStore(Log(s0, h), Now(s0, h), n);
    FirstHasLast(Log(s0, h), n, Cell(0, []));
  }

  lemma ItemRestoredIff(s0: State, h: History, c: Cell)
    ensures var log := Log(s0, h);
            RestoredItem(s0, h, c) <==>
            (InsertedIn(log, c) || (FirstValue(log, c) == LastValue(log, c) && FirstFlag(log, c) == LastFlag(log, c)))
  {
    FirstItemIsBegin(s0, h, c);
    OldestFirstItem(Log(s0, h), Now(s0, h), c);
    FirstHasLast(Log(s0, h), [], c);
  }

  lemma SameByName(a: State, b: State)
    ensures Same(a, b) <==> (forall n :: Binding(a, n) == Binding(b, n)) && (forall c :: Lookup(a, c) == Lookup(b, c))
  {
    if (forall n :: Binding(a, n) == Binding(b, n)) && (forall c :: Lookup(a, c) == Lookup(b, c)) {
      forall n ensures (n in a.stores <==> n in b.stores) && (n in a.stores ==> a.stores[n] == b.stores[n]) {
        assert Binding(a, n) == Binding(b, n);
      }
      assert a.stores == b.stores;
      forall c ensures (c in a.items <==> c in b.items) && (c in a.items ==> a.items[c] == b.items[c]) {
        assert Lookup(a, c) == Lookup(b, c);
      }
      assert a.items == b.items;
    }
  }

  /** The oldest-first rollback restores the state at Begin exactly when the undo list
      is consistent. */
  lemma OldestFirstRestoresIff(s0: State, h: History)
    ensures Same(OldestFirst(Log(s0, h), Now(s0, h)), s0) <==> Consistent(Log(s0, h))
  {
    var log, end := Log(s0, h), OldestFirst(Log(s0, h), Now(s0, h));
    SameByName(end, s0);
    forall n ensures Binding(end, n) == Binding(s0, n) <==> FirstStore(log, n) == LastStore(log, n) {
      StoreRestoredIff(s0, h, n);
    }
    forall c
      ensures Lookup(end, c) == Lookup(s0, c) <==>
              (InsertedIn(log, c) || (FirstValue(log, c) == LastValue(log, c) && FirstFlag(log, c) == LastFlag(log, c)))
    {
      ItemRestoredIff(s0, h, c);
    }
  }

  // ---------------------------------------------- when the two orders agree

  /** What an undo entry is about. */
  datatype Target = AStore(n: Name) | AnItem(c: Cell)

  function About(u: Undo): Target {
    match u
    case Inserted(c) => AnItem(c)
    case Overwrote(c, _, _) => AnItem(c)
    case Deleted(c) => AnItem(c)
    case Created(n) => AStore(n)
    case Dropped(n, _) => AStore(n)
  }

  /** No store and no key is changed twice. */
  ghost predicate TouchedOnce(log: seq<Undo>) {
    forall i, j :: 0 <= i < j < |log| ==> About(log[i]) != About(log[j])
  }

  lemma {:induction false} UntouchedHasNone(log: seq<Undo>, n: Name, c: Cell)
    ensures (forall i :: 0 <= i < |log| ==> About(log[i]) != AStore(n)) ==> FirstStore(log, n).None?
    ensures (forall i :: 0 <= i < |log| ==> About(log[i]) != AnItem(c)) ==> FirstValue(log, c).None? && FirstFlag(log, c).None?
  {
    if log != [] {
      var rest := log[..|log| - 1];
      UntouchedHasNone(rest, n, c);
      assert forall i :: 0 <= i < |rest| ==> rest[i] == log[i];
      assert About(log[|log| - 1]) == About(log[|log| - 1]);
    }
  }

  lemma {:induction false} OnceFirstIsLast(log: seq<Undo>, n: Name, c: Cell)
    requires TouchedOnce(log)
    ensures FirstStore(log, n) == LastStore(log, n)
    ensures FirstValue(log, c) == LastValue(log, c) && FirstFlag(log, c) == LastFlag(log, c)
  {
    if log != [] {
      var rest := log[..|log| - 1];
      assert forall i :: 0 <= i < |rest| ==> rest[i] == log[i];
      OnceFirstIsLast(rest, n, c);
      UntouchedHasNone(rest, n, c);
    }
  }

  /** When no key or store is changed twice the two orders agree. */
  lemma OrdersAgree(s0: State, h: History)
    requires TouchedOnce(Log(s0, h))
    ensures Same(OldestFirst(Log(s0, h), Now(s0, h)), NewestFirst(Log(s0, h), Now(s0, h)))
  {
    var log := Log(s0, h);
    NewestFirstRestores(s0, h);
    forall n ensures FirstStore(log, n) == LastStore(log, n) { OnceFirstIsLast(log, n, Cell(0, [])); }
    forall c ensures FirstValue(log, c) == LastValue(log, c) && FirstFlag(log, c) == LastFlag(log, c) {
      OnceFirstIsLast(log, [], c);
    }
    assert Consistent(log);
    OldestFirstRestoresIff(s0, h);
  }

  /** Overwriting one key twice leaves the value in between. */
  lemma OverwritingTwiceLosesTheValue(c: Cell, v0: ByteString, v1: ByteString, v2: ByteString)
    requires c.key != [] && v1 != [] && v2 != []
    ensures var s0 := State(map[], map[c := Item(v0, false)], 1);
            var h := After(After(Begin, Put(c, v1)), Put(c, v2));
            OldestFirst(Log(s0, h), Now(s0, h)).items == map[c := Item(v1, false)]
  {
    TwoChanges(State(map[], map[c := Item(v0, false)], 1), Put(c, v1), Put(c, v2));
  }

  /** Deleting a key and putting it back leaves it deleted. */
  lemma DeletingAndPuttingBackLosesTheItem(c: Cell, v0: ByteString, v1: ByteString)
    requires c.key != [] && v1 != []
    ensures var s0 := State(map[], map[c := Item(v0, false)], 1);
            var h := After(After(Begin, Delete(c)), Put(c, v1));
            OldestFirst(Log(s0, h), Now(s0, h)).items == map[c := Item(v0, true)]
  {
    TwoChanges(State(map[], map[c := Item(v0, false)], 1), Delete(c), Put(c, v1));
  }

  /** Dropping a store and creating it again loses it. */
  lemma RecreatingLosesTheStore(n: Name)
    ensures var s0 := State(map[n := 0], map[], 1);
            var h := After(After(Begin, DropStore(n)), CreateStore(n));
            OldestFirst(Log(s0, h), Now(s0, h)).stores == map[]
  {
    TwoChanges(State(map[n := 0], map[], 1), DropStore(n), CreateStore(n));
  }

  lemma TwoChanges(s0: State, a: Op, b: Op)
    requires Undoes(s0, a).Some? && Undoes(Step(s0, a), b).Some?
    ensures var h := After(After(Begin, a), b);
            OldestFirst(Log(s0, h), Now(s0, h))
            == Undone(Undone(Step(Step(s0, a), b), Undoes(s0, a).value), Undoes(Step(s0, a), b).value)
  {
    var one, u, w := After(Begin, a), Undoes(s0, a).value, Undoes(Step(s0, a), b).value;
    var h := After(one, b);
    assert Now(s0, Begin) == s0 && Log(s0, Begin) == [];
    assert Now(s0, one) == Step(s0, a) && Log(s0, one) == [] + [u] == [u];
    assert Log(s0, h) == [u, w];
    assert [u, w][..1] == [u] && [u][..0] == [];
    assert OldestFirst([u], Now(s0, h)) == Undone(Now(s0, h), u);
  }

  // ------------------------------------------------------------- committing

  /** One commit closure. */
  function Swept(s: State, c: Cell): State {
    if c in s.items && s.items[c].deleted then s.(items := s.items - {c}) else s
  }

  function CommitAll(doomed: seq<Cell>, s: State): State {
    if doomed == [] then s else Swept(CommitAll(doomed[..|doomed| - 1], s), doomed[|doomed| - 1])
  }

  predicate NoTombstones(s: State) { forall c :: c in s.items ==> !s.items[c].deleted }

  /** What Get sees. */
  function Visible(s: State): map<Cell, ByteString> {
    map c | c in s.items && !s.items[c].deleted :: s.items[c].v
  }

  /** The meaning of a run on a plain dictionary. */
  function Plain(m: map<Cell, ByteString>, h: History): map<Cell, ByteString> {
    match h
    case Begin => m
    case After(before, Put(c, v)) => if c.key == [] || v == [] then Plain(m, before) else Plain(m, before)[c := v]
    case After(before, Delete(c)) => Plain(m, before) - {c}
    case After(before, _) => Plain(m, before)
  }

  /** Behind the tombstones the items behave as a plain dictionary. */
  lemma {:induction false} VisibleIsPlain(s0: State, h: History)
    ensures Visible(Now(s0, h)) == Plain(Visible(s0), h)
  {
    match h
    case Begin =>
    case After(before, op) =>
      VisibleIsPlain(s0, before);
      VisibleStep(Now(s0, before), op);
  }

  lemma VisibleStep(s: State, op: Op)
    ensures op.Put? ==> Visible(Step(s, op)) == if op.c.key == [] || op.v == [] then Visible(s) else Visible(s)[op.c := op.v]
    ensures op.Delete? ==> Visible(Step(s, op)) == Visible(s) - {op.c}
    ensures op.CreateStore? || op.DropStore? ==> Visible(Step(s, op)) == Visible(s)
  {
  }

  lemma {:induction false} TombstonesAreDoomed(s0: State, h: History, c: Cell)
    requires NoTombstones(s0)
    ensures c in Now(s0, h).items && Now(s0, h).items[c].deleted ==> c in Doomed(s0, h)
  {
    match h
    case Begin =>
    case After(before, op) => TombstonesAreDoomed(s0, before, c);
  }

  lemma {:induction false} CommitAllSweeps(doomed: seq<Cell>, s: State, c: Cell)
    ensures var after := CommitAll(doomed, s);
            && after.stores == s.stores
            && (c in after.items <==> c in s.items && !(s.items[c].deleted && c in doomed))
            && (c in after.items ==> after.items[c] == s.items[c])
  {
    if doomed != [] {
      assert doomed == doomed[..|doomed| - 1] + [doomed[|doomed| - 1]];
      CommitAllSweeps(doomed[..|doomed| - 1], s, c);
    }
  }

  /** Commit leaves exactly the pairs a plain dictionary would hold, no tombstone, and
      the stores as they are. */
  lemma {:induction false} CommitIsPlain(s0: State, h: History)
    requires NoTombstones(s0)
    ensures var end := CommitAll(Doomed(s0, h), Now(s0, h));
            && NoTombstones(end)
            && Visible(end) == Plain(Visible(s0), h)
            && end.items.Keys == Visible(end).Keys
            && end.stores == Now(s0, h).stores && end.stores.Keys == StoreNames(s0.stores.Keys, h)
  {
    VisibleIsPlain(s0, h);
    StoresAreNamed(s0, h);
    var s, end := Now(s0, h), CommitAll(Doomed(s0, h), Now(s0, h));
    forall c
      ensures end.stores == s.stores
      ensures c in end.items <==> c in s.items && !s.items[c].deleted
      ensures c in end.items ==> end.items[c] == s.items[c]
    {
      TombstonesAreDoomed(s0, h, c);
      CommitAllSweeps(Doomed(s0, h), s, c);
    }
    CommitAllSweeps(Doomed(s0, h), s, Cell(0, []));
    assert Visible(end) == Visible(s);
  }

  // ------------------------------------------------------------------ stores

  /** The meaning of a run on the names of the stores. */
  function StoreNames(names: set<Name>, h: History): set<Name> {
    match h
    case Begin => names
    case After(before, CreateStore(n)) => StoreNames(names, before) + {n}
    case After(before, DropStore(n)) => StoreNames(names, before) - {n}
    case After(before, _) => StoreNames(names, before)
  }

  /** At every moment the stores are those created and not dropped. */
  lemma {:induction false} StoresAreNamed(s0: State, h: History)
    ensures Now(s0, h).stores.Keys == StoreNames(s0.stores.Keys, h)
  {
    match h
    case Begin =>
    case After(before, op) => StoresAreNamed(s0, before);
  }

  /** Stores and items are in trees that have been made, and no tree has two names. */
  ghost predicate Sane(s: State) {
    && (forall n :: n in s.stores ==> s.stores[n] < s.trees)
    && (forall c :: c in s.items ==> c.tree < s.trees)
    && (forall m, n :: m in s.stores && n in s.stores && s.stores[m] == s.stores[n] ==> m == n)
  }

  /** Every Put goes to a tree that has been made: handles come from GetStore. */
  ghost predicate ThroughHandles(s0: State, h: History) {
    match h
    case Begin => true
    case After(before, op) => ThroughHandles(s0, before) && (op.Put? ==> op.c.tree < Now(s0, before).trees)
  }

  lemma {:induction false} StaysSane(s0: State, h: History)
    requires Sane(s0) && ThroughHandles(s0, h)
    ensures Sane(Now(s0, h))
  {
    match h
    case Begin =>
    case After(before, op) => StaysSane(s0, before);
  }

  /** The history is an earlier moment of the other. */
  predicate Earlier(g: History, h: History) { g == h || (h.After? && Earlier(g, h.before)) }

  lemma {:induction false} TreesGrow(s0: State, g: History, h: History)
    requires Earlier(g, h)
    ensures Now(s0, g).trees <= Now(s0, h).trees
  {
    if g != h { TreesGrow(s0, g, h.before); }
  }

  /** A store just created is there and has no item, the other stores are as they were,
      and its tree is none that any store had before, dropped ones included. */
  lemma NewStoreIsEmpty(s0: State, h: History, n: Name)
    requires Sane(s0) && ThroughHandles(s0, h) && n !in Now(s0, h).stores
    ensures var s, s' := Now(s0, h), Now(s0, After(h, CreateStore(n)));
            && n in s'.stores && s'.items == s.items
            && (forall c :: c in s'.items ==> c.tree != s'.stores[n])
            && (forall m :: m != n ==> Binding(s', m) == Binding(s, m))
            && (forall g, m :: Earlier(g, h) && m in Now(s0, g).stores ==> Now(s0, g).stores[m] != s'.stores[n])
  {
    StaysSane(s0, h);
    forall g, m | Earlier(g, h) && m in Now(s0, g).stores ensures Now(s0, g).stores[m] < Now(s0, h).trees {
      EarlierThroughHandles(s0, g, h);
      StaysSane(s0, g);
      TreesGrow(s0, g, h);
    }
  }

  lemma {:induction false} EarlierThroughHandles(s0: State, g: History, h: History)
    requires Earlier(g, h) && ThroughHandles(s0, h)
    ensures ThroughHandles(s0, g)
  {
    if g != h { EarlierThroughHandles(s0, g, h.before); }
  }

  // ------------------------------------------------------------- the objects

  datatype Error =
    | ErrTransactionReadOnly
    | ErrTransactionDiscarded
    | ErrStoreNotFound
    | ErrStoreAlreadyExists
    | ErrKeyNotFound
    | ErrEmptyKey
    | ErrEmptyValue

  class Engine {
    var stores: map<Name, nat>
    var items: map<Cell, Item>
    var trees: nat

    function Content(): State reads this { State(stores, items, trees) }

    constructor ()
      ensures Content() == State(map[], map[], 0)
    {
      stores, items, trees := map[], map[], 0;
    }
  }

  class Transaction {
    const ng: Engine
    const writable: bool
    var terminated: bool
    var onRollback: seq<Undo>
    var onCommit: seq<Cell>
    ghost const begin: State
    ghost var history: History

    /** While the transaction is open the engine and both lists are those of its run. */
    ghost predicate Valid() reads this, ng {
      !terminated ==>
        && ng.Content() == Now(begin, history)
        && onRollback == Log(begin, history)
        && onCommit == Doomed(begin, history)
        && (!writable ==> history == Begin)
    }

    constructor (ng: Engine, writable: bool)
      ensures Valid() && !terminated && this.ng == ng && this.writable == writable
      ensures begin == ng.Content() && history == Begin
    {
      this.ng, this.writable, terminated := ng, writable, false;
      onRollback, onCommit := [], [];
      begin, history := ng.Content(), Begin;
    }

    /** The reason an operation is refused, and whether it changes anything. */
    function Refusal(op: Op): (e: Option<Error>)
      reads ng
      ensures writable ==> (e.None? <==> Undoes(ng.Content(), op).Some?)
      ensures !writable ==> e == Some(ErrTransactionReadOnly)
    {
      if !writable then Some(ErrTransactionReadOnly)
      else
        match op
        case Put(c, v) =>
          if c.key == [] then Some(ErrEmptyKey) else if v == [] then Some(ErrEmptyValue) else None
        case Delete(c) =>
          if c !in ng.items || ng.items[c].deleted then Some(ErrKeyNotFound) else None
        case CreateStore(n) => if n in ng.stores then Some(ErrStoreAlreadyExists) else None
        case DropStore(n) => if n !in ng.stores then Some(ErrStoreNotFound) else None
    }

    /** What every operation does: refused, it changes nothing; else one step. */
    twostate predicate Does(op: Op, new e: Option<Error>) reads this, ng {
      && Valid()
      && terminated == old(terminated)
      && e == old(Refusal(op))
      && ng.Content() == (if e.Some? then old(ng.Content()) else Step(old(ng.Content()), op))
      && history == (if e.Some? then old(history) else After(old(history), op))
    }

    method Put(tree: nat, k: ByteString, v: ByteString) returns (e: Option<Error>)
      requires Valid()
      modifies this, ng
      ensures Does(Op.Put(Cell(tree, k), v), e)
      ensures e == if !writable then Some(ErrTransactionReadOnly) else if k == [] then Some(ErrEmptyKey)
                   else if v == [] then Some(ErrEmptyValue) else None
      ensures e.None? ==> Visible(ng.Content()) == old(Visible(ng.Content()))[Cell(tree, k) := v]
    {
      VisibleStep(ng.Content(), Op.Put(Cell(tree, k), v));
      var c := Cell(tree, k);
      if !writable { return Some(ErrTransactionReadOnly); }
      if |k| == 0 { return Some(ErrEmptyKey); }
      if |v| == 0 { return Some(ErrEmptyValue); }
      if c in ng.items {
        onRollback := onRollback + [Overwrote(c, ng.items[c].v, ng.items[c].deleted)];
      } else {
        onRollback := onRollback + [Inserted(c)];
      }
      ng.items := ng.items[c := Item(v, false)];
      history := After(history, Op.Put(c, v));
      return None;
    }

    method Get(tree: nat, k: ByteString) returns (v: Option<ByteString>)
      ensures var seen := Visible(ng.Content());
              v == if Cell(tree, k) in seen then Some(seen[Cell(tree, k)]) else None
    {
      var c := Cell(tree, k);
      if c !in ng.items || ng.items[c].deleted { return None; }
      return Some(ng.items[c].v);
    }

    method Delete(tree: nat, k: ByteString) returns (e: Option<Error>)
      requires Valid()
      modifies this, ng
      ensures Does(Op.Delete(Cell(tree, k)), e)
      ensures e == if !writable then Some(ErrTransactionReadOnly)
                   else if Cell(tree, k) !in old(Visible(ng.Content())) then Some(ErrKeyNotFound) else None
      ensures e.None? ==> Visible(ng.Content()) == old(Visible(ng.Content())) - {Cell(tree, k)}
    {
      VisibleStep(ng.Content(), Op.Delete(Cell(tree, k)));
      var c := Cell(tree, k);
      if !writable { return Some(ErrTransactionReadOnly); }
      if c !in ng.items || ng.items[c].deleted { return Some(ErrKeyNotFound); }
      ng.items := ng.items[c := ng.items[c].(deleted := true)];
      onRollback := onRollback + [Deleted(c)];
      onCommit := onCommit + [c];
      history := After(history, Op.Delete(c));
      return None;
    }

    method GetStore(n: Name) returns (tree: Option<nat>)
      ensures tree == Binding(ng.Content(), n)
    {
      return if n in ng.stores then Some(ng.stores[n]) else None;
    }

    method CreateStore(n: Name) returns (e: Option<Error>)
      requires Valid()
      modifies this, ng
      ensures Does(Op.CreateStore(n), e)
      ensures e == if !writable then Some(ErrTransactionReadOnly)
                   else if n in old(ng.stores) then Some(ErrStoreAlreadyExists) else None
      ensures e.None? ==> ng.stores.Keys == old(ng.stores.Keys) + {n}
    {
      if !writable { return Some(ErrTransactionReadOnly); }
      var found := GetStore(n);
      if found.Some? { return Some(ErrStoreAlreadyExists); }
      ng.stores, ng.trees := ng.stores[n := ng.trees], ng.trees + 1;
      onRollback := onRollback + [Created(n)];
      history := After(history, Op.CreateStore(n));
      return None;
    }

    method DropStore(n: Name) returns (e: Option<Error>)
      requires Valid()
      modifies this, ng
      ensures Does(Op.DropStore(n), e)
      ensures e == if !writable then Some(ErrTransactionReadOnly)
                   else if n !in old(ng.stores) then Some(ErrStoreNotFound) else None
      ensures e.None? ==> ng.stores.Keys == old(ng.stores.Keys) - {n}
    {
      if !writable { return Some(ErrTransactionReadOnly); }
      if n !in ng.stores { return Some(ErrStoreNotFound); }
      var tree := ng.stores[n];
      ng.stores := ng.stores - {n};
      onRollback := onRollback + [Dropped(n, tree)];
      history := After(history, Op.DropStore(n));
      return None;
    }

    method RunUndo(u: Undo)
      modifies ng
      ensures ng.Content() == Undone(old(ng.Content()), u)
    {
      match u
      case Inserted(c) => ng.items := ng.items - {c};
      case Overwrote(c, v, d) => if c in ng.items { ng.items := ng.items[c := Item(v, d)]; }
      case Deleted(c) => if c in ng.items { ng.items := ng.items[c := ng.items[c].(deleted := false)]; }
      case Created(n) => ng.stores := ng.stores - {n};
      case Dropped(n, tree) => ng.stores := ng.stores[n := tree];
    }

    /** Rolls back, restoring the state at Begin exactly when the list is consistent. */
    method Rollback() returns (e: Option<Error>)
      requires Valid()
      modifies this, ng
      ensures terminated && e == if old(terminated) then Some(ErrTransactionDiscarded) else None
      ensures old(terminated) ==> ng.Content() == old(ng.Content())
      ensures !old(terminated) ==> (Same(ng.Content(), begin) <==> Consistent(old(onRollback)))
      ensures !old(terminated) && TouchedOnce(old(onRollback)) ==> Same(ng.Content(), begin)
    {
      if terminated { return Some(ErrTransactionDiscarded); }
      terminated := true;
      ghost var was := ng.Content();
      if writable {
        for i := 0 to |onRollback|
          invariant terminated && onRollback == old(onRollback) && history == old(history)
          invariant ng.Content() == OldestFirst(onRollback[..i], was)
        {
          RunUndo(onRollback[i]);
          assert onRollback[..i + 1][..i] == onRollback[..i];
        }
        assert onRollback[..|onRollback|] == onRollback;
      }
      assert ng.Content() == OldestFirst(Log(begin, history), Now(begin, history));
      OldestFirstRestoresIff(begin, history);
      if TouchedOnce(onRollback) {
        OrdersAgree(begin, history);
        NewestFirstRestores(begin, history);
      }
      return None;
    }

    /** Commits: what is left is what a plain dictionary would hold. */
    method Commit() returns (e: Option<Error>)
      requires Valid()
      modifies this, ng
      ensures e == if old(terminated) then Some(ErrTransactionDiscarded)
                   else if !writable then Some(ErrTransactionReadOnly)
                   else None
      ensures e.Some? ==> ng.Content() == old(ng.Content()) && terminated == old(terminated)
      ensures e.None? ==> terminated && ng.stores == old(ng.stores)
      ensures e.None? ==> ng.stores.Keys == StoreNames(begin.stores.Keys, old(history))
      ensures e.None? && NoTombstones(begin) ==>
                NoTombstones(ng.Content()) && Visible(ng.Content()) == Plain(Visible(begin), old(history))
    {
      if terminated { return Some(ErrTransactionDiscarded); }
      if !writable { return Some(ErrTransactionReadOnly); }
      terminated := true;
      ghost var was := ng.Content();
      for i := 0 to |onCommit|
        invariant terminated && onCommit == old(onCommit) && history == old(history)
        invariant ng.Content() == CommitAll(onCommit[..i], was)
      {
        var c := onCommit[i];
        if c in ng.items && ng.items[c].deleted { ng.items := ng.items - {c}; }
        assert onCommit[..i + 1][..i] == onCommit[..i];
      }
      assert onCommit[..|onCommit|] == onCommit;
      CommitAllSweeps(onCommit, was, Cell(0, []));
      StoresAreNamed(begin, history);
      if NoTombstones(begin) { CommitIsPlain(begin, history); }
      return None;
    }
  }
}
