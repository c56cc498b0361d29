/** The iterator of the memory engine (engine/memoryengine/store.go): it reads the
    tree in batches and skips tombstones, while the loop that drives it may delete
    and overwrite keys.
  */
module BatchedIterator {

  import opened Prelude
  import opened Bytes
  import opened MemoryEngine

  type Items = map<ByteString, Item>

  // ------------------------------------------------------------------ orders

  predicate Precedes(reverse: bool, a: ByteString, b: ByteString) {
    if reverse then Lex(b, a) < 0 else Lex(a, b) < 0
  }

  ghost predicate Ordered(reverse: bool, list: seq<ByteString>) {
    forall i, j :: 0 <= i < j < |list| ==> Precedes(reverse, list[i], list[j])
  }

  function Reversed<T>(s: seq<T>): (r: seq<T>)
    ensures |r| == |s| && forall i :: 0 <= i < |s| ==> r[i] == s[|s| - 1 - i]
  {
    seq(|s|, i requires 0 <= i < |s| => s[|s| - 1 - i])
  }

  /** The keys in the order of the direction. */
  function Listing(keys: seq<ByteString>, reverse: bool): seq<ByteString> {
    if reverse then Reversed(keys) else keys
  }

  lemma ListingOrdered(keys: seq<ByteString>, reverse: bool)
    requires Ordered(false, keys)
    ensures Ordered(reverse, Listing(keys, reverse))
  {
    var list := Listing(keys, reverse);
    forall i, j | 0 <= i < j < |list| ensures Precedes(reverse, list[i], list[j]) {
      if reverse {
        assert Precedes(false, keys[|keys| - 1 - j], keys[|keys| - 1 - i]);
      }
    }
  }

  /** How many keys come before the pivot; the empty pivot stands for none. */
  function Start(reverse: bool, list: seq<ByteString>, pivot: ByteString): (k: nat)
    ensures k <= |list|
    ensures forall i :: 0 <= i < k ==> pivot != [] && Precedes(reverse, list[i], pivot)
    ensures k < |list| ==> pivot == [] || !Precedes(reverse, list[k], pivot)
  {
    if list == [] || pivot == [] || !Precedes(reverse, list[0], pivot) then 0
    else
      var k := Start(reverse, list[1..], pivot);
      assert forall i :: 0 < i <= k ==> list[i] == list[1..][i - 1];
      k + 1
  }

  lemma PrecedesIrreflexive(reverse: bool, a: ByteString)
    ensures !Precedes(reverse, a, a)
  {
    LexEqual(a, a);
  }

  /** Seeking a key of the list lands on that key. */
  lemma StartAtKey(reverse: bool, list: seq<ByteString>, j: nat)
    requires Ordered(reverse, list) && j < |list| && list[j] != []
    ensures Start(reverse, list, list[j]) == j
  {
    var k := Start(reverse, list, list[j]);
    PrecedesIrreflexive(reverse, list[j]);
  }

  // --------------------------------------------------------------- the walk

  /** A loop body: it sees the key reached and changes the items. */
  type Body = (ByteString, Items) -> Items

  /** The body deletes, revives or overwrites, and neither adds nor removes keys. */
  ghost predicate KeepsKeys(body: Body) {
    forall k, m :: body(k, m).Keys == m.Keys
  }

  datatype Walked = Walked(visited: seq<ByteString>, items: Items)

  /** The reference: one key after the other, looking each one up when it is reached. */
  function Walk(list: seq<ByteString>, items: Items, body: Body): Walked {
    if list == [] then Walked([], items)
    else if list[0] !in items || items[list[0]].deleted then Walk(list[1..], items, body)
    else
      var rest := Walk(list[1..], body(list[0], items), body);
      Walked([list[0]] + rest.visited, rest.items)
  }

  lemma {:induction false} WalkSkips(list: seq<ByteString>, items: Items, body: Body, n: nat)
    requires n <= |list| && Tombstones(list[..n], items)
    ensures Walk(list, items, body) == Walk(list[n..], items, body)
  {
    if n > 0 {
      assert list[1..][n - 1..] == list[n..] && list[..n][1..] == list[1..][..n - 1];
      assert list[..n][0] == list[0];
      WalkSkips(list[1..], items, body, n - 1);
    }
  }

  /** Keys are visited in strict order, so at most once, and only keys of the list. */
  lemma {:induction false} WalkInOrder(reverse: bool, list: seq<ByteString>, items: Items, body: Body)
    requires Ordered(reverse, list)
    ensures Ordered(reverse, Walk(list, items, body).visited)
    ensures forall k :: k in Walk(list, items, body).visited ==> k in list
  {
    if list != [] {
      assert Ordered(reverse, list[1..]);
      if list[0] !in items || items[list[0]].deleted {
        WalkInOrder(reverse, list[1..], items, body);
      } else {
        var rest := Walk(list[1..], body(list[0], items), body).visited;
        WalkInOrder(reverse, list[1..], body(list[0], items), body);
        forall i, j | 0 <= i < j < 1 + |rest|
          ensures Precedes(reverse, ([list[0]] + rest)[i], ([list[0]] + rest)[j])
        {
          if i == 0 {
            assert rest[j - 1] in list[1..];
            var m :| 0 <= m < |list[1..]| && list[1..][m] == rest[j - 1];
            assert Precedes(reverse, list[0], list[m + 1]);
          } else {
            assert Precedes(reverse, rest[i - 1], rest[j - 1]);
          }
        }
      }
    }
  }

  /** The body never changes the tombstone of another key. */
  ghost predicate OnlyOwnFlag(body: Body) {
    forall k: ByteString, m: Items, other :: other in m && other != k ==>
      other in body(k, m) && body(k, m)[other].deleted == m[other].deleted
  }

  function Live(list: seq<ByteString>, items: Items): seq<ByteString> {
    if list == [] then []
    else if list[0] !in items || items[list[0]].deleted then Live(list[1..], items)
    else [list[0]] + Live(list[1..], items)
  }

  lemma {:induction false} LiveSame(list: seq<ByteString>, a: Items, b: Items)
    requires forall k :: k in list ==> (k in a <==> k in b) && (k in a ==> a[k].deleted == b[k].deleted)
    ensures Live(list, a) == Live(list, b)
  {
    if list != [] {
      assert forall k :: k in list[1..] ==> k in list;
      LiveSame(list[1..], a, b);
    }
  }

  lemma {:induction false} LiveMembers(list: seq<ByteString>, items: Items, k: ByteString)
    ensures k in Live(list, items) <==> k in list && k in items && !items[k].deleted
  {
    if list != [] {
      LiveMembers(list[1..], items, k);
      assert list == [list[0]] + list[1..];
    }
  }

  /** The body deletes the key it is given. */
  ghost predicate Deletes(body: Body) {
    forall k: ByteString, m: Items :: k in m ==> body(k, m) == m[k := m[k].(deleted := true)]
  }

  /** A loop that deletes what it reaches leaves nothing alive in its range, and everything
      else as it was. */
  lemma {:induction false} WalkDeletesAll(list: seq<ByteString>, items: Items, body: Body)
    requires Deletes(body)
    ensures var after := Walk(list, items, body).items;
            && after.Keys == items.Keys
            && forall k :: k in items ==> after[k] == if k in list then items[k].(deleted := true) else items[k]
  {
    if list != [] {
      assert list == [list[0]] + list[1..];
      var next := if list[0] !in items || items[list[0]].deleted then items else body(list[0], items);
      WalkDeletesAll(list[1..], next, body);
    }
  }

  /** Deleting or overwriting each key as it is reached visits exactly the keys that
      were live at the start. */
  lemma {:induction false} WalkSelfDeleting(reverse: bool, list: seq<ByteString>, items: Items, body: Body)
    requires Ordered(reverse, list) && KeepsKeys(body) && OnlyOwnFlag(body)
    ensures Walk(list, items, body).visited == Live(list, items)
    ensures forall k :: k in Walk(list, items, body).visited <==> k in list && k in items && !items[k].deleted
  {
    forall k ensures k in Live(list, items) <==> k in list && k in items && !items[k].deleted {
      LiveMembers(list, items, k);
    }
    if list != [] {
      assert Ordered(reverse, list[1..]);
      if list[0] !in items || items[list[0]].deleted {
        WalkSelfDeleting(reverse, list[1..], items, body);
      } else {
        var next := body(list[0], items);
        WalkSelfDeleting(reverse, list[1..], next, body);
        forall k | k in list[1..]
          ensures (k in items <==> k in next) && (k in items ==> items[k].deleted == next[k].deleted)
        {
          var m :| 0 <= m < |list[1..]| && list[1..][m] == k;
          assert Precedes(reverse, list[0], list[m + 1]);
          PrecedesIrreflexive(reverse, k);
          assert next.Keys == items.Keys;
        }
        LiveSame(list[1..], items, next);
      }
    }
  }

  // ------------------------------------------------------------- the iterator

  ghost predicate Covers(list: seq<ByteString>, items: Items) { forall k :: k in list ==> k in items }

  ghost predicate Tombstones(list: seq<ByteString>, items: Items) {
    forall k :: k in list ==> k in items && items[k].deleted
  }

  const BUFFER_SIZE: nat := 64

  /** The tree: its keys in order, and its items. Put refuses empty keys. */
  class Tree {
    const keys: seq<ByteString>
    var items: Items

    ghost predicate Valid() reads this {
      && Ordered(false, keys)
      && [] !in keys
      && forall k :: k in keys <==> k in items
    }

    constructor (keys: seq<ByteString>, items: Items)
      requires Ordered(false, keys) && [] !in keys && forall k :: k in keys <==> k in items
      ensures Valid() && this.keys == keys && this.items == items
    {
      this.keys, this.items := keys, items;
    }

    method Run(body: Body, key: ByteString)
      requires Valid() && KeepsKeys(body)
      modifies this
      ensures Valid() && items == body(key, old(items))
    {
      items := body(key, items);
    }
  }

  lemma SubSlice<T>(s: seq<T>, a: nat, b: nat, i: nat, j: nat)
    requires a <= b <= |s| && i <= j <= b - a
    ensures s[a..b][i..j] == s[a + i..a + j]
  {
    var left, right := s[a..b][i..j], s[a + i..a + j];
    assert |left| == |right|;
    forall k | 0 <= k < |left| ensures left[k] == right[k] {
      assert left[k] == s[a..b][i + k];
    }
    assert left == right;
  }

  lemma SliceCovers(list: seq<ByteString>, a: nat, b: nat, items: Items)
    requires a <= b <= |list| && Covers(list, items)
    ensures Covers(list[a..b], items)
  {
  }

  lemma TombstonesJoin(list: seq<ByteString>, a: nat, b: nat, c: nat, items: Items)
    requires a <= b <= c <= |list| && Tombstones(list[a..b], items) && Tombstones(list[b..c], items)
    ensures Tombstones(list[a..c], items)
  {
    assert list[a..c] == list[a..b] + list[b..c];
  }

  /** Reads at most a buffer of keys from a place in the order. */
  method Collect(order: seq<ByteString>, from: nat) returns (buf: seq<ByteString>)
    requires from <= |order|
    ensures from + |buf| <= |order| && buf == order[from..from + |buf|]
    ensures |buf| <= BUFFER_SIZE && (|buf| < BUFFER_SIZE ==> from + |buf| == |order|)
  {
    buf := [];
    while from + |buf| < |order| && |buf| < BUFFER_SIZE
      invariant from + |buf| <= |order| && |buf| <= BUFFER_SIZE
      invariant buf == order[from..from + |buf|]
      decreases |order| - |buf|
    {
      buf := buf + [order[from + |buf|]];
    }
  }

  /** The first place from the cursor on whose key is not deleted, else the end. */
  method FirstLive(buf: seq<ByteString>, from: nat, items: Items) returns (cursor: nat)
    requires from <= |buf| && Covers(buf, items)
    ensures from <= cursor <= |buf|
    ensures Tombstones(buf[from..cursor], items)
    ensures cursor < |buf| ==> buf[cursor] in items && !items[buf[cursor]].deleted
  {
    cursor := from;
    while cursor < |buf|
      invariant from <= cursor <= |buf|
      invariant Tombstones(buf[from..cursor], items)
    {
      if !items[buf[cursor]].deleted { break; }
      cursor := cursor + 1;
    }
  }

  class Iterator {
    const tr: Tree
    const reverse: bool
    var buf: seq<ByteString>
    var cursor: nat
    /** The keys in the direction of the iterator, and where the buffer begins there. */
    ghost const list: seq<ByteString>
    ghost var base: nat

    /** How far the iteration has come in the listing. */
    ghost function Position(): nat reads this { base + cursor }

    /** The buffer is a window of the listing, full unless it reaches the end. */
    ghost predicate Window() reads this {
      && base + |buf| <= |list|
      && buf == list[base..base + |buf|]
      && |buf| <= BUFFER_SIZE
      && (|buf| < BUFFER_SIZE ==> base + |buf| == |list|)
      && cursor <= |buf|
    }

    ghost predicate Listed() reads tr { tr.Valid() && list == Listing(tr.keys, reverse) }

    /** The list is in order and its keys are those of the items. */
    lemma ListFacts()
      requires Listed()
      ensures Ordered(reverse, list) && [] !in list && Covers(list, tr.items)
    {
      ListingOrdered(tr.keys, reverse);
    }

    constructor (tr: Tree, reverse: bool)
      requires tr.Valid()
      ensures Listed() && Window() && this.tr == tr && this.reverse == reverse
    {
      this.tr, this.reverse, buf, cursor := tr, reverse, [], 0;
      list, base := Listing(tr.keys, reverse), |Listing(tr.keys, reverse)|;
    }

    /** Reads a batch from the pivot on. */
    method Seek(pivot: ByteString)
      requires Listed()
      modifies this
      ensures Window() && base == Start(reverse, list, pivot) && cursor == 0
    {
      var order := Listing(tr.keys, reverse);
      var from := Start(reverse, order, pivot);
      buf := Collect(order, from);
      cursor := 0;
      base := from;
    }

    method SkipDeleted()
      requires Window() && Covers(list, tr.items)
      modifies this`cursor
      ensures Window() && old(cursor) <= cursor
      ensures Tombstones(list[old(Position())..Position()], tr.items)
      ensures cursor < |buf| ==> buf[cursor] in tr.items && !tr.items[buf[cursor]].deleted
    {
      ghost var was := cursor;
      SliceCovers(list, base, base + |buf|, tr.items);
      cursor := FirstLive(buf, cursor, tr.items);
      SubSlice(list, base, base + |buf|, was, cursor);
    }

    /** Reloading from the last key of a full buffer keeps the position: nothing is
        skipped and nothing repeated. */
    method Reload()
      requires Listed() && Window() && cursor == |buf| == BUFFER_SIZE
      modifies this
      ensures Window() && Position() == old(Position()) && base > old(base)
    {
      var pivot := buf[|buf| - 1];
      ListFacts();
      assert pivot == list[base + |buf| - 1];
      StartAtKey(reverse, list, base + |buf| - 1);
      Seek(pivot);
      cursor := cursor + 1;
    }

    /** The next batch, up to its first live key. */
    method Refill()
      requires Listed() && Window() && cursor == |buf| == BUFFER_SIZE && Covers(list, tr.items)
      modifies this
      ensures Window() && base > old(base) && old(Position()) <= Position()
      ensures Tombstones(list[old(Position())..Position()], tr.items)
      ensures cursor < |buf| ==> buf[cursor] in tr.items && !tr.items[buf[cursor]].deleted
    {
      Reload();
      SkipDeleted();
    }

    /** Moves to the next live key, at the present state of the items, if there is one. */
    method Valid() returns (r: bool)
      requires Listed() && Window()
      modifies this
      ensures Window() && old(Position()) <= Position()
      ensures Tombstones(list[old(Position())..Position()], tr.items)
      ensures !r ==> Position() == |list|
      ensures r ==> cursor < |buf| && buf[cursor] in tr.items && !tr.items[buf[cursor]].deleted
    {
      ListFacts();
      ghost var start := Position();
      SkipDeleted();
      while cursor >= |buf| && |buf| == BUFFER_SIZE
        invariant Window() && start <= Position()
        invariant Tombstones(list[start..Position()], tr.items)
        invariant cursor < |buf| ==> buf[cursor] in tr.items && !tr.items[buf[cursor]].deleted
        decreases |list| - base
      {
        ghost var was := Position();
        Refill();
        TombstonesJoin(list, start, was, Position(), tr.items);
      }
      r := |buf| > 0 && cursor < |buf|;
    }

    method Next()
      requires Window() && cursor < |buf|
      modifies this`cursor
      ensures Window() && Position() == old(Position()) + 1
    {
      cursor := cursor + 1;
    }
  }

  /** The body at the present key, and on to the next. */
  method Consume(it: Iterator, body: Body) returns (key: ByteString)
    requires it.Listed() && it.Window() && KeepsKeys(body)
    requires it.cursor < |it.buf| && it.buf[it.cursor] in it.tr.items && !it.tr.items[it.buf[it.cursor]].deleted
    modifies it, it.tr
    ensures it.Listed() && it.Window() && it.Position() == old(it.Position()) + 1
    ensures var rest := Walk(it.list[it.Position()..], it.tr.items, body);
            Walk(it.list[old(it.Position())..], old(it.tr.items), body) == Walked([key] + rest.visited, rest.items)
  {
    key := it.buf[it.cursor];
    assert key == it.list[it.Position()];
    WalkVisits(it.list, it.tr.items, body, it.Position());
    RunAndNext(it, body, key);
  }

  method RunAndNext(it: Iterator, body: Body, key: ByteString)
    requires it.Listed() && it.Window() && KeepsKeys(body) && it.cursor < |it.buf|
    modifies it, it.tr
    ensures it.Listed() && it.Window() && it.Position() == old(it.Position()) + 1
    ensures it.tr.items == body(key, old(it.tr.items))
  {
    it.tr.Run(body, key);
    it.Next();
  }

  /** One round of the loop: the next key, or the end. */
  method Round(it: Iterator, body: Body) returns (key: Option<ByteString>)
    requires it.Listed() && it.Window() && KeepsKeys(body)
    modifies it, it.tr
    ensures it.Listed() && it.Window() && (key.Some? ==> old(it.Position()) < it.Position())
    ensures var rest := Walk(it.list[it.Position()..], it.tr.items, body);
            Walk(it.list[old(it.Position())..], old(it.tr.items), body)
            == if key.None? then Walked([], it.tr.items) else Walked([key.value] + rest.visited, rest.items)
  {
    ghost var was := it.Position();
    var more := it.Valid();
    WalkTo(it.list, it.tr.items, body, was, it.Position());
    if !more { return None; }
    var k := Consume(it, body);
    return Some(k);
  }

  /** The loop every caller writes: Seek, then Valid and Next, with a body that
      changes the items. It does what the reference walk does. */
  method Traverse(it: Iterator, pivot: ByteString, body: Body) returns (visited: seq<ByteString>)
    requires it.Listed() && KeepsKeys(body)
    modifies it, it.tr
    ensures it.Listed()
    ensures var list := Listing(it.tr.keys, it.reverse);
            Walked(visited, it.tr.items) == Walk(list[Start(it.reverse, list, pivot)..], old(it.tr.items), body)
    ensures forall i, j :: 0 <= i < j < |visited| ==>
              if it.reverse then Lex(visited[j], visited[i]) < 0 else Lex(visited[i], visited[j]) < 0
  {
    ghost var all := Walk(it.list[Start(it.reverse, it.list, pivot)..], it.tr.items, body);
    it.Seek(pivot);
    visited := [];
    while true
      invariant it.Listed() && it.Window()
      invariant visited + Walk(it.list[it.Position()..], it.tr.items, body).visited == all.visited
      invariant Walk(it.list[it.Position()..], it.tr.items, body).items == all.items
      decreases |it.list| - it.Position()
    {
      var key := Round(it, body);
      if key.None? { break; }
      visited := visited + [key.value];
    }
    WalkFromPivot(it.reverse, it.tr.keys, pivot, old(it.tr.items), body);
  }

  lemma WalkFromPivot(reverse: bool, keys: seq<ByteString>, pivot: ByteString, items: Items, body: Body)
    requires Ordered(false, keys)
    ensures var list := Listing(keys, reverse);
            Ordered(reverse, Walk(list[Start(reverse, list, pivot)..], items, body).visited)
  {
    var list := Listing(keys, reverse);
    ListingOrdered(keys, reverse);
    WalkInOrder(reverse, list[Start(reverse, list, pivot)..], items, body);
  }

  /** The keys of a loop are those from the pivot on, up in key order or down; the empty
      pivot stands for all. */
  lemma FromPivot(reverse: bool, keys: seq<ByteString>, pivot: ByteString, k: ByteString)
    requires Ordered(false, keys)
    ensures var list := Listing(keys, reverse);
            k in list[Start(reverse, list, pivot)..] <==>
            k in keys && (pivot == [] || if reverse then Lex(k, pivot) <= 0 else Lex(pivot, k) <= 0)
  {
    var list := Listing(keys, reverse);
    var n := Start(reverse, list, pivot);
    ListingOrdered(keys, reverse);
    ListingMembers(keys, reverse, k);
    LexAntisymmetric(k, pivot);
    SuffixMembers(list, n, k);
    forall i | 0 <= i < |list| ensures i >= n <==> pivot == [] || !Precedes(reverse, list[i], pivot) {
      StartDivides(reverse, list, pivot, i);
    }
  }

  lemma StartDivides(reverse: bool, list: seq<ByteString>, pivot: ByteString, i: nat)
    requires Ordered(reverse, list) && i < |list|
    ensures i >= Start(reverse, list, pivot) <==> pivot == [] || !Precedes(reverse, list[i], pivot)
  {
    var n := Start(reverse, list, pivot);
    if n < i && pivot != [] && Precedes(reverse, list[i], pivot) {
      PrecedesTransitive(reverse, list[n], list[i], pivot);
    }
  }

  lemma SuffixMembers(list: seq<ByteString>, n: nat, k: ByteString)
    requires n <= |list|
    ensures k in list[n..] <==> exists i :: n <= i < |list| && list[i] == k
  {
    if i :| n <= i < |list| && list[i] == k { assert list[n..][i - n] == k; }
  }

  lemma ListingMembers(keys: seq<ByteString>, reverse: bool, k: ByteString)
    ensures k in Listing(keys, reverse) <==> k in keys
  {
    var list := Listing(keys, reverse);
    if reverse && k in keys {
      var i :| 0 <= i < |keys| && keys[i] == k;
      assert list[|keys| - 1 - i] == k;
    }
  }

  lemma PrecedesTransitive(reverse: bool, a: ByteString, b: ByteString, c: ByteString)
    requires Precedes(reverse, a, b) && Precedes(reverse, b, c)
    ensures Precedes(reverse, a, c)
  {
    if reverse { LexTransitive(c, b, a); } else { LexTransitive(a, b, c); }
  }

  lemma WalkTo(list: seq<ByteString>, items: Items, body: Body, a: nat, b: nat)
    requires a <= b <= |list| && Tombstones(list[a..b], items)
    ensures Walk(list[a..], items, body) == Walk(list[b..], items, body)
  {
    assert list[a..][..b - a] == list[a..b] && list[a..][b - a..] == list[b..];
    WalkSkips(list[a..], items, body, b - a);
  }

  lemma WalkVisits(list: seq<ByteString>, items: Items, body: Body, a: nat)
    requires a < |list| && list[a] in items && !items[list[a]].deleted
    ensures var rest := Walk(list[a + 1..], body(list[a], items), body);
            Walk(list[a..], items, body) == Walked([list[a]] + rest.visited, rest.items)
  {
    assert list[a..][1..] == list[a + 1..];
  }
}
