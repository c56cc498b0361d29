/** Field constraints and the constraints they imply on the documents and arrays
    around them (internal/database/constraint.go).

    Constraints are values here. The constraints a user gives are never changed by
    Add; only inferred ones are.
  */
module Constraints {

  import opened Prelude

  /** A fragment with an empty field name is an array index. */
  datatype Fragment = Fragment(fieldName: string, arrayIndex: int)

  type Path = seq<Fragment>

  datatype ValueType = AnyType | NullType | BoolType | IntegerType | DoubleType | TextType | BlobType | ArrayType | DocumentType

  /** A default value, and the types it can be cast to if it can be evaluated. */
  datatype Default = Evaluates(text: string, castsTo: set<ValueType>) | NextValueFor(text: string)

  datatype Identity = Identity(sequenceName: string, always: bool)

  datatype FieldConstraint = FieldConstraint(
    path: Path, typ: ValueType, isPrimaryKey: bool, isNotNull: bool, isUnique: bool,
    default: Option<Default>, identity: Option<Identity>, isInferred: bool, inferredBy: seq<Path>)

  function Plain(path: Path, typ: ValueType, causes: seq<Path>): FieldConstraint {
    FieldConstraint(path, typ, false, false, false, None, None, true, causes)
  }

  // ------------------------------------------------------------------- Add

  /** Member by member, uniqueness and inference apart. */
  predicate IsEqual(f: FieldConstraint, other: FieldConstraint) {
    && f.path == other.path && f.typ == other.typ
    && f.isPrimaryKey == other.isPrimaryKey && f.isNotNull == other.isNotNull
    && f.default == other.default && f.identity == other.identity
  }

  function AddPath(causes: seq<Path>, p: Path): seq<Path> { if p in causes then causes else causes + [p] }

  function Merge(causes: seq<Path>, other: seq<Path>): seq<Path> {
    if other == [] then causes else AddPath(Merge(causes, other[..|other| - 1]), other[|other| - 1])
  }

  function WithFlags(f: FieldConstraint, other: FieldConstraint): FieldConstraint {
    f.(default := other.default, isNotNull := other.isNotNull, isPrimaryKey := other.isPrimaryKey)
  }

  /** What is left of an entry and a constraint added for the same path. */
  function Absorbed(c: FieldConstraint, fc: FieldConstraint): Option<FieldConstraint> {
    if !fc.isInferred && !c.isInferred then None
    else if fc.isInferred then
      if !IsEqual(c, WithFlags(fc, c)) then None
      else if c.isInferred then Some(c.(inferredBy := Merge(c.inferredBy, fc.inferredBy)))
      else Some(c)
    else if IsEqual(WithFlags(c, fc), fc) then Some(fc)
    else None
  }

  predicate DefaultFits(fc: FieldConstraint) {
    fc.default.None? || fc.typ.AnyType? ||
    match fc.default.value
    case Evaluates(_, castsTo) => fc.typ in castsTo
    case NextValueFor(_) => fc.typ in {IntegerType, DoubleType, TextType, BoolType}
  }

  /** The place of the first constraint on a path, or the length of the list. */
  function Find(list: seq<FieldConstraint>, p: Path): (k: nat)
    ensures k <= |list|
    ensures forall i :: 0 <= i < k ==> list[i].path != p
    ensures k < |list| ==> list[k].path == p
  {
    if list == [] then 0
    else
      var k := Find(list[..|list| - 1], p);
      if k < |list| - 1 then k else if list[|list| - 1].path == p then |list| - 1 else |list|
  }

  function Get(list: seq<FieldConstraint>, p: Path): Option<FieldConstraint> {
    var k := Find(list, p);
    if k < |list| then Some(list[k]) else None
  }

  /** The list after adding a constraint, the entries before i being looked at
      already, or None for an error. */
  function AddedFrom(list: seq<FieldConstraint>, fc: FieldConstraint, i: nat): Option<seq<FieldConstraint>>
    requires i <= |list|
    decreases |list| - i
  {
    if i == |list| then
      if DefaultFits(fc) then Some(list + [fc]) else None
    else if list[i].path == fc.path then
      var c := Absorbed(list[i], fc);
      if c.None? then None else Some(list[i := c.value])
    else if list[i].isPrimaryKey && fc.isPrimaryKey then None
    else AddedFrom(list, fc, i + 1)
  }

  function Added(list: seq<FieldConstraint>, fc: FieldConstraint): Option<seq<FieldConstraint>> {
    AddedFrom(list, fc, 0)
  }

  method MergeInferred(f: FieldConstraint, other: FieldConstraint) returns (r: FieldConstraint)
    ensures r == f.(inferredBy := Merge(f.inferredBy, other.inferredBy))
  {
    var merged, others := f.inferredBy, other.inferredBy;
    for i := 0 to |others|
      invariant merged == Merge(f.inferredBy, others[..i])
    {
      var duplicate := false;
      for j := 0 to |merged|
        invariant !duplicate && others[i] !in merged[..j]
      {
        if merged[j] == others[i] { duplicate := true; break; }
      }
      assert others[..i + 1][..i] == others[..i];
      assert merged[..|merged|] == merged;
      if !duplicate { merged := merged + [others[i]]; }
    }
    assert others[..|others|] == others;
    return f.(inferredBy := merged);
  }

  class FieldConstraints {
    var list: seq<FieldConstraint>

    constructor ()
      ensures list == []
    {
      list := [];
    }

    /** An error may leave an inferred entry with the flags of the refused one. */
    method Add(newFc: FieldConstraint) returns (ok: bool)
      modifies this
      ensures ok <==> Added(old(list), newFc).Some?
      ensures ok ==> Added(old(list), newFc) == Some(list)
      ensures !ok ==> |list| == |old(list)|
                      && forall i :: 0 <= i < |list| ==> list[i] == old(list)[i] || list[i] == WithFlags(old(list)[i], newFc)
    {
      for i := 0 to |list|
        invariant list == old(list)
        invariant AddedFrom(list, newFc, i) == Added(list, newFc)
      {
        var c := list[i];
        if c.path == newFc.path {
          if !newFc.isInferred && !c.isInferred { return false; }
          var added := newFc;
          if newFc.isInferred {
            added := WithFlags(newFc, c);
          } else {
            c := WithFlags(c, newFc);
            list := list[i := c];
          }
          if !IsEqual(c, added) { return false; }
          if newFc.isInferred && c.isInferred {
            c := MergeInferred(c, added);
            list := list[i := c];
            return true;
          }
          if newFc.isInferred {
            assert list == list[i := c];
            return true;
          }
          list := list[i := newFc];
          assert list == old(list)[i := newFc];
          return true;
        }
        if c.isPrimaryKey && newFc.isPrimaryKey { return false; }
      }
      if !DefaultFits(newFc) { return false; }
      list := list + [newFc];
      return true;
    }

    /** Adds what a constraint on a path says of the proper prefixes of the path. */
    method AddImplied(p: Path) returns (ok: bool)
      modifies this
      ensures var implied := AddPrefixes(old(list), p, if |p| > 1 then |p| - 1 else 0);
              if ok then implied == Some(list) else implied.None?
    {
      if |p| > 1 {
        for i := 0 to |p| - 1
          invariant AddPrefixes(old(list), p, i) == Some(list)
        {
          var newFc := Plain(p[..i + 1], if p[i + 1].fieldName != "" then DocumentType else ArrayType, [p]);
          ok := Add(newFc);
          if !ok {
            PrefixFails(old(list), p, i + 1, |p| - 1);
            return;
          }
        }
      }
      return true;
    }
  }

  // ----------------------------------------------------------------- Infer

  /** What the next fragment says a prefix of length k is. */
  function KindAt(p: Path, k: nat): ValueType
    requires k < |p|
  {
    if p[k].fieldName != "" then DocumentType else ArrayType
  }

  /** Adds what a constraint says of the prefixes of its path of length up to k. */
  function AddPrefixes(list: seq<FieldConstraint>, p: Path, k: nat): Option<seq<FieldConstraint>>
    requires k == 0 || k < |p|
  {
    if k == 0 then Some(list)
    else
      var before := AddPrefixes(list, p, k - 1);
      if before.None? then None else Added(before.value, Plain(p[..k], KindAt(p, k), [p]))
  }

  function AddWhole(list: seq<FieldConstraint>, fc: FieldConstraint): Option<seq<FieldConstraint>> {
    var before := AddPrefixes(list, fc.path, if |fc.path| > 1 then |fc.path| - 1 else 0);
    if before.None? then None else Added(before.value, fc)
  }

  function InferAll(user: seq<FieldConstraint>): Option<seq<FieldConstraint>> {
    if user == [] then Some([])
    else
      var before := InferAll(user[..|user| - 1]);
      if before.None? then None else AddWhole(before.value, user[|user| - 1])
  }

  method Infer(f: seq<FieldConstraint>) returns (r: Option<seq<FieldConstraint>>)
    ensures r == InferAll(f)
  {
    var newConstraints := new FieldConstraints();
    for n := 0 to |f|
      invariant InferAll(f[..n]) == Some(newConstraints.list)
    {
      assert f[..n + 1][..n] == f[..n];
      var ok := newConstraints.AddImplied(f[n].path);
      if ok { ok := newConstraints.Add(f[n]); }
      if !ok {
        InferFails(f, n + 1);
        return None;
      }
    }
    assert f[..|f|] == f;
    return Some(newConstraints.list);
  }

  lemma {:induction false} PrefixFails(list: seq<FieldConstraint>, p: Path, i: nat, k: nat)
    requires i <= k < |p| && AddPrefixes(list, p, i).None?
    ensures AddPrefixes(list, p, k).None?
  {
    if i < k { PrefixFails(list, p, i, k - 1); }
  }

  lemma {:induction false} InferFails(f: seq<FieldConstraint>, n: nat)
    requires n <= |f| && InferAll(f[..n]).None?
    ensures InferAll(f).None?
    decreases |f|
  {
    if n == |f| {
      assert f[..n] == f;
    } else {
      assert f[..|f| - 1][..n] == f[..n];
      InferFails(f[..|f| - 1], n);
    }
  }

  // --------------------------------------------------- what Infer should mean

  /** A path extends its proper prefixes, the empty one not counted. */
  predicate Extends(q: Path, p: Path) { 1 <= |p| < |q| && q[..|p|] == p }

  /** The paths of the user that extend a path, in the order they were given. */
  function Extenders(user: seq<FieldConstraint>, p: Path): seq<Path> {
    if user == [] then []
    else
      var q := user[|user| - 1].path;
      Extenders(user[..|user| - 1], p) + if Extends(q, p) then [q] else []
  }

  lemma {:induction false} ExtendersExtend(user: seq<FieldConstraint>, p: Path, q: Path)
    ensures q in Extenders(user, p) <==> Extends(q, p) && Get(user, q).Some?
  {
    if user != [] {
      ExtendersExtend(user[..|user| - 1], p, q);
    }
  }

  /** The constraint on a path the user's constraints call for. */
  function Meaning(user: seq<FieldConstraint>, p: Path): Option<FieldConstraint> {
    if Get(user, p).Some? then Get(user, p)
    else
      var causes := Extenders(user, p);
      if causes == [] then None
      else
        ExtendersExtend(user, p, causes[0]);
        Some(Plain(p, KindAt(causes[0], |p|), causes))
  }

  ghost predicate Distinct(list: seq<FieldConstraint>) {
    forall i, j :: 0 <= i < j < |list| ==> list[i].path != list[j].path
  }

  /** The list holds one entry for each path that needs one, and no other. */
  ghost predicate Means(list: seq<FieldConstraint>, user: seq<FieldConstraint>) {
    && Distinct(list)
    && forall p :: Get(list, p) == Meaning(user, p)
  }

  // ------------------------------------------------------------ adding, by path

  lemma FindIs(list: seq<FieldConstraint>, k: nat)
    requires Distinct(list) && k < |list|
    ensures Find(list, list[k].path) == k && Get(list, list[k].path) == Some(list[k])
  {
  }

  lemma GetNone(list: seq<FieldConstraint>, p: Path)
    ensures Get(list, p).None? <==> forall i :: 0 <= i < |list| ==> list[i].path != p
  {
  }

  lemma GetAppended(list: seq<FieldConstraint>, fc: FieldConstraint, p: Path)
    ensures Get(list + [fc], p) == if Get(list, p).Some? then Get(list, p) else if fc.path == p then Some(fc) else None
  {
    assert (list + [fc])[..|list|] == list;
  }

  lemma GetUpdated(list: seq<FieldConstraint>, k: nat, c: FieldConstraint, p: Path)
    requires Distinct(list) && k < |list| && c.path == list[k].path
    ensures Distinct(list[k := c])
    ensures Get(list[k := c], p) == if p == c.path then Some(c) else Get(list, p)
  {
    var changed := list[k := c];
    assert forall i :: 0 <= i < |list| ==> changed[i].path == list[i].path;
    if Get(list, p).Some? {
      FindIs(changed, Find(list, p));
      FindIs(list, k);
    } else {
      GetNone(changed, p);
    }
  }

  lemma AbsorbedPath(c: FieldConstraint, fc: FieldConstraint)
    requires c.path == fc.path && Absorbed(c, fc).Some?
    ensures Absorbed(c, fc).value.path == fc.path
  {
  }

  function AddedAt(o: Option<FieldConstraint>, fc: FieldConstraint): Option<FieldConstraint> {
    if o.None? then (if DefaultFits(fc) then Some(fc) else None) else Absorbed(o.value, fc)
  }

  /** A primary key stands between two places. */
  ghost predicate KeyIn(list: seq<FieldConstraint>, i: nat, k: nat)
    requires k <= |list|
  {
    exists j :: i <= j < k && list[j].isPrimaryKey
  }

  /** What Add does, seen path by path. */
  lemma {:induction false} AddedFromByPath(list: seq<FieldConstraint>, fc: FieldConstraint, i: nat)
    requires Distinct(list) && i <= Find(list, fc.path)
    ensures var r := AddedFrom(list, fc, i);
            && (r.Some? <==> AddedAt(Get(list, fc.path), fc).Some? && !(fc.isPrimaryKey && KeyIn(list, i, Find(list, fc.path))))
            && (r.Some? ==> Distinct(r.value))
            && (r.Some? ==> forall p :: Get(r.value, p) == if p == fc.path then AddedAt(Get(list, p), fc) else Get(list, p))
    decreases |list| - i
  {
    if i == |list| {
      if DefaultFits(fc) {
        forall p ensures Get(list + [fc], p) == if p == fc.path then Some(fc) else Get(list, p) {
          GetAppended(list, fc, p);
        }
      }
    } else if list[i].path == fc.path {
      var c := Absorbed(list[i], fc);
      if c.Some? {
        AbsorbedPath(list[i], fc);
        forall p ensures Distinct(list[i := c.value])
                 ensures Get(list[i := c.value], p) == if p == fc.path then c else Get(list, p)
        {
          GetUpdated(list, i, c.value, p);
        }
        GetUpdated(list, i, c.value, []);
      }
    } else if !(list[i].isPrimaryKey && fc.isPrimaryKey) {
      AddedFromByPath(list, fc, i + 1);
    }
  }

  // ----------------------------------------------------- one user constraint

  ghost predicate UserGiven(user: seq<FieldConstraint>) {
    forall i :: 0 <= i < |user| ==> !user[i].isInferred
  }

  /** The meaning once the prefixes of length up to k of a path are added too. */
  function Partial(user: seq<FieldConstraint>, q: Path, k: nat, p: Path): Option<FieldConstraint> {
    if |p| <= k && Extends(q, p) && Get(user, p).None?
    then Some(Plain(p, KindAt(q, |p|), AddPath(Extenders(user, p), q)))
    else Meaning(user, p)
  }

  /** Whatever is there for a prefix can be the document or array a path needs. */
  predicate AgreesAt(user: seq<FieldConstraint>, q: Path, k: nat)
    requires k < |q|
  {
    var o := Meaning(user, q[..k]);
    o.None? || (o.value.typ == KindAt(q, k) && o.value.identity.None?)
  }

  lemma PrefixAbsorbed(user: seq<FieldConstraint>, q: Path, k: nat)
    requires UserGiven(user) && 1 <= k < |q|
    ensures AddedAt(Meaning(user, q[..k]), Plain(q[..k], KindAt(q, k), [q]))
            == if AgreesAt(user, q, k) then Partial(user, q, k, q[..k]) else None
  {
    var p := q[..k];
    var fc := Plain(p, KindAt(q, k), [q]);
    var o := Meaning(user, p);
    assert AddPath([], q) == [q];
    if o.Some? && Get(user, p).None? {
      assert [q][..0] == [] && Merge(o.value.inferredBy, []) == o.value.inferredBy;
      assert Merge(o.value.inferredBy, [q]) == AddPath(o.value.inferredBy, q);
    }
  }

  lemma PartialElsewhere(user: seq<FieldConstraint>, q: Path, k: nat, p: Path)
    requires 1 <= k < |q| && p != q[..k]
    ensures Partial(user, q, k, p) == Partial(user, q, k - 1, p)
  {
  }

  /** The list stands for the user's constraints and the prefixes of length up to k. */
  ghost predicate Stands(list: seq<FieldConstraint>, user: seq<FieldConstraint>, q: Path, k: nat) {
    Distinct(list) && forall p :: Get(list, p) == Partial(user, q, k, p)
  }

  lemma NextPrefix(user: seq<FieldConstraint>, list: seq<FieldConstraint>, q: Path, k: nat)
    requires UserGiven(user) && 1 <= k < |q| && Stands(list, user, q, k - 1)
    ensures var r := Added(list, Plain(q[..k], KindAt(q, k), [q]));
            (r.Some? <==> AgreesAt(user, q, k)) && (r.Some? ==> Stands(r.value, user, q, k))
  {
    AddedFromByPath(list, Plain(q[..k], KindAt(q, k), [q]), 0);
    PrefixAbsorbed(user, q, k);
    assert Get(list, q[..k]) == Partial(user, q, k - 1, q[..k]) == Meaning(user, q[..k]);
    forall p | p != q[..k] ensures Partial(user, q, k, p) == Partial(user, q, k - 1, p) {
      PartialElsewhere(user, q, k, p);
    }
  }

  lemma MeansStands(list: seq<FieldConstraint>, user: seq<FieldConstraint>, q: Path)
    requires Means(list, user)
    ensures Stands(list, user, q, 0)
  {
  }

  lemma {:induction false} PrefixesByPath(user: seq<FieldConstraint>, list: seq<FieldConstraint>, q: Path, k: nat)
    requires UserGiven(user) && Means(list, user) && (k == 0 || k < |q|)
    ensures var r := AddPrefixes(list, q, k);
            && (r.Some? <==> forall j :: 1 <= j <= k ==> AgreesAt(user, q, j))
            && (r.Some? ==> Stands(r.value, user, q, k))
  {
    if k == 0 {
      MeansStands(list, user, q);
    } else {
      PrefixesByPath(user, list, q, k - 1);
      var before := AddPrefixes(list, q, k - 1);
      if before.Some? { NextPrefix(user, before.value, q, k); }
    }
  }

  lemma ExtendersAppended(user: seq<FieldConstraint>, v: FieldConstraint, p: Path)
    ensures Extenders(user + [v], p) == if Extends(v.path, p) then Extenders(user, p) + [v.path] else Extenders(user, p)
  {
    assert (user + [v])[..|user|] == user;
    assert Extenders(user, p) + [] == Extenders(user, p);
  }

  lemma MeaningAppended(user: seq<FieldConstraint>, v: FieldConstraint, p: Path)
    requires p != v.path
    ensures !Extends(v.path, p) || Get(user, p).Some? ==> Meaning(user + [v], p) == Meaning(user, p)
    ensures Extends(v.path, p) && Get(user, p).None? ==>
              && Meaning(user + [v], p).Some?
              && var m := Meaning(user + [v], p).value;
                 && m == Plain(p, m.typ, Extenders(user, p) + [v.path])
                 && m.typ == if Meaning(user, p).None? then KindAt(v.path, |p|) else Meaning(user, p).value.typ
  {
    GetAppended(user, v, p);
    ExtendersAppended(user, v, p);
  }

  /** What the last step of a user constraint needs. */
  predicate Fits(user: seq<FieldConstraint>, v: FieldConstraint) {
    && Get(user, v.path).None?
    && match Meaning(user, v.path)
       case None => DefaultFits(v)
       case Some(m) => m.typ == v.typ && v.identity.None?
  }

  lemma UserAbsorbed(user: seq<FieldConstraint>, v: FieldConstraint)
    requires UserGiven(user) && !v.isInferred
    ensures AddedAt(Meaning(user, v.path), v) == if Fits(user, v) then Some(v) else None
  {
  }

  lemma PartialIsAppended(user: seq<FieldConstraint>, v: FieldConstraint, k: nat, p: Path)
    requires Get(user, v.path).None? && p != v.path && |v.path| <= k + 1
    requires (k == 0 || k < |v.path|) && forall j :: 1 <= j <= k ==> AgreesAt(user, v.path, j)
    ensures Partial(user, v.path, k, p) == Meaning(user + [v], p)
  {
    MeaningAppended(user, v, p);
    ExtendersExtend(user, p, v.path);
    if Extends(v.path, p) {
      assert v.path[..|p|] == p && AgreesAt(user, v.path, |p|);
    }
  }

  /** All the prefixes and the constraint itself find what they need. */
  ghost predicate Joins(user: seq<FieldConstraint>, v: FieldConstraint) {
    && Fits(user, v)
    && forall j :: 1 <= j < |v.path| ==> AgreesAt(user, v.path, j)
  }

  function Inner(v: FieldConstraint): nat { if |v.path| > 1 then |v.path| - 1 else 0 }

  lemma WholeByPath(user: seq<FieldConstraint>, list: seq<FieldConstraint>, v: FieldConstraint)
    requires UserGiven(user) && !v.isInferred && Means(list, user)
    ensures var before, r := AddPrefixes(list, v.path, Inner(v)), AddWhole(list, v);
            && (r.Some? <==> Joins(user, v) && before.Some?
                             && !(v.isPrimaryKey && KeyIn(before.value, 0, Find(before.value, v.path))))
            && (r.Some? ==> Means(r.value, user + [v]))
            && (Joins(user, v) ==> before.Some? && Stands(before.value, user, v.path, Inner(v)))
  {
    var k := Inner(v);
    PrefixesByPath(user, list, v.path, k);
    var before := AddPrefixes(list, v.path, k);
    if before.Some? {
      AddedFromByPath(before.value, v, 0);
      UserAbsorbed(user, v);
      assert Get(before.value, v.path) == Partial(user, v.path, k, v.path) == Meaning(user, v.path);
      if AddWhole(list, v).Some? {
        forall p ensures Get(AddWhole(list, v).value, p) == Meaning(user + [v], p) {
          if p == v.path { GetAppended(user, v, p); } else { PartialIsAppended(user, v, k, p); }
        }
      }
    }
  }

  // ------------------------------------------------------------ the theorem

  ghost predicate OneKey(list: seq<FieldConstraint>) {
    forall i, j :: 0 <= i < j < |list| ==> !(list[i].isPrimaryKey && list[j].isPrimaryKey)
  }

  /** When Infer succeeds, the result holds exactly one entry for every path of the
      user, as given, and for every proper prefix of one, and each inferred entry
      names the paths it comes from. */
  lemma {:induction false} InferMeans(user: seq<FieldConstraint>)
    requires UserGiven(user) && InferAll(user).Some?
    ensures Means(InferAll(user).value, user)
  {
    if user != [] {
      var before, v := user[..|user| - 1], user[|user| - 1];
      InferMeans(before);
      WholeByPath(before, InferAll(before).value, v);
      assert before + [v] == user;
    }
  }

  /** Read off for the user: no path twice; every constraint given is kept; every
      proper prefix of a path has an entry with the type the next fragment asks for. */
  lemma InferKeeps(user: seq<FieldConstraint>, u: nat, k: nat)
    requires UserGiven(user) && InferAll(user).Some? && u < |user| && 1 <= k < |user[u].path|
    ensures var r := InferAll(user).value;
            && Get(r, user[u].path) == Some(user[u])
            && Get(r, user[u].path[..k]).Some?
            && Get(r, user[u].path[..k]).value.typ == (if user[u].path[k].fieldName == "" then ArrayType else DocumentType)
  {
    InferMeans(user);
    InferCoherent(user);
    UserFound(user, u);
    assert Says(user[u], user[u].path[..k]) == Some(KindAt(user[u].path, k));
    SpokenMeaning(user, u, user[u].path[..k]);
  }

  lemma {:induction false} ExtendersDistinct(user: seq<FieldConstraint>, p: Path, i: nat, j: nat)
    requires AllCompatible(user) && i < j < |Extenders(user, p)|
    ensures Extenders(user, p)[i] != Extenders(user, p)[j]
  {
    var before, v := user[..|user| - 1], user[|user| - 1];
    assert AllCompatible(before);
    if j < |Extenders(before, p)| {
      ExtendersDistinct(before, p, i, j);
    } else {
      var q := Extenders(before, p)[i];
      ExtendersExtend(before, p, q);
      assert Compatible(user[Find(before, q)], v);
    }
  }

  /** An inferred entry names, without repetition, exactly the user's paths that extend
      its own, and there is a user path for every entry. */
  lemma InferredByExact(user: seq<FieldConstraint>, p: Path, q: Path)
    requires UserGiven(user) && InferAll(user).Some? && Get(InferAll(user).value, p).Some?
    ensures var e := Get(InferAll(user).value, p).value;
            && (!e.isInferred ==> Get(user, p) == Some(e))
            && (e.isInferred ==>
                  && Get(user, p).None? && e.inferredBy != [] && e == Plain(p, e.typ, e.inferredBy)
                  && (q in e.inferredBy <==> Extends(q, p) && Get(user, q).Some?)
                  && forall i, j :: 0 <= i < j < |e.inferredBy| ==> e.inferredBy[i] != e.inferredBy[j])
  {
    InferMeans(user);
    InferCoherent(user);
    ExtendersExtend(user, p, q);
    var causes := Extenders(user, p);
    forall i, j | 0 <= i < j < |causes| ensures causes[i] != causes[j] { ExtendersDistinct(user, p, i, j); }
    assert Get(InferAll(user).value, p) == Meaning(user, p);
  }

  /** The result has at most one primary key exactly when the user gave at most one. */
  lemma InferOneKey(user: seq<FieldConstraint>)
    requires UserGiven(user) && InferAll(user).Some?
    ensures OneKey(InferAll(user).value) <==> OneKey(user)
  {
    InferMeans(user);
    InferCoherent(user);
    var r := InferAll(user).value;
    if i, j :| 0 <= i < j < |r| && r[i].isPrimaryKey && r[j].isPrimaryKey { KeyGiven(user, r, i, j); }
    if i, j :| 0 <= i < j < |user| && user[i].isPrimaryKey && user[j].isPrimaryKey { KeyKept(user, r, i, j); }
  }

  lemma KeyGiven(user: seq<FieldConstraint>, r: seq<FieldConstraint>, i: nat, j: nat)
    requires Means(r, user) && i < j < |r| && r[i].isPrimaryKey && r[j].isPrimaryKey
    ensures !OneKey(user)
  {
    FindIs(r, i);
    FindIs(r, j);
    assert Meaning(user, r[i].path) == Some(r[i]) && Meaning(user, r[j].path) == Some(r[j]);
    var a, b := Find(user, r[i].path), Find(user, r[j].path);
    assert user[a] == r[i] && user[b] == r[j];
    assert a < b || b < a;
  }

  lemma KeyKept(user: seq<FieldConstraint>, r: seq<FieldConstraint>, i: nat, j: nat)
    requires Means(r, user) && AllCompatible(user) && i < j < |user| && user[i].isPrimaryKey && user[j].isPrimaryKey
    ensures !OneKey(r)
  {
    UserFound(user, i);
    UserFound(user, j);
    assert Compatible(user[i], user[j]);
    assert Get(r, user[i].path) == Some(user[i]) && Get(r, user[j].path) == Some(user[j]);
    var a, b := Find(r, user[i].path), Find(r, user[j].path);
    assert r[a] == user[i] && r[b] == user[j];
    assert a < b || b < a;
  }

  // --------------------------------------------------- when Infer succeeds

  /** The type a constraint gives to a path, its own or a prefix of it. */
  function Says(u: FieldConstraint, p: Path): Option<ValueType> {
    if p == u.path then Some(u.typ)
    else if Extends(u.path, p) then Some(KindAt(u.path, |p|))
    else None
  }

  /** Two constraints are on different paths and say the same of every path they both
      speak of, and neither has an identity on a path inside the other. */
  ghost predicate Compatible(u: FieldConstraint, v: FieldConstraint) {
    && u.path != v.path
    && forall p :: Says(u, p).Some? && Says(v, p).Some? ==>
         && Says(u, p) == Says(v, p)
         && (p == u.path ==> u.identity.None?)
         && (p == v.path ==> v.identity.None?)
  }

  ghost predicate AllCompatible(user: seq<FieldConstraint>) {
    forall i, j :: 0 <= i < j < |user| ==> Compatible(user[i], user[j])
  }

  /** A default value fits the type, unless a constraint given earlier extends the path. */
  ghost predicate DefaultsFit(user: seq<FieldConstraint>) {
    forall j :: 0 <= j < |user| ==> DefaultFitsAt(user, j)
  }

  /** What the user can check beforehand, with no list of inferred entries. */
  ghost predicate Coherent(user: seq<FieldConstraint>) { AllCompatible(user) && DefaultsFit(user) }

  lemma UserFound(user: seq<FieldConstraint>, u: nat)
    requires AllCompatible(user) && u < |user|
    ensures Find(user, user[u].path) == u && Get(user, user[u].path) == Some(user[u])
  {
    var k := Find(user, user[u].path);
    assert k < u ==> Compatible(user[k], user[u]);
  }

  lemma SaysSame(user: seq<FieldConstraint>, i: nat, j: nat, p: Path)
    requires AllCompatible(user) && i < |user| && j < |user|
    requires Says(user[i], p).Some? && Says(user[j], p).Some?
    ensures Says(user[i], p) == Says(user[j], p)
  {
    if i < j {
      assert Compatible(user[i], user[j]);
    } else if j < i {
      assert Compatible(user[j], user[i]);
    }
  }

  /** What the constraints mean for a path, one of them says. */
  lemma MeaningSpoken(user: seq<FieldConstraint>, p: Path) returns (i: nat)
    requires Meaning(user, p).Some?
    ensures i < |user| && Says(user[i], p) == Some(Meaning(user, p).value.typ)
    ensures Get(user, p).Some? ==> Meaning(user, p) == Some(user[i])
    ensures Get(user, p).None? ==> Meaning(user, p).value.isInferred && Extends(user[i].path, p)
                                   && Meaning(user, p).value.identity.None?
  {
    if Get(user, p).Some? {
      i := Find(user, p);
    } else {
      var q := Extenders(user, p)[0];
      ExtendersExtend(user, p, q);
      i := Find(user, q);
    }
  }

  lemma SpokenMeaning(user: seq<FieldConstraint>, i: nat, p: Path)
    requires AllCompatible(user) && i < |user| && Says(user[i], p).Some?
    ensures Meaning(user, p).Some? && Says(user[i], p) == Some(Meaning(user, p).value.typ)
  {
    if Get(user, p).None? {
      GetNone(user, p);
      ExtendersExtend(user, p, user[i].path);
      GetNone(user, user[i].path);
    }
    var j := MeaningSpoken(user, p);
    SaysSame(user, i, j, p);
  }

  ghost predicate Welcome(user: seq<FieldConstraint>, v: FieldConstraint) {
    && (forall i :: 0 <= i < |user| ==> Compatible(user[i], v))
    && (DefaultFits(v) || exists i :: 0 <= i < |user| && Extends(user[i].path, v.path))
  }

  lemma WelcomeJoins(user: seq<FieldConstraint>, v: FieldConstraint)
    requires AllCompatible(user) && Welcome(user, v)
    ensures Joins(user, v)
  {
    GetNone(user, v.path);
    if Meaning(user, v.path).Some? {
      var i := MeaningSpoken(user, v.path);
      assert Compatible(user[i], v) && Says(v, v.path).Some?;
    } else if i :| 0 <= i < |user| && Extends(user[i].path, v.path) {
      SpokenMeaning(user, i, v.path);
    }
    forall j | 1 <= j < |v.path| ensures AgreesAt(user, v.path, j) {
      var p := v.path[..j];
      if Meaning(user, p).Some? {
        var i := MeaningSpoken(user, p);
        assert Compatible(user[i], v) && Says(v, p) == Some(KindAt(v.path, j));
      }
    }
  }

  lemma JoinsCompatible(user: seq<FieldConstraint>, v: FieldConstraint, i: nat, p: Path)
    requires AllCompatible(user) && Joins(user, v) && i < |user|
    requires Says(user[i], p).Some? && Says(v, p).Some?
    ensures Says(user[i], p) == Says(v, p)
    ensures p == user[i].path ==> user[i].identity.None?
    ensures p == v.path ==> v.identity.None?
  {
    SpokenMeaning(user, i, p);
    UserFound(user, i);
    if p != v.path {
      assert v.path[..|p|] == p && AgreesAt(user, v.path, |p|);
    }
  }

  lemma JoinsWelcome(user: seq<FieldConstraint>, v: FieldConstraint)
    requires AllCompatible(user) && Joins(user, v)
    ensures Welcome(user, v)
  {
    GetNone(user, v.path);
    forall i | 0 <= i < |user| ensures Compatible(user[i], v) {
      forall p | Says(user[i], p).Some? && Says(v, p).Some?
        ensures Says(user[i], p) == Says(v, p)
        ensures (p == user[i].path ==> user[i].identity.None?) && (p == v.path ==> v.identity.None?)
      {
        JoinsCompatible(user, v, i, p);
      }
    }
    if Meaning(user, v.path).Some? {
      var i := MeaningSpoken(user, v.path);
    }
  }

  lemma CompatibleAppended(user: seq<FieldConstraint>, v: FieldConstraint)
    ensures AllCompatible(user + [v]) <==>
            AllCompatible(user) && forall i :: 0 <= i < |user| ==> Compatible(user[i], v)
  {
    var all := user + [v];
    if AllCompatible(all) {
      forall i, j | 0 <= i < j < |user| ensures Compatible(user[i], user[j]) {
        assert Compatible(all[i], all[j]);
      }
      forall i | 0 <= i < |user| ensures Compatible(user[i], v) { assert Compatible(all[i], all[|user|]); }
    }
  }

  ghost predicate DefaultFitsAt(user: seq<FieldConstraint>, j: nat)
    requires j < |user|
  {
    DefaultFits(user[j]) || exists i :: 0 <= i < j && Extends(user[i].path, user[j].path)
  }

  lemma DefaultFitsAppended(user: seq<FieldConstraint>, v: FieldConstraint, j: nat)
    requires j < |user|
    ensures DefaultFitsAt(user + [v], j) <==> DefaultFitsAt(user, j)
  {
    var all := user + [v];
    assert forall i :: 0 <= i <= j ==> all[i] == user[i];
    if i :| 0 <= i < j && Extends(user[i].path, user[j].path) { assert Extends(all[i].path, all[j].path); }
  }

  lemma DefaultFitsLast(user: seq<FieldConstraint>, v: FieldConstraint)
    ensures DefaultFitsAt(user + [v], |user|) <==>
            DefaultFits(v) || exists i :: 0 <= i < |user| && Extends(user[i].path, v.path)
  {
    var all := user + [v];
    if i :| 0 <= i < |user| && Extends(user[i].path, v.path) { assert Extends(all[i].path, all[|user|].path); }
  }

  lemma CoherentAppended(user: seq<FieldConstraint>, v: FieldConstraint)
    ensures Coherent(user + [v]) <==> Coherent(user) && Welcome(user, v)
  {
    CompatibleAppended(user, v);
    DefaultFitsLast(user, v);
    DefaultsAppended(user, v);
  }

  lemma DefaultsAppended(user: seq<FieldConstraint>, v: FieldConstraint)
    ensures DefaultsFit(user + [v]) <==> DefaultsFit(user) && DefaultFitsAt(user + [v], |user|)
  {
    var all := user + [v];
    if DefaultsFit(all) {
      assert forall j :: 0 <= j < |user| ==> DefaultFitsAt(all, j);
    }
    forall j | 0 <= j < |user| ensures DefaultFitsAt(user + [v], j) <==> DefaultFitsAt(user, j) {
      DefaultFitsAppended(user, v, j);
    }
  }

  lemma {:induction false} InferCoherent(user: seq<FieldConstraint>)
    requires UserGiven(user) && InferAll(user).Some?
    ensures Coherent(user)
  {
    if user != [] {
      var before, v := user[..|user| - 1], user[|user| - 1];
      InferCoherent(before);
      InferMeans(before);
      WholeByPath(before, InferAll(before).value, v);
      JoinsWelcome(before, v);
      CoherentAppended(before, v);
      assert before + [v] == user;
    }
  }

  // ------------------------------------------------------- several keys

  /** The paths in the order they are first mentioned: those of the user, each after
      its prefixes, shortest first. */
  function Mentions(user: seq<FieldConstraint>): seq<Path> {
    if user == [] then []
    else
      var v := user[|user| - 1];
      AddPath(MentionPrefixes(Mentions(user[..|user| - 1]), v.path, Inner(v)), v.path)
  }

  function MentionPrefixes(ps: seq<Path>, q: Path, k: nat): seq<Path>
    requires k <= |q|
  {
    if k == 0 then ps else AddPath(MentionPrefixes(ps, q, k - 1), q[..k])
  }

  /** Where a path is mentioned first, or the length of the list. */
  function Place(ps: seq<Path>, p: Path): (k: nat)
    ensures k <= |ps|
    ensures forall i :: 0 <= i < k ==> ps[i] != p
    ensures k < |ps| ==> ps[k] == p
  {
    if ps == [] || ps[0] == p then 0
    else
      var k := Place(ps[1..], p);
      assert forall i :: 0 < i <= k ==> ps[i] == ps[1..][i - 1];
      k + 1
  }

  function PathsOf(list: seq<FieldConstraint>): (ps: seq<Path>)
    ensures |ps| == |list| && forall i :: 0 <= i < |list| ==> ps[i] == list[i].path
  {
    seq(|list|, i requires 0 <= i < |list| => list[i].path)
  }

  lemma PlaceIsFind(list: seq<FieldConstraint>, p: Path)
    ensures Place(PathsOf(list), p) == Find(list, p)
  {
  }

  lemma {:induction false} AddedPaths(list: seq<FieldConstraint>, fc: FieldConstraint, i: nat)
    requires i <= Find(list, fc.path) && AddedFrom(list, fc, i).Some?
    ensures PathsOf(AddedFrom(list, fc, i).value) == AddPath(PathsOf(list), fc.path)
    decreases |list| - i
  {
    if i == |list| {
      assert fc.path !in PathsOf(list);
      assert PathsOf(list + [fc]) == PathsOf(list) + [fc.path];
    } else if list[i].path == fc.path {
      AbsorbedPath(list[i], fc);
      assert PathsOf(list)[i] == fc.path;
      assert PathsOf(list[i := Absorbed(list[i], fc).value]) == PathsOf(list);
    } else {
      AddedPaths(list, fc, i + 1);
    }
  }

  lemma {:induction false} PrefixPaths(list: seq<FieldConstraint>, q: Path, k: nat)
    requires (k == 0 || k < |q|) && AddPrefixes(list, q, k).Some?
    ensures PathsOf(AddPrefixes(list, q, k).value) == MentionPrefixes(PathsOf(list), q, k)
  {
    if k > 0 {
      PrefixPaths(list, q, k - 1);
      AddedPaths(AddPrefixes(list, q, k - 1).value, Plain(q[..k], KindAt(q, k), [q]), 0);
    }
  }

  /** The result lists the paths in the order of their first mention. */
  lemma {:induction false} InferOrder(user: seq<FieldConstraint>)
    requires InferAll(user).Some?
    ensures PathsOf(InferAll(user).value) == Mentions(user)
  {
    if user != [] {
      var before, v := user[..|user| - 1], user[|user| - 1];
      InferOrder(before);
      PrefixPaths(InferAll(before).value, v.path, Inner(v));
      AddedPaths(AddPrefixes(InferAll(before).value, v.path, Inner(v)).value, v, 0);
    }
  }

  lemma {:induction false} PrefixesMentioned(ps: seq<Path>, q: Path, k: nat)
    requires k <= |q|
    ensures ps <= MentionPrefixes(ps, q, k)
    ensures k < |q| ==> (q in MentionPrefixes(ps, q, k) <==> q in ps)
  {
    if k > 0 { PrefixesMentioned(ps, q, k - 1); }
  }

  lemma {:induction false} UserMentioned(user: seq<FieldConstraint>, i: nat)
    requires i < |user|
    ensures user[i].path in Mentions(user)
  {
    var before, v := user[..|user| - 1], user[|user| - 1];
    PrefixesMentioned(Mentions(before), v.path, Inner(v));
    if i < |user| - 1 { UserMentioned(before, i); }
  }

  lemma PlaceInLonger(ps: seq<Path>, qs: seq<Path>, p: Path)
    requires ps <= qs
    ensures p in ps ==> Place(qs, p) == Place(ps, p) < |ps|
    ensures p !in ps ==> Place(ps, p) == |ps|
    ensures p !in qs ==> Place(qs, p) == |qs|
  {
  }

  /** A key is mentioned before every earlier key. */
  ghost predicate KeyFits(user: seq<FieldConstraint>, v: FieldConstraint) {
    v.isPrimaryKey ==>
      forall i :: 0 <= i < |user| && user[i].isPrimaryKey ==>
        Place(Mentions(user), v.path) < Place(Mentions(user), user[i].path)
  }

  ghost predicate KeysInPlace(user: seq<FieldConstraint>) {
    forall j :: 0 <= j < |user| ==> KeyFits(user[..j], user[j])
  }

  lemma SamePlaces(user: seq<FieldConstraint>, q: Path, k: nat, p: Path)
    requires k < |q| || |q| == 0 == k
    requires p in Mentions(user)
    ensures var ps, qs := Mentions(user), MentionPrefixes(Mentions(user), q, k);
            && Place(qs, p) == Place(ps, p)
            && (p != q ==> (Place(qs, p) < Place(qs, q) <==> Place(ps, p) < Place(ps, q)))
  {
    var ps, qs := Mentions(user), MentionPrefixes(Mentions(user), q, k);
    PrefixesMentioned(ps, q, k);
    PlaceInLonger(ps, qs, p);
    PlaceInLonger(ps, qs, q);
  }

  lemma KeyStands(user: seq<FieldConstraint>, list: seq<FieldConstraint>, v: FieldConstraint)
    requires AllCompatible(user) && Get(user, v.path).None? && v.isPrimaryKey
    requires Stands(list, user, v.path, Inner(v))
    requires PathsOf(list) == MentionPrefixes(Mentions(user), v.path, Inner(v))
    ensures KeyFits(user, v) <==> !KeyIn(list, 0, Find(list, v.path))
  {
    if j :| 0 <= j < Find(list, v.path) && list[j].isPrimaryKey { KeyBefore(user, list, v, j); }
    if i :| 0 <= i < |user| && user[i].isPrimaryKey && Place(Mentions(user), v.path) >= Place(Mentions(user), user[i].path) {
      KeyAfter(user, list, v, i);
    }
  }

  lemma KeyBefore(user: seq<FieldConstraint>, list: seq<FieldConstraint>, v: FieldConstraint, j: nat)
    requires Get(user, v.path).None? && v.isPrimaryKey && Stands(list, user, v.path, Inner(v))
    requires PathsOf(list) == MentionPrefixes(Mentions(user), v.path, Inner(v))
    requires j < Find(list, v.path) && list[j].isPrimaryKey
    ensures !KeyFits(user, v)
  {
    GetNone(user, v.path);
    var i := KeyOfUser(user, list, v.path, Inner(v), j);
    UserMentioned(user, i);
    SamePlaces(user, v.path, Inner(v), user[i].path);
    PlaceIsFind(list, v.path);
    PlaceIsFind(list, user[i].path);
    FindIs(list, j);
  }

  lemma KeyAfter(user: seq<FieldConstraint>, list: seq<FieldConstraint>, v: FieldConstraint, i: nat)
    requires AllCompatible(user) && Get(user, v.path).None? && Stands(list, user, v.path, Inner(v))
    requires PathsOf(list) == MentionPrefixes(Mentions(user), v.path, Inner(v))
    requires i < |user| && user[i].isPrimaryKey && Place(Mentions(user), v.path) >= Place(Mentions(user), user[i].path)
    ensures KeyIn(list, 0, Find(list, v.path))
  {
    GetNone(user, v.path);
    UserMentioned(user, i);
    SamePlaces(user, v.path, Inner(v), user[i].path);
    PlaceIsFind(list, v.path);
    PlaceIsFind(list, user[i].path);
    UserFound(user, i);
    assert Get(list, user[i].path) == Some(user[i]);
    DifferentPlaces(Mentions(user), v.path, user[i].path);
    assert list[Find(list, user[i].path)].isPrimaryKey;
  }

  lemma DifferentPlaces(ps: seq<Path>, p: Path, q: Path)
    requires p != q && q in ps
    ensures Place(ps, p) != Place(ps, q)
  {
  }

  lemma KeyOfUser(user: seq<FieldConstraint>, list: seq<FieldConstraint>, q: Path, k: nat, j: nat) returns (i: nat)
    requires Stands(list, user, q, k) && j < |list| && list[j].isPrimaryKey
    ensures i < |user| && user[i] == list[j]
  {
    FindIs(list, j);
    assert Get(list, list[j].path) == Partial(user, q, k, list[j].path);
    i := Find(user, list[j].path);
  }

  lemma OneMore(user: seq<FieldConstraint>, v: FieldConstraint)
    requires UserGiven(user) && !v.isInferred && InferAll(user).Some?
    ensures InferAll(user + [v]).Some? <==> Welcome(user, v) && KeyFits(user, v)
  {
    var list := InferAll(user).value;
    assert (user + [v])[..|user|] == user;
    InferMeans(user);
    InferCoherent(user);
    WholeByPath(user, list, v);
    if Welcome(user, v) { WelcomeJoins(user, v); }
    if Joins(user, v) {
      JoinsWelcome(user, v);
      InferOrder(user);
      PrefixPaths(list, v.path, Inner(v));
      if v.isPrimaryKey { KeyStands(user, AddPrefixes(list, v.path, Inner(v)).value, v); }
    }
  }

  lemma KeysAppended(user: seq<FieldConstraint>, v: FieldConstraint)
    ensures KeysInPlace(user + [v]) <==> KeysInPlace(user) && KeyFits(user, v)
  {
    var all := user + [v];
    assert all[..|user|] == user && all[|user|] == v;
    forall j | 0 <= j < |user| ensures KeyFits(all[..j], all[j]) <==> KeyFits(user[..j], user[j]) {
      assert all[..j] == user[..j];
    }
    if KeysInPlace(all) { assert KeyFits(all[..|user|], all[|user|]); }
  }

  /** Infer succeeds exactly when the constraints are coherent and every primary key is
      mentioned before the keys given earlier. */
  lemma {:induction false} InferIff(user: seq<FieldConstraint>)
    requires UserGiven(user)
    ensures InferAll(user).Some? <==> Coherent(user) && KeysInPlace(user)
  {
    if user != [] {
      var before, v := user[..|user| - 1], user[|user| - 1];
      assert before + [v] == user;
      InferIff(before);
      CoherentAppended(before, v);
      KeysAppended(before, v);
      if InferAll(before).Some? { OneMore(before, v); }
    }
  }

  /** A second primary key gets through exactly when its path is mentioned before that
      of the first, and then the result has two. */
  lemma SecondKeyIff(user: seq<FieldConstraint>, i: nat, v: FieldConstraint)
    requires UserGiven(user) && InferAll(user).Some? && OneKey(user) && i < |user| && user[i].isPrimaryKey
    requires !v.isInferred && v.isPrimaryKey && Welcome(user, v)
    ensures InferAll(user + [v]).Some? <==> Place(Mentions(user), v.path) < Place(Mentions(user), user[i].path)
    ensures InferAll(user + [v]).Some? ==> !OneKey(InferAll(user + [v]).value)
  {
    OneMore(user, v);
    assert forall j :: 0 <= j < |user| && user[j].isPrimaryKey ==> j == i;
    if InferAll(user + [v]).Some? {
      var all := user + [v];
      assert all[i].isPrimaryKey && all[|user|].isPrimaryKey;
      InferOneKey(all);
    }
  }

  /** Of a single constraint only the default can be refused: one that cannot be cast to the
      type, or NEXT VALUE FOR on a type that no number becomes. */
  lemma AloneIff(fc: FieldConstraint)
    requires |fc.path| == 1
    ensures InferAll([fc]).Some? <==>
            || fc.default.None? || fc.typ.AnyType?
            || (fc.default.value.Evaluates? && fc.typ in fc.default.value.castsTo)
            || (fc.default.value.NextValueFor? && (fc.typ.IntegerType? || fc.typ.DoubleType? || fc.typ.TextType? || fc.typ.BoolType?))
  {
    assert [fc][..0] == [];
    assert InferAll([]) == Some([]);
    assert InferAll([fc]) == AddWhole([], fc);
  }

  function Simple(path: Path, typ: ValueType, key: bool): FieldConstraint {
    FieldConstraint(path, typ, key, false, false, None, None, false, [])
  }

  /** Two primary keys accepted: `b.c INTEGER, a INTEGER PRIMARY KEY, b DOCUMENT PRIMARY KEY`. */
  lemma TwoKeysAccepted(a: Fragment, b: Fragment, c: Fragment)
    requires a != b && c.fieldName != ""
    ensures var user := [Simple([b, c], IntegerType, false), Simple([a], IntegerType, true), Simple([b], DocumentType, true)];
            UserGiven(user) && InferAll(user).Some? && !OneKey(InferAll(user).value)
  {
    var u0, u1, u2 := Simple([b, c], IntegerType, false), Simple([a], IntegerType, true), Simple([b], DocumentType, true);
    var user := [u0, u1, u2];
    assert [b, c][..1] == [b];
    assert Compatible(u0, u1) && Compatible(u0, u2) && Compatible(u1, u2);
    assert Coherent(user);
    MentionsOfTwo(u0, u1, a, b, c);
    assert user[..2] == [u0, u1];
    forall j | 0 <= j < 3 ensures KeyFits(user[..j], user[j]) {
      assert j == 2 || forall i :: 0 <= i < j ==> !user[..j][i].isPrimaryKey;
    }
    InferIff(user);
    assert user[1].isPrimaryKey && user[2].isPrimaryKey;
    InferOneKey(user);
  }

  lemma MentionsOfTwo(u: FieldConstraint, v: FieldConstraint, a: Fragment, b: Fragment, c: Fragment)
    requires u.path == [b, c] && v.path == [a] && a != b
    ensures Place(Mentions([u, v]), [b]) < Place(Mentions([u, v]), [a])
  {
    assert [u, v][..1] == [u] && [u][..0] == [] && [b, c][..1] == [b];
    assert Mentions([]) == [];
    assert MentionPrefixes([], [b, c], 0) == [];
    assert MentionPrefixes([], [b, c], 1) == [[b]];
    assert Mentions([u]) == [[b], [b, c]];
    assert Mentions([u, v]) == [[b], [b, c], [a]];
  }
}
