/** Expressions and their evaluation (internal/expr), constant folding
    (internal/planner/optimizer.go, precalculateExpr). */
module Expressions {

  import opened Prelude
  import opened Bytes
  import opened BinarySort
  import opened Values
  import opened Compare

  /** Errors are told apart by a number. */
  datatype Eval = Ok(v: Value) | Err(error: nat)

  const FIELD_NOT_FOUND: nat := 1
  const PARAM_NOT_FOUND: nat := 2

  /** What the scalar operators compute: total functions of their operands'
      values, kept abstract. Their results are numbers, booleans or NULL. `alone` is
      what the parts folding does not know answer in the empty environment. */
  datatype Operations = Operations(
    arithmetic: (nat, Value, Value) -> Value,
    comparison: (nat, Value, Value) -> Value,
    alone: nat -> Eval)

  /** `Arithmetic` covers + - * / % & | ^ and `Comparison` covers = != > >= < <= IS,
      IS NOT, IN, NOT IN, LIKE and NOT LIKE, by number. `Opaque` is anything the
      folding leaves alone: functions, casts, NOT, parentheses, `||`. */
  datatype Expr =
    | Literal(v: Value)
    | Path(path: nat)
    | Param(param: nat)
    | List(es: seq<Expr>)
    | Pairs(kvs: seq<Pair>)
    | And(l: Expr, r: Expr)
    | Or(l: Expr, r: Expr)
    | Arithmetic(op: nat, l: Expr, r: Expr)
    | Comparison(op: nat, l: Expr, r: Expr)
    | Between(x: Expr, l: Expr, r: Expr)
    | Opaque(id: nat)

  datatype Pair = Pair(k: ByteString, e: Expr)

  /** An environment: whether it holds a document, and what it answers. */
  datatype Env = Env(hasDocument: bool, paths: nat -> Eval, params: nat -> Eval, others: nat -> Eval)

  /** The environment constants are folded in. */
  function Empty(ops: Operations): Env {
    Env(false, _ => Err(FIELD_NOT_FOUND), _ => Err(PARAM_NOT_FOUND), ops.alone)
  }

  datatype Truth = Truth(isTruthy: bool) | NoTruth(error: nat)

  /** IsTruthy, for values in memory. An empty array answers with an error, since its
      GetByIndex does not use the error that IsZeroValue looks for. */
  function IsTruthy(v: Value): Truth {
    match v
    case Null => Truth(false)
    case Bool(b) => Truth(b)
    case Integer(i) => Truth(i != 0)
    case Double(d) => Truth(IsNaN(d) || Key(d) != 0)
    case Text(t) => Truth(t != [])
    case Blob(_) => Truth(true)
    case Array(vs) => if vs == [] then NoTruth(FIELD_NOT_FOUND) else Truth(true)
    case Document(fields) => Truth(fields != [])
  }

  function Evaluate(ops: Operations, e: Expr, env: Env): Eval
    decreases e, 1
  {
    match e
    case Literal(v) => Ok(v)
    case Path(p) => if env.hasDocument then env.paths(p) else Err(FIELD_NOT_FOUND)
    case Param(n) => env.params(n)
    case Opaque(id) => env.others(id)
    case List(_) => EvaluateList(ops, e, env, 0, [])
    case Pairs(_) => EvaluatePairs(ops, e, env, 0, [])
    case And(l, r) => EvaluateAnd(Evaluate(ops, l, env), Evaluate(ops, r, env))
    case Or(l, r) => EvaluateOr(Evaluate(ops, l, env), Evaluate(ops, r, env))
    case Arithmetic(op, l, r) => EvaluateArithmetic(ops, op, Evaluate(ops, l, env), Evaluate(ops, r, env))
    case Comparison(op, l, r) => EvaluateComparison(ops, op, Evaluate(ops, l, env), Evaluate(ops, r, env))
    case Between(x, l, r) =>
      EvaluateBetween(Evaluate(ops, x, env), Evaluate(ops, l, env), Evaluate(ops, r, env))
  }

  /** The right operand counts only when the left one is truthy. */
  function EvaluateAnd(l: Eval, r: Eval): Eval {
    if l.Err? then l
    else
      var t := IsTruthy(l.v);
      if t.NoTruth? then Err(t.error)
      else if !t.isTruthy then Ok(Bool(false))
      else if r.Err? then r
      else
        var u := IsTruthy(r.v);
        if u.NoTruth? then Err(u.error) else Ok(Bool(u.isTruthy))
  }

  function EvaluateOr(l: Eval, r: Eval): Eval {
    if l.Err? then l
    else
      var t := IsTruthy(l.v);
      if t.NoTruth? then Err(t.error)
      else if t.isTruthy then Ok(Bool(true))
      else if r.Err? then r
      else
        var u := IsTruthy(r.v);
        if u.NoTruth? then Err(u.error) else Ok(Bool(u.isTruthy))
  }

  function EvaluateArithmetic(ops: Operations, op: nat, l: Eval, r: Eval): Eval {
    if l.Err? then l else if r.Err? then r else Ok(ops.arithmetic(op, l.v, r.v))
  }

  function EvaluateComparison(ops: Operations, op: nat, l: Eval, r: Eval): Eval {
    if l.Err? then l else if r.Err? then r else Ok(ops.comparison(op, l.v, r.v))
  }

  /** The comparison of BETWEEN: NULL bounds give NULL. */
  function IsBetween(x: Value, l: Value, r: Value): Value {
    if l.Null? || r.Null? then Null else Bool(Answer(Gte, x, l) && Answer(Lte, x, r))
  }

  function EvaluateBetween(x: Eval, l: Eval, r: Eval): Eval {
    if x.Err? then x else if l.Err? then l else if r.Err? then r else Ok(IsBetween(x.v, l.v, r.v))
  }

  function EvaluateList(ops: Operations, e: Expr, env: Env, i: nat, done: seq<Value>): Eval
    requires e.List? && i <= |e.es|
    decreases e, 0, |e.es| - i
  {
    if i == |e.es| then Ok(Array(done))
    else
      var v := Evaluate(ops, e.es[i], env);
      if v.Err? then v else EvaluateList(ops, e, env, i + 1, done + [v.v])
  }

  function EvaluatePairs(ops: Operations, e: Expr, env: Env, i: nat, done: seq<Field>): Eval
    requires e.Pairs? && i <= |e.kvs|
    decreases e, 0, |e.kvs| - i
  {
    if i == |e.kvs| then Ok(Document(done))
    else
      var v := Evaluate(ops, e.kvs[i].e, env);
      if v.Err? then v else EvaluatePairs(ops, e, env, i + 1, done + [Field(e.kvs[i].k, v.v)])
  }

  // --------------------------------------------------- what evaluation gives

  const ZEROS := [Bool(false), Integer(0), Double(0), Text([]), Document([])]

  /** NULL and what equals the zero of its own type is false, the rest is true; only an
      empty array is neither. */
  lemma TruthIff(v: Value)
    ensures IsTruthy(v).NoTruth? <==> v == Array([])
    ensures IsTruthy(v) == Truth(false) <==>
            v.Null? || exists k :: 0 <= k < |ZEROS| && Type(v) == Type(ZEROS[k]) && Order(v, ZEROS[k]) == 0
  {
    assert Key(0) == 0;
    if v.Text? { LexEqual(v.t, []); }
    assert forall k :: 0 <= k < |ZEROS| ==> Type(ZEROS[k]) in {0x81, 0x90, 0xA0, 0xC0, 0xF0};
    if IsTruthy(v) == Truth(false) && !v.Null? {
      var k := if v.Bool? then 0 else if v.Integer? then 1 else if v.Double? then 2 else if v.Text? then 3 else 4;
      assert Type(v) == Type(ZEROS[k]) && Order(v, ZEROS[k]) == 0;
    }
  }

  predicate Answers(r: Eval, truth: bool) { r.Ok? && IsTruthy(r.v) == Truth(truth) }

  /** A conjunction is true when both operands are, a disjunction when one is, and each is
      false otherwise; the right operand is not asked when the left one settles it. */
  lemma AndOrTruth(ops: Operations, l: Expr, r: Expr, env: Env)
    ensures var a, b := Evaluate(ops, l, env), Evaluate(ops, r, env);
            && (Evaluate(ops, And(l, r), env) == Ok(Bool(true)) <==> Answers(a, true) && Answers(b, true))
            && (Evaluate(ops, And(l, r), env) == Ok(Bool(false)) <==> Answers(a, false) || (Answers(a, true) && Answers(b, false)))
            && (Evaluate(ops, Or(l, r), env) == Ok(Bool(true)) <==> Answers(a, true) || (Answers(a, false) && Answers(b, true)))
            && (Evaluate(ops, Or(l, r), env) == Ok(Bool(false)) <==> Answers(a, false) && Answers(b, false))
  {
    EvaluateHands(ops, And(l, r), l, r, env);
    EvaluateHands(ops, Or(l, r), l, r, env);
  }

  /** A value is between two bounds when it is comparable with both and neither below the
      first nor above the second. */
  lemma BetweenIff(x: Value, l: Value, r: Value)
    ensures IsBetween(x, l, r) == Bool(true) <==>
            !l.Null? && !r.Null? && Comparable(l, x) && Comparable(x, r) && Order(l, x) <= 0 && Order(x, r) <= 0
    ensures IsBetween(x, l, r) == Null <==> l.Null? || r.Null?
  {
    OrderAntisymmetric(l, x);
  }

  /** The operators that evaluate all their operands fail with the first error from the
      left; BETWEEN begins with its subject. */
  lemma FirstErrorFirst(ops: Operations, e: Expr, env: Env)
    requires e.Arithmetic? || e.Comparison? || e.Between?
    ensures var first := if e.Between? then Evaluate(ops, e.x, env) else Ok(Null);
            var l, r := Evaluate(ops, e.l, env), Evaluate(ops, e.r, env);
            && (first.Err? ==> Evaluate(ops, e, env) == first)
            && (first.Ok? && l.Err? ==> Evaluate(ops, e, env) == l)
            && (first.Ok? && l.Ok? && r.Err? ==> Evaluate(ops, e, env) == r)
            && (first.Ok? && l.Ok? && r.Ok? ==> Evaluate(ops, e, env).Ok?)
  {
    EvaluateHands(ops, e, e.l, e.r, env);
  }

  /** The first part from i on that fails, with its error. */
  predicate FailsFirst(ops: Operations, es: seq<Expr>, env: Env, i: nat, k: nat, x: nat) {
    && i <= k < |es| && Evaluate(ops, es[k], env) == Err(x)
    && forall j :: i <= j < k ==> Evaluate(ops, es[j], env).Ok?
  }

  /** The values of the parts from i on, none of which fails. */
  predicate AreValues(ops: Operations, es: seq<Expr>, env: Env, i: nat, vs: seq<Value>) {
    && |vs| == |es| - i
    && forall k :: i <= k < |es| ==> Evaluate(ops, es[k], env) == Ok(vs[k - i])
  }

  lemma {:induction false} ListFrom(ops: Operations, e: Expr, env: Env, i: nat, done: seq<Value>)
    requires e.List? && i <= |e.es|
    ensures var r := EvaluateList(ops, e, env, i, done);
            && (forall vs :: AreValues(ops, e.es, env, i, vs) ==> r == Ok(Array(done + vs)))
            && (forall k, x :: FailsFirst(ops, e.es, env, i, k, x) ==> r == Err(x))
    decreases |e.es| - i
  {
    if i == |e.es| {
      assert done + [] == done;
    } else {
      var v := Evaluate(ops, e.es[i], env);
      if v.Ok? {
        ListFrom(ops, e, env, i + 1, done + [v.v]);
        forall vs | AreValues(ops, e.es, env, i, vs) ensures EvaluateList(ops, e, env, i, done) == Ok(Array(done + vs)) {
          assert AreValues(ops, e.es, env, i + 1, vs[1..]);
          assert done + [v.v] + vs[1..] == done + vs;
        }
        forall k, x | FailsFirst(ops, e.es, env, i, k, x) ensures EvaluateList(ops, e, env, i, done) == Err(x) {
          assert FailsFirst(ops, e.es, env, i + 1, k, x);
        }
      }
    }
  }

  /** A list of expressions is the array of their values, in order, or the first error. */
  lemma ListMeans(ops: Operations, es: seq<Expr>, env: Env)
    ensures forall vs :: AreValues(ops, es, env, 0, vs) ==> Evaluate(ops, List(es), env) == Ok(Array(vs))
    ensures forall k, x :: FailsFirst(ops, es, env, 0, k, x) ==> Evaluate(ops, List(es), env) == Err(x)
  {
    ListFrom(ops, List(es), env, 0, []);
    forall vs | AreValues(ops, es, env, 0, vs) ensures Evaluate(ops, List(es), env) == Ok(Array(vs)) {
      assert [] + vs == vs;
    }
  }

  // ---------------------------------------------------------------- folding

  /** precalculateExpr; None is the panic on an error of a constant operator. */
  function Precalculate(ops: Operations, e: Expr): Option<Expr>
    decreases e, 1
  {
    match e
    case List(_) =>
      var es := PrecalculateList(ops, e, 0);
      if es.None? then None else Some(List(es.value))
    case Pairs(_) =>
      var kvs := PrecalculatePairs(ops, e, 0);
      if kvs.None? then None
      else if forall i :: 0 <= i < |kvs.value| ==> kvs.value[i].e.Literal? then Some(Literal(Document(PairFields(kvs.value))))
      else Some(Pairs(kvs.value))
    case And(l, r) => Fold(ops, e, Precalculate(ops, l), Precalculate(ops, r))
    case Or(l, r) => Fold(ops, e, Precalculate(ops, l), Precalculate(ops, r))
    case Arithmetic(_, l, r) => Fold(ops, e, Precalculate(ops, l), Precalculate(ops, r))
    case Comparison(_, l, r) => Fold(ops, e, Precalculate(ops, l), Precalculate(ops, r))
    case Between(_, l, r) => Fold(ops, e, Precalculate(ops, l), Precalculate(ops, r))
    case _ => Some(e)
  }

  predicate IsOperator(e: Expr) { e.And? || e.Or? || e.Arithmetic? || e.Comparison? || e.Between? }

  /** The operator with its two hands replaced; BETWEEN keeps its X. */
  function WithHands(e: Expr, l: Expr, r: Expr): Expr
    requires IsOperator(e)
  {
    e.(l := l, r := r)
  }

  /** Two literal hands: evaluated on the spot, in the empty environment. */
  function Fold(ops: Operations, e: Expr, l: Option<Expr>, r: Option<Expr>): Option<Expr>
    requires IsOperator(e)
  {
    if l.None? || r.None? then None
    else
      var e' := WithHands(e, l.value, r.value);
      if l.value.Literal? && r.value.Literal? then
        var v := Evaluate(ops, e', Empty(ops));
        if v.Err? then None else Some(Literal(v.v))
      else Some(e')
  }

  function PrecalculateList(ops: Operations, e: Expr, i: nat): (r: Option<seq<Expr>>)
    requires e.List? && i <= |e.es|
    ensures r.Some? ==> |r.value| == |e.es| - i
    decreases e, 0, |e.es| - i
  {
    if i == |e.es| then Some([])
    else
      var first, rest := Precalculate(ops, e.es[i]), PrecalculateList(ops, e, i + 1);
      if first.None? || rest.None? then None else Some([first.value] + rest.value)
  }

  function PrecalculatePairs(ops: Operations, e: Expr, i: nat): (r: Option<seq<Pair>>)
    requires e.Pairs? && i <= |e.kvs|
    ensures r.Some? ==> |r.value| == |e.kvs| - i
    decreases e, 0, |e.kvs| - i
  {
    if i == |e.kvs| then Some([])
    else
      var first, rest := Precalculate(ops, e.kvs[i].e), PrecalculatePairs(ops, e, i + 1);
      if first.None? || rest.None? then None else Some([Pair(e.kvs[i].k, first.value)] + rest.value)
  }

  function PairFields(kvs: seq<Pair>): (fields: seq<Field>)
    requires forall i :: 0 <= i < |kvs| ==> kvs[i].e.Literal?
    ensures |fields| == |kvs| && forall i :: 0 <= i < |kvs| ==> fields[i] == Field(kvs[i].k, kvs[i].e.v)
  {
    if kvs == [] then [] else [Field(kvs[0].k, kvs[0].e.v)] + PairFields(kvs[1..])
  }

  // ------------------------------------------------------- what folding does

  /** Built from literals alone, as far as folding looks. */
  predicate Constant(e: Expr) {
    match e
    case Literal(_) => true
    case Pairs(kvs) => forall i :: 0 <= i < |kvs| ==> Constant(kvs[i].e)
    case And(l, r) => Constant(l) && Constant(r)
    case Or(l, r) => Constant(l) && Constant(r)
    case Arithmetic(_, l, r) => Constant(l) && Constant(r)
    case Comparison(_, l, r) => Constant(l) && Constant(r)
    case Between(_, l, r) => Constant(l) && Constant(r)
    case _ => false
  }

  /** Some operator has constant hands and cannot be evaluated without a document. */
  predicate Hazard(ops: Operations, e: Expr) {
    match e
    case List(es) => exists i :: 0 <= i < |es| && Hazard(ops, es[i])
    case Pairs(kvs) => exists i :: 0 <= i < |kvs| && Hazard(ops, kvs[i].e)
    case And(l, r) => Hazard(ops, l) || Hazard(ops, r) || FailsAlone(ops, e)
    case Or(l, r) => Hazard(ops, l) || Hazard(ops, r) || FailsAlone(ops, e)
    case Arithmetic(_, l, r) => Hazard(ops, l) || Hazard(ops, r) || FailsAlone(ops, e)
    case Comparison(_, l, r) => Hazard(ops, l) || Hazard(ops, r) || FailsAlone(ops, e)
    case Between(_, l, r) => Hazard(ops, l) || Hazard(ops, r) || FailsAlone(ops, e)
    case _ => false
  }

  predicate FailsAlone(ops: Operations, e: Expr)
    requires IsOperator(e)
  {
    Constant(e.l) && Constant(e.r) && Evaluate(ops, e, Empty(ops)).Err?
  }

  /** Without an environment, a conjunction or disjunction looks at its right operand. */
  predicate Looks(ops: Operations, l: Expr, when: bool) {
    var v := Evaluate(ops, l, Empty(ops));
    v.Ok? && IsTruthy(v.v) == Truth(when)
  }

  /** Evaluation without an environment comes to a part folding does not know. */
  predicate Reaches(ops: Operations, e: Expr) {
    match e
    case Opaque(_) => true
    case List(es) => exists i :: 0 <= i < |es| && Reaches(ops, es[i])
    case Pairs(kvs) => exists i :: 0 <= i < |kvs| && Reaches(ops, kvs[i].e)
    case And(l, r) => Reaches(ops, l) || (Looks(ops, l, true) && Reaches(ops, r))
    case Or(l, r) => Reaches(ops, l) || (Looks(ops, l, false) && Reaches(ops, r))
    case Arithmetic(_, l, r) => Reaches(ops, l) || Reaches(ops, r)
    case Comparison(_, l, r) => Reaches(ops, l) || Reaches(ops, r)
    case Between(x, l, r) => Reaches(ops, x) || Reaches(ops, l) || Reaches(ops, r)
    case _ => false
  }

  /** The parts folding does not know, where they are reached, answer in the environment
      what they answer without one, if they do. */
  predicate Steady(ops: Operations, e: Expr, env: Env) {
    match e
    case Opaque(id) => ops.alone(id).Ok? ==> env.others(id) == ops.alone(id)
    case List(es) => forall i :: 0 <= i < |es| ==> Steady(ops, es[i], env)
    case Pairs(kvs) => forall i :: 0 <= i < |kvs| ==> Steady(ops, kvs[i].e, env)
    case And(l, r) => Steady(ops, l, env) && (Looks(ops, l, true) ==> Steady(ops, r, env))
    case Or(l, r) => Steady(ops, l, env) && (Looks(ops, l, false) ==> Steady(ops, r, env))
    case Arithmetic(_, l, r) => Steady(ops, l, env) && Steady(ops, r, env)
    case Comparison(_, l, r) => Steady(ops, l, env) && Steady(ops, r, env)
    case Between(x, l, r) => Steady(ops, x, env) && Steady(ops, l, env) && Steady(ops, r, env)
    case _ => true
  }

  /** The X of every BETWEEN is steady. */
  predicate SteadySubjects(ops: Operations, e: Expr, env: Env) {
    match e
    case List(es) => forall i :: 0 <= i < |es| ==> SteadySubjects(ops, es[i], env)
    case Pairs(kvs) => forall i :: 0 <= i < |kvs| ==> SteadySubjects(ops, kvs[i].e, env)
    case And(l, r) => SteadySubjects(ops, l, env) && SteadySubjects(ops, r, env)
    case Or(l, r) => SteadySubjects(ops, l, env) && SteadySubjects(ops, r, env)
    case Arithmetic(_, l, r) => SteadySubjects(ops, l, env) && SteadySubjects(ops, r, env)
    case Comparison(_, l, r) => SteadySubjects(ops, l, env) && SteadySubjects(ops, r, env)
    case Between(x, l, r) => Steady(ops, x, env) && SteadySubjects(ops, l, env) && SteadySubjects(ops, r, env)
    case _ => true
  }

  // ------------------------------------------------------------ evaluation

  /** What evaluates without a document evaluates to the same in every environment in which
      the parts it reaches answer as they do without one. */
  lemma {:induction false} EmptyStable(ops: Operations, e: Expr, env: Env)
    requires Steady(ops, e, env) && Evaluate(ops, e, Empty(ops)).Ok?
    ensures Evaluate(ops, e, env) == Evaluate(ops, e, Empty(ops))
    decreases e, 1
  {
    match e
    case List(_) => EmptyStableList(ops, e, env, 0, []);
    case Pairs(_) => EmptyStablePairs(ops, e, env, 0, []);
    case And(l, r) => EmptyStable(ops, l, env); if Looks(ops, l, true) { EmptyStable(ops, r, env); }
    case Or(l, r) => EmptyStable(ops, l, env); if Looks(ops, l, false) { EmptyStable(ops, r, env); }
    case Arithmetic(_, l, r) => EmptyStable(ops, l, env); EmptyStable(ops, r, env);
    case Comparison(_, l, r) => EmptyStable(ops, l, env); EmptyStable(ops, r, env);
    case Between(x, l, r) => EmptyStable(ops, x, env); EmptyStable(ops, l, env); EmptyStable(ops, r, env);
    case _ =>
  }

  lemma {:induction false} EmptyStableList(ops: Operations, e: Expr, env: Env, i: nat, done: seq<Value>)
    requires e.List? && i <= |e.es| && Steady(ops, e, env) && EvaluateList(ops, e, Empty(ops), i, done).Ok?
    ensures EvaluateList(ops, e, env, i, done) == EvaluateList(ops, e, Empty(ops), i, done)
    decreases e, 0, |e.es| - i
  {
    if i < |e.es| {
      EmptyStable(ops, e.es[i], env);
      EmptyStableList(ops, e, env, i + 1, done + [Evaluate(ops, e.es[i], Empty(ops)).v]);
    }
  }

  lemma {:induction false} EmptyStablePairs(ops: Operations, e: Expr, env: Env, i: nat, done: seq<Field>)
    requires e.Pairs? && i <= |e.kvs| && Steady(ops, e, env) && EvaluatePairs(ops, e, Empty(ops), i, done).Ok?
    ensures EvaluatePairs(ops, e, env, i, done) == EvaluatePairs(ops, e, Empty(ops), i, done)
    decreases e, 0, |e.kvs| - i
  {
    if i < |e.kvs| {
      EmptyStable(ops, e.kvs[i].e, env);
      EmptyStablePairs(ops, e, env, i + 1, done + [Field(e.kvs[i].k, Evaluate(ops, e.kvs[i].e, Empty(ops)).v)]);
    }
  }

  lemma {:induction false} ListSame(ops: Operations, a: Expr, b: Expr, env: Env, i: nat, done: seq<Value>)
    requires a.List? && b.List? && |a.es| == |b.es| && i <= |a.es|
    requires forall k :: i <= k < |a.es| ==> Evaluate(ops, a.es[k], env) == Evaluate(ops, b.es[k], env)
    ensures EvaluateList(ops, a, env, i, done) == EvaluateList(ops, b, env, i, done)
    decreases |a.es| - i
  {
    if i < |a.es| && Evaluate(ops, a.es[i], env).Ok? {
      ListSame(ops, a, b, env, i + 1, done + [Evaluate(ops, a.es[i], env).v]);
    }
  }

  lemma {:induction false} PairsSame(ops: Operations, a: Expr, b: Expr, env: Env, i: nat, done: seq<Field>)
    requires a.Pairs? && b.Pairs? && |a.kvs| == |b.kvs| && i <= |a.kvs|
    requires forall k :: i <= k < |a.kvs| ==>
               a.kvs[k].k == b.kvs[k].k && Evaluate(ops, a.kvs[k].e, env) == Evaluate(ops, b.kvs[k].e, env)
    ensures EvaluatePairs(ops, a, env, i, done) == EvaluatePairs(ops, b, env, i, done)
    decreases |a.kvs| - i
  {
    if i < |a.kvs| && Evaluate(ops, a.kvs[i].e, env).Ok? {
      PairsSame(ops, a, b, env, i + 1, done + [Field(a.kvs[i].k, Evaluate(ops, a.kvs[i].e, env).v)]);
    }
  }

  lemma {:induction false} LiteralPairs(ops: Operations, kvs: seq<Pair>, env: Env, i: nat, done: seq<Field>)
    requires i <= |kvs| && forall k :: 0 <= k < |kvs| ==> kvs[k].e.Literal?
    ensures EvaluatePairs(ops, Pairs(kvs), env, i, done) == Ok(Document(done + PairFields(kvs[i..])))
    decreases |kvs| - i
  {
    if i < |kvs| {
      var f := Field(kvs[i].k, kvs[i].e.v);
      LiteralPairs(ops, kvs, env, i + 1, done + [f]);
      assert kvs[i..][1..] == kvs[i + 1..];
      assert done + [f] + PairFields(kvs[i + 1..]) == done + ([f] + PairFields(kvs[i + 1..]));
    } else {
      assert done + PairFields(kvs[i..]) == done;
    }
  }

  /** An operator's value, from the values of its operands. */
  function Apply(ops: Operations, e: Expr, x: Eval, l: Eval, r: Eval): Eval
    requires IsOperator(e)
  {
    match e
    case And(_, _) => EvaluateAnd(l, r)
    case Or(_, _) => EvaluateOr(l, r)
    case Arithmetic(op, _, _) => EvaluateArithmetic(ops, op, l, r)
    case Comparison(op, _, _) => EvaluateComparison(ops, op, l, r)
    case Between(_, _, _) => EvaluateBetween(x, l, r)
  }

  function EvaluateX(ops: Operations, e: Expr, env: Env): Eval
    requires IsOperator(e)
  {
    if e.Between? then Evaluate(ops, e.x, env) else Ok(Null)
  }

  lemma EvaluateHands(ops: Operations, e: Expr, l: Expr, r: Expr, env: Env)
    requires IsOperator(e)
    ensures Evaluate(ops, WithHands(e, l, r), env) ==
            Apply(ops, e, EvaluateX(ops, e, env), Evaluate(ops, l, env), Evaluate(ops, r, env))
    ensures Evaluate(ops, e, env) ==
            Apply(ops, e, EvaluateX(ops, e, env), Evaluate(ops, e.l, env), Evaluate(ops, e.r, env))
  {
    match e
    case And(_, _) =>
    case Or(_, _) =>
    case Arithmetic(_, _, _) =>
    case Comparison(_, _, _) =>
    case Between(_, _, _) =>
  }

  lemma PrecalculateOperator(ops: Operations, e: Expr)
    requires IsOperator(e)
    ensures Precalculate(ops, e) == Fold(ops, e, Precalculate(ops, e.l), Precalculate(ops, e.r))
  {
  }

  // ---------------------------------------------------------------- lists

  lemma {:induction false} PrecalculateListAt(ops: Operations, e: Expr, i: nat)
    requires e.List? && i <= |e.es|
    ensures PrecalculateList(ops, e, i).Some? <==> forall k :: i <= k < |e.es| ==> Precalculate(ops, e.es[k]).Some?
    ensures PrecalculateList(ops, e, i).Some? ==>
              forall k :: i <= k < |e.es| ==> Precalculate(ops, e.es[k]) == Some(PrecalculateList(ops, e, i).value[k - i])
    decreases |e.es| - i
  {
    if i < |e.es| {
      PrecalculateListAt(ops, e, i + 1);
    }
  }

  lemma {:induction false} PrecalculatePairsAt(ops: Operations, e: Expr, i: nat)
    requires e.Pairs? && i <= |e.kvs|
    ensures PrecalculatePairs(ops, e, i).Some? <==> forall k :: i <= k < |e.kvs| ==> Precalculate(ops, e.kvs[k].e).Some?
    ensures PrecalculatePairs(ops, e, i).Some? ==>
              forall k :: i <= k < |e.kvs| ==>
                var p := PrecalculatePairs(ops, e, i).value[k - i];
                p.k == e.kvs[k].k && Precalculate(ops, e.kvs[k].e) == Some(p.e)
    decreases |e.kvs| - i
  {
    if i < |e.kvs| {
      PrecalculatePairsAt(ops, e, i + 1);
    }
  }

  // --------------------------------------------------------------- theorems

  /** Constants, and only they, fold to a literal: the value they have without a
      document. */
  lemma {:induction false} ConstantFolds(ops: Operations, e: Expr)
    requires Precalculate(ops, e).Some?
    ensures FoldsAsConstant(ops, e, Precalculate(ops, e).value)
    decreases e, 1
  {
    if IsOperator(e) {
      PrecalculateOperator(ops, e);
      ConstantFolds(ops, e.l);
      ConstantFolds(ops, e.r);
      OperatorFolds(ops, e, Precalculate(ops, e.l).value, Precalculate(ops, e.r).value);
    } else if e.Pairs? {
      PairsFoldEach(ops, e, PrecalculatePairs(ops, e, 0).value);
      ConstantPairsFold(ops, e, PrecalculatePairs(ops, e, 0).value);
    }
  }

  lemma {:induction false} PairsFoldEach(ops: Operations, e: Expr, kvs: seq<Pair>)
    requires e.Pairs? && PrecalculatePairs(ops, e, 0) == Some(kvs)
    ensures forall k :: 0 <= k < |e.kvs| ==> kvs[k].k == e.kvs[k].k && FoldsAsConstant(ops, e.kvs[k].e, kvs[k].e)
    decreases e, 0
  {
    PrecalculatePairsAt(ops, e, 0);
    forall k | 0 <= k < |e.kvs| ensures kvs[k].k == e.kvs[k].k && FoldsAsConstant(ops, e.kvs[k].e, kvs[k].e) {
      ConstantFolds(ops, e.kvs[k].e);
    }
  }

  /** The folded form is a literal exactly for a constant, and then its value. */
  predicate FoldsAsConstant(ops: Operations, e: Expr, e': Expr) {
    (e'.Literal? <==> Constant(e)) && (e'.Literal? ==> Evaluate(ops, e, Empty(ops)) == Ok(e'.v))
  }

  lemma OperatorFolds(ops: Operations, e: Expr, l: Expr, r: Expr)
    requires IsOperator(e) && FoldsAsConstant(ops, e.l, l) && FoldsAsConstant(ops, e.r, r)
    ensures Fold(ops, e, Some(l), Some(r)).Some? ==> FoldsAsConstant(ops, e, Fold(ops, e, Some(l), Some(r)).value)
  {
    EvaluateHands(ops, e, l, r, Empty(ops));
  }

  lemma ConstantPairsFold(ops: Operations, e: Expr, kvs: seq<Pair>)
    requires e.Pairs? && PrecalculatePairs(ops, e, 0) == Some(kvs)
    requires forall k :: 0 <= k < |e.kvs| ==> kvs[k].k == e.kvs[k].k && FoldsAsConstant(ops, e.kvs[k].e, kvs[k].e)
    ensures (forall k :: 0 <= k < |kvs| ==> kvs[k].e.Literal?) <==> Constant(e)
    ensures Constant(e) ==> Evaluate(ops, e, Empty(ops)) == Ok(Document(PairFields(kvs)))
  {
    if Constant(e) {
      PairsSame(ops, e, Pairs(kvs), Empty(ops), 0, []);
      LiteralPairs(ops, kvs, Empty(ops), 0, []);
      assert kvs[0..] == kvs && [] + PairFields(kvs) == PairFields(kvs);
    } else {
      var k :| 0 <= k < |e.kvs| && !Constant(e.kvs[k].e);
      assert !kvs[k].e.Literal?;
    }
  }

  /** Nothing is left to fold, where folding looks. */
  predicate Folded(e: Expr) {
    match e
    case List(es) => forall i :: 0 <= i < |es| ==> Folded(es[i])
    case Pairs(kvs) => (forall i :: 0 <= i < |kvs| ==> Folded(kvs[i].e)) && exists i :: 0 <= i < |kvs| && !kvs[i].e.Literal?
    case And(l, r) => FoldedHands(l, r) && Folded(l) && Folded(r)
    case Or(l, r) => FoldedHands(l, r) && Folded(l) && Folded(r)
    case Arithmetic(_, l, r) => FoldedHands(l, r) && Folded(l) && Folded(r)
    case Comparison(_, l, r) => FoldedHands(l, r) && Folded(l) && Folded(r)
    case Between(_, l, r) => FoldedHands(l, r) && Folded(l) && Folded(r)
    case _ => true
  }

  predicate FoldedHands(l: Expr, r: Expr) { !l.Literal? || !r.Literal? }

  /** Folding leaves nothing to fold. */
  lemma {:induction false} FoldsAll(ops: Operations, e: Expr)
    requires Precalculate(ops, e).Some?
    ensures Folded(Precalculate(ops, e).value)
  {
    if IsOperator(e) {
      PrecalculateOperator(ops, e);
      FoldsAll(ops, e.l);
      FoldsAll(ops, e.r);
    } else if e.List? {
      var es := PrecalculateList(ops, e, 0).value;
      PrecalculateListAt(ops, e, 0);
      forall i | 0 <= i < |es| ensures Folded(es[i]) {
        assert Precalculate(ops, e.es[i]) == Some(es[i]);
        FoldsAll(ops, e.es[i]);
      }
      assert Folded(List(es));
    } else if e.Pairs? {
      var kvs := PrecalculatePairs(ops, e, 0).value;
      PrecalculatePairsAt(ops, e, 0);
      forall i | 0 <= i < |kvs| ensures Folded(kvs[i].e) {
        assert Precalculate(ops, e.kvs[i].e) == Some(kvs[i].e);
        FoldsAll(ops, e.kvs[i].e);
      }
      FoldedPairs(kvs);
    }
  }

  lemma FoldedPairs(kvs: seq<Pair>)
    requires forall i :: 0 <= i < |kvs| ==> Folded(kvs[i].e)
    ensures (exists i :: 0 <= i < |kvs| && !kvs[i].e.Literal?) ==> Folded(Pairs(kvs))
  {
  }

  /** And where nothing is left to fold, folding changes nothing: it is idempotent. */
  lemma {:induction false} FoldedStays(ops: Operations, e: Expr)
    requires Folded(e)
    ensures Precalculate(ops, e) == Some(e)
  {
    if IsOperator(e) {
      PrecalculateOperator(ops, e);
      FoldedStays(ops, e.l);
      FoldedStays(ops, e.r);
    } else if e.List? {
      forall i | 0 <= i < |e.es| ensures Precalculate(ops, e.es[i]) == Some(e.es[i]) { FoldedStays(ops, e.es[i]); }
      PrecalculateListAt(ops, e, 0);
      assert PrecalculateList(ops, e, 0).value == e.es;
    } else if e.Pairs? {
      forall i | 0 <= i < |e.kvs| ensures Precalculate(ops, e.kvs[i].e) == Some(e.kvs[i].e) { FoldedStays(ops, e.kvs[i].e); }
      PrecalculatePairsAt(ops, e, 0);
      assert PrecalculatePairs(ops, e, 0).value == e.kvs;
    }
  }

  lemma OperatorPanics(ops: Operations, e: Expr)
    requires IsOperator(e)
    ensures Precalculate(ops, e).None? <==>
            Precalculate(ops, e.l).None? || Precalculate(ops, e.r).None? || FailsAlone(ops, e)
  {
    PrecalculateOperator(ops, e);
    if Precalculate(ops, e.l).Some? && Precalculate(ops, e.r).Some? {
      ConstantFolds(ops, e.l);
      ConstantFolds(ops, e.r);
      EvaluateHands(ops, e, Precalculate(ops, e.l).value, Precalculate(ops, e.r).value, Empty(ops));
    } else if FailsAlone(ops, e) {
    }
  }

  /** Folding panics exactly on a hazard. */
  lemma {:induction false} PanicsIff(ops: Operations, e: Expr)
    ensures Precalculate(ops, e).None? <==> Hazard(ops, e)
  {
    if IsOperator(e) {
      PanicsIff(ops, e.l);
      PanicsIff(ops, e.r);
      OperatorPanics(ops, e);
    } else if e.List? {
      PrecalculateListAt(ops, e, 0);
      forall k | 0 <= k < |e.es| ensures Precalculate(ops, e.es[k]).None? <==> Hazard(ops, e.es[k]) {
        PanicsIff(ops, e.es[k]);
      }
    } else if e.Pairs? {
      PrecalculatePairsAt(ops, e, 0);
      forall k | 0 <= k < |e.kvs| ensures Precalculate(ops, e.kvs[k].e).None? <==> Hazard(ops, e.kvs[k].e) {
        PanicsIff(ops, e.kvs[k].e);
      }
    }
  }

  /** Folding does not change what an expression evaluates to, value or error, in any
      environment where the subjects of BETWEEN are steady. */
  lemma {:induction false} FoldingPreserves(ops: Operations, e: Expr, env: Env)
    requires SteadySubjects(ops, e, env) && Precalculate(ops, e).Some?
    ensures Evaluate(ops, Precalculate(ops, e).value, env) == Evaluate(ops, e, env)
    decreases e, 1
  {
    if IsOperator(e) {
      FoldingPreserves(ops, e.l, env);
      FoldingPreserves(ops, e.r, env);
      OperatorPreserved(ops, e, env);
    } else if e.List? {
      ListPreserved(ops, e, PrecalculateList(ops, e, 0).value, env);
    } else if e.Pairs? {
      PairsPreservedEach(ops, e, PrecalculatePairs(ops, e, 0).value, env);
      PairsPreserved(ops, e, PrecalculatePairs(ops, e, 0).value, env);
    }
  }

  lemma {:induction false} ListPreserved(ops: Operations, e: Expr, es: seq<Expr>, env: Env)
    requires e.List? && SteadySubjects(ops, e, env) && PrecalculateList(ops, e, 0) == Some(es)
    ensures Evaluate(ops, List(es), env) == Evaluate(ops, e, env)
    decreases e, 0
  {
    PrecalculateListAt(ops, e, 0);
    forall k | 0 <= k < |e.es| ensures Evaluate(ops, e.es[k], env) == Evaluate(ops, es[k], env) {
      FoldingPreserves(ops, e.es[k], env);
    }
    ListSame(ops, e, List(es), env, 0, []);
  }

  lemma {:induction false} PairsPreservedEach(ops: Operations, e: Expr, kvs: seq<Pair>, env: Env)
    requires e.Pairs? && SteadySubjects(ops, e, env) && PrecalculatePairs(ops, e, 0) == Some(kvs)
    ensures forall k :: 0 <= k < |e.kvs| ==>
              kvs[k].k == e.kvs[k].k && Evaluate(ops, e.kvs[k].e, env) == Evaluate(ops, kvs[k].e, env)
    decreases e, 0
  {
    PrecalculatePairsAt(ops, e, 0);
    forall k | 0 <= k < |e.kvs|
      ensures kvs[k].k == e.kvs[k].k && Evaluate(ops, e.kvs[k].e, env) == Evaluate(ops, kvs[k].e, env)
    {
      FoldingPreserves(ops, e.kvs[k].e, env);
    }
  }

  lemma PairsPreserved(ops: Operations, e: Expr, kvs: seq<Pair>, env: Env)
    requires e.Pairs? && PrecalculatePairs(ops, e, 0) == Some(kvs)
    requires forall k :: 0 <= k < |e.kvs| ==>
               kvs[k].k == e.kvs[k].k && Evaluate(ops, e.kvs[k].e, env) == Evaluate(ops, kvs[k].e, env)
    ensures Evaluate(ops, Precalculate(ops, e).value, env) == Evaluate(ops, e, env)
  {
    PairsSame(ops, e, Pairs(kvs), env, 0, []);
    if forall k :: 0 <= k < |kvs| ==> kvs[k].e.Literal? {
      LiteralPairs(ops, kvs, env, 0, []);
      assert kvs[0..] == kvs && [] + PairFields(kvs) == PairFields(kvs);
    }
  }

  lemma OperatorPreserved(ops: Operations, e: Expr, env: Env)
    requires IsOperator(e) && SteadySubjects(ops, e, env) && Precalculate(ops, e).Some?
    requires Precalculate(ops, e.l).Some? && Precalculate(ops, e.r).Some?
    requires Evaluate(ops, Precalculate(ops, e.l).value, env) == Evaluate(ops, e.l, env)
    requires Evaluate(ops, Precalculate(ops, e.r).value, env) == Evaluate(ops, e.r, env)
    ensures Evaluate(ops, Precalculate(ops, e).value, env) == Evaluate(ops, e, env)
  {
    var l, r := Precalculate(ops, e.l).value, Precalculate(ops, e.r).value;
    PrecalculateOperator(ops, e);
    EvaluateHands(ops, e, l, r, env);
    EvaluateHands(ops, e, l, r, Empty(ops));
    if l.Literal? && r.Literal? && e.Between? {
      EmptyStable(ops, e.x, env);
    }
  }

  // ---------------------------------------------- when folding cannot panic

  /** No BETWEEN and no empty array literal, where folding looks. */
  predicate Tame(e: Expr) {
    match e
    case Literal(v) => v != Array([])
    case List(es) => forall i :: 0 <= i < |es| ==> Tame(es[i])
    case Pairs(kvs) => forall i :: 0 <= i < |kvs| ==> Tame(kvs[i].e)
    case And(l, r) => Tame(l) && Tame(r)
    case Or(l, r) => Tame(l) && Tame(r)
    case Arithmetic(_, l, r) => Tame(l) && Tame(r)
    case Comparison(_, l, r) => Tame(l) && Tame(r)
    case Between(_, _, _) => false
    case _ => true
  }

  /** Operators answer with numbers, booleans or NULL, never with an empty array. */
  ghost predicate NoArrayResults(ops: Operations) {
    && (forall op, a, b :: ops.arithmetic(op, a, b) != Array([]))
    && (forall op, a, b :: ops.comparison(op, a, b) != Array([]))
  }

  lemma {:induction false} ConstantEvaluates(ops: Operations, e: Expr)
    requires NoArrayResults(ops) && Tame(e) && Constant(e)
    ensures Evaluate(ops, e, Empty(ops)).Ok? && Evaluate(ops, e, Empty(ops)).v != Array([])
    decreases e, 1
  {
    if IsOperator(e) {
      ConstantEvaluates(ops, e.l);
      ConstantEvaluates(ops, e.r);
    } else if e.Pairs? {
      ConstantPairsEvaluate(ops, e, 0, []);
    }
  }

  lemma {:induction false} ConstantPairsEvaluate(ops: Operations, e: Expr, i: nat, done: seq<Field>)
    requires NoArrayResults(ops) && e.Pairs? && Tame(e) && Constant(e) && i <= |e.kvs|
    ensures EvaluatePairs(ops, e, Empty(ops), i, done).Ok? && EvaluatePairs(ops, e, Empty(ops), i, done).v.Document?
    decreases e, 0, |e.kvs| - i
  {
    if i < |e.kvs| {
      ConstantEvaluates(ops, e.kvs[i].e);
      ConstantPairsEvaluate(ops, e, i + 1, done + [Field(e.kvs[i].k, Evaluate(ops, e.kvs[i].e, Empty(ops)).v)]);
    }
  }

  /** The panic is out of reach without BETWEEN and empty array literals, and folding
      preserves evaluation there, in every environment. */
  lemma {:induction false} TameNeverPanics(ops: Operations, e: Expr)
    requires NoArrayResults(ops) && Tame(e)
    ensures Precalculate(ops, e).Some?
    ensures forall env :: Evaluate(ops, Precalculate(ops, e).value, env) == Evaluate(ops, e, env)
  {
    TameHasNoHazard(ops, e);
    PanicsIff(ops, e);
    forall env ensures Evaluate(ops, Precalculate(ops, e).value, env) == Evaluate(ops, e, env) {
      TameIsSteady(ops, e, env);
      FoldingPreserves(ops, e, env);
    }
  }

  lemma {:induction false} TameIsSteady(ops: Operations, e: Expr, env: Env)
    requires Tame(e)
    ensures SteadySubjects(ops, e, env)
  {
    if IsOperator(e) {
      TameIsSteady(ops, e.l, env);
      TameIsSteady(ops, e.r, env);
    } else if e.List? {
      forall k | 0 <= k < |e.es| ensures SteadySubjects(ops, e.es[k], env) { TameIsSteady(ops, e.es[k], env); }
    } else if e.Pairs? {
      forall k | 0 <= k < |e.kvs| ensures SteadySubjects(ops, e.kvs[k].e, env) { TameIsSteady(ops, e.kvs[k].e, env); }
    }
  }

  lemma {:induction false} TameHasNoHazard(ops: Operations, e: Expr)
    requires NoArrayResults(ops) && Tame(e)
    ensures !Hazard(ops, e)
  {
    if IsOperator(e) {
      TameHasNoHazard(ops, e.l);
      TameHasNoHazard(ops, e.r);
      if Constant(e.l) && Constant(e.r) {
        ConstantEvaluates(ops, e);
      }
    } else if e.List? {
      forall k | 0 <= k < |e.es| ensures !Hazard(ops, e.es[k]) {
        TameHasNoHazard(ops, e.es[k]);
      }
    } else if e.Pairs? {
      forall k | 0 <= k < |e.kvs| ensures !Hazard(ops, e.kvs[k].e) {
        TameHasNoHazard(ops, e.kvs[k].e);
      }
    }
  }

  /** BETWEEN two constants panics exactly when its X cannot be evaluated without an
      environment, as a path never can. */
  lemma BetweenPanics(ops: Operations, x: Expr, l: Value, r: Value)
    ensures var e := Between(x, Literal(l), Literal(r));
            Precalculate(ops, e).None? <==> Evaluate(ops, x, Empty(ops)).Err?
    ensures x.Path? ==> Evaluate(ops, x, Empty(ops)).Err?
  {
    var e := Between(x, Literal(l), Literal(r));
    OperatorPanics(ops, e);
    EvaluateHands(ops, e, e.l, e.r, Empty(ops));
  }

  lemma {:induction false} UnreachedSteady(ops: Operations, e: Expr, env: Env)
    requires !Reaches(ops, e)
    ensures Steady(ops, e, env)
  {
    match e
    case List(es) => forall i | 0 <= i < |es| ensures Steady(ops, es[i], env) { UnreachedSteady(ops, es[i], env); }
    case Pairs(kvs) =>
      forall i | 0 <= i < |kvs| ensures Steady(ops, kvs[i].e, env) { UnreachedSteady(ops, kvs[i].e, env); }
    case And(l, r) => UnreachedSteady(ops, l, env); if Looks(ops, l, true) { UnreachedSteady(ops, r, env); }
    case Or(l, r) => UnreachedSteady(ops, l, env); if Looks(ops, l, false) { UnreachedSteady(ops, r, env); }
    case Arithmetic(_, l, r) => UnreachedSteady(ops, l, env); UnreachedSteady(ops, r, env);
    case Comparison(_, l, r) => UnreachedSteady(ops, l, env); UnreachedSteady(ops, r, env);
    case Between(x, l, r) => UnreachedSteady(ops, x, env); UnreachedSteady(ops, l, env); UnreachedSteady(ops, r, env);
    case _ =>
  }

  /** An environment in which no unknown part can be evaluated. */
  const HOSTILE := Env(false, _ => Err(FIELD_NOT_FOUND), _ => Err(PARAM_NOT_FOUND), _ => Err(0))

  /** What comes to an unknown part fails there. */
  lemma {:induction false} ReachedFails(ops: Operations, e: Expr)
    requires Evaluate(ops, e, Empty(ops)).Ok? && Reaches(ops, e)
    ensures Evaluate(ops, e, HOSTILE).Err?
    decreases e, 1
  {
    match e
    case List(_) => ReachedListFails(ops, e, 0, []);
    case Pairs(_) => ReachedPairsFail(ops, e, 0, []);
    case And(l, r) => if Reaches(ops, l) { ReachedFails(ops, l); } else { Unreached(ops, l); ReachedFails(ops, r); }
    case Or(l, r) => if Reaches(ops, l) { ReachedFails(ops, l); } else { Unreached(ops, l); ReachedFails(ops, r); }
    case Arithmetic(_, l, r) => if Reaches(ops, l) { ReachedFails(ops, l); } else { ReachedFails(ops, r); }
    case Comparison(_, l, r) => if Reaches(ops, l) { ReachedFails(ops, l); } else { ReachedFails(ops, r); }
    case Between(x, l, r) =>
      if Reaches(ops, x) { ReachedFails(ops, x); } else if Reaches(ops, l) { ReachedFails(ops, l); } else { ReachedFails(ops, r); }
    case _ =>
  }

  lemma Unreached(ops: Operations, e: Expr)
    requires Evaluate(ops, e, Empty(ops)).Ok? && !Reaches(ops, e)
    ensures Evaluate(ops, e, HOSTILE) == Evaluate(ops, e, Empty(ops))
  {
    UnreachedSteady(ops, e, HOSTILE);
    EmptyStable(ops, e, HOSTILE);
  }

  lemma {:induction false} ReachedListFails(ops: Operations, e: Expr, i: nat, done: seq<Value>)
    requires e.List? && i <= |e.es| && EvaluateList(ops, e, Empty(ops), i, done).Ok?
    requires exists k :: i <= k < |e.es| && Reaches(ops, e.es[k])
    ensures EvaluateList(ops, e, HOSTILE, i, done).Err?
    decreases e, 0, |e.es| - i
  {
    if Reaches(ops, e.es[i]) {
      ReachedFails(ops, e.es[i]);
    } else {
      Unreached(ops, e.es[i]);
      ReachedListFails(ops, e, i + 1, done + [Evaluate(ops, e.es[i], Empty(ops)).v]);
    }
  }

  lemma {:induction false} ReachedPairsFail(ops: Operations, e: Expr, i: nat, done: seq<Field>)
    requires e.Pairs? && i <= |e.kvs| && EvaluatePairs(ops, e, Empty(ops), i, done).Ok?
    requires exists k :: i <= k < |e.kvs| && Reaches(ops, e.kvs[k].e)
    ensures EvaluatePairs(ops, e, HOSTILE, i, done).Err?
    decreases e, 0, |e.kvs| - i
  {
    if Reaches(ops, e.kvs[i].e) {
      ReachedFails(ops, e.kvs[i].e);
    } else {
      Unreached(ops, e.kvs[i].e);
      ReachedPairsFail(ops, e, i + 1, done + [Field(e.kvs[i].k, Evaluate(ops, e.kvs[i].e, Empty(ops)).v)]);
    }
  }

  /** A BETWEEN with constant bounds folds to the same in every environment exactly when the
      evaluation of its subject comes to no function, cast or other part folding does not
      know. */
  lemma BetweenFoldsRightIff(ops: Operations, x: Expr, l: Value, r: Value)
    requires Evaluate(ops, x, Empty(ops)).Ok?
    ensures var e := Between(x, Literal(l), Literal(r));
            && Precalculate(ops, e).Some?
            && ((forall env :: Evaluate(ops, Precalculate(ops, e).value, env) == Evaluate(ops, e, env)) <==> !Reaches(ops, x))
  {
    var e := Between(x, Literal(l), Literal(r));
    BetweenPanics(ops, x, l, r);
    if Reaches(ops, x) {
      PrecalculateOperator(ops, e);
      ReachedFails(ops, x);
      EvaluateHands(ops, e, e.l, e.r, HOSTILE);
      assert Evaluate(ops, Precalculate(ops, e).value, HOSTILE) != Evaluate(ops, e, HOSTILE);
    } else {
      forall env ensures Evaluate(ops, Precalculate(ops, e).value, env) == Evaluate(ops, e, env) {
        UnreachedSteady(ops, x, env);
        FoldingPreserves(ops, e, env);
      }
    }
  }

  /** `pk() BETWEEN 1 AND 10`: the function pk() is NULL without a document, so the whole
      is folded to false, also for the document with key 5. */
  lemma PkBetweenFoldsToFalse(ops: Operations, pk: nat, env: Env)
    requires ops.alone(pk) == Ok(Null) && env.others(pk) == Ok(Integer(5))
    ensures var e := Between(Opaque(pk), Literal(Integer(1)), Literal(Integer(10)));
            && Precalculate(ops, e) == Some(Literal(Bool(false)))
            && Evaluate(ops, e, env) == Ok(Bool(true))
  {
    var e := Between(Opaque(pk), Literal(Integer(1)), Literal(Integer(10)));
    PrecalculateOperator(ops, e);
    EvaluateHands(ops, e, e.l, e.r, env);
    EvaluateHands(ops, e, e.l, e.r, Empty(ops));
  }
}
