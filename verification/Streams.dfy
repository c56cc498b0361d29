/** Operator streams and the AND-splitting rule (internal/stream/stream.go and
    operator.go, internal/planner/optimizer.go). */
module Streams {

  import opened Prelude
  import opened Expressions

  // ------------------------------------------------------- what streams mean

  /** What an operator hands on: environments, and then the end or an error. */
  datatype Flow = Flow(envs: seq<Env>, error: Option<nat>)

  /** A filter, or any other operator, given by what it does to a flow. */
  datatype Kind = Filter(e: Expr) | Other(run: Flow -> Flow)

  datatype Verdict = Keep | Drop | Fail(error: nat)

  /** One environment under a filter expression. */
  function Judge(ops: Operations, e: Expr, env: Env): Verdict {
    var r := Evaluate(ops, e, env);
    if r.Err? then Fail(r.error)
    else
      var t := IsTruthy(r.v);
      if t.NoTruth? then Fail(t.error) else if t.isTruthy then Keep else Drop
  }

  /** A filter stops at the first error, which replaces whatever came later. */
  function RunFilter(ops: Operations, e: Expr, f: Flow): Flow
    decreases |f.envs|
  {
    if f.envs == [] then f
    else
      match Judge(ops, e, f.envs[0])
      case Fail(x) => Flow([], Some(x))
      case Drop => RunFilter(ops, e, f.(envs := f.envs[1..]))
      case Keep =>
        var rest := RunFilter(ops, e, f.(envs := f.envs[1..]));
        rest.(envs := [f.envs[0]] + rest.envs)
  }

  /** The first error of the expression is at `stop`, or there is none. */
  ghost predicate StopsAt(ops: Operations, e: Expr, envs: seq<Env>, stop: nat) {
    && stop <= |envs| && (forall i :: 0 <= i < stop ==> !Judge(ops, e, envs[i]).Fail?)
    && (stop < |envs| ==> Judge(ops, e, envs[stop]).Fail?)
  }

  /** The places before `stop`, in order, of what the expression keeps. */
  ghost predicate KeptAt(ops: Operations, e: Expr, envs: seq<Env>, at: seq<nat>, stop: nat)
    requires stop <= |envs|
  {
    && (forall k, m :: 0 <= k < m < |at| ==> at[k] < at[m])
    && (forall k :: 0 <= k < |at| ==> at[k] < stop)
    && (forall i :: 0 <= i < stop ==> (i in at <==> Judge(ops, e, envs[i]) == Keep))
  }

  /** What a filter hands on: the environments its expression keeps, in order, up to the
      first error of the expression, and then that error. */
  ghost predicate Picks(ops: Operations, e: Expr, f: Flow, out: Flow, at: seq<nat>, stop: nat) {
    && StopsAt(ops, e, f.envs, stop) && KeptAt(ops, e, f.envs, at, stop)
    && out.error == (if stop == |f.envs| then f.error else Some(Judge(ops, e, f.envs[stop]).error))
    && AreAt(f.envs, at, out.envs)
  }

  ghost predicate AreAt(envs: seq<Env>, at: seq<nat>, out: seq<Env>) {
    |out| == |at| && forall k :: 0 <= k < |at| ==> at[k] < |envs| && out[k] == envs[at[k]]
  }

  lemma OneLater(envs: seq<Env>, at: seq<nat>, out: seq<Env>)
    requires envs != [] && AreAt(envs[1..], at, out)
    ensures AreAt(envs, Shifted(at), out) && AreAt(envs, [0] + Shifted(at), [envs[0]] + out)
  {
  }

  function Shifted(at: seq<nat>): (r: seq<nat>)
    ensures |r| == |at| && forall k :: 0 <= k < |at| ==> r[k] == at[k] + 1
  {
    seq(|at|, k requires 0 <= k < |at| => at[k] + 1)
  }

  lemma {:induction false} FilterPicks(ops: Operations, e: Expr, f: Flow) returns (at: seq<nat>, stop: nat)
    ensures Picks(ops, e, f, RunFilter(ops, e, f), at, stop)
    decreases |f.envs|
  {
    if f.envs == [] || Judge(ops, e, f.envs[0]).Fail? {
      at, stop := [], 0;
      assert AreAt(f.envs, [], []);
    } else {
      var rest := f.(envs := f.envs[1..]);
      at, stop := FilterPicks(ops, e, rest);
      PicksOneLater(ops, e, f, RunFilter(ops, e, rest), at, stop);
      at, stop := Heads(ops, e, f.envs[0]) + Shifted(at), stop + 1;
    }
  }

  /** The place of the first environment, if it is kept. */
  function Heads(ops: Operations, e: Expr, env: Env): seq<nat> { if Judge(ops, e, env) == Keep then [0] else [] }

  lemma PicksOneLater(ops: Operations, e: Expr, f: Flow, out: Flow, at: seq<nat>, stop: nat)
    requires f.envs != [] && !Judge(ops, e, f.envs[0]).Fail?
    requires Picks(ops, e, f.(envs := f.envs[1..]), out, at, stop)
    ensures var all := if Judge(ops, e, f.envs[0]) == Keep then out.(envs := [f.envs[0]] + out.envs) else out;
            Picks(ops, e, f, all, Heads(ops, e, f.envs[0]) + Shifted(at), stop + 1)
  {
    StopsOneLater(ops, e, f.envs, stop);
    KeptOneLater(ops, e, f.envs, at, stop);
    OneLater(f.envs, at, out.envs);
    assert [] + Shifted(at) == Shifted(at);
  }

  lemma StopsOneLater(ops: Operations, e: Expr, envs: seq<Env>, stop: nat)
    requires envs != [] && !Judge(ops, e, envs[0]).Fail? && StopsAt(ops, e, envs[1..], stop)
    ensures StopsAt(ops, e, envs, stop + 1)
  {
    forall i | 0 <= i < stop + 1 ensures !Judge(ops, e, envs[i]).Fail? {
      assert i > 0 ==> envs[1..][i - 1] == envs[i];
    }
  }

  lemma KeptOneLater(ops: Operations, e: Expr, envs: seq<Env>, at: seq<nat>, stop: nat)
    requires envs != [] && stop < |envs| && KeptAt(ops, e, envs[1..], at, stop)
    ensures KeptAt(ops, e, envs, Heads(ops, e, envs[0]) + Shifted(at), stop + 1)
  {
    var all := Heads(ops, e, envs[0]) + Shifted(at);
    forall i: nat | i > 0 ensures i in all <==> i - 1 in at { ShiftedMembers(at, i); }
    assert 0 !in Shifted(at);
    forall i | 0 <= i < stop + 1 ensures i in all <==> Judge(ops, e, envs[i]) == Keep {
      assert i > 0 ==> envs[1..][i - 1] == envs[i];
    }
  }

  lemma ShiftedMembers(at: seq<nat>, i: nat)
    requires i > 0
    ensures i in Shifted(at) <==> i - 1 in at
  {
    if i - 1 in at {
      var k :| 0 <= k < |at| && at[k] == i - 1;
      assert Shifted(at)[k] == i;
    }
  }

  function RunOne(ops: Operations, k: Kind, f: Flow): Flow {
    match k
    case Filter(e) => RunFilter(ops, e, f)
    case Other(run) => run(f)
  }

  /** A stream: its operators one after the other. */
  function Run(ops: Operations, ks: seq<Kind>, f: Flow): Flow {
    if ks == [] then f else Run(ops, ks[1..], RunOne(ops, ks[0], f))
  }

  lemma {:induction false} RunAppend(ops: Operations, a: seq<Kind>, b: seq<Kind>, f: Flow)
    ensures Run(ops, a + b, f) == Run(ops, b, Run(ops, a, f))
  {
    if a == [] {
      assert a + b == b;
    } else {
      RunAppend(ops, a[1..], b, RunOne(ops, a[0], f));
      assert (a + b)[1..] == a[1..] + b;
    }
  }

  // --------------------------------------------------------------- splitting

  function SplitAnd(e: Expr): (es: seq<Expr>)
    ensures |es| >= 1
  {
    if e.And? then SplitAnd(e.l) + SplitAnd(e.r) else [e]
  }

  function Filters(es: seq<Expr>): (ks: seq<Kind>)
    ensures |ks| == |es| && forall i :: 0 <= i < |es| ==> ks[i] == Filter(es[i])
  {
    if es == [] then [] else [Filter(es[0])] + Filters(es[1..])
  }

  lemma FiltersAppend(a: seq<Expr>, b: seq<Expr>)
    ensures Filters(a + b) == Filters(a) + Filters(b)
  {
  }

  lemma JudgeAnd(ops: Operations, l: Expr, r: Expr, env: Env)
    ensures Judge(ops, And(l, r), env) == if Judge(ops, l, env) == Keep then Judge(ops, r, env) else Judge(ops, l, env)
  {
    assert Evaluate(ops, And(l, r), env) == EvaluateAnd(Evaluate(ops, l, env), Evaluate(ops, r, env));
  }

  /** A disjunction keeps, drops or fails as its operands do in turn. */
  lemma JudgeOr(ops: Operations, l: Expr, r: Expr, env: Env)
    ensures Judge(ops, Or(l, r), env) == if Judge(ops, l, env) == Drop then Judge(ops, r, env) else Judge(ops, l, env)
  {
    assert Evaluate(ops, Or(l, r), env) == EvaluateOr(Evaluate(ops, l, env), Evaluate(ops, r, env));
  }

  /** Nothing is left to split. */
  lemma {:induction false} SplitAll(e: Expr)
    ensures forall i :: 0 <= i < |SplitAnd(e)| ==> !SplitAnd(e)[i].And?
  {
    if e.And? {
      SplitAll(e.l);
      SplitAll(e.r);
    }
  }

  /** Filtering by a conjunction is filtering twice, errors included. */
  lemma {:induction false} FilterAnd(ops: Operations, l: Expr, r: Expr, f: Flow)
    ensures RunFilter(ops, And(l, r), f) == RunFilter(ops, r, RunFilter(ops, l, f))
    decreases |f.envs|
  {
    if f.envs != [] {
      var rest := f.(envs := f.envs[1..]);
      JudgeAnd(ops, l, r, f.envs[0]);
      FilterAnd(ops, l, r, rest);
      if Judge(ops, l, f.envs[0]) == Keep {
        var tail := RunFilter(ops, l, rest);
        var out := tail.(envs := [f.envs[0]] + tail.envs);
        assert RunFilter(ops, l, f) == out;
        assert out.(envs := out.envs[1..]) == tail;
      }
    }
  }

  lemma {:induction false} SplitRuns(ops: Operations, e: Expr, f: Flow)
    ensures Run(ops, Filters(SplitAnd(e)), f) == RunFilter(ops, e, f)
    decreases e
  {
    if e.And? {
      FiltersAppend(SplitAnd(e.l), SplitAnd(e.r));
      RunAppend(ops, Filters(SplitAnd(e.l)), Filters(SplitAnd(e.r)), f);
      SplitRuns(ops, e.l, f);
      SplitRuns(ops, e.r, RunFilter(ops, e.l, f));
      FilterAnd(ops, e.l, e.r, f);
    } else {
      assert Filters([e]) == [Filter(e)];
      assert Run(ops, [Filter(e)], f) == Run(ops, [], RunFilter(ops, e, f));
    }
  }

  predicate IsAndFilter(k: Kind) { k.Filter? && k.e.And? }

  /** The filter the rule works on: the last one whose condition is an AND. */
  function LastAnd(ks: seq<Kind>): (r: Option<nat>)
    ensures r.Some? ==> r.value < |ks| && IsAndFilter(ks[r.value])
    ensures forall i :: (if r.Some? then r.value else -1) < i < |ks| ==> !IsAndFilter(ks[i])
  {
    if ks == [] then None
    else if IsAndFilter(ks[|ks| - 1]) then Some(|ks| - 1)
    else LastAnd(ks[..|ks| - 1])
  }

  /** The operators with that filter replaced by its conjuncts. */
  function Replaced(ks: seq<Kind>, k: nat): seq<Kind>
    requires k < |ks| && IsAndFilter(ks[k])
  {
    ks[..k] + Filters(SplitAnd(ks[k].e)) + ks[k + 1..]
  }

  /** Replacing a filter by its conjuncts changes neither what is emitted nor the
      first error, whatever the input. */
  lemma ReplacedRuns(ops: Operations, ks: seq<Kind>, k: nat, f: Flow)
    requires k < |ks| && IsAndFilter(ks[k])
    ensures Run(ops, Replaced(ks, k), f) == Run(ops, ks, f)
  {
    var parts := Filters(SplitAnd(ks[k].e));
    assert Replaced(ks, k) == ks[..k] + (parts + ks[k + 1..]);
    assert ks == ks[..k] + ([ks[k]] + ks[k + 1..]);
    RunAppend(ops, ks[..k], parts + ks[k + 1..], f);
    RunAppend(ops, ks[..k], [ks[k]] + ks[k + 1..], f);
    var mid := Run(ops, ks[..k], f);
    RunAppend(ops, parts, ks[k + 1..], mid);
    RunAppend(ops, [ks[k]], ks[k + 1..], mid);
    SplitRuns(ops, ks[k].e, mid);
    assert Run(ops, [ks[k]], mid) == Run(ops, [], RunFilter(ops, ks[k].e, mid));
  }

  ghost predicate AllKept(ops: Operations, e: Expr, f: Flow) {
    forall i :: 0 <= i < |f.envs| ==> Judge(ops, e, f.envs[i]) == Keep
  }

  lemma {:induction false} FilterIdle(ops: Operations, e: Expr, f: Flow)
    ensures |RunFilter(ops, e, f).envs| <= |f.envs|
    ensures RunFilter(ops, e, f) == f <==> AllKept(ops, e, f)
    decreases |f.envs|
  {
    if f.envs != [] {
      var rest := f.(envs := f.envs[1..]);
      FilterIdle(ops, e, rest);
      var out := RunFilter(ops, e, rest);
      assert f.envs == [f.envs[0]] + rest.envs;
      if Judge(ops, e, f.envs[0]) == Keep {
        assert ([f.envs[0]] + out.envs)[1..] == out.envs;
        assert out == rest <==> RunFilter(ops, e, f) == f;
        assert AllKept(ops, e, f) <==> AllKept(ops, e, rest) by {
          if AllKept(ops, e, rest) {
            forall i | 0 <= i < |f.envs| ensures Judge(ops, e, f.envs[i]) == Keep {
              assert i > 0 ==> f.envs[i] == rest.envs[i - 1];
            }
          }
        }
      }
    }
  }

  /** A filter at the end of the stream is dropped by the rule. That goes unnoticed
      on an input exactly when the filter would have kept everything that reached it. */
  lemma DroppedUnnoticedIff(ops: Operations, ks: seq<Kind>, f: Flow)
    requires ks != [] && ks[|ks| - 1].Filter?
    ensures var k := |ks| - 1;
            Run(ops, ks[..k], f) == Run(ops, ks, f) <==> AllKept(ops, ks[k].e, Run(ops, ks[..k], f))
  {
    var k := |ks| - 1;
    assert ks == ks[..k] + [ks[k]];
    RunAppend(ops, ks[..k], [ks[k]], f);
    var g := Run(ops, ks[..k], f);
    assert Run(ops, [ks[k]], g) == Run(ops, [], RunFilter(ops, ks[k].e, g));
    FilterIdle(ops, ks[k].e, g);
  }

  /** A filter at the front is cut off. No pipeline behind it notices on an input exactly
      when the filter would have kept all of it. */
  lemma CutUnnoticedIff(ops: Operations, e: Expr, f: Flow)
    ensures (forall ks :: Run(ops, ks, f) == Run(ops, [Filter(e)] + ks, f)) <==> AllKept(ops, e, f)
  {
    FilterIdle(ops, e, f);
    forall ks ensures Run(ops, [Filter(e)] + ks, f) == Run(ops, ks, RunFilter(ops, e, f)) {
      assert ([Filter(e)] + ks)[1..] == ks;
    }
    assert Run(ops, [], f) == f && Run(ops, [], RunFilter(ops, e, f)) == RunFilter(ops, e, f);
  }

  // ------------------------------------------------------- the linked stream

  class OpNode {
    const kind: Kind
    var prev: OpNode?
    var next: OpNode?

    constructor (kind: Kind)
      ensures this.kind == kind && prev == null && next == null
    {
      this.kind, prev, next := kind, null, null;
    }
  }

  /** The nodes are doubly linked in this order, with nothing before or after. */
  ghost predicate Chain(ns: seq<OpNode>)
    reads ns
  {
    && (forall i, j :: 0 <= i < j < |ns| ==> ns[i] != ns[j])
    && (forall i {:trigger ns[i].prev} :: 0 <= i < |ns| ==> ns[i].prev == (if i == 0 then null else ns[i - 1]))
    && (forall i {:trigger ns[i].next} :: 0 <= i < |ns| ==> ns[i].next == (if i == |ns| - 1 then null else ns[i + 1]))
  }

  ghost function Kinds(ns: seq<OpNode>): (ks: seq<Kind>)
    ensures |ks| == |ns| && forall i :: 0 <= i < |ns| ==> ks[i] == ns[i].kind
  {
    seq(|ns|, i requires 0 <= i < |ns| => ns[i].kind)
  }

  /** InsertAfter a node of a chain; without one nothing is linked. */
  method InsertAfter(op: OpNode?, newOp: OpNode, ghost ns: seq<OpNode>, ghost k: nat) returns (r: OpNode)
    requires op != null ==> Chain(ns) && k < |ns| && op == ns[k] && newOp !in ns
    modifies if op == null then {} else (set n | n in ns) + {newOp}
    ensures r == newOp
    ensures op != null ==> Chain(ns[..k + 1] + [newOp] + ns[k + 1..])
  {
    r := newOp;
    if op == null {
      return;
    }
    var next := op.next;
    if next != null {
      next.prev := newOp;
    }
    op.next := newOp;
    newOp.next := next;
    newOp.prev := op;
  }

  /** InsertBefore a node of a chain; without one nothing is linked. A node put first
      keeps what it had before it, which is nothing if the chain is to begin there. */
  method InsertBefore(op: OpNode?, newOp: OpNode, ghost ns: seq<OpNode>, ghost k: nat) returns (r: OpNode)
    requires op != null ==> Chain(ns) && k < |ns| && op == ns[k] && newOp !in ns
    modifies if op == null then {} else (set n | n in ns) + {newOp}
    ensures r == newOp
    ensures op != null && (k > 0 || old(newOp.prev) == null) ==> Chain(ns[..k] + [newOp] + ns[k..])
    ensures op != null && k == 0 ==> newOp.prev == old(newOp.prev) && newOp.next == op && op.prev == newOp
  {
    r := newOp;
    if op != null {
      var prev := op.prev;
      if prev != null {
        prev.next := newOp;
        newOp.prev := prev;
      }
      op.prev := newOp;
      newOp.next := op;
    }
  }

  class Stream {
    /** The last operator: a stream is run by asking it for its output. */
    var op: OpNode?

    constructor (op: OpNode?)
      ensures this.op == op
    {
      this.op := op;
    }

    /** The stream consists of these nodes. */
    ghost predicate Holds(ns: seq<OpNode>)
      reads this, ns
    {
      Chain(ns) && op == (if ns == [] then null else ns[|ns| - 1])
    }

    method Remove(o: OpNode, ghost ns: seq<OpNode>, ghost k: nat)
      requires Holds(ns) && k < |ns| && o == ns[k]
      modifies this, ns
      ensures Holds(ns[..k] + ns[k + 1..])
      ensures o.prev == null && o.next == null
    {
      var next, prev := o.next, o.prev;
      if prev != null {
        prev.next := next;
      }
      if next != null {
        next.prev := prev;
      }
      o.next, o.prev := null, null;
      if o == op {
        op := prev;
      }
    }

    method First(ghost ns: seq<OpNode>) returns (n: OpNode?)
      requires Holds(ns)
      ensures n == if ns == [] then null else ns[0]
    {
      n := op;
      ghost var i := |ns| - 1;
      while n != null && n.prev != null
        invariant ns == [] ==> n == null
        invariant ns != [] ==> 0 <= i < |ns| && n == ns[i]
        decreases i
      {
        n := n.prev;
        i := i - 1;
      }
    }
  }

  lemma FiltersOf(ns: seq<OpNode>, es: seq<Expr>)
    requires |ns| == |es| && forall i :: 0 <= i < |ns| ==> ns[i].kind == Filter(es[i])
    ensures Kinds(ns) == Filters(es)
  {
  }

  lemma InsertedAfter(ns: seq<OpNode>, k: nat, added: seq<OpNode>, f: OpNode)
    requires 0 < k <= |ns|
    ensures var all, m := ns[..k] + added + ns[k..], k + |added|;
            all[..m] + [f] + all[m..] == ns[..k] + (added + [f]) + ns[k..]
  {
  }

  /** One round of the loop below: one more filter behind those added so far. */
  method InsertFilter(cur: OpNode, e: Expr, ghost ns: seq<OpNode>, ghost k: nat, ghost added: seq<OpNode>) returns (f: OpNode)
    requires 0 < k <= |ns| && Chain(ns[..k] + added + ns[k..]) && cur == (ns[..k] + added)[k + |added| - 1]
    modifies ns, added
    ensures fresh(f) && f.kind == Filter(e) && Chain(ns[..k] + (added + [f]) + ns[k..])
  {
    ghost var all := ns[..k] + added + ns[k..];
    f := new OpNode(Filter(e));
    assert cur == all[k + |added| - 1];
    assert forall n :: n in all ==> n in ns || n in added;
    f := InsertAfter(cur, f, all, k + |added| - 1);
    InsertedAfter(ns, k, added, f);
  }

  /** Puts one filter per expression behind the node at k - 1. */
  method InsertFilters(cur0: OpNode, es: seq<Expr>, ghost ns: seq<OpNode>, ghost k: nat)
    returns (cur: OpNode, ghost added: seq<OpNode>)
    requires Chain(ns) && 0 < k <= |ns| && cur0 == ns[k - 1]
    modifies ns
    ensures |added| == |es| && fresh(added) && forall j :: 0 <= j < |es| ==> added[j].kind == Filter(es[j])
    ensures Chain(ns[..k] + added + ns[k..])
    ensures cur == (ns[..k] + added)[k + |es| - 1]
  {
    cur, added := cur0, [];
    var i := 0;
    assert ns[..k] + added + ns[k..] == ns;
    while i < |es|
      invariant 0 <= i <= |es| && |added| == i
      invariant fresh(added)
      invariant forall j :: 0 <= j < i ==> added[j].kind == Filter(es[j])
      invariant Chain(ns[..k] + added + ns[k..])
      invariant cur == (ns[..k] + added)[k + i - 1]
    {
      cur := InsertFilter(cur, es[i], ns, k, added);
      added := added + [cur];
      i := i + 1;
    }
  }

  /** The same, where there may be no node to put them behind: they then form a chain
      of their own. */
  method AddFilters(cur0: OpNode?, es: seq<Expr>, ghost ns: seq<OpNode>, ghost k: nat)
    returns (cur: OpNode, ghost added: seq<OpNode>)
    requires Chain(ns) && k <= |ns| && cur0 == (if k == 0 then null else ns[k - 1]) && |es| > 0
    modifies ns
    ensures |added| == |es| && fresh(added) && cur == added[|es| - 1]
    ensures forall j :: 0 <= j < |es| ==> added[j].kind == Filter(es[j])
    ensures k > 0 ==> Chain(ns[..k] + added + ns[k..])
    ensures k == 0 ==> Chain(added) && Chain(ns)
  {
    if cur0 == null {
      var f := new OpNode(Filter(es[0]));
      ghost var more;
      cur, more := InsertFilters(f, es[1..], [f], 1);
      added := [f] + more;
      assert [f][..1] + more + [f][1..] == added;
    } else {
      cur, added := InsertFilters(cur0, es, ns, k);
    }
  }

  /** What the rule leaves behind, in all cases. Note the last two: a filter at the
      end of the stream drops out, and one at the front cuts the stream off. A stream
      that begins with a filter has nothing to read from, before the rule and after. */
  ghost predicate SplitResult(s: Stream, ns: seq<OpNode>, out: seq<OpNode>)
    reads s, ns, out
  {
    match LastAnd(Kinds(ns))
    case None => out == ns && s.Holds(ns)
    case Some(k) =>
      && (k > 0 || |ns| == 1 ==> Kinds(out) == Replaced(Kinds(ns), k))
      && (0 < k < |ns| - 1 ==> s.Holds(out))
      && (k == 0 && |ns| == 1 ==> s.Holds(out))
      && (0 < k == |ns| - 1 ==> Chain(out) && s.op == out[k - 1])
      && (k == 0 && |ns| > 1 ==> s.Holds(ns[1..]))
  }

  /** SplitANDConditionRule: walks back from the end and splits the first AND filter
      it meets. Removing that filter clears its links, which also ends the walk. */
  method SplitANDConditionRule(s: Stream, ghost ns: seq<OpNode>) returns (ghost out: seq<OpNode>)
    requires s.Holds(ns)
    modifies s, ns
    ensures SplitResult(s, ns, out)
  {
    out := ns;
    var n := s.op;
    ghost var i, done := |ns| - 1, false;
    while n != null
      invariant done ==> n == null && SplitResult(s, ns, out)
      invariant !done ==> s.Holds(ns) && out == ns && -1 <= i < |ns| && n == (if i < 0 then null else ns[i])
      invariant !done ==> forall j :: i < j < |ns| ==> !IsAndFilter(ns[j].kind)
      decreases if done then -1 else i
    {
      if IsAndFilter(n.kind) {
        LastAndIs(Kinds(ns), i);
        out := SplitAt(s, n, ns, i);
        done := true;
      }
      n := n.prev;
      i := i - 1;
    }
    if !done {
      NoLastAnd(Kinds(ns));
    }
  }

  lemma {:induction false} LastAndIs(ks: seq<Kind>, i: nat)
    requires i < |ks| && IsAndFilter(ks[i]) && forall j :: i < j < |ks| ==> !IsAndFilter(ks[j])
    ensures LastAnd(ks) == Some(i)
  {
  }

  lemma {:induction false} NoLastAnd(ks: seq<Kind>)
    requires forall j :: 0 <= j < |ks| ==> !IsAndFilter(ks[j])
    ensures LastAnd(ks) == None
  {
  }

  /** The nodes after n was taken out and the filters were put in. */
  ghost predicate Relinked(s: Stream, ns: seq<OpNode>, k: nat, added: seq<OpNode>)
    requires k < |ns|
    reads s, ns, added
  {
    && (k > 0 ==> Chain(ns[..k] + added + ns[k + 1..]))
    && (k > 0 ==> s.op == (if k == |ns| - 1 then ns[k - 1] else ns[|ns| - 1]))
    && (k == 0 && |ns| > 1 ==> s.Holds(ns[1..]))
    && (k == 0 && |ns| == 1 ==> s.Holds(added))
  }

  method SplitAt(s: Stream, n: OpNode, ghost ns: seq<OpNode>, ghost k: nat) returns (ghost out: seq<OpNode>)
    requires s.Holds(ns) && k < |ns| && n == ns[k] && LastAnd(Kinds(ns)) == Some(k)
    modifies s, ns
    ensures SplitResult(s, ns, out) && n.prev == null
  {
    ghost var added := Relink(s, n, SplitAnd(n.kind.e), ns, k);
    out := ns[..k] + added + ns[k + 1..];
    KindsReplaced(ns, added, k);
    RelinkedIsResult(s, ns, k, added);
  }

  method Relink(s: Stream, n: OpNode, es: seq<Expr>, ghost ns: seq<OpNode>, ghost k: nat) returns (ghost added: seq<OpNode>)
    requires s.Holds(ns) && k < |ns| && n == ns[k] && |es| > 0
    modifies s, ns
    ensures Relinked(s, ns, k, added) && n.prev == null
    ensures |added| == |es| && forall j :: 0 <= j < |es| ==> added[j].kind == Filter(es[j])
  {
    var cur := n.prev;
    s.Remove(n, ns, k);
    ghost var rest := ns[..k] + ns[k + 1..];
    assert n !in rest;
    WithoutOne(ns, k, []);
    cur, added := PutIn(s, cur, es, rest, k);
    WithoutOne(ns, k, added);
  }

  method PutIn(s: Stream, cur0: OpNode?, es: seq<Expr>, ghost rest: seq<OpNode>, ghost k: nat)
    returns (cur: OpNode, ghost added: seq<OpNode>)
    requires s.Holds(rest) && k <= |rest| && cur0 == (if k == 0 then null else rest[k - 1]) && |es| > 0
    modifies s, rest
    ensures |added| == |es| && forall j :: 0 <= j < |es| ==> added[j].kind == Filter(es[j])
    ensures k > 0 ==> Chain(rest[..k] + added + rest[k..]) && s.op == rest[|rest| - 1]
    ensures k == 0 ==> s.Holds(if rest == [] then added else rest)
  {
    cur, added := AddFilters(cur0, es, rest, k);
    if s.op == null {
      s.op := cur;
    }
  }

  lemma WithoutOne(ns: seq<OpNode>, k: nat, added: seq<OpNode>)
    requires k < |ns|
    ensures var rest := ns[..k] + ns[k + 1..];
            && rest[..k] + added + rest[k..] == ns[..k] + added + ns[k + 1..]
            && (k == 0 ==> rest == ns[1..])
            && (k > 0 ==> rest[k - 1] == ns[k - 1] && rest[|rest| - 1] == (if k == |ns| - 1 then ns[k - 1] else ns[|ns| - 1]))
  {
  }

  lemma RelinkedIsResult(s: Stream, ns: seq<OpNode>, k: nat, added: seq<OpNode>)
    requires LastAnd(Kinds(ns)) == Some(k) && Relinked(s, ns, k, added) && |added| > 0
    requires Kinds(ns[..k] + added + ns[k + 1..]) == Replaced(Kinds(ns), k)
    ensures SplitResult(s, ns, ns[..k] + added + ns[k + 1..])
  {
    var out := ns[..k] + added + ns[k + 1..];
    if k < |ns| - 1 {
      assert out[|out| - 1] == ns[|ns| - 1];
    } else {
      assert k > 0 ==> out[k - 1] == ns[k - 1];
      assert k == 0 ==> out == added;
    }
  }

  lemma KindsReplaced(ns: seq<OpNode>, added: seq<OpNode>, k: nat)
    requires k < |ns| && IsAndFilter(ns[k].kind)
    requires |added| == |SplitAnd(ns[k].kind.e)|
    requires forall j :: 0 <= j < |added| ==> added[j].kind == Filter(SplitAnd(ns[k].kind.e)[j])
    ensures Kinds(ns[..k] + added + ns[k + 1..]) == Replaced(Kinds(ns), k)
  {
    FiltersOf(added, SplitAnd(ns[k].kind.e));
  }
}
