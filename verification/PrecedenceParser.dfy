/** The precedence parser (internal/sql/parser/expr.go, internal/sql/scanner/token.go).

    Operands (literals, paths, calls, parenthesised expressions) are atoms. The
    operators are the plain binary ones: no NOT forms, no IS NOT, no BETWEEN.
  */
module PrecedenceParser {

  import opened Prelude

  datatype Operator =
    | OR | AND
    | EQ | NEQ | IS | IN | LIKE | EQREGEX | NEQREGEX
    | LT | LTE | GT | GTE
    | BITWISEOR | BITWISEXOR | BITWISEAND
    | ADD | SUB
    | MUL | DIV | MOD
    | CONCAT

  function Precedence(op: Operator): nat {
    match op
    case OR => 1
    case AND => 2
    case EQ | NEQ | IS | IN | LIKE | EQREGEX | NEQREGEX => 3
    case LT | LTE | GT | GTE => 4
    case BITWISEOR | BITWISEXOR | BITWISEAND => 5
    case ADD | SUB => 6
    case MUL | DIV | MOD => 7
    case CONCAT => 8
  }

  /** `Other` is any token that neither starts an operand nor is an operator. */
  datatype Token = Atom(id: nat) | Op(op: Operator) | Other

  datatype Tree = Leaf(id: nat) | Node(op: Operator, left: Tree, right: Tree)

  // ---------------------------------------------------------- specification

  /** The operators the parser goes on with; the regular expression ones are unused. */
  predicate Accepted(op: Operator, min: nat) {
    op != EQREGEX && op != NEQREGEX && Precedence(op) >= min
  }

  /** The new operator goes above the first node on the right spine that binds at
      least as tightly. */
  function Insert(t: Tree, op: Operator, x: nat): Tree {
    if t.Leaf? || Precedence(t.op) >= Precedence(op) then Node(op, t, Leaf(x))
    else Node(t.op, t.left, Insert(t.right, op, x))
  }

  /** None is a parse error: an operator without an operand after it. */
  datatype Parsed = Parsed(tree: Tree, rest: seq<Token>)

  function ParseRest(t: Tree, tokens: seq<Token>, min: nat): Option<Parsed>
    decreases |tokens|
  {
    if tokens == [] || !tokens[0].Op? || !Accepted(tokens[0].op, min) then Some(Parsed(t, tokens))
    else if |tokens| < 2 || !tokens[1].Atom? then None
    else ParseRest(Insert(t, tokens[0].op, tokens[1].id), tokens[2..], min)
  }

  function Parse(tokens: seq<Token>, min: nat): Option<Parsed> {
    if tokens == [] || !tokens[0].Atom? then None
    else ParseRest(Leaf(tokens[0].id), tokens[1..], min)
  }

  // ------------------------------------------------------------- what it is

  /** The tokens of a tree, in order. */
  function Reading(t: Tree): (s: seq<Token>)
    ensures |s| >= 1
  {
    match t
    case Leaf(id) => [Atom(id)]
    case Node(op, l, r) => Reading(l) + [Op(op)] + Reading(r)
  }

  /** Left children bind at least as tightly as their parent, right ones more. */
  predicate Climbs(t: Tree) {
    t.Node? ==>
      && (t.left.Node? ==> Precedence(t.left.op) >= Precedence(t.op))
      && (t.right.Node? ==> Precedence(t.right.op) > Precedence(t.op))
      && Climbs(t.left) && Climbs(t.right)
  }

  predicate AllAccepted(t: Tree, min: nat) {
    t.Node? ==> Accepted(t.op, min) && AllAccepted(t.left, min) && AllAccepted(t.right, min)
  }

  lemma {:induction false} InsertReads(t: Tree, op: Operator, x: nat)
    ensures Reading(Insert(t, op, x)) == Reading(t) + [Op(op), Atom(x)]
  {
    if t.Node? && Precedence(t.op) < Precedence(op) {
      InsertReads(t.right, op, x);
      assert Reading(t.left) + [Op(t.op)] + (Reading(t.right) + [Op(op), Atom(x)])
          == Reading(t.left) + [Op(t.op)] + Reading(t.right) + [Op(op), Atom(x)];
    } else {
      assert Reading(t) + [Op(op)] + [Atom(x)] == Reading(t) + [Op(op), Atom(x)];
    }
  }

  lemma {:induction false} InsertClimbs(t: Tree, op: Operator, x: nat, min: nat)
    requires Climbs(t) && AllAccepted(t, min) && Accepted(op, min)
    ensures Climbs(Insert(t, op, x)) && AllAccepted(Insert(t, op, x), min)
  {
    if t.Node? && Precedence(t.op) < Precedence(op) {
      InsertClimbs(t.right, op, x, min);
    }
  }

  lemma {:induction false} ParseRestSound(t: Tree, tokens: seq<Token>, min: nat)
    requires Climbs(t) && AllAccepted(t, min)
    ensures match ParseRest(t, tokens, min)
            case None => true
            case Some(p) =>
              && Reading(p.tree) + p.rest == Reading(t) + tokens
              && Climbs(p.tree) && AllAccepted(p.tree, min)
              && (p.rest != [] && p.rest[0].Op? ==> !Accepted(p.rest[0].op, min))
    decreases |tokens|
  {
    if tokens != [] && tokens[0].Op? && Accepted(tokens[0].op, min) && |tokens| >= 2 && tokens[1].Atom? {
      var t' := Insert(t, tokens[0].op, tokens[1].id);
      InsertReads(t, tokens[0].op, tokens[1].id);
      InsertClimbs(t, tokens[0].op, tokens[1].id, min);
      ParseRestSound(t', tokens[2..], min);
      assert Reading(t') + tokens[2..] == Reading(t) + tokens;
    }
  }

  /** The parsed tree reads as the input up to the first token it cannot use, and is
      a left-associative precedence tree. */
  lemma ParseSound(tokens: seq<Token>, min: nat)
    ensures match Parse(tokens, min)
            case None => true
            case Some(p) =>
              && Reading(p.tree) + p.rest == tokens
              && Climbs(p.tree) && AllAccepted(p.tree, min)
              && (p.rest != [] && p.rest[0].Op? ==> !Accepted(p.rest[0].op, min))
  {
    if tokens != [] && tokens[0].Atom? {
      ParseRestSound(Leaf(tokens[0].id), tokens[1..], min);
      assert [tokens[0]] + tokens[1..] == tokens;
    }
  }

  // -------------------------------------------------------------- uniqueness

  predicate OpsAtLeast(s: seq<Token>, p: nat) {
    forall i :: 0 <= i < |s| && s[i].Op? ==> Precedence(s[i].op) >= p
  }

  lemma {:induction false} RootBindsLoosest(t: Tree, p: nat)
    requires Climbs(t) && (t.Node? ==> Precedence(t.op) >= p)
    ensures OpsAtLeast(Reading(t), p)
  {
    if t.Node? {
      RootBindsLoosest(t.left, p);
      RootBindsLoosest(t.right, p);
    }
  }

  /** The root is the last of the loosest operators, so it cannot be elsewhere. */
  lemma RootsAgree(a: Tree, b: Tree)
    requires a.Node? && b.Node? && Climbs(a) && Climbs(b) && Reading(a) == Reading(b)
    ensures |Reading(a.left)| <= |Reading(b.left)|
  {
    var i, j := |Reading(a.left)|, |Reading(b.left)|;
    var s := Reading(a);
    assert s[i] == Op(a.op) && s[j] == Op(b.op);
    RootBindsLoosest(a.left, Precedence(a.op));
    RootBindsLoosest(b.right, Precedence(b.op) + 1);
  }

  /** There is only one such tree for a given reading. */
  lemma {:induction false} TreeUnique(a: Tree, b: Tree)
    requires Climbs(a) && Climbs(b) && Reading(a) == Reading(b)
    ensures a == b
  {
    if a.Node? && b.Node? {
      RootsAgree(a, b);
      RootsAgree(b, a);
      var i := |Reading(a.left)|;
      var s := Reading(a);
      assert s[..i] == Reading(a.left) && s[..i] == Reading(b.left);
      assert s[i] == Op(a.op) && s[i] == Op(b.op);
      assert s[i + 1..] == Reading(a.right) && s[i + 1..] == Reading(b.right);
      TreeUnique(a.left, b.left);
      TreeUnique(a.right, b.right);
    }
  }

  // ------------------------------------------------------ printing and back

  /** The token an operator's expression keeps and prints: `Is` keeps IN. */
  function KeptToken(op: Operator): Operator { if op == IS then IN else op }

  /** The tokens of the printed expression; `||` has no string at all. */
  function Printed(t: Tree): seq<Token> {
    match t
    case Leaf(id) => [Atom(id)]
    case Node(op, l, r) => Printed(l) + (if op == CONCAT then [] else [Op(KeptToken(op))]) + Printed(r)
  }

  predicate Mentions(t: Tree, op: Operator) {
    t.Node? && (t.op == op || Mentions(t.left, op) || Mentions(t.right, op))
  }

  /** Operands and accepted operators in turn: what the parser reads to the end. */
  predicate Alternates(s: seq<Token>, min: nat) {
    s != [] && s[0].Atom? && (|s| > 1 ==> s[1].Op? && Accepted(s[1].op, min) && Alternates(s[2..], min))
  }

  lemma {:induction false} AlternatesJoin(s: seq<Token>, op: Operator, t: seq<Token>, min: nat)
    requires Alternates(s, min) && Alternates(t, min) && Accepted(op, min)
    ensures Alternates(s + [Op(op)] + t, min)
  {
    var all := s + [Op(op)] + t;
    if |s| == 1 {
      assert all[2..] == t;
    } else {
      AlternatesJoin(s[2..], op, t, min);
      assert all[2..] == s[2..] + [Op(op)] + t;
    }
  }

  lemma {:induction false} ReadingAlternates(t: Tree, min: nat)
    requires AllAccepted(t, min)
    ensures Alternates(Reading(t), min)
  {
    if t.Node? {
      ReadingAlternates(t.left, min);
      ReadingAlternates(t.right, min);
      AlternatesJoin(Reading(t.left), t.op, Reading(t.right), min);
    }
  }

  lemma {:induction false} ParseRestComplete(t: Tree, tokens: seq<Token>, min: nat)
    requires tokens == [] || (tokens[0].Op? && Accepted(tokens[0].op, min) && Alternates(tokens[1..], min))
    ensures ParseRest(t, tokens, min).Some? && ParseRest(t, tokens, min).value.rest == []
    decreases |tokens|
  {
    if tokens != [] {
      var rest := tokens[1..];
      assert tokens[2..] == rest[1..];
      if |rest| > 1 {
        assert tokens[2..][1..] == rest[2..];
      }
      ParseRestComplete(Insert(t, tokens[0].op, tokens[1].id), tokens[2..], min);
    }
  }

  /** Parsing undoes reading: every precedence tree is parsed from its own tokens. */
  lemma ParseReading(t: Tree, min: nat)
    requires Climbs(t) && AllAccepted(t, min)
    ensures Parse(Reading(t), min) == Some(Parsed(t, []))
  {
    var s := Reading(t);
    ReadingAlternates(t, min);
    if |s| > 1 {
      assert s[1..][1..] == s[2..];
    }
    ParseRestComplete(Leaf(s[0].id), s[1..], min);
    ParseSound(s, min);
    var p := Parse(s, min).value;
    assert Reading(p.tree) + [] == Reading(p.tree);
    TreeUnique(p.tree, t);
  }

  lemma {:induction false} PrintedReads(t: Tree)
    requires !Mentions(t, IS) && !Mentions(t, CONCAT)
    ensures Printed(t) == Reading(t)
  {
    if t.Node? {
      PrintedReads(t.left);
      PrintedReads(t.right);
    }
  }

  lemma {:induction false} ReadingMentions(t: Tree, op: Operator)
    ensures Mentions(t, op) <==> Op(op) in Reading(t)
  {
    if t.Node? {
      ReadingMentions(t.left, op);
      ReadingMentions(t.right, op);
    }
  }

  lemma {:induction false} PrintedLoses(t: Tree)
    ensures Op(IS) !in Printed(t) && Op(CONCAT) !in Printed(t)
  {
    if t.Node? {
      PrintedLoses(t.left);
      PrintedLoses(t.right);
    }
  }

  /** Re-parsing what a parsed tree prints gives the tree back exactly when it has
      neither `||` nor IS. */
  lemma ReparseIff(t: Tree)
    requires Climbs(t) && AllAccepted(t, 0)
    ensures Parse(Printed(t), 0) == Some(Parsed(t, [])) <==> !Mentions(t, IS) && !Mentions(t, CONCAT)
  {
    if !Mentions(t, IS) && !Mentions(t, CONCAT) {
      PrintedReads(t);
      ParseReading(t, 0);
    } else {
      ReadingMentions(t, IS);
      ReadingMentions(t, CONCAT);
      PrintedLoses(t);
      ParseSound(Printed(t), 0);
      assert Reading(t) + [] == Reading(t);
    }
  }

  // --------------------------------------------------------- the precedences

  /** The operators from the loosest to the tightest. */
  const LEVELS: seq<set<Operator>> := [
    {OR}, {AND}, {EQ, NEQ, IS, IN, LIKE, EQREGEX, NEQREGEX}, {LT, LTE, GT, GTE},
    {BITWISEOR, BITWISEXOR, BITWISEAND}, {ADD, SUB}, {MUL, DIV, MOD}, {CONCAT}
  ]

  lemma LevelOf(op: Operator, i: nat)
    requires i < |LEVELS| && op in LEVELS[i]
    ensures Precedence(op) == i + 1
  {
  }

  lemma EveryLevel(op: Operator) returns (i: nat)
    ensures i < |LEVELS| && op in LEVELS[i]
  {
    i := Precedence(op) - 1;
  }

  predicate Plain(op: Operator) { op != EQREGEX && op != NEQREGEX }

  /** Two operators: the second one takes the operand between them exactly when it is of a
      later level than the first. */
  lemma TwoOperators(x: nat, p: Operator, y: nat, q: Operator, z: nat, i: nat, j: nat)
    requires i < |LEVELS| && p in LEVELS[i] && j < |LEVELS| && q in LEVELS[j] && Plain(p) && Plain(q)
    ensures Parse([Atom(x), Op(p), Atom(y), Op(q), Atom(z)], 0) ==
            Some(Parsed(if i < j then Node(p, Leaf(x), Node(q, Leaf(y), Leaf(z)))
                        else Node(q, Node(p, Leaf(x), Leaf(y)), Leaf(z)), []))
  {
    LevelOf(p, i);
    LevelOf(q, j);
    if i < j {
      assert Reading(Node(q, Leaf(y), Leaf(z))) == [Atom(y), Op(q), Atom(z)];
      var t := Node(p, Leaf(x), Node(q, Leaf(y), Leaf(z)));
      assert Reading(t) == [Atom(x), Op(p), Atom(y), Op(q), Atom(z)];
      ParseReading(t, 0);
    } else {
      assert Reading(Node(p, Leaf(x), Leaf(y))) == [Atom(x), Op(p), Atom(y)];
      var t := Node(q, Node(p, Leaf(x), Leaf(y)), Leaf(z));
      assert Reading(t) == [Atom(x), Op(p), Atom(y), Op(q), Atom(z)];
      ParseReading(t, 0);
    }
  }

  /** Asked for a level at least, the parser stops before the first operator of an earlier
      one, and before those it does not know. */
  lemma StopsBelow(x: nat, p: Operator, rest: seq<Token>, i: nat, min: nat)
    requires i < |LEVELS| && p in LEVELS[i]
    ensures Parse([Atom(x), Op(p)] + rest, min) == Some(Parsed(Leaf(x), [Op(p)] + rest)) <==> !Plain(p) || i + 1 < min
  {
    LevelOf(p, i);
    var tokens := [Atom(x), Op(p)] + rest;
    assert tokens[1..] == [Op(p)] + rest;
    ParseSound(tokens, min);
  }

  // -------------------------------------------------------------- the errors

  /** Up to k, operands and accepted operators come in turn. */
  predicate Leads(tokens: seq<Token>, min: nat, k: nat) {
    && k <= |tokens|
    && forall j :: 0 <= j < k ==> if j % 2 == 0 then tokens[j].Atom? else tokens[j].Op? && Accepted(tokens[j].op, min)
  }

  /** The first operand, or the one after an operator, is due at k and is not there. */
  predicate Missing(tokens: seq<Token>, min: nat, k: nat) {
    k % 2 == 0 && Leads(tokens, min, k) && (k == |tokens| || !tokens[k].Atom?)
  }

  lemma {:induction false} ParseRestFailsIff(t: Tree, tokens: seq<Token>, n: nat, min: nat)
    requires n % 2 == 1 && Leads(tokens, min, n)
    ensures ParseRest(t, tokens[n..], min).None? <==> exists k :: k > n && Missing(tokens, min, k)
    decreases |tokens| - n
  {
    var rest := tokens[n..];
    if rest != [] && rest[0].Op? && Accepted(rest[0].op, min) {
      if |rest| < 2 || !rest[1].Atom? {
        assert Missing(tokens, min, n + 1);
      } else {
        assert rest[2..] == tokens[n + 2..] && rest[1] == tokens[n + 1];
        ParseRestFailsIff(Insert(t, rest[0].op, rest[1].id), tokens, n + 2, min);
        assert !Missing(tokens, min, n + 1) && !Missing(tokens, min, n + 2);
      }
    } else {
      assert forall k :: k > n && Missing(tokens, min, k) ==> rest[0] == tokens[n];
    }
  }

  /** Parsing fails exactly when an operand is missing. */
  lemma ParseFailsIff(tokens: seq<Token>, min: nat)
    ensures Parse(tokens, min).None? <==> exists k: nat :: Missing(tokens, min, k)
  {
    if tokens == [] || !tokens[0].Atom? {
      assert Missing(tokens, min, 0);
    } else {
      ParseRestFailsIff(Leaf(tokens[0].id), tokens, 1, min);
      assert !Missing(tokens, min, 0) && !Missing(tokens, min, 1);
    }
  }

  // -------------------------------------------------------------- the parser

  /** An expression as the parser holds it: operators are nodes on the heap, and
      their right operand is set in place. */
  datatype Expr = Operand(id: nat) | Operation(node: OpNode)

  class OpNode {
    const op: Operator
    const left: Expr
    var right: Expr

    constructor (op: Operator, left: Expr, right: Expr)
      ensures this.op == op && this.left == left && this.right == right
    {
      this.op, this.left, this.right := op, left, right;
    }
  }

  /** e is the root of t, and every node under it is in s. */
  ghost predicate Represents(e: Expr, t: Tree, s: set<OpNode>)
    reads s
    decreases t
  {
    match t
    case Leaf(id) => e == Operand(id)
    case Node(op, l, r) =>
      && e.Operation? && e.node in s && e.node.op == op
      && Represents(e.node.left, l, s) && Represents(e.node.right, r, s)
  }

  lemma {:induction false} RepresentsMore(e: Expr, t: Tree, s: set<OpNode>, s': set<OpNode>)
    requires Represents(e, t, s) && s <= s'
    ensures Represents(e, t, s')
    decreases t
  {
    if t.Node? {
      RepresentsMore(e.node.left, t.left, s, s');
      RepresentsMore(e.node.right, t.right, s, s');
    }
  }

  /** The tree to the right of the i-th node of a right spine. */
  ghost function RightOf(spine: seq<OpNode>, lefts: seq<Tree>, last: nat, i: nat): Tree
    requires |lefts| == |spine| && i < |spine|
    decreases |spine| - i
  {
    if i + 1 == |spine| then Leaf(last)
    else Node(spine[i + 1].op, lefts[i + 1], RightOf(spine, lefts, last, i + 1))
  }

  /** The right spine in memory, from the dummy root down to the last operand. */
  ghost predicate Links(spine: seq<OpNode>, last: nat)
    reads spine
  {
    && spine != []
    && (forall i, j :: 0 <= i < j < |spine| ==> spine[i] != spine[j])
    && (forall i :: 0 <= i < |spine| - 1 ==> spine[i].right == Operation(spine[i + 1]))
    && spine[|spine| - 1].right == Operand(last)
  }

  /** What hangs off the spine to the left is in `frozen`, which is never written again. */
  ghost predicate Hangs(spine: seq<OpNode>, lefts: seq<Tree>, frozen: set<OpNode>)
    reads frozen
  {
    && |lefts| == |spine|
    && (forall i :: 0 <= i < |spine| ==> spine[i] !in frozen)
    && (forall i :: 0 < i < |spine| ==> Represents(spine[i].left, lefts[i], frozen))
  }

  ghost predicate Spine(spine: seq<OpNode>, lefts: seq<Tree>, last: nat, frozen: set<OpNode>)
    reads spine, frozen
  {
    Links(spine, last) && Hangs(spine, lefts, frozen)
  }

  ghost function Below(spine: seq<OpNode>, i: nat): (s: set<OpNode>)
    requires i < |spine|
    ensures forall n :: n in s ==> exists k :: i < k < |spine| && spine[k] == n
    decreases |spine| - i
  {
    if i + 1 == |spine| then {} else {spine[i + 1]} + Below(spine, i + 1)
  }

  lemma {:induction false} SpineRepresents(spine: seq<OpNode>, lefts: seq<Tree>, last: nat, frozen: set<OpNode>, i: nat)
    requires Spine(spine, lefts, last, frozen) && i < |spine|
    ensures Represents(spine[i].right, RightOf(spine, lefts, last, i), frozen + Below(spine, i))
    decreases |spine| - i
  {
    if i + 1 < |spine| {
      SpineRepresents(spine, lefts, last, frozen, i + 1);
      var n := spine[i + 1];
      RepresentsMore(n.right, RightOf(spine, lefts, last, i + 1), frozen + Below(spine, i + 1), frozen + Below(spine, i));
      RepresentsMore(n.left, lefts[i + 1], frozen, frozen + Below(spine, i));
    }
  }

  /** The place the descent looks for: everything above binds more loosely. */
  ghost predicate Place(spine: seq<OpNode>, op: Operator, j: nat) {
    && j < |spine|
    && (forall k :: 0 < k <= j ==> Precedence(spine[k].op) < Precedence(op))
    && (j + 1 < |spine| ==> Precedence(spine[j + 1].op) >= Precedence(op))
  }

  /** Cutting the spine there and hanging the cut-off part to the left of the new
      node is Insert. */
  lemma {:induction false} CutIsInsert(spine: seq<OpNode>, lefts: seq<Tree>, last: nat, j: nat, n: OpNode, x: nat, i: nat)
    requires |lefts| == |spine| && Place(spine, n.op, j) && i <= j
    ensures RightOf(spine[..j + 1] + [n], lefts[..j + 1] + [RightOf(spine, lefts, last, j)], x, i)
         == Insert(RightOf(spine, lefts, last, i), n.op, x)
    decreases j - i
  {
    var spine', lefts' := spine[..j + 1] + [n], lefts[..j + 1] + [RightOf(spine, lefts, last, j)];
    if i < j {
      CutIsInsert(spine, lefts, last, j, n, x, i + 1);
      assert spine'[i + 1] == spine[i + 1] && lefts'[i + 1] == lefts[i + 1];
    } else {
      assert spine'[j + 1] == n && lefts'[j + 1] == RightOf(spine, lefts, last, j);
      assert RightOf(spine', lefts', x, j + 1) == Leaf(x);
    }
  }

  /** The descent: down the right spine as long as the operators bind more loosely. */
  method FindPlace(root: OpNode, op: Operator,
                   ghost spine: seq<OpNode>, ghost lefts: seq<Tree>, ghost last: nat, ghost frozen: set<OpNode>)
    returns (node: OpNode, ghost j: nat)
    requires Spine(spine, lefts, last, frozen) && spine[0] == root
    ensures Place(spine, op, j) && node == spine[j]
    ensures node.right.Operation? ==> Precedence(node.right.node.op) >= Precedence(op)
  {
    node, j := root, 0;
    while node.right.Operation? && Precedence(node.right.node.op) < Precedence(op)
      invariant j < |spine| && node == spine[j]
      invariant forall k :: 0 < k <= j ==> Precedence(spine[k].op) < Precedence(op)
      decreases |spine| - j
    {
      assert j < |spine| - 1;
      node, j := node.right.node, j + 1;
    }
    assert j < |spine| - 1 ==> node.right == Operation(spine[j + 1]);
  }

  /** The inner loop of the parser: finds the place of the new operator on the right
      spine and relinks there, in place. */
  method InsertInPlace(root: OpNode, op: Operator, x: nat,
                       ghost spine: seq<OpNode>, ghost lefts: seq<Tree>, ghost last: nat, ghost frozen: set<OpNode>)
    returns (ghost spine': seq<OpNode>, ghost lefts': seq<Tree>, ghost frozen': set<OpNode>)
    requires Spine(spine, lefts, last, frozen) && spine[0] == root
    modifies spine
    ensures Spine(spine', lefts', x, frozen') && spine'[0] == root
    ensures RightOf(spine', lefts', x, 0) == Insert(RightOf(spine, lefts, last, 0), op, x)
    ensures forall i :: 0 <= i < |spine'| ==> spine'[i] in spine || fresh(spine'[i])
  {
    var node;
    ghost var j;
    node, j := FindPlace(root, op, spine, lefts, last, frozen);
    var n := new OpNode(op, node.right, Operand(x));
    ReadyToLink(spine, lefts, last, frozen, j, n);
    CutIsInsert(spine, lefts, last, j, n, x, 0);
    spine' := spine[..j + 1] + [n];
    lefts' := lefts[..j + 1] + [RightOf(spine, lefts, last, j)];
    frozen' := frozen + Below(spine, j);
    SetRightHandExpr(node, n, x, spine, last, j);
  }

  /** Replaces a node's right operand, which cuts the spine there and extends it anew. */
  method SetRightHandExpr(node: OpNode, n: OpNode, x: nat, ghost spine: seq<OpNode>, ghost last: nat, ghost j: nat)
    requires Links(spine, last) && j < |spine| && node == spine[j]
    requires n !in spine && n.right == Operand(x)
    modifies node`right
    ensures node.right == Operation(n)
    ensures Links(spine[..j + 1] + [n], x)
  {
    node.right := Operation(n);
  }

  /** Everything to the left of the new spine is in place before it is linked. */
  lemma ReadyToLink(spine: seq<OpNode>, lefts: seq<Tree>, last: nat, frozen: set<OpNode>, j: nat, n: OpNode)
    requires Spine(spine, lefts, last, frozen) && j < |spine| && n.left == spine[j].right
    requires n !in spine && n !in frozen
    ensures Hangs(spine[..j + 1] + [n], lefts[..j + 1] + [RightOf(spine, lefts, last, j)], frozen + Below(spine, j))
  {
    SpineRepresents(spine, lefts, last, frozen, j);
    forall i | 0 < i <= j ensures Represents(spine[i].left, lefts[i], frozen + Below(spine, j)) {
      RepresentsMore(spine[i].left, lefts[i], frozen, frozen + Below(spine, j));
    }
  }

  /** The parser: one operand, then operators and operands as long as they come. */
  method ParseExpr(tokens: seq<Token>, min: nat) returns (e: Option<Expr>, rest: seq<Token>, ghost nodes: set<OpNode>)
    ensures e.None? <==> Parse(tokens, min).None?
    ensures e.Some? ==> Represents(e.value, Parse(tokens, min).value.tree, nodes) && rest == Parse(tokens, min).value.rest
  {
    nodes, rest := {}, tokens;
    if tokens == [] || !tokens[0].Atom? {
      return None, rest, nodes;
    }
    var root := new OpNode(OR, Operand(0), Operand(tokens[0].id));
    rest := tokens[1..];
    ghost var spine, lefts, last, frozen := [root], [Leaf(0)], tokens[0].id, {};
    while rest != [] && rest[0].Op? && Accepted(rest[0].op, min)
      invariant Spine(spine, lefts, last, frozen) && spine[0] == root
      invariant forall i :: 0 <= i < |spine| ==> fresh(spine[i])
      invariant Parse(tokens, min) == ParseRest(RightOf(spine, lefts, last, 0), rest, min)
      decreases |rest|
    {
      if |rest| < 2 || !rest[1].Atom? {
        return None, rest, nodes;
      }
      spine, lefts, frozen := InsertInPlace(root, rest[0].op, rest[1].id, spine, lefts, last, frozen);
      last := rest[1].id;
      rest := rest[2..];
    }
    SpineRepresents(spine, lefts, last, frozen, 0);
    nodes := frozen + Below(spine, 0);
    e := Some(root.right);
  }
}
