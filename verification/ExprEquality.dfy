/** Cancelling the operands two expressions share, and the equality test built on it
    (scripts/config/expr.c, __expr_eliminate_eq, expr_eliminate_eq, expr_eq). */
module ExprEquality {
  import opened KconfigExpr

  /** Walks the spines of both expressions and blanks every pair of equal operands.
      Each call owns its two subtrees; the updated subtrees are returned. */
  function EliminateEq1(op: BinOp, e1: Expr, e2: Expr): (r: (Expr, Expr))
    ensures Size(r.0) <= Size(e1) && Size(r.1) <= Size(e2)
    decreases Size(e1) + Size(e2), if IsOp(op, e1) || IsOp(op, e2) then 0 else 3
  {
    if IsOp(op, e1) then
      var a := EliminateEq1(op, e1.left, e2);
      var b := EliminateEq1(op, e1.right, a.1);
      (Bin(op, a.0, b.0), b.1)
    else if IsOp(op, e2) then
      var a := EliminateEq1(op, e1, e2.left);
      var b := EliminateEq1(op, a.0, e2.right);
      (b.0, Bin(op, a.1, b.1))
    else if e1 == e2 && IsYesNo(e1) then (e1, e2)
    else if !ExprEq(e1, e2) then (e1, e2)
    else (Sym(Neutral(op)), Sym(Neutral(op)))
  }

  predicate IsOp(op: BinOp, e: Expr) {
    e.Bin? && e.op == op
  }

  function EliminateEq(e1: Expr, e2: Expr): (r: (Expr, Expr))
    ensures Size(r.0) <= Size(e1) && Size(r.1) <= Size(e2)
    decreases Size(e1) + Size(e2), 1
  {
    var p := if e1.Bin? then EliminateEq1(e1.op, e1, e2) else (e1, e2);
    var q := if p.1.Bin? && !IsOp(p.1.op, p.0) then EliminateEq1(p.1.op, p.0, p.1) else p;
    EliminateYnShrinks(q.0);
    EliminateYnShrinks(q.1);
    (EliminateYn(q.0), EliminateYn(q.1))
  }

  predicate ExprEq(e1: Expr, e2: Expr)
    decreases Size(e1) + Size(e2), 2
  {
    match (e1, e2)
    case (Cmp(_, _, _), Cmp(_, _, _)) => e1 == e2
    case (Sym(s1), Sym(s2)) => s1 == s2
    case (Not(x1), Not(x2)) => ExprEq(x1, x2)
    case (Bin(op1, _, _), Bin(op2, _, _)) =>
      && op1 == op2
      && var r := EliminateEq(e1, e2);
         r.0.Sym? && r.1.Sym? && r.0.s == r.1.s
    case _ => false
  }

  /** A context built from at most one operand of each kind: what cancellation takes
      away from both expressions. */
  datatype Context = Context(op1: BinOp, k1: Tristate, op2: BinOp, k2: Tristate)
  {
    function Fill(v: Tristate): Tristate {
      Apply(op1, k1, Apply(op2, k2, v))
    }
  }

  function NeutralValue(op: BinOp): Tristate {
    if op.AndOp? then YES else NO
  }

  lemma ContextMonotone(c: Context, a: Tristate, b: Tristate)
    requires a <= b
    ensures c.Fill(a) <= c.Fill(b)
  {}

  lemma Regroup(op: BinOp, k1: Tristate, k2: Tristate, a: Tristate, b: Tristate)
    ensures Apply(op, Apply(op, k1, a), Apply(op, k2, b)) == Apply(op, Apply(op, k1, k2), Apply(op, a, b))
    ensures Apply(op, k1, Apply(op, k2, a)) == Apply(op, Apply(op, k1, k2), a)
  {}

  /** One walk takes the same operand value k out of both expressions. */
  lemma {:induction false} EliminateEq1Sound(op: BinOp, e1: Expr, e2: Expr, env: Env) returns (k: Tristate)
    ensures Value(e1, env) == Apply(op, k, Value(EliminateEq1(op, e1, e2).0, env))
    ensures Value(e2, env) == Apply(op, k, Value(EliminateEq1(op, e1, e2).1, env))
    decreases Size(e1) + Size(e2), if IsOp(op, e1) || IsOp(op, e2) then 0 else 3
  {
    if IsOp(op, e1) {
      var a := EliminateEq1(op, e1.left, e2);
      var k1 := EliminateEq1Sound(op, e1.left, e2, env);
      var k2 := EliminateEq1Sound(op, e1.right, a.1, env);
      k := Apply(op, k1, k2);
      var b := EliminateEq1(op, e1.right, a.1);
      Regroup(op, k1, k2, Value(a.0, env), Value(b.0, env));
      Regroup(op, k1, k2, Value(b.1, env), YES);
    } else if IsOp(op, e2) {
      var a := EliminateEq1(op, e1, e2.left);
      var k1 := EliminateEq1Sound(op, e1, e2.left, env);
      var k2 := EliminateEq1Sound(op, a.0, e2.right, env);
      k := Apply(op, k1, k2);
      var b := EliminateEq1(op, a.0, e2.right);
      Regroup(op, k1, k2, Value(a.1, env), Value(b.1, env));
      Regroup(op, k1, k2, Value(b.0, env), YES);
    } else if (e1 == e2 && IsYesNo(e1)) || !ExprEq(e1, e2) {
      k := NeutralValue(op);
    } else {
      ExprEqSound(e1, e2, env);
      k := Value(e1, env);
    }
  }

  /** Cancellation is sound: in every environment one common monotone context gives
      back both original values. */
  lemma {:induction false} EliminateEqSound(e1: Expr, e2: Expr, env: Env) returns (c: Context)
    ensures Value(e1, env) == c.Fill(Value(EliminateEq(e1, e2).0, env))
    ensures Value(e2, env) == c.Fill(Value(EliminateEq(e1, e2).1, env))
    decreases Size(e1) + Size(e2), 1
  {
    var p := if e1.Bin? then EliminateEq1(e1.op, e1, e2) else (e1, e2);
    var q := if p.1.Bin? && !IsOp(p.1.op, p.0) then EliminateEq1(p.1.op, p.0, p.1) else p;
    c := Context(AndOp, YES, AndOp, YES);
    if e1.Bin? {
      var k := EliminateEq1Sound(e1.op, e1, e2, env);
      c := c.(op1 := e1.op, k1 := k);
    }
    if p.1.Bin? && !IsOp(p.1.op, p.0) {
      var k := EliminateEq1Sound(p.1.op, p.0, p.1, env);
      c := c.(op2 := p.1.op, k2 := k);
    }
    EliminateYnValue(q.0, env);
    EliminateYnValue(q.1, env);
  }

  /** Expressions found equal have the same value in every environment. */
  lemma {:induction false} ExprEqSound(e1: Expr, e2: Expr, env: Env)
    requires ExprEq(e1, e2)
    ensures Value(e1, env) == Value(e2, env)
    decreases Size(e1) + Size(e2), 2
  {
    match (e1, e2)
    case (Not(x1), Not(x2)) => ExprEqSound(x1, x2, env);
    case (Bin(_, _, _), Bin(_, _, _)) => var _ := EliminateEqSound(e1, e2, env);
    case _ =>
  }

  /** When only y is left of e2 after cancelling, e1 implies e2: the test menu_finalize makes. */
  lemma CancelledToYes(e1: Expr, e2: Expr, env: Env)
    requires EliminateEq(e1, e2).1 == Sym(SYM_YES)
    ensures Value(e1, env) <= Value(e2, env)
  {
    var c := EliminateEqSound(e1, e2, env);
    ContextMonotone(c, Value(EliminateEq(e1, e2).0, env), YES);
  }
}
