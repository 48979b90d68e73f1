/** Slots on the spine of one AND or OR: what `struct expr **` points into.
    A slot is a path from the top of the spine; replacing the operand in a slot is an
    update of the one tree all slots share. */
module ExprSpine {
  import opened KconfigExpr
  import opened ExprEquality
  import opened ExprTransform

  datatype Dir = L | R

  type Path = seq<Dir>

  /** The op-nodes at the top of a tree; every Tip is an operand. */
  datatype Shape = Tip | Fork(left: Shape, right: Shape)

  function ShapeOf(op: BinOp, e: Expr): Shape {
    if IsOp(op, e) then Fork(ShapeOf(op, e.left), ShapeOf(op, e.right)) else Tip
  }

  predicate InShape(s: Shape, p: Path) {
    p == [] || (s.Fork? && InShape(if p[0].L? then s.left else s.right, p[1..]))
  }

  function SubShape(s: Shape, p: Path): Shape
    requires InShape(s, p)
  {
    if p == [] then s else SubShape(if p[0].L? then s.left else s.right, p[1..])
  }

  function Forks(s: Shape): nat {
    if s.Tip? then 0 else 1 + Forks(s.left) + Forks(s.right)
  }

  predicate IsTip(s: Shape, p: Path) {
    InShape(s, p) && SubShape(s, p).Tip?
  }

  function Get(op: BinOp, e: Expr, p: Path): (x: Expr)
    requires InShape(ShapeOf(op, e), p)
    ensures Size(x) <= Size(e) && (p != [] ==> Size(x) < Size(e))
    ensures ShapeOf(op, x) == SubShape(ShapeOf(op, e), p)
  {
    if p == [] then e else Get(op, if p[0].L? then e.left else e.right, p[1..])
  }

  function Put(op: BinOp, e: Expr, p: Path, t: Expr): (r: Expr)
    requires InShape(ShapeOf(op, e), p)
  {
    if p == [] then t
    else if p[0].L? then Bin(op, Put(op, e.left, p[1..], t), e.right)
    else Bin(op, e.left, Put(op, e.right, p[1..], t))
  }

  /** Replacing one operand by another that is not an op itself keeps the spine, changes
      that slot, and leaves every other slot alone. */
  lemma {:induction false} PutSlot(op: BinOp, e: Expr, p: Path, t: Expr)
    requires IsTip(ShapeOf(op, e), p) && !IsOp(op, t)
    ensures ShapeOf(op, Put(op, e, p, t)) == ShapeOf(op, e)
    ensures Get(op, Put(op, e, p, t), p) == t
    ensures Size(Put(op, e, p, t)) + Size(Get(op, e, p)) == Size(e) + Size(t)
  {
    if p != [] {
      PutSlot(op, if p[0].L? then e.left else e.right, p[1..], t);
    }
  }

  lemma {:induction false} PutOther(op: BinOp, e: Expr, p: Path, t: Expr, q: Path)
    requires IsTip(ShapeOf(op, e), p) && IsTip(ShapeOf(op, e), q) && p != q && !IsOp(op, t)
    ensures ShapeOf(op, Put(op, e, p, t)) == ShapeOf(op, e)
    ensures Get(op, Put(op, e, p, t), q) == Get(op, e, q)
  {
    PutSlot(op, e, p, t);
    if p != [] && q != [] {
      assert p == [p[0]] + p[1..] && q == [q[0]] + q[1..];
      if p[0] == q[0] {
        PutOther(op, if p[0].L? then e.left else e.right, p[1..], t, q[1..]);
      }
    }
  }

  /** Any one operand can be taken out of the spine's value. */
  lemma {:induction false} OperandOut(op: BinOp, e: Expr, p: Path, env: Env)
    requires IsTip(ShapeOf(op, e), p)
    ensures Value(e, env) == Apply(op, Value(Get(op, e, p), env), Value(Put(op, e, p, Sym(Neutral(op))), env))
  {
    if p != [] {
      OperandOut(op, if p[0].L? then e.left else e.right, p[1..], env);
    }
  }

  /** Overwriting a slot twice is overwriting it once. */
  lemma {:induction false} PutTwice(op: BinOp, e: Expr, p: Path, t: Expr, u: Expr)
    requires IsTip(ShapeOf(op, e), p) && !IsOp(op, t)
    ensures ShapeOf(op, Put(op, e, p, t)) == ShapeOf(op, e)
    ensures Put(op, Put(op, e, p, t), p, u) == Put(op, e, p, u)
  {
    PutSlot(op, e, p, t);
    if p != [] {
      PutTwice(op, if p[0].L? then e.left else e.right, p[1..], t, u);
    }
  }

  lemma {:induction false} PutSame(op: BinOp, e: Expr, p: Path)
    requires InShape(ShapeOf(op, e), p)
    ensures Put(op, e, p, Get(op, e, p)) == e
  {
    if p != [] {
      PutSame(op, if p[0].L? then e.left else e.right, p[1..]);
    }
  }

  /** The value of a spine after one operand was replaced. */
  lemma PutValue(op: BinOp, e: Expr, p: Path, t: Expr, env: Env)
    requires IsTip(ShapeOf(op, e), p) && !IsOp(op, t)
    ensures Value(Put(op, e, p, t), env) == Apply(op, Value(t, env), Value(Put(op, e, p, Sym(Neutral(op))), env))
  {
    PutSlot(op, e, p, t);
    PutTwice(op, e, p, t, Sym(Neutral(op)));
    OperandOut(op, Put(op, e, p, t), p, env);
  }

  /** Blanking one operand and putting the join of both into the other keeps the value. */
  lemma PutPairValue(op: BinOp, e: Expr, p: Path, q: Path, t: Expr, env: Env)
    requires IsTip(ShapeOf(op, e), p) && IsTip(ShapeOf(op, e), q) && p != q && !IsOp(op, t)
    requires Value(t, env) == Apply(op, Value(Get(op, e, p), env), Value(Get(op, e, q), env))
    ensures var blanked := Put(op, e, p, Sym(Neutral(op)));
            && ShapeOf(op, blanked) == ShapeOf(op, e)
            && Value(Put(op, blanked, q, t), env) == Value(e, env)
  {
    var blanked := Put(op, e, p, Sym(Neutral(op)));
    PutOther(op, e, p, Sym(Neutral(op)), q);
    OperandOut(op, e, p, env);
    OperandOut(op, blanked, q, env);
    PutValue(op, blanked, q, t, env);
  }

  /** Normal operands in a normal spine leave it normal. */
  lemma {:induction false} PutNormal(op: BinOp, e: Expr, p: Path, t: Expr)
    requires InShape(ShapeOf(op, e), p)
    ensures Normal(e) ==> Normal(Get(op, e, p))
    ensures Normal(e) && Normal(t) ==> Normal(Put(op, e, p, t))
  {
    if p != [] {
      PutNormal(op, if p[0].L? then e.left else e.right, p[1..], t);
    }
  }

  /** A y or n in the tree survives unless the operand that holds it is replaced by one without. */
  lemma {:induction false} PutYesNo(op: BinOp, e: Expr, p: Path, t: Expr)
    requires IsTip(ShapeOf(op, e), p)
    ensures HasYesNo(t) ==> HasYesNo(Put(op, e, p, t))
    ensures HasYesNo(e) && (HasYesNo(Get(op, e, p)) ==> HasYesNo(t)) ==> HasYesNo(Put(op, e, p, t))
  {
    if p != [] {
      PutYesNo(op, if p[0].L? then e.left else e.right, p[1..], t);
    }
  }

  lemma {:induction false} Extend(s: Shape, p: Path, d: Dir)
    requires InShape(s, p) && SubShape(s, p).Fork?
    ensures InShape(s, p + [d])
    ensures SubShape(s, p + [d]) == if d.L? then SubShape(s, p).left else SubShape(s, p).right
  {
    if p != [] {
      assert (p + [d])[1..] == p[1..] + [d];
      Extend(if p[0].L? then s.left else s.right, p[1..], d);
    }
  }

  /** Below a slot that holds an operand there are no further slots. */
  lemma {:induction false} TipHasNoBelow(s: Shape, p: Path, q: Path)
    requires IsTip(s, p) && InShape(s, q) && p <= q
    ensures p == q
  {
    if p != [] {
      assert p == [p[0]] + p[1..] && q == [q[0]] + q[1..];
      TipHasNoBelow(if p[0].L? then s.left else s.right, p[1..], q[1..]);
    }
  }

  /** Every slot at or below an op-node is below its left or its right side. */
  lemma {:induction false} TipBelowFork(s: Shape, p: Path, q: Path)
    requires InShape(s, p) && SubShape(s, p).Fork? && IsTip(s, q) && p <= q
    ensures p + [L] <= q || p + [R] <= q
  {
    if p != q {
      assert q[..|p|] == p;
      var d := q[|p|];
      assert p + [d] <= q;
      assert d == L || d == R;
    }
  }
}
