/** What expr_eq decides: equality up to the order and grouping of AND and OR operands.
    Cancelling removes exactly the operands the two spines share, counted. */
module ExprCanonical {
  import opened KconfigExpr
  import opened ExprEquality
  import ExprTransform

  /** An expression with the order and grouping of its operands forgotten. */
  datatype Canon = Atom(e: Expr) | Negation(c: Canon) | Operands(op: BinOp, cs: multiset<Canon>)

  function CanonOf(e: Expr): Canon
    decreases e, 1
  {
    match e
    case Not(x) => Negation(CanonOf(x))
    case Bin(op, l, r) => Operands(op, Leaves(op, l) + Leaves(op, r))
    case _ => Atom(e)
  }

  /** The operands of the maximal op-spine of e, leaving out the neutral constant. */
  function Leaves(op: BinOp, e: Expr): multiset<Canon>
    decreases e, 2
  {
    if IsOp(op, e) then Leaves(op, e.left) + Leaves(op, e.right)
    else if e == Sym(Neutral(op)) then multiset{}
    else multiset{CanonOf(e)}
  }

  /** No y or n anywhere, as in every result of expr_eliminate_yn over plain symbols. */
  predicate Clean(e: Expr) {
    match e
    case Sym(_) => !IsYesNo(e)
    case Cmp(_, _, _) => true
    case Not(x) => Clean(x)
    case Bin(_, l, r) => Clean(l) && Clean(r)
  }

  /** An op-spine whose operands are clean or already blanked. */
  predicate CleanSpine(op: BinOp, e: Expr) {
    if IsOp(op, e) then CleanSpine(op, e.left) && CleanSpine(op, e.right)
    else e == Sym(Neutral(op)) || Clean(e)
  }

  lemma {:induction false} CleanIsSpine(op: BinOp, e: Expr)
    requires Clean(e)
    ensures CleanSpine(op, e)
  {
    if IsOp(op, e) {
      CleanIsSpine(op, e.left);
      CleanIsSpine(op, e.right);
    }
  }

  /** What cancellation leaves of two spines: multiset difference, both ways. */
  ghost predicate Cancelled(a: multiset<Canon>, b: multiset<Canon>, a': multiset<Canon>, b': multiset<Canon>) {
    a' == a - b && b' == b - a
  }

  /** Cancelling against two parts in turn is cancelling against their sum. */
  lemma CancelledInTurn(a: multiset<Canon>, b: multiset<Canon>, e: multiset<Canon>,
                        a': multiset<Canon>, b': multiset<Canon>, e': multiset<Canon>, e'': multiset<Canon>)
    requires Cancelled(a, e, a', e') && Cancelled(b, e', b', e'')
    ensures Cancelled(a + b, e, a' + b', e'')
  {
    assert (a - e) + (b - (e - a)) == (a + b) - e;
    assert (e - a) - b == e - (a + b);
  }

  /** r1 and r2 are clean spines with what cancellation leaves of e1 and e2. */
  ghost predicate SpinesCancelled(op: BinOp, e1: Expr, e2: Expr, r1: Expr, r2: Expr) {
    CleanSpine(op, r1) && CleanSpine(op, r2) && Cancelled(Leaves(op, e1), Leaves(op, e2), Leaves(op, r1), Leaves(op,
        r2))
  }

  lemma JoinedSpine(op: BinOp, l: Expr, r: Expr)
    ensures Leaves(op, Bin(op, l, r)) == Leaves(op, l) + Leaves(op, r)
    ensures CleanSpine(op, Bin(op, l, r)) <==> CleanSpine(op, l) && CleanSpine(op, r)
  {}

  lemma SpinesInTurn(op: BinOp, l: Expr, r: Expr, e: Expr, l': Expr, r': Expr, e': Expr, e'': Expr)
    requires SpinesCancelled(op, l, e, l', e') && SpinesCancelled(op, r, e', r', e'')
    ensures SpinesCancelled(op, Bin(op, l, r), e, Bin(op, l', r'), e'')
  {
    JoinedSpine(op, l, r);
    JoinedSpine(op, l', r');
    CancelledInTurn(Leaves(op, l), Leaves(op, r), Leaves(op, e), Leaves(op, l'), Leaves(op, r'), Leaves(op, e'),
        Leaves(op, e''));
  }

  lemma SpinesSwapped(op: BinOp, e1: Expr, e2: Expr, r1: Expr, r2: Expr)
    requires SpinesCancelled(op, e1, e2, r1, r2)
    ensures SpinesCancelled(op, e2, e1, r2, r1)
  {}

  /** Cancelling two spines leaves the difference of their operands, counted, on either side. */
  lemma {:induction false} EliminateEq1Leaves(op: BinOp, e1: Expr, e2: Expr)
    requires CleanSpine(op, e1) && CleanSpine(op, e2)
    ensures SpinesCancelled(op, e1, e2, EliminateEq1(op, e1, e2).0, EliminateEq1(op, e1, e2).1)
    decreases Size(e1) + Size(e2), if IsOp(op, e1) || IsOp(op, e2) then 0 else 3
  {
    if IsOp(op, e1) {
      var a := EliminateEq1(op, e1.left, e2);
      var b := EliminateEq1(op, e1.right, a.1);
      EliminateEq1Leaves(op, e1.left, e2);
      EliminateEq1Leaves(op, e1.right, a.1);
      SpinesInTurn(op, e1.left, e1.right, e2, a.0, b.0, a.1, b.1);
    } else if IsOp(op, e2) {
      var a := EliminateEq1(op, e1, e2.left);
      var b := EliminateEq1(op, a.0, e2.right);
      EliminateEq1Leaves(op, e1, e2.left);
      EliminateEq1Leaves(op, a.0, e2.right);
      SpinesSwapped(op, e1, e2.left, a.0, a.1);
      SpinesSwapped(op, a.0, e2.right, b.0, b.1);
      SpinesInTurn(op, e2.left, e2.right, e1, a.1, b.1, a.0, b.0);
      SpinesSwapped(op, e2, e1, Bin(op, a.1, b.1), b.0);
    } else {
      OperandsCancelled(op, e1, e2);
    }
  }

  lemma {:induction false} OperandsCancelled(op: BinOp, e1: Expr, e2: Expr)
    requires CleanSpine(op, e1) && CleanSpine(op, e2) && !IsOp(op, e1) && !IsOp(op, e2)
    ensures SpinesCancelled(op, e1, e2, EliminateEq1(op, e1, e2).0, EliminateEq1(op, e1, e2).1)
    decreases Size(e1) + Size(e2), 3, 0
  {
    var n := Sym(Neutral(op));
    if e1 == n || e2 == n {
      assert EliminateEq1(op, e1, e2) == (e1, e2);
      EmptyCancelled(Leaves(op, e1));
      EmptyCancelled(Leaves(op, e2));
    } else {
      ExprEqExact(e1, e2);
      SingletonsCancelled(CanonOf(e1), CanonOf(e2));
    }
  }

  lemma EmptyCancelled(a: multiset<Canon>)
    ensures Cancelled(a, multiset{}, a, multiset{}) && Cancelled(multiset{}, a, multiset{}, a)
  {}

  lemma SingletonsCancelled(c: Canon, d: Canon)
    ensures c == d ==> Cancelled(multiset{c}, multiset{d}, multiset{}, multiset{})
    ensures c != d ==> Cancelled(multiset{c}, multiset{d}, multiset{c}, multiset{d})
  {}

  lemma {:induction false} CleanKept(e: Expr)
    requires Clean(e)
    ensures EliminateYn(e) == e
  {
    if e.Bin? {
      CleanKept(e.left);
      CleanKept(e.right);
    }
  }

  /** Dropping the blanked operands leaves a clean expression, or the neutral constant alone. */
  lemma {:induction false} EliminateYnLeaves(op: BinOp, e: Expr)
    requires CleanSpine(op, e)
    ensures Leaves(op, EliminateYn(e)) == Leaves(op, e)
    ensures EliminateYn(e) == Sym(Neutral(op)) || Clean(EliminateYn(e))
  {
    if IsOp(op, e) {
      EliminateYnLeaves(op, e.left);
      EliminateYnLeaves(op, e.right);
    } else if Clean(e) {
      CleanKept(e);
    }
  }

  /** A spine with nothing but blanks in it reduces to the neutral constant, and back. */
  lemma {:induction false} NoLeaves(op: BinOp, e: Expr)
    requires e == Sym(Neutral(op)) || Clean(e)
    ensures Leaves(op, e) == multiset{} <==> e == Sym(Neutral(op))
  {
    if IsOp(op, e) {
      NoLeaves(op, e.left);
    } else if e != Sym(Neutral(op)) {
      assert CanonOf(e) in Leaves(op, e);
    }
  }

  /** expr_eq answers yes exactly when the two expressions are the same up to the order
      and grouping of AND and OR operands. */
  lemma {:induction false} ExprEqExact(e1: Expr, e2: Expr)
    requires Clean(e1) && Clean(e2)
    ensures ExprEq(e1, e2) <==> CanonOf(e1) == CanonOf(e2)
    decreases Size(e1) + Size(e2), 2
  {
    match (e1, e2)
    case (Not(x1), Not(x2)) => ExprEqExact(x1, x2);
    case (Bin(op, _, _), Bin(op2, _, _)) =>
      if op == op2 {
        SpinesEqual(op, e1, e2);
      }
    case _ =>
  }

  lemma {:induction false} SpinesEqual(op: BinOp, e1: Expr, e2: Expr)
    requires Clean(e1) && Clean(e2) && IsOp(op, e1) && IsOp(op, e2)
    ensures ExprEq(e1, e2) <==> Leaves(op, e1) == Leaves(op, e2)
    decreases Size(e1) + Size(e2), 1
  {
    CleanIsSpine(op, e1);
    CleanIsSpine(op, e2);
    EliminateEq1Leaves(op, e1, e2);
    var q := EliminateEq1(op, e1, e2);
    SpineKept(op, e1, e2);
    EliminateYnLeaves(op, q.0);
    EliminateYnLeaves(op, q.1);
    var r := EliminateEq(e1, e2);
    assert r == (EliminateYn(q.0), EliminateYn(q.1));
    NoLeaves(op, r.0);
    NoLeaves(op, r.1);
    DifferenceLaws(Leaves(op, e1), Leaves(op, e2));
  }

  lemma {:induction false} SpineKept(op: BinOp, e1: Expr, e2: Expr)
    ensures IsOp(op, e1) ==> IsOp(op, EliminateEq1(op, e1, e2).0)
    ensures IsOp(op, e2) ==> IsOp(op, EliminateEq1(op, e1, e2).1)
    decreases Size(e1) + Size(e2)
  {
    if IsOp(op, e1) {
      var a := EliminateEq1(op, e1.left, e2);
      SpineKept(op, e1.left, e2);
      SpineKept(op, e1.right, a.1);
    }
  }

  lemma DifferenceLaws<T>(a: multiset<T>, b: multiset<T>)
    ensures a - b == multiset{} && b - a == multiset{} <==> a == b
    ensures a - b == b - a ==> a == b
  {
    if a - b == b - a {
      forall x: T
        ensures a[x] == b[x]
      {
        assert (a - b)[x] == (b - a)[x];
      }
      assert a == b;
    }
  }

  lemma {:induction false} NormalClean(e: Expr)
    requires ExprTransform.Normal(e)
    ensures Clean(EliminateYn(e)) || IsYesNo(EliminateYn(e))
  {
    if e.Bin? {
      NormalClean(e.left);
      NormalClean(e.right);
    }
  }

  /** After expr_transform and expr_eliminate_yn the test is exact for every two expressions. */
  lemma NormalEqExact(e1: Expr, e2: Expr)
    requires ExprTransform.Normal(e1) && ExprTransform.Normal(e2)
    ensures var (c1, c2) := (EliminateYn(e1), EliminateYn(e2));
      ExprEq(c1, c2) <==> CanonOf(c1) == CanonOf(c2)
  {
    NormalClean(e1);
    NormalClean(e2);
    var (c1, c2) := (EliminateYn(e1), EliminateYn(e2));
    if Clean(c1) && Clean(c2) {
      ExprEqExact(c1, c2);
    }
  }

  // ---------- When only y is left ----------

  /** y and n are never cancelled. */
  lemma {:induction false} ConstantStays(op: BinOp, e: Expr, c: Expr)
    requires IsYesNo(c)
    ensures EliminateEq1(op, e, c).1 == c
    decreases e
  {
    if IsOp(op, e) {
      ConstantStays(op, e.left, c);
      ConstantStays(op, e.right, c);
    }
  }

  lemma ConstantLeft(e: Expr, c: Expr)
    requires IsYesNo(c)
    ensures EliminateEq(e, c).1 == c
  {
    if e.Bin? {
      ConstantStays(e.op, e, c);
    }
  }

  lemma {:induction false} StaysClean(op: BinOp, e1: Expr, e2: Expr)
    requires CleanSpine(op, e2)
    ensures CleanSpine(op, EliminateEq1(op, e1, e2).1)
    decreases Size(e1) + Size(e2)
  {
    if IsOp(op, e1) {
      StaysClean(op, e1.left, e2);
      StaysClean(op, e1.right, EliminateEq1(op, e1.left, e2).1);
    } else if IsOp(op, e2) {
      StaysClean(op, e1, e2.left);
      StaysClean(op, EliminateEq1(op, e1, e2.left).0, e2.right);
    }
  }

  /** One operand takes at most one operand away. */
  ghost predicate OneLess(op: BinOp, x: Expr, e: Expr, x': Expr, e': Expr) {
    || (x' == x && e' == e)
    || (x' == Sym(Neutral(op)) && |Leaves(op, e)| == 1 + |Leaves(op, e')|)
  }

  lemma {:induction false} OneRemoved(op: BinOp, x: Expr, e: Expr)
    requires !IsOp(op, x) && CleanSpine(op, e)
    ensures OneLess(op, x, e, EliminateEq1(op, x, e).0, EliminateEq1(op, x, e).1)
    ensures x == Sym(Neutral(op)) ==> EliminateEq1(op, x, e) == (x, e)
    decreases e
  {
    if IsOp(op, e) {
      var a := EliminateEq1(op, x, e.left);
      OneRemoved(op, x, e.left);
      OneRemoved(op, a.0, e.right);
      var b := EliminateEq1(op, a.0, e.right);
      OneLessInTurn(op, x, e.left, e.right, a.0, a.1, b.0, b.1);
    } else {
      OneOperand(op, x, e);
    }
  }

  lemma OneOperand(op: BinOp, x: Expr, e: Expr)
    requires !IsOp(op, x) && !IsOp(op, e) && CleanSpine(op, e)
    ensures OneLess(op, x, e, EliminateEq1(op, x, e).0, EliminateEq1(op, x, e).1)
    ensures x == Sym(Neutral(op)) ==> EliminateEq1(op, x, e) == (x, e)
  {
    if !((x == e && IsYesNo(x)) || !ExprEq(x, e)) {
      assert EliminateEq1(op, x, e) == (Sym(Neutral(op)), Sym(Neutral(op)));
      assert e != Sym(Neutral(op)) && Leaves(op, e) == multiset{CanonOf(e)};
    }
  }

  lemma OneLessInTurn(op: BinOp, x: Expr, l: Expr, r: Expr, x1: Expr, l': Expr, x2: Expr, r': Expr)
    requires OneLess(op, x, l, x1, l') && OneLess(op, x1, r, x2, r')
    requires x1 == Sym(Neutral(op)) ==> x2 == x1 && r' == r
    ensures OneLess(op, x, Bin(op, l, r), x2, Bin(op, l', r'))
  {
    JoinedSpine(op, l, r);
    JoinedSpine(op, l', r');
  }

  lemma {:induction false} SomeLeaves(op: BinOp, e: Expr)
    requires Clean(e)
    ensures |Leaves(op, e)| >= if IsOp(op, e) then 2 else 1
  {
    if IsOp(op, e) {
      SomeLeaves(op, e.left);
      SomeLeaves(op, e.right);
    }
  }

  /** y is all that is left of a spine exactly if it is an AND without operands. */
  lemma YesLeft(op: BinOp, e: Expr)
    requires CleanSpine(op, e)
    ensures EliminateYn(e) == Sym(SYM_YES) <==> op.AndOp? && Leaves(op, e) == multiset{}
  {
    EliminateYnLeaves(op, e);
    NoLeaves(op, EliminateYn(e));
  }

  /** Cancelling a single operand from a clean expression never leaves just y. */
  lemma OperandLeavesMore(op: BinOp, x: Expr, e: Expr)
    requires !IsOp(op, x) && Clean(e) && IsOp(op, e)
    ensures EliminateYn(EliminateEq1(op, x, e).1) != Sym(SYM_YES)
  {
    CleanIsSpine(op, e);
    OneRemoved(op, x, e);
    SomeLeaves(op, e);
    StaysClean(op, x, e);
    YesLeft(op, EliminateEq1(op, x, e).1);
  }

  /** The first walk of an AND over another expression. */
  lemma AndWalk(f: Expr, b: Expr)
    requires Clean(f) && Clean(b) && IsOp(AndOp, f)
    ensures var p := EliminateEq1(AndOp, f, b);
      && IsOp(AndOp, p.0) && CleanSpine(AndOp, p.1)
      && (EliminateYn(p.1) == Sym(SYM_YES) <==> Leaves(AndOp, b) <= Leaves(AndOp, f))
  {
    CleanIsSpine(AndOp, f);
    CleanIsSpine(AndOp, b);
    EliminateEq1Leaves(AndOp, f, b);
    SpineKept(AndOp, f, b);
    YesLeft(AndOp, EliminateEq1(AndOp, f, b).1);
    NothingLeft(Leaves(AndOp, b), Leaves(AndOp, f));
  }

  /** From an AND: y is left exactly if all operands of the other one are among its own. */
  lemma AndCancels(f: Expr, b: Expr)
    requires Clean(f) && Clean(b) && IsOp(AndOp, f)
    ensures EliminateEq(f, b).1 == Sym(SYM_YES) <==> Leaves(AndOp, b) <= Leaves(AndOp, f)
  {
    AndWalk(f, b);
    var p := EliminateEq1(AndOp, f, b);
    if IsOp(OrOp, p.1) {
      OrLeavesMore(p.0, p.1);
      CleanKept(p.1);
      assert EliminateEq(f, b).1 == EliminateYn(EliminateEq1(OrOp, p.0, p.1).1);
    } else {
      assert EliminateEq(f, b).1 == EliminateYn(p.1);
    }
  }

  lemma OrLeavesMore(x: Expr, e: Expr)
    requires Clean(e) && IsOp(OrOp, e)
    ensures EliminateYn(EliminateEq1(OrOp, x, e).1) != Sym(SYM_YES)
  {
    CleanIsSpine(OrOp, e);
    StaysClean(OrOp, x, e);
    YesLeft(OrOp, EliminateEq1(OrOp, x, e).1);
  }

  lemma NothingLeft<T>(a: multiset<T>, b: multiset<T>)
    ensures a - b == multiset{} <==> a <= b
  {
    if a - b == multiset{} {
      forall x: T
        ensures a[x] <= b[x]
      {
        assert (a - b)[x] == 0;
      }
    }
  }

  /** From anything else: only if the other one was y before. */
  lemma OthersLeaveMore(f: Expr, b: Expr)
    requires (Clean(f) || IsYesNo(f)) && Clean(b) && !IsOp(AndOp, f)
    ensures EliminateEq(f, b).1 != Sym(SYM_YES)
  {
    if f.Bin? {
      var p := EliminateEq1(OrOp, f, b);
      CleanIsSpine(OrOp, b);
      StaysClean(OrOp, f, b);
      SpineKept(OrOp, f, b);
      YesLeft(OrOp, p.1);
      if p.1.Bin? && p.1.op.AndOp? {
        OperandLeavesMore(AndOp, p.0, p.1);
      }
    } else if b.Bin? {
      OperandLeavesMore(b.op, f, b);
    }
  }

  /** Exactly when expr_eliminate_eq leaves only y of the second expression: when it was y, or
      when the first is an AND that has all its operands. */
  lemma CancelsToYesExact(f: Expr, b: Expr)
    requires (Clean(f) || IsYesNo(f)) && (Clean(b) || IsYesNo(b))
    ensures EliminateEq(f, b).1 == Sym(SYM_YES) <==>
      b == Sym(SYM_YES) || (IsOp(AndOp, f) && Leaves(AndOp, b) <= Leaves(AndOp, f))
  {
    if IsYesNo(b) {
      ConstantLeft(f, b);
      if b == Sym(SYM_NO) && Clean(f) && IsOp(AndOp, f) {
        NoConstantLeaf(AndOp, f, b);
      }
    } else if IsOp(AndOp, f) {
      AndCancels(f, b);
    } else {
      OthersLeaveMore(f, b);
    }
  }

  lemma {:induction false} NoConstantLeaf(op: BinOp, e: Expr, c: Expr)
    requires Clean(e) && IsYesNo(c)
    ensures Atom(c) !in Leaves(op, e)
  {
    if IsOp(op, e) {
      NoConstantLeaf(op, e.left, c);
      NoConstantLeaf(op, e.right, c);
    }
  }
}
