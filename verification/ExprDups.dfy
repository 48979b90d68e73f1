/** Removing duplicate operands (scripts/config/expr.c, expr_eliminate_dups1 and
    expr_eliminate_dups): every ordered pair of operands of a spine is joined where the join
    rules allow, through two slots into the same tree. */
module ExprDups {
  import opened Options
  import opened KconfigExpr
  import opened ExprEquality
  import opened ExprCanonical
  import opened ExprTransform
  import opened ExprJoin
  import opened ExprSpine

  /** No join applies to any two operands of e's spine, nor to those of the spine of an operand that
      is of the other kind. */
  ghost predicate Settled(e: Expr)
    decreases Size(e), 1
  {
    e.Bin? ==>
      forall p, q | IsTip(ShapeOf(e.op, e), p) && IsTip(ShapeOf(e.op, e), q) && p != q ::
        PairSettled(e.op, e, p, q)
  }

  ghost predicate PairSettled(op: BinOp, e: Expr, p: Path, q: Path)
    requires IsTip(ShapeOf(op, e), p) && IsTip(ShapeOf(op, e), q)
    decreases Size(e), 0
  {
    && Join(op, Get(op, e, p), Get(op, e, q)).None?
    && (p != [] ==> Settled(Get(op, e, p)))
  }

  /** No two operands of e's spine are the same up to order and grouping, nor two of the spine of an
      operand that is of the other kind. */
  ghost predicate NoTwins(e: Expr)
    decreases Size(e), 1
  {
    e.Bin? ==>
      forall p, q | IsTip(ShapeOf(e.op, e), p) && IsTip(ShapeOf(e.op, e), q) && p != q :: NotTwins(e.op, e, p, q)
  }

  ghost predicate NotTwins(op: BinOp, e: Expr, p: Path, q: Path)
    requires IsTip(ShapeOf(op, e), p) && IsTip(ShapeOf(op, e), q)
    decreases Size(e), 0
  {
    && CanonOf(Get(op, e, p)) != CanonOf(Get(op, e, q))
    && (p != [] ==> NoTwins(Get(op, e, p)))
  }

  /** Where nothing joins no operand stands twice. */
  lemma {:induction false} SettledNoTwins(e: Expr)
    requires Settled(e) && Clean(e)
    ensures NoTwins(e)
    decreases Size(e)
  {
    if e.Bin? {
      forall p, q | IsTip(ShapeOf(e.op, e), p) && IsTip(ShapeOf(e.op, e), q) && p != q
        ensures NotTwins(e.op, e, p, q)
      {
        assert PairSettled(e.op, e, p, q);
        GetClean(e.op, e, p);
        GetClean(e.op, e, q);
        ExprEqExact(Get(e.op, e, p), Get(e.op, e, q));
        if p != [] {
          SettledNoTwins(Get(e.op, e, p));
        }
      }
    }
  }

  lemma {:induction false} GetClean(op: BinOp, e: Expr, p: Path)
    requires Clean(e) && InShape(ShapeOf(op, e), p)
    ensures Clean(Get(op, e, p))
  {
    if p != [] {
      GetClean(op, if p[0].L? then e.left else e.right, p[1..]);
    }
  }

  /** Without y or n inside, or one of the two. */
  predicate CleanOrYesNo(e: Expr) {
    Clean(e) || IsYesNo(e)
  }

  /** No two operands of e's spine, or of a spine inside it, may be joined by a rule for tests of
      one symbol. */
  ghost predicate NoTestsJoin(e: Expr)
    decreases Size(e), 1
  {
    e.Bin? ==>
      forall p, q | IsTip(ShapeOf(e.op, e), p) && IsTip(ShapeOf(e.op, e), q) && p != q ::
        && (forall s :: !Rule(e.op, s, Get(e.op, e, p), Get(e.op, e, q)))
        && (p != [] ==> NoTestsJoin(Get(e.op, e, p)))
  }

  predicate Rule(op: BinOp, s: Symbol, e1: Expr, e2: Expr) {
    if op.OrOp? then OrJoins(s, e1, e2) else AndJoins(s, e1, e2)
  }

  lemma {:induction false} SettledNoTests(e: Expr)
    requires Settled(e)
    ensures NoTestsJoin(e)
    decreases Size(e)
  {
    if e.Bin? {
      forall p, q | IsTip(ShapeOf(e.op, e), p) && IsTip(ShapeOf(e.op, e), q) && p != q
        ensures forall s :: !Rule(e.op, s, Get(e.op, e, p), Get(e.op, e, q))
        ensures p != [] ==> NoTestsJoin(Get(e.op, e, p))
      {
        assert PairSettled(e.op, e, p, q);
        OrJoinExact(Get(e.op, e, p), Get(e.op, e, q));
        AndJoinExact(Get(e.op, e, p), Get(e.op, e, q));
        if p != [] {
          SettledNoTests(Get(e.op, e, p));
        }
      }
    }
  }

  /** Every pair of operands from the two slots on was looked at and nothing joined. */
  ghost predicate PairsSettled(op: BinOp, e: Expr, p: Path, q: Path) {
    forall a, b | IsTip(ShapeOf(op, e), a) && IsTip(ShapeOf(op, e), b) && p <= a && q <= b && a != b ::
      PairSettled(op, e, a, b)
  }

  /** What one pass over some of the pairs does to the tree. */
  ghost predicate Passed(op: BinOp, e: Expr, count: nat, e': Expr, count': nat) {
    && ShapeOf(op, e') == ShapeOf(op, e)
    && Equiv(e, e')
    && Size(e') <= Size(e)
    && (Normal(e) ==> Normal(e'))
    && (HasYesNo(e) ==> HasYesNo(e'))
    && count <= count'
    && (count < count' ==> e'.Bin? && HasYesNo(e'))
    && (count == count' ==> e' == e)
  }

  lemma PassedInTurn(op: BinOp, e: Expr, n: nat, e': Expr, n': nat, e'': Expr, n'': nat)
    requires Passed(op, e, n, e', n') && Passed(op, e', n', e'', n'')
    ensures Passed(op, e, n, e'', n'')
  {
    forall env | WellFormed(env)
      ensures Value(e, env) == Value(e'', env)
    {
      assert Value(e, env) == Value(e', env);
    }
  }

  /** Dropping to both sides of the first slot covers everything below it. */
  lemma BothSides(op: BinOp, e: Expr, p: Path, q: Path)
    requires InShape(ShapeOf(op, e), p) && SubShape(ShapeOf(op, e), p).Fork?
    requires PairsSettled(op, e, p + [L], q) && PairsSettled(op, e, p + [R], q)
    ensures PairsSettled(op, e, p, q)
  {
    forall a, b | IsTip(ShapeOf(op, e), a) && IsTip(ShapeOf(op, e), b) && p <= a && q <= b && a != b
      ensures PairSettled(op, e, a, b)
    {
      TipBelowFork(ShapeOf(op, e), p, a);
    }
  }

  /** The same for the second slot. */
  lemma BothSidesSecond(op: BinOp, e: Expr, p: Path, q: Path)
    requires InShape(ShapeOf(op, e), q) && SubShape(ShapeOf(op, e), q).Fork?
    requires PairsSettled(op, e, p, q + [L]) && PairsSettled(op, e, p, q + [R])
    ensures PairsSettled(op, e, p, q)
  {
    forall a, b | IsTip(ShapeOf(op, e), a) && IsTip(ShapeOf(op, e), b) && p <= a && q <= b && a != b
      ensures PairSettled(op, e, a, b)
    {
      TipBelowFork(ShapeOf(op, e), q, b);
    }
  }

  lemma OnePair(op: BinOp, e: Expr, p: Path, q: Path)
    requires IsTip(ShapeOf(op, e), p) && IsTip(ShapeOf(op, e), q)
    requires p != q ==> PairSettled(op, e, p, q)
    ensures PairsSettled(op, e, p, q)
  {
    forall a, b | IsTip(ShapeOf(op, e), a) && IsTip(ShapeOf(op, e), b) && p <= a && q <= b && a != b
      ensures PairSettled(op, e, a, b)
    {
      TipHasNoBelow(ShapeOf(op, e), p, a);
      TipHasNoBelow(ShapeOf(op, e), q, b);
    }
  }

  /** Putting back an operand that was itself cleaned up. */
  lemma OperandCleaned(op: BinOp, e: Expr, p: Path, n: nat, x': Expr, n': nat)
    requires IsTip(ShapeOf(op, e), p) && p != []
    requires Get(op, e, p).Bin? && Passed(Get(op, e, p).op, Get(op, e, p), n, x', n')
    ensures !IsOp(op, x') && Passed(op, e, n, Put(op, e, p, x'), n')
  {
    var x := Get(op, e, p);
    assert ShapeOf(x.op, x).Fork?;
    PutSlot(op, e, p, x');
    PutSame(op, e, p);
    PutNormal(op, e, p, x');
    PutYesNo(op, e, p, x');
    forall env | WellFormed(env)
      ensures Value(e, env) == Value(Put(op, e, p, x'), env)
    {
      assert Value(x, env) == Value(x', env);
      PutValue(op, e, p, x', env);
      PutValue(op, e, p, x, env);
    }
  }

  /** Replacing two operands by a blank and their join. */
  lemma PairJoined(op: BinOp, e: Expr, p: Path, q: Path, n: nat)
    requires IsTip(ShapeOf(op, e), p) && IsTip(ShapeOf(op, e), q) && p != q
    requires Join(op, Get(op, e, p), Get(op, e, q)).Some?
    ensures var t := Join(op, Get(op, e, p), Get(op, e, q)).value;
            var blanked := Put(op, e, p, Sym(Neutral(op)));
            ShapeOf(op, blanked) == ShapeOf(op, e) && Passed(op, e, n, Put(op, blanked, q, t), n + 1)
  {
    PairJoinedTo(op, e, p, q, n, Join(op, Get(op, e, p), Get(op, e, q)).value);
  }

  lemma PairJoinedTo(op: BinOp, e: Expr, p: Path, q: Path, n: nat, t: Expr)
    requires IsTip(ShapeOf(op, e), p) && IsTip(ShapeOf(op, e), q) && p != q
    requires Join(op, Get(op, e, p), Get(op, e, q)) == Some(t)
    ensures var blanked := Put(op, e, p, Sym(Neutral(op)));
            ShapeOf(op, blanked) == ShapeOf(op, e) && Passed(op, e, n, Put(op, blanked, q, t), n + 1)
  {
    var (x, y) := (Get(op, e, p), Get(op, e, q));
    JoinShape(op, x, y);
    forall env | WellFormed(env)
      ensures Value(t, env) == Apply(op, Value(x, env), Value(y, env))
    {
      JoinValue(op, x, y, env);
    }
    PairReplaced(op, e, p, q, n, t);
  }

  /** Any t in place of a pair will do that means the same, and is as small and as normal. */
  lemma PairReplaced(op: BinOp, e: Expr, p: Path, q: Path, n: nat, t: Expr)
    requires IsTip(ShapeOf(op, e), p) && IsTip(ShapeOf(op, e), q) && p != q
    requires !IsOp(op, t) && Size(t) <= Size(Get(op, e, p))
    requires Normal(Get(op, e, p)) && Normal(Get(op, e, q)) ==> Normal(t)
    requires forall env | WellFormed(env) ::
               Value(t, env) == Apply(op, Value(Get(op, e, p), env), Value(Get(op, e, q), env))
    ensures var blanked := Put(op, e, p, Sym(Neutral(op)));
            ShapeOf(op, blanked) == ShapeOf(op, e) && Passed(op, e, n, Put(op, blanked, q, t), n + 1)
  {
    var blanked := Put(op, e, p, Sym(Neutral(op)));
    PutSlot(op, e, p, Sym(Neutral(op)));
    PutOther(op, e, p, Sym(Neutral(op)), q);
    var e' := Put(op, blanked, q, t);
    PutSlot(op, blanked, q, t);
    PutNormal(op, e, p, Sym(Neutral(op)));
    PutNormal(op, e, q, t);
    PutNormal(op, blanked, q, t);
    OtherSlotYesNo(op, blanked, p, q, t);
    forall env | WellFormed(env)
      ensures Value(e, env) == Value(e', env)
    {
      PutPairValue(op, e, p, q, t, env);
    }
  }

  /** The blank in the first slot is still there after the second slot is overwritten. */
  lemma OtherSlotYesNo(op: BinOp, e: Expr, p: Path, q: Path, t: Expr)
    requires IsTip(ShapeOf(op, e), p) && IsTip(ShapeOf(op, e), q) && p != q && !IsOp(op, t)
    requires IsYesNo(Get(op, e, p))
    ensures HasYesNo(Put(op, e, q, t)) && Put(op, e, q, t).Bin?
  {
    PutOther(op, e, q, t, p);
    var e' := Put(op, e, q, t);
    PutSame(op, e', p);
    PutYesNo(op, e', p, Get(op, e', p));
    if q == [] {
      TipHasNoBelow(ShapeOf(op, e), q, p);
    }
  }

  /** expr_eliminate_dups1 over the slots p and q of one tree; count is trans_count. */
  method EliminateDups1(op: BinOp, e: Expr, p: Path, q: Path, count: nat) returns (e': Expr, count': nat)
    requires InShape(ShapeOf(op, e), p) && InShape(ShapeOf(op, e), q)
    ensures Passed(op, e, count, e', count')
    ensures count == count' ==> PairsSettled(op, e, p, q)
    decreases Size(e), Forks(SubShape(ShapeOf(op, e), p)) + Forks(SubShape(ShapeOf(op, e), q))
  {
    e', count' := e, count;
    if IsOp(op, Get(op, e, p)) {
      Extend(ShapeOf(op, e), p, L);
      Extend(ShapeOf(op, e), p, R);
      e', count' := EliminateDups1(op, e', p + [L], q, count');
      ghost var (e1, n1) := (e', count');
      e', count' := EliminateDups1(op, e', p + [R], q, count');
      PassedInTurn(op, e, count, e1, n1, e', count');
      if count == count' {
        BothSides(op, e, p, q);
      }
      return;
    }
    if IsOp(op, Get(op, e, q)) {
      Extend(ShapeOf(op, e), q, L);
      Extend(ShapeOf(op, e), q, R);
      e', count' := EliminateDups1(op, e', p, q + [L], count');
      ghost var (e1, n1) := (e', count');
      e', count' := EliminateDups1(op, e', p, q + [R], count');
      PassedInTurn(op, e, count, e1, n1, e', count');
      if count == count' {
        BothSidesSecond(op, e, p, q);
      }
      return;
    }
    if p == q {
      OnePair(op, e, p, q);
      return;
    }
    e', count' := EliminateInside(op, e', p, q, count');
    ghost var (e1, n1) := (e', count');
    var t := Join(op, Get(op, e', p), Get(op, e', q));
    if t.Some? {
      PairJoined(op, e', p, q, count');
      e' := Put(op, e', p, Sym(Neutral(op)));
      e' := Put(op, e', q, t.value);
      count' := count' + 1;
      PassedInTurn(op, e, count, e1, n1, e', count');
    } else if count == count' {
      OnePair(op, e, p, q);
    }
  }

  /** The first operand's own duplicates are removed before the pair is looked at. */
  method EliminateInside(op: BinOp, e: Expr, p: Path, ghost q: Path, count: nat) returns (e': Expr, count': nat)
    requires IsTip(ShapeOf(op, e), p) && IsTip(ShapeOf(op, e), q) && p != q
    ensures Passed(op, e, count, e', count')
    ensures count == count' ==> p != [] && Settled(Get(op, e, p))
    decreases Size(e), 0, 0
  {
    e', count' := e, count;
    if p == [] {
      TipHasNoBelow(ShapeOf(op, e), p, q);
    }
    var x := Get(op, e, p);
    if x.Bin? {
      var x', n := EliminateDups1(x.op, x, [], [], count);
      OperandCleaned(op, e, p, count, x', n);
      e', count' := Put(op, e, p, x'), n;
    }
  }

  /** expr_eliminate_dups: passes until one joins nothing. */
  method EliminateDups(e: Expr) returns (e': Expr)
    ensures Equiv(e, e')
    ensures Size(e') <= Size(e)
    ensures Normal(e) ==> Normal(e')
    ensures Settled(e') && NoTestsJoin(e')
    ensures Normal(e) && Clean(e) ==> CleanOrYesNo(e') && NoTwins(e')
  {
    e' := e;
    while true
      invariant Equiv(e, e') && Size(e') <= Size(e) && (Normal(e) ==> Normal(e'))
      invariant Normal(e) && Clean(e) ==> CleanOrYesNo(e')
      decreases Size(e')
    {
      ghost var before := e';
      var transCount := 0;
      if e'.Bin? {
        e', transCount := EliminateDups1(e'.op, e', [], [], 0);
      }
      if transCount == 0 {
        break;
      }
      ghost var joined := e';
      e' := EliminateYn(e');
      EliminateYnShrinks(joined);
      EliminateYnNormal(joined);
      if Normal(joined) {
        NormalClean(joined);
      }
      forall env | WellFormed(env)
        ensures Value(e, env) == Value(e', env)
      {
        assert Value(e, env) == Value(before, env) == Value(joined, env);
        EliminateYnValue(joined, env);
      }
    }
    SettledResult(e');
  }

  lemma SettledResult(e: Expr)
    requires Settled(e)
    ensures NoTestsJoin(e) && (CleanOrYesNo(e) ==> NoTwins(e))
  {
    SettledNoTests(e);
    if Clean(e) {
      SettledNoTwins(e);
    }
  }

  lemma {:induction false} EliminateYnNormal(e: Expr)
    ensures Normal(e) ==> Normal(EliminateYn(e))
  {
    if e.Bin? {
      EliminateYnNormal(e.left);
      EliminateYnNormal(e.right);
    }
  }
}
