/** Joining two operands of an AND or OR into one
    (scripts/config/expr.c, expr_join_or and expr_join_and). */
module ExprJoin {
  import opened Options
  import opened KconfigExpr
  import opened ExprEquality
  import opened ExprTransform

  predicate IsRel(rel: RelOp, e: Expr) {
    e.Cmp? && e.rel == rel
  }

  /** The operand is a test, a symbol or a negation, the only kinds that join. */
  predicate Joinable(e: Expr) {
    IsRel(Eq, e) || IsRel(Ne, e) || e.Sym? || e.Not?
  }

  /** The symbol a joinable first operand is about. */
  function FirstSymbol(e: Expr): Option<Symbol> {
    match e
    case Sym(s) => Some(s)
    case Cmp(_, l, _) => Some(l)
    case Not(Sym(s)) => Some(s)
    case Not(Cmp(rel, l, _)) => if rel.Eq? || rel.Ne? then Some(l) else None
    case _ => None
  }

  /** The symbol a joinable second operand is about: under NOT only a symbol will do. */
  function SecondSymbol(e: Expr): Option<Symbol> {
    match e
    case Sym(s) => Some(s)
    case Cmp(_, l, _) => Some(l)
    case Not(Sym(s)) => Some(s)
    case _ => None
  }

  /** The logical symbol both operands are about, if there is one. */
  function SharedSymbol(e1: Expr, e2: Expr): Option<Symbol> {
    if !Joinable(e1) || !Joinable(e2) then None
    else
      var s1, s2 := FirstSymbol(e1), SecondSymbol(e2);
      if s1.Some? && s1 == s2 && s1.value.IsLogical() then s1 else None
  }

  /** Both are rel-tests, one against x and the other against y. */
  predicate Tests(e1: Expr, e2: Expr, rel: RelOp, x: Symbol, y: Symbol) {
    && IsRel(rel, e1) && IsRel(rel, e2)
    && ((e1.rhs == x && e2.rhs == y) || (e1.rhs == y && e2.rhs == x))
  }

  /** One is a plain symbol, the other a rel-test against x. */
  predicate SymbolAndTest(e1: Expr, e2: Expr, rel: RelOp, x: Symbol) {
    (e1.Sym? && IsRel(rel, e2) && e2.rhs == x) || (e2.Sym? && IsRel(rel, e1) && e1.rhs == x)
  }

  /** e1 || e2, for operands that are not equal. */
  function JoinOrTests(e1: Expr, e2: Expr): Option<Expr> {
    var shared := SharedSymbol(e1, e2);
    if shared.None? then None
    else
      var s := shared.value;
      if s.Type().Tri? then
        if Tests(e1, e2, Eq, SYM_YES, SYM_MOD) then Some(Cmp(Ne, s, SYM_NO))
        else if Tests(e1, e2, Eq, SYM_YES, SYM_NO) then Some(Cmp(Ne, s, SYM_MOD))
        else if Tests(e1, e2, Eq, SYM_MOD, SYM_NO) then Some(Cmp(Ne, s, SYM_YES))
        else None
      else if (e1.Not? && e1.e.Sym? && e2.Sym?) || (e2.Not? && e2.e.Sym? && e1.Sym?) then Some(Sym(SYM_YES))
      else None
  }

  /** s = x and s != y, for constants x and y. */
  function JoinTests(s: Symbol, x: Symbol, y: Symbol): Option<Expr> {
    if x.Const? && y.Const? then Some(if x != y then Cmp(Eq, s, x) else Sym(SYM_NO)) else None
  }

  /** e1 && e2, for operands that are not equal. */
  function JoinAndTests(e1: Expr, e2: Expr): Option<Expr> {
    var shared := SharedSymbol(e1, e2);
    if shared.None? then None
    else
      var s := shared.value;
      if SymbolAndTest(e1, e2, Eq, SYM_YES) then Some(Cmp(Eq, s, SYM_YES))
      else if SymbolAndTest(e1, e2, Ne, SYM_NO) then Some(Sym(s))
      else if SymbolAndTest(e1, e2, Ne, SYM_MOD) then Some(Cmp(Eq, s, SYM_YES))
      else if s.Type().Tri? then JoinTwoTests(s, e1, e2)
      else None
  }

  /** The tests a tristate symbol can join under AND. */
  function JoinTwoTests(s: Symbol, e1: Expr, e2: Expr): Option<Expr> {
    if IsRel(Eq, e1) && IsRel(Ne, e2) && JoinTests(s, e1.rhs, e2.rhs).Some? then JoinTests(s, e1.rhs, e2.rhs)
    else if IsRel(Ne, e1) && IsRel(Eq, e2) && JoinTests(s, e2.rhs, e1.rhs).Some? then JoinTests(s, e2.rhs, e1.rhs)
    else if Tests(e1, e2, Ne, SYM_YES, SYM_NO) then Some(Cmp(Eq, s, SYM_MOD))
    else if Tests(e1, e2, Ne, SYM_YES, SYM_MOD) then Some(Cmp(Eq, s, SYM_NO))
    else if Tests(e1, e2, Ne, SYM_MOD, SYM_NO) then Some(Cmp(Eq, s, SYM_YES))
    else None
  }

  function JoinUnequal(op: BinOp, e1: Expr, e2: Expr): Option<Expr> {
    if op.OrOp? then JoinOrTests(e1, e2) else JoinAndTests(e1, e2)
  }

  /** expr_join_or and expr_join_and. */
  function Join(op: BinOp, e1: Expr, e2: Expr): Option<Expr> {
    if ExprEq(e1, e2) then Some(e1) else JoinUnequal(op, e1, e2)
  }

  // ---------- What joins ----------

  predicate IsYmn(c: Symbol) {
    c == SYM_YES || c == SYM_MOD || c == SYM_NO
  }

  /** One of the operands is a, the other b. */
  predicate Are(e1: Expr, e2: Expr, a: Expr, b: Expr) {
    (e1 == a && e2 == b) || (e1 == b && e2 == a)
  }

  /** s || !s for a boolean; s=a || s=b for a tristate and two of y, m and n. */
  predicate OrJoins(s: Symbol, e1: Expr, e2: Expr) {
    || (s.Type().Boolean? && Are(e1, e2, Sym(s), Not(Sym(s))))
    || (s.Type().Tri? && e1.Cmp? && e2.Cmp? && IsYmn(e1.rhs) && IsYmn(e2.rhs) && e1.rhs != e2.rhs
        && e1 == Cmp(Eq, s, e1.rhs) && e2 == Cmp(Eq, s, e2.rhs))
  }

  /** s && s=y, s && s!=n and s && s!=m; for a tristate also s=a && s!=b for any two constants,
      and s!=a && s!=b for two of y, m and n. */
  predicate AndJoins(s: Symbol, e1: Expr, e2: Expr) {
    || (s.IsLogical() && (Are(e1, e2, Sym(s), Cmp(Eq, s, SYM_YES)) || Are(e1, e2, Sym(s), Cmp(Ne, s, SYM_NO))
                          || Are(e1, e2, Sym(s), Cmp(Ne, s, SYM_MOD))))
    || (s.Type().Tri? && e1.Cmp? && e2.Cmp? && e1.lhs == s && e2.lhs == s && e1.rhs.Const? && e2.rhs.Const?
        && ((e1.rel.Eq? && e2.rel.Ne?) || (e1.rel.Ne? && e2.rel.Eq?)
            || (e1.rel.Ne? && e2.rel.Ne? && IsYmn(e1.rhs) && IsYmn(e2.rhs) && e1.rhs != e2.rhs)))
  }

  /** Two unequal operands of an OR join exactly if they are one of these pairs. */
  lemma OrJoinExact(e1: Expr, e2: Expr)
    ensures JoinUnequal(OrOp, e1, e2).Some? <==> exists s :: OrJoins(s, e1, e2)
  {
    if JoinUnequal(OrOp, e1, e2).Some? {
      OrJoinOnly(e1, e2);
    }
    forall s | OrJoins(s, e1, e2)
      ensures JoinUnequal(OrOp, e1, e2).Some?
    {
      assert SharedSymbol(e1, e2) == Some(s);
    }
  }

  lemma OrJoinOnly(e1: Expr, e2: Expr)
    requires JoinOrTests(e1, e2).Some?
    ensures OrJoins(SharedSymbol(e1, e2).value, e1, e2)
  {
    var s := SharedSymbol(e1, e2).value;
    if s.Type().Tri? {
      assert e1 == Cmp(Eq, s, e1.rhs) && e2 == Cmp(Eq, s, e2.rhs);
    }
  }

  /** The same for an AND. */
  lemma AndJoinExact(e1: Expr, e2: Expr)
    ensures JoinUnequal(AndOp, e1, e2).Some? <==> exists s :: AndJoins(s, e1, e2)
  {
    if JoinUnequal(AndOp, e1, e2).Some? {
      AndJoinOnly(e1, e2);
    }
    forall s | AndJoins(s, e1, e2)
      ensures JoinUnequal(AndOp, e1, e2).Some?
    {
      assert SharedSymbol(e1, e2) == Some(s);
    }
  }

  lemma AndJoinOnly(e1: Expr, e2: Expr)
    requires JoinAndTests(e1, e2).Some?
    ensures AndJoins(SharedSymbol(e1, e2).value, e1, e2)
  {
    var s := SharedSymbol(e1, e2).value;
    if SymbolAndTest(e1, e2, Eq, SYM_YES) {
      SymbolAndTestForms(s, e1, e2, Eq, SYM_YES);
    } else if SymbolAndTest(e1, e2, Ne, SYM_NO) {
      SymbolAndTestForms(s, e1, e2, Ne, SYM_NO);
    } else if SymbolAndTest(e1, e2, Ne, SYM_MOD) {
      SymbolAndTestForms(s, e1, e2, Ne, SYM_MOD);
    }
  }

  predicate Named(s: Symbol, c: Symbol, env: Env)
    requires c.Const?
  {
    TriName(TriOf(s, env)) == c.name
  }

  lemma TestValue(s: Symbol, c: Symbol, env: Env)
    requires WellFormed(env) && s.IsLogical() && c.Const?
    ensures Value(Cmp(Eq, s, c), env) == if Named(s, c, env) then YES else NO
    ensures Value(Cmp(Ne, s, c), env) == if Named(s, c, env) then NO else YES
  {
    LogicalText(s, c, env);
  }

  /** Tests against y, m and n read the value off; a boolean is never m. */
  lemma YmnTests(s: Symbol, env: Env)
    requires WellFormed(env) && s.IsLogical()
    ensures s.Type().Boolean? ==> TriOf(s, env) != MOD
    ensures Value(Cmp(Eq, s, SYM_YES), env) == 2 - Value(Cmp(Ne, s, SYM_YES), env)
         == if TriOf(s, env) == YES then YES else NO
    ensures Value(Cmp(Eq, s, SYM_MOD), env) == 2 - Value(Cmp(Ne, s, SYM_MOD), env)
         == if TriOf(s, env) == MOD then YES else NO
    ensures Value(Cmp(Eq, s, SYM_NO), env) == 2 - Value(Cmp(Ne, s, SYM_NO), env)
         == if TriOf(s, env) == NO then YES else NO
  {
    assert s == Config(s.id, s.ty);
    TestValue(s, SYM_YES, env);
    TestValue(s, SYM_MOD, env);
    TestValue(s, SYM_NO, env);
    assert TriName(TriOf(s, env))[0] in {'n', 'm', 'y'};
  }

  lemma JoinTestsValue(s: Symbol, x: Symbol, y: Symbol, env: Env)
    requires WellFormed(env) && s.IsLogical() && x.Const? && y.Const?
    ensures Value(JoinTests(s, x, y).value, env)
         == Apply(AndOp, Value(Cmp(Eq, s, x), env), Value(Cmp(Ne, s, y), env))
  {
    TestValue(s, x, env);
    TestValue(s, y, env);
  }

  lemma JoinTwoTestsValue(s: Symbol, e1: Expr, e2: Expr, env: Env)
    requires WellFormed(env) && s.IsLogical() && JoinTwoTests(s, e1, e2).Some?
    requires e1.Cmp? && e2.Cmp? && e1.lhs == s && e2.lhs == s
    ensures Value(JoinTwoTests(s, e1, e2).value, env) == Apply(AndOp, Value(e1, env), Value(e2, env))
  {
    var (r1, x, r2, y) := (e1.rel, e1.rhs, e2.rel, e2.rhs);
    assert e1 == Cmp(r1, s, x) && e2 == Cmp(r2, s, y);
    if r1.Eq? || r2.Eq? {
      JoinTestsValue(s, if r1.Eq? then x else y, if r1.Eq? then y else x, env);
    } else {
      TwoMissesValue(s, x, y, env);
    }
  }

  lemma TwoMissesValue(s: Symbol, x: Symbol, y: Symbol, env: Env)
    requires WellFormed(env) && s.IsLogical()
    requires JoinTwoTests(s, Cmp(Ne, s, x), Cmp(Ne, s, y)).Some?
    ensures Value(JoinTwoTests(s, Cmp(Ne, s, x), Cmp(Ne, s, y)).value, env)
         == Apply(AndOp, Value(Cmp(Ne, s, x), env), Value(Cmp(Ne, s, y), env))
  {
    YmnTests(s, env);
    var e := JoinTwoTests(s, Cmp(Ne, s, x), Cmp(Ne, s, y)).value;
    if x != SYM_MOD && y != SYM_MOD {
      assert e == Cmp(Eq, s, SYM_MOD);
    } else if x == SYM_YES || y == SYM_YES {
      assert e == Cmp(Eq, s, SYM_NO);
    } else {
      assert e == Cmp(Eq, s, SYM_YES);
    }
  }

  lemma TwoHitsValue(s: Symbol, x: Symbol, y: Symbol, env: Env)
    requires WellFormed(env) && s.Type().Tri? && JoinOrTests(Cmp(Eq, s, x), Cmp(Eq, s, y)).Some?
    ensures Value(JoinOrTests(Cmp(Eq, s, x), Cmp(Eq, s, y)).value, env)
         == Apply(OrOp, Value(Cmp(Eq, s, x), env), Value(Cmp(Eq, s, y), env))
  {
    YmnTests(s, env);
    var e := JoinOrTests(Cmp(Eq, s, x), Cmp(Eq, s, y)).value;
    if x != SYM_MOD && y != SYM_MOD {
      assert e == Cmp(Ne, s, SYM_MOD);
    } else if x == SYM_YES || y == SYM_YES {
      assert e == Cmp(Ne, s, SYM_NO);
    } else {
      assert e == Cmp(Ne, s, SYM_YES);
    }
  }

  lemma JoinOrValue(e1: Expr, e2: Expr, env: Env)
    requires WellFormed(env) && JoinOrTests(e1, e2).Some?
    ensures Value(JoinOrTests(e1, e2).value, env) == Apply(OrOp, Value(e1, env), Value(e2, env))
  {
    var s := SharedSymbol(e1, e2).value;
    if s.Type().Tri? {
      assert e1 == Cmp(Eq, s, e1.rhs) && e2 == Cmp(Eq, s, e2.rhs);
      TwoHitsValue(s, e1.rhs, e2.rhs, env);
    } else {
      YmnTests(s, env);
    }
  }

  lemma TestedValue(s: Symbol, env: Env)
    requires WellFormed(env) && s.IsLogical()
    ensures Value(Cmp(Eq, s, SYM_YES), env) == Apply(AndOp, TriOf(s, env), Value(Cmp(Eq, s, SYM_YES), env))
    ensures TriOf(s, env) == Apply(AndOp, TriOf(s, env), Value(Cmp(Ne, s, SYM_NO), env))
    ensures Value(Cmp(Eq, s, SYM_YES), env) == Apply(AndOp, TriOf(s, env), Value(Cmp(Ne, s, SYM_MOD), env))
  {
    YmnTests(s, env);
  }

  lemma SymbolAndTestForms(s: Symbol, e1: Expr, e2: Expr, rel: RelOp, x: Symbol)
    requires SharedSymbol(e1, e2) == Some(s) && SymbolAndTest(e1, e2, rel, x)
    ensures (e1 == Sym(s) && e2 == Cmp(rel, s, x)) || (e1 == Cmp(rel, s, x) && e2 == Sym(s))
  {}

  lemma SymbolAndTestValue(s: Symbol, e1: Expr, e2: Expr, rel: RelOp, x: Symbol, v: Tristate, env: Env)
    requires SharedSymbol(e1, e2) == Some(s) && SymbolAndTest(e1, e2, rel, x)
    requires v == Apply(AndOp, TriOf(s, env), Value(Cmp(rel, s, x), env))
    ensures v == Apply(AndOp, Value(e1, env), Value(e2, env))
  {
    SymbolAndTestForms(s, e1, e2, rel, x);
    var test := Cmp(rel, s, x);
    if e1.Sym? {
      assert Value(e1, env) == TriOf(s, env) && Value(e2, env) == Value(test, env);
    } else {
      assert Value(e2, env) == TriOf(s, env) && Value(e1, env) == Value(test, env);
    }
  }

  lemma JoinAndValue(e1: Expr, e2: Expr, env: Env)
    requires WellFormed(env) && JoinAndTests(e1, e2).Some?
    ensures Value(JoinAndTests(e1, e2).value, env) == Apply(AndOp, Value(e1, env), Value(e2, env))
  {
    var s := SharedSymbol(e1, e2).value;
    var v := Value(JoinAndTests(e1, e2).value, env);
    TestedValue(s, env);
    if SymbolAndTest(e1, e2, Eq, SYM_YES) {
      SymbolAndTestValue(s, e1, e2, Eq, SYM_YES, v, env);
    } else if SymbolAndTest(e1, e2, Ne, SYM_NO) {
      SymbolAndTestValue(s, e1, e2, Ne, SYM_NO, v, env);
    } else if SymbolAndTest(e1, e2, Ne, SYM_MOD) {
      SymbolAndTestValue(s, e1, e2, Ne, SYM_MOD, v, env);
    } else {
      JoinTwoTestsValue(s, e1, e2, env);
    }
  }

  /** The joined operand means the same as the two it replaces. */
  lemma JoinValue(op: BinOp, e1: Expr, e2: Expr, env: Env)
    requires WellFormed(env) && Join(op, e1, e2).Some?
    ensures Value(Join(op, e1, e2).value, env) == Apply(op, Value(e1, env), Value(e2, env))
  {
    if ExprEq(e1, e2) {
      ExprEqSound(e1, e2, env);
    } else if op.OrOp? {
      JoinOrValue(e1, e2, env);
    } else {
      JoinAndValue(e1, e2, env);
    }
  }

  /** The joined operand is no bigger than the first, never an op itself, and stays normal. */
  lemma JoinShape(op: BinOp, e1: Expr, e2: Expr)
    requires Join(op, e1, e2).Some?
    ensures Size(Join(op, e1, e2).value) <= Size(e1)
    ensures !IsOp(op, e1) ==> !IsOp(op, Join(op, e1, e2).value)
    ensures Normal(e1) && Normal(e2) ==> Normal(Join(op, e1, e2).value)
  {}
}
