/** Normalising an expression (scripts/config/expr.c, expr_transform): negations are pushed
    down to symbols and comparisons of booleans become plain symbols. */
module ExprTransform {
  import opened KconfigExpr

  /** A weight under which De Morgan's step shrinks the expression although it grows the tree. */
  function Weight(e: Expr): (n: nat)
    ensures n >= 1
  {
    match e
    case Sym(_) => 1
    case Cmp(_, _, _) => 2
    case Not(x) => 2 * Weight(x)
    case Bin(_, l, r) => 1 + Weight(l) + Weight(r)
  }

  /** A comparison of a boolean symbol with y, m or n. */
  function TransformCmp(rel: RelOp, l: Symbol, r: Symbol): (t: Expr)
    ensures Weight(t) <= 2
  {
    if !l.Type().Boolean? || !(rel.Eq? || rel.Ne?) then Cmp(rel, l, r)
    else if r == SYM_NO then (if rel.Eq? then Not(Sym(l)) else Sym(l))
    else if r == SYM_MOD then (if rel.Eq? then Sym(SYM_NO) else Sym(SYM_YES))
    else if r == SYM_YES then (if rel.Eq? then Sym(l) else Not(Sym(l)))
    else Cmp(rel, l, r)
  }

  function FlipRel(rel: RelOp): RelOp {
    match rel
    case Eq => Ne
    case Ne => Eq
    case Le => Gt
    case Ge => Lt
    case Lt => Ge
    case Gt => Le
  }

  function FlipOp(op: BinOp): BinOp {
    if op.OrOp? then AndOp else OrOp
  }

  /** De Morgan's step shrinks the weight. */
  lemma DeMorganShrinks(op: BinOp, l: Expr, r: Expr)
    ensures Weight(Bin(FlipOp(op), Not(l), Not(r))) < 2 * Weight(Bin(op, l, r))
  {
    assert Weight(Not(l)) == 2 * Weight(l) && Weight(Not(r)) == 2 * Weight(r);
  }

  function Transform(e: Expr): (r: Expr)
    ensures Weight(r) <= Weight(e)
    decreases Weight(e)
  {
    match e
    case Sym(_) => e
    case Cmp(rel, l, r) => TransformCmp(rel, l, r)
    case Bin(op, l, r) => Bin(op, Transform(l), Transform(r))
    case Not(x) =>
      match Transform(x)
      case Not(y) => Transform(y)
      case Cmp(rel, l, r) => Cmp(FlipRel(rel), l, r)
      case Bin(op, l, r) =>
        DeMorganShrinks(op, l, r);
        Transform(Bin(FlipOp(op), Not(l), Not(r)))
      case Sym(s) =>
        if s == SYM_YES then Sym(SYM_NO)
        else if s == SYM_MOD then Sym(SYM_MOD)
        else if s == SYM_NO then Sym(SYM_YES)
        else Not(Sym(s))
  }

  /** The symbol is compared by its text, whatever the other operand is. */
  predicate ByText(s: Symbol) {
    s.IsLogical() || s == SYM_YES || s == SYM_MOD || s == SYM_NO
  }

  lemma TextKinds(s: Symbol, env: Env)
    requires WellFormed(env) && ByText(s)
    ensures KindOf(s, env).KString?
  {
    assert env.number(TriName(TriOf(s, env)), s.Type()).NotANumber?;
  }

  /** The normal form: NOT stands only directly above a symbol other than y, m and n, and
      no boolean symbol is tested against y, m or n. */
  predicate Normal(e: Expr) {
    match e
    case Sym(_) => true
    case Cmp(rel, l, r) =>
      !(l.Type().Boolean? && (rel.Eq? || rel.Ne?) && (r == SYM_YES || r == SYM_MOD || r == SYM_NO))
    case Not(x) => x.Sym? && x.s != SYM_YES && x.s != SYM_MOD && x.s != SYM_NO
    case Bin(_, l, r) => Normal(l) && Normal(r)
  }

  /** Turning a comparison round under NOT is right exactly when its operands can be ordered. */
  lemma FlipExact(rel: RelOp, l: Symbol, r: Symbol, env: Env)
    ensures Value(Cmp(FlipRel(rel), l, r), env) == Value(Not(Cmp(rel, l, r)), env)
       <==> rel.Eq? || rel.Ne? || !Incomparable(l, r, env)
  {}

  // ---------- What the value becomes ----------

  /** NOT carried down to the symbols, with AND, OR and every comparison turned round on the
      way; neg says whether there is one NOT too many above e. */
  function Pushed(e: Expr, neg: bool, env: Env): Tristate {
    match e
    case Sym(s) => if neg then 2 - TriOf(s, env) else TriOf(s, env)
    case Cmp(rel, l, r) => RelValue(if neg then FlipRel(rel) else rel, l, r, env)
    case Not(x) => Pushed(x, !neg, env)
    case Bin(op, l, r) => Apply(if neg then FlipOp(op) else op, Pushed(l, neg, env), Pushed(r, neg, env))
  }

  lemma PushedCmp(rel: RelOp, l: Symbol, r: Symbol, neg: bool, env: Env)
    requires WellFormed(env)
    ensures Pushed(TransformCmp(rel, l, r), neg, env) == Pushed(Cmp(rel, l, r), neg, env)
  {
    if l.Type().Boolean? && (r == SYM_NO || r == SYM_MOD || r == SYM_YES) {
      LogicalText(l, r, env);
    }
  }

  /** expr_transform changes nothing that is pushed, whatever stands above. */
  lemma {:induction false} TransformPushes(e: Expr, neg: bool, env: Env)
    requires WellFormed(env)
    ensures Pushed(Transform(e), neg, env) == Pushed(e, neg, env)
    decreases Weight(e)
  {
    match e
    case Sym(_) =>
    case Cmp(rel, l, r) => PushedCmp(rel, l, r, neg, env);
    case Bin(op, l, r) =>
      TransformPushes(l, neg, env);
      TransformPushes(r, neg, env);
    case Not(x) =>
      TransformPushes(x, !neg, env);
      match Transform(x) {
        case Not(y) => TransformPushes(y, neg, env);
        case Cmp(rel, l, r) =>
        case Bin(op, l, r) =>
          DeMorganShrinks(op, l, r);
          TransformPushes(Bin(FlipOp(op), Not(l), Not(r)), neg, env);
        case Sym(s) =>
      }
  }

  lemma {:induction false} NormalValue(e: Expr, env: Env)
    requires Normal(e)
    ensures Value(e, env) == Pushed(e, false, env)
  {
    if e.Bin? {
      NormalValue(e.left, env);
      NormalValue(e.right, env);
    }
  }

  /** What expr_transform makes of any expression. */
  lemma TransformMeans(e: Expr, env: Env)
    requires WellFormed(env)
    ensures Value(Transform(e), env) == Pushed(e, false, env)
  {
    TransformNormal(e);
    NormalValue(Transform(e), env);
    TransformPushes(e, false, env);
  }

  function Negated(v: Tristate, neg: bool): Tristate {
    if neg then 2 - v else v
  }

  /** It can only get lower. */
  lemma {:induction false} PushedLowers(e: Expr, neg: bool, env: Env)
    ensures Pushed(e, neg, env) <= Negated(Value(e, env), neg)
  {
    match e
    case Cmp(rel, l, r) => FlipExact(rel, l, r, env);
    case Not(x) => PushedLowers(x, !neg, env);
    case Bin(_, l, r) =>
      PushedLowers(l, neg, env);
      PushedLowers(r, neg, env);
    case _ =>
  }

  /** A comparison that is turned round and cannot be ordered. */
  predicate Spoilt(rel: RelOp, l: Symbol, r: Symbol, neg: bool, env: Env) {
    neg && !rel.Eq? && !rel.Ne? && Incomparable(l, r, env)
  }

  /** If e, with the NOTs above it, is at least k, this does not hang on a comparison that is spoilt. */
  predicate Survives(e: Expr, neg: bool, env: Env, k: Tristate) {
    Negated(Value(e, env), neg) >= k ==>
      match e
      case Sym(_) => true
      case Cmp(rel, l, r) => !Spoilt(rel, l, r, neg, env)
      case Not(x) => Survives(x, !neg, env, k)
      case Bin(op, l, r) =>
        if op.AndOp? != neg then Survives(l, neg, env, k) && Survives(r, neg, env, k)
        else
          || (Negated(Value(l, env), neg) >= k && Survives(l, neg, env, k))
          || (Negated(Value(r, env), neg) >= k && Survives(r, neg, env, k))
  }

  lemma {:induction false} SurvivesExact(e: Expr, neg: bool, env: Env, k: Tristate)
    requires k > NO
    ensures Survives(e, neg, env, k) <==> (Negated(Value(e, env), neg) >= k ==> Pushed(e, neg, env) >= k)
  {
    match e
    case Cmp(rel, l, r) => FlipExact(rel, l, r, env);
    case Not(x) => SurvivesExact(x, !neg, env, k);
    case Bin(_, l, r) =>
      SurvivesExact(l, neg, env, k);
      SurvivesExact(r, neg, env, k);
      PushedLowers(l, neg, env);
      PushedLowers(r, neg, env);
    case _ =>
  }

  /** expr_transform never raises the value, and keeps it exactly if neither that it is at least
      m nor that it is y hangs on a comparison under an odd number of NOTs that cannot be ordered. */
  lemma TransformExact(e: Expr, env: Env)
    requires WellFormed(env)
    ensures Value(Transform(e), env) <= Value(e, env)
    ensures Value(Transform(e), env) == Value(e, env) <==> Survives(e, false, env, MOD) && Survives(e, false, env, YES)
  {
    TransformMeans(e, env);
    PushedLowers(e, false, env);
    SurvivesExact(e, false, env, MOD);
    SurvivesExact(e, false, env, YES);
  }

  /** No <, <=, > or >= under an odd number of NOTs is spoilt. */
  predicate Flippable(e: Expr, neg: bool, env: Env) {
    match e
    case Sym(_) => true
    case Cmp(rel, l, r) => !Spoilt(rel, l, r, neg, env)
    case Not(x) => Flippable(x, !neg, env)
    case Bin(_, l, r) => Flippable(l, neg, env) && Flippable(r, neg, env)
  }

  lemma {:induction false} FlippableSurvives(e: Expr, neg: bool, env: Env, k: Tristate)
    requires Flippable(e, neg, env) && k > NO
    ensures Survives(e, neg, env, k)
  {
    match e
    case Not(x) => FlippableSurvives(x, !neg, env, k);
    case Bin(_, l, r) =>
      FlippableSurvives(l, neg, env, k);
      FlippableSurvives(r, neg, env, k);
    case _ =>
  }

  /** Where every comparison that is turned round can be ordered, expr_transform keeps the value. */
  lemma TransformValue(e: Expr, env: Env)
    requires WellFormed(env) && Flippable(e, false, env)
    ensures Value(Transform(e), env) == Value(e, env)
  {
    FlippableSurvives(e, false, env, MOD);
    FlippableSurvives(e, false, env, YES);
    TransformExact(e, env);
  }

  /** In a normal form nothing is turned round. */
  lemma {:induction false} NormalFlippable(e: Expr, env: Env)
    requires Normal(e)
    ensures Flippable(e, false, env)
  {
    if e.Bin? {
      NormalFlippable(e.left, env);
      NormalFlippable(e.right, env);
    }
  }

  /** Every result is in normal form. */
  lemma {:induction false} TransformNormal(e: Expr)
    ensures Normal(Transform(e))
    decreases Weight(e)
  {
    match e
    case Sym(_) =>
    case Cmp(_, _, _) =>
    case Bin(_, l, r) =>
      TransformNormal(l);
      TransformNormal(r);
    case Not(x) =>
      TransformNormal(x);
      match Transform(x) {
        case Not(y) => TransformNormal(y);
        case Cmp(rel, l, r) =>
        case Bin(op, l, r) =>
          DeMorganShrinks(op, l, r);
          TransformNormal(Bin(FlipOp(op), Not(l), Not(r)));
        case Sym(s) =>
      }
  }

  /** Normal forms, and only they, are left alone: transforming twice is transforming once. */
  lemma {:induction false} NormalIsFixed(e: Expr)
    ensures Normal(e) <==> Transform(e) == e
  {
    TransformNormal(e);
    if Normal(e) {
      NormalKept(e);
    }
  }

  lemma {:induction false} NormalKept(e: Expr)
    requires Normal(e)
    ensures Transform(e) == e
  {
    match e
    case Bin(_, l, r) =>
      NormalKept(l);
      NormalKept(r);
    case _ =>
  }

  // ---------- Which comparisons can be spoilt ----------

  type Parse = (string, SymType) -> Number

  /** The texts of y, m and n are no numbers. */
  ghost predicate ReadsWords(number: Parse) {
    forall t: Tristate, ty :: number(TriName(t), ty).NotANumber?
  }

  /** The symbol can have a text that is a number; a constant has only one text. */
  ghost predicate MayBeNumber(s: Symbol, number: Parse) {
    if s.Const? then !number(s.name, Unknown).NotANumber?
    else !s.IsLogical() && !s.ty.Other? && exists text :: !number(text, s.ty).NotANumber?
  }

  /** Neither operand is of the one type that has no order, or the other one is always compared
      as text. */
  ghost predicate Orderable(l: Symbol, r: Symbol, number: Parse) {
    && (l.Type().Other? ==> !r.Type().Other? && !MayBeNumber(r, number))
    && (r.Type().Other? ==> !l.Type().Other? && !MayBeNumber(l, number))
  }

  lemma NeverNumber(s: Symbol, env: Env)
    requires WellFormed(env) && !s.Type().Other? && !MayBeNumber(s, env.number)
    ensures KindOf(s, env).KString?
  {}

  /** All symbols print as text and are n. */
  function AllText(text: string, number: Parse): Env {
    Env(NO, _ => SymbolValue(text, NO), number)
  }

  lemma SomeNumber(s: Symbol, number: Parse) returns (text: string)
    requires s.Type().Other? || MayBeNumber(s, number)
    ensures !KindOf(s, AllText(text, number)).KString?
  {
    if s.Const? || s.Type().Other? {
      text := "";
    } else {
      text :| !number(text, s.ty).NotANumber?;
    }
  }

  /** However texts are parsed, these are the pairs that can be ordered in every state. */
  lemma OrderableExact(l: Symbol, r: Symbol, number: Parse)
    requires ReadsWords(number)
    ensures Orderable(l, r, number) <==>
      forall env | WellFormed(env) && env.number == number :: !Incomparable(l, r, env)
  {
    if Orderable(l, r, number) {
      forall env | WellFormed(env) && env.number == number
        ensures !Incomparable(l, r, env)
      {
        if l.Type().Other? {
          NeverNumber(r, env);
        } else if r.Type().Other? {
          NeverNumber(l, env);
        }
      }
    } else {
      var text := SomeNumber(if l.Type().Other? then r else l, number);
      assert WellFormed(AllText(text, number)) && Incomparable(l, r, AllText(text, number));
    }
  }

  /** expr_transform keeps the value of NOT of an order comparison in every state exactly for
      these pairs. */
  lemma TurnedRoundExact(rel: RelOp, l: Symbol, r: Symbol, number: Parse)
    requires ReadsWords(number) && !rel.Eq? && !rel.Ne?
    ensures var e := Not(Cmp(rel, l, r));
      (forall env | WellFormed(env) && env.number == number :: Value(Transform(e), env) == Value(e, env)) <==>
        Orderable(l, r, number)
  {
    OrderableExact(l, r, number);
    forall env | WellFormed(env) && env.number == number
      ensures Value(Transform(Not(Cmp(rel, l, r))), env) == Value(Not(Cmp(rel, l, r)), env) <==>
        !Incomparable(l, r, env)
    {
      assert Transform(Cmp(rel, l, r)) == Cmp(rel, l, r);
      FlipExact(rel, l, r, env);
    }
  }

  /** For all other pairs there is a state in which NOT of the comparison is y and what it is
      turned into is n. */
  lemma UnorderedChanges(rel: RelOp, l: Symbol, r: Symbol, number: Parse)
    requires ReadsWords(number) && !rel.Eq? && !rel.Ne? && !Orderable(l, r, number)
    ensures var e := Not(Cmp(rel, l, r));
      exists env :: WellFormed(env) && env.number == number && Value(e, env) == YES && Value(Transform(e), env) == NO
  {
    OrderableExact(l, r, number);
    var env :| WellFormed(env) && env.number == number && Incomparable(l, r, env);
    assert Transform(Cmp(rel, l, r)) == Cmp(rel, l, r);
    assert Value(Not(Cmp(rel, l, r)), env) == YES;
  }
}
