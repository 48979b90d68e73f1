/** When menu_finalize may pull an entry under a symbol, and what that decision guarantees
    (scripts/config/expr.c, expr_depends_symbol, expr_trans_compare, expr_trans_bool;
    scripts/config/menu.c, the implicit-submenu loop). */
module Submenu {
  import opened Options
  import opened KconfigExpr
  import opened ExprEquality
  import opened ExprCanonical
  import opened ExprTransform
  import opened ExprJoin
  import opened ExprDups

  /** A NULL expression means y. */
  function ValueOrYes(e: Option<Expr>, env: Env): Tristate {
    if e.None? then YES else Value(e.value, env)
  }

  predicate IsYes(e: Expr) {
    e == Sym(SYM_YES)
  }

  function ContainsSymbol(e: Expr, s: Symbol): bool {
    match e
    case Sym(x) => x == s
    case Cmp(_, l, r) => l == s || r == s
    case Not(x) => ContainsSymbol(x, s)
    case Bin(_, l, r) => ContainsSymbol(l, s) || ContainsSymbol(r, s)
  }

  function DependsSymbol(e: Expr, s: Symbol): bool {
    match e
    case Sym(x) => x == s
    case Cmp(rel, l, r) =>
      l == s && ((rel.Eq? && (r == SYM_YES || r == SYM_MOD)) || (rel.Ne? && r == SYM_NO))
    case Bin(AndOp, l, r) => DependsSymbol(l, s) || DependsSymbol(r, s)
    case _ => false
  }

  /** The operands of the AND at the top of e. */
  function Conjuncts(e: Expr): set<Expr> {
    if IsOp(AndOp, e) then Conjuncts(e.left) + Conjuncts(e.right) else {e}
  }

  /** Dependence is that one of these operands is the symbol, or tests it for y, for m, or for not n. */
  lemma {:induction false} DependsExact(e: Expr, s: Symbol)
    ensures DependsSymbol(e, s) <==>
      Sym(s) in Conjuncts(e) || Cmp(Eq, s, SYM_YES) in Conjuncts(e) || Cmp(Eq, s, SYM_MOD) in Conjuncts(e)
      || Cmp(Ne, s, SYM_NO) in Conjuncts(e)
  {
    if IsOp(AndOp, e) {
      DependsExact(e.left, s);
      DependsExact(e.right, s);
    }
  }

  lemma {:induction false} ContainsExact(e: Expr, s: Symbol)
    ensures ContainsSymbol(e, s) <==> s in Symbols(e)
  {
    match e
    case Not(x) => ContainsExact(x, s);
    case Bin(_, l, r) =>
      ContainsExact(l, s);
      ContainsExact(r, s);
    case _ =>
  }

  /** An expression that depends on a boolean or tristate symbol, or on y, m or n, is n whenever
      the symbol is. */
  lemma {:induction false} DependsForces(e: Expr, s: Symbol, env: Env)
    requires WellFormed(env) && ByText(s) && DependsSymbol(e, s)
    ensures Value(e, env) != NO ==> TriOf(s, env) != NO
  {
    match e
    case Sym(_) =>
    case Cmp(rel, l, r) => TestForces(s, rel, r, env);
    case Bin(_, l, r) =>
      if DependsSymbol(l, s) {
        DependsForces(l, s, env);
      } else {
        DependsForces(r, s, env);
      }
  }

  lemma TestForces(s: Symbol, rel: RelOp, r: Symbol, env: Env)
    requires WellFormed(env) && ByText(s) && DependsSymbol(Cmp(rel, s, r), s)
    ensures Value(Cmp(rel, s, r), env) != NO ==> TriOf(s, env) != NO
  {
    if s.IsLogical() {
      YmnTests(s, env);
    } else {
      ConstantText(s, env);
      StrCmpEqual(s.name, r.name);
    }
  }

  lemma ConstantText(s: Symbol, env: Env)
    requires WellFormed(env) && (s == SYM_YES || s == SYM_MOD || s == SYM_NO)
    ensures KindOf(s, env).KString? && TextOf(s, env) == TriName(TriOf(s, env))
  {
    TextKinds(s, env);
  }

  /** What expr_depends_symbol is used for: in every environment the expression is n whenever
      the symbol is. */
  ghost predicate Forces(s: Symbol) {
    forall e, env | WellFormed(env) && DependsSymbol(e, s) :: Value(e, env) != NO ==> TriOf(s, env) != NO
  }

  /** Some text that is not n, in a symbol whose value is n. */
  function OtherText(text: string): Env {
    Env(NO, _ => SymbolValue(text, NO), (t, ty) => NotANumber)
  }

  /** Exactly the boolean and tristate symbols, and y, m and n, are forced by what depends on
      them.  Any other symbol may have a text that differs from n although its value is n. */
  lemma ForcesExact(s: Symbol)
    ensures Forces(s) <==> ByText(s)
  {
    if ByText(s) {
      forall e, env | WellFormed(env) && DependsSymbol(e, s)
        ensures Value(e, env) != NO ==> TriOf(s, env) != NO
      {
        DependsForces(e, s, env);
      }
    } else {
      var (e, env) := (Cmp(Ne, s, SYM_NO), OtherText("eth0"));
      StrCmpEqual(TextOf(s, env), "n");
      assert WellFormed(env) && DependsSymbol(e, s) && Value(e, env) == YES && TriOf(s, env) == NO;
    }
  }

  // ---------- expr_trans_compare ----------

  datatype Target = TargetYes | TargetNo

  function TargetSymbol(t: Target): Symbol {
    if t.TargetYes? then SYM_YES else SYM_NO
  }

  function TargetValue(t: Target): Tristate {
    if t.TargetYes? then YES else NO
  }

  function NotIf(b: bool, e: Expr): Expr {
    if b then Not(e) else e
  }

  /** expr_trans_compare for the targets y and n: "e = target", or "e != target" if unequal. */
  function TransCompare(e: Expr, unequal: bool, t: Target): Expr {
    match e
    case Sym(s) => Cmp(if unequal then Ne else Eq, s, TargetSymbol(t))
    case Cmp(_, _, _) => NotIf(unequal == t.TargetYes?, e)
    case Not(x) => TransCompare(x, !unequal, t)
    case Bin(op, l, r) =>
      var op' := if t.TargetYes? then op else FlipOp(op);
      NotIf(unequal, Bin(op', TransCompare(l, false, t), TransCompare(r, false, t)))
  }

  /** The same for a pointer that may be NULL: then the answer is the bare target symbol. */
  function TransCompareOrYes(e: Option<Expr>, unequal: bool, t: Target): Expr {
    if e.Some? then TransCompare(e.value, unequal, t) else NotIf(unequal, Sym(TargetSymbol(t)))
  }

  /** Every plain symbol of e has a value its text names: it is logical, or y, m or n. */
  predicate Plain(e: Expr) {
    match e
    case Sym(s) => ByText(s)
    case Cmp(_, _, _) => true
    case Not(x) => Plain(x)
    case Bin(_, l, r) => Plain(l) && Plain(r)
  }

  /** No expression under a single NOT is at m. */
  predicate NegationsDecided(e: Expr, env: Env) {
    match e
    case Not(Not(x)) => NegationsDecided(x, env)
    case Not(x) => Value(x, env) != MOD && NegationsDecided(x, env)
    case Bin(_, l, r) => NegationsDecided(l, env) && NegationsDecided(r, env)
    case _ => true
  }

  function Truth(b: bool): Tristate {
    if b then YES else NO
  }

  lemma PlainSymbolTest(s: Symbol, rel: RelOp, t: Target, env: Env)
    requires WellFormed(env) && Plain(Sym(s)) && (rel.Eq? || rel.Ne?)
    ensures Value(Cmp(rel, s, TargetSymbol(t)), env) == Truth((TriOf(s, env) == TargetValue(t)) == rel.Eq?)
  {
    if s.IsLogical() {
      YmnTests(s, env);
    } else {
      assert TextOf(s, env) == TriName(TriOf(s, env)) && TriName(TriOf(s, env))[0] in {'y', 'm', 'n'};
      StrCmpEqual(s.name, TargetSymbol(t).name);
    }
  }

  /** The compared form says whether e has the target value, as long as nothing under a NOT is m. */
  lemma {:induction false} TransCompareValue(e: Expr, unequal: bool, t: Target, env: Env)
    requires WellFormed(env) && Plain(e) && NegationsDecided(e, env)
    ensures Value(TransCompare(e, unequal, t), env) == Truth((Value(e, env) == TargetValue(t)) != unequal)
  {
    match e
    case Sym(s) => PlainSymbolTest(s, if unequal then Ne else Eq, t, env);
    case Cmp(_, _, _) =>
    case Not(Not(x)) => TransCompareValue(x, unequal, t, env);
    case Not(x) => TransCompareValue(x, !unequal, t, env);
    case Bin(op, l, r) =>
      TransCompareValue(l, false, t, env);
      TransCompareValue(r, false, t, env);
  }

  /** The form of a NOT is right exactly when what stands under it is not m. */
  lemma NegationExact(x: Expr, unequal: bool, t: Target, env: Env)
    requires WellFormed(env) && Plain(x) && NegationsDecided(x, env)
    ensures Value(TransCompare(Not(x), unequal, t), env) == Truth((Value(Not(x), env) == TargetValue(t)) != unequal)
       <==> Value(x, env) != MOD
  {
    TransCompareValue(x, !unequal, t, env);
  }

  lemma NegatedSymbolExact(s: Symbol, unequal: bool, t: Target, env: Env)
    requires WellFormed(env) && Plain(Sym(s))
    ensures Value(TransCompare(Not(Sym(s)), unequal, t), env) == Truth((2 - TriOf(s, env) == TargetValue(t)) != unequal)
       <==> TriOf(s, env) != MOD
  {
    NegationExact(Sym(s), unequal, t, env);
  }

  // ---------- When the compared form is right ----------

  /** The value at which t and the rest part. */
  function Level(t: Target): Tristate {
    if t.TargetYes? then YES else MOD
  }

  /** e read as a proposition about which plain symbols are at least at the level. */
  predicate Reads(e: Expr, t: Target, env: Env) {
    match e
    case Sym(s) => TriOf(s, env) >= Level(t)
    case Cmp(_, _, _) => Value(e, env) != NO
    case Not(x) => !Reads(x, t, env)
    case Bin(AndOp, l, r) => Reads(l, t, env) && Reads(r, t, env)
    case Bin(OrOp, l, r) => Reads(l, t, env) || Reads(r, t, env)
  }

  /** What the compared form says in any case. */
  lemma {:induction false} CompareReads(e: Expr, unequal: bool, t: Target, env: Env)
    requires WellFormed(env) && Plain(e)
    ensures Value(TransCompare(e, unequal, t), env) == Truth((Reads(e, t, env) == t.TargetYes?) != unequal)
  {
    match e
    case Sym(s) => PlainSymbolTest(s, if unequal then Ne else Eq, t, env);
    case Cmp(_, _, _) =>
    case Not(x) => CompareReads(x, !unequal, t, env);
    case Bin(op, l, r) =>
      CompareReads(l, false, t, env);
      CompareReads(r, false, t, env);
  }

  /** The reading can only fail on one side: e, under neg, is at least m, or is less than y. */
  predicate OnSide(e: Expr, neg: bool, t: Target, env: Env) {
    (Negated(Value(e, env), neg) >= Level(t)) == t.TargetNo?
  }

  /** It is not for a symbol at m under an odd number of NOTs that e is on that side. */
  predicate Decides(e: Expr, neg: bool, t: Target, env: Env) {
    OnSide(e, neg, t, env) ==>
      match e
      case Sym(s) => neg ==> TriOf(s, env) != MOD
      case Cmp(_, _, _) => true
      case Not(x) => Decides(x, !neg, t, env)
      case Bin(op, l, r) =>
        if (op.AndOp? != neg) == t.TargetNo? then Decides(l, neg, t, env) && Decides(r, neg, t, env)
        else
          || (OnSide(l, neg, t, env) && Decides(l, neg, t, env))
          || (OnSide(r, neg, t, env) && Decides(r, neg, t, env))
  }

  lemma {:induction false} ReadsOnSide(e: Expr, neg: bool, t: Target, env: Env)
    requires WellFormed(env)
    ensures (Reads(e, t, env) != neg) == t.TargetNo? ==> OnSide(e, neg, t, env)
  {
    match e
    case Not(x) => ReadsOnSide(x, !neg, t, env);
    case Bin(_, l, r) =>
      ReadsOnSide(l, neg, t, env);
      ReadsOnSide(r, neg, t, env);
    case _ =>
  }

  lemma {:induction false} DecidesExact(e: Expr, neg: bool, t: Target, env: Env)
    requires WellFormed(env)
    ensures Decides(e, neg, t, env) <==> (OnSide(e, neg, t, env) ==> (Reads(e, t, env) != neg) == t.TargetNo?)
  {
    match e
    case Not(x) => DecidesExact(x, !neg, t, env);
    case Bin(_, l, r) =>
      DecidesExact(l, neg, t, env);
      DecidesExact(r, neg, t, env);
      ReadsOnSide(l, neg, t, env);
      ReadsOnSide(r, neg, t, env);
    case _ =>
  }

  /** The compared form is right exactly if no symbol at m under an odd number of NOTs decides. */
  lemma CompareExact(e: Expr, unequal: bool, t: Target, env: Env)
    requires WellFormed(env) && Plain(e)
    ensures Value(TransCompare(e, unequal, t), env) == Truth((Value(e, env) == TargetValue(t)) != unequal)
       <==> Decides(e, false, t, env)
  {
    CompareReads(e, unequal, t, env);
    ReadsOnSide(e, false, t, env);
    DecidesExact(e, false, t, env);
  }

  /** A missing condition is y, and its form says so. */
  lemma CompareNothing(unequal: bool, t: Target, env: Env)
    ensures Value(TransCompareOrYes(None, unequal, t), env)
         == Truth((ValueOrYes(None, env) == TargetValue(t)) != unequal)
  {}

  /** Where the form says that e is not n, e is not, whatever is at m. */
  lemma NotNoSound(e: Expr, env: Env)
    requires WellFormed(env) && Plain(e)
    ensures Value(TransCompare(e, true, TargetNo), env) != NO ==> Value(e, env) != NO
  {
    CompareReads(e, true, TargetNo, env);
    ReadsOnSide(e, false, TargetNo, env);
  }

  /** The form of a plain symbol against n is right in every environment. */
  ghost predicate ReadsRight(s: Symbol, unequal: bool) {
    forall env | WellFormed(env) ::
      Value(TransCompare(Sym(s), unequal, TargetNo), env) == Truth((TriOf(s, env) == NO) != unequal)
  }

  /** Exactly the symbols whose text names their value may be compared with n in this way. */
  lemma SymbolExact(s: Symbol, unequal: bool)
    ensures ReadsRight(s, unequal) <==> Plain(Sym(s))
  {
    if Plain(Sym(s)) {
      forall env | WellFormed(env)
        ensures Value(TransCompare(Sym(s), unequal, TargetNo), env) == Truth((TriOf(s, env) == NO) != unequal)
      {
        PlainSymbolTest(s, if unequal then Ne else Eq, TargetNo, env);
      }
    } else {
      var env := OtherText("eth0");
      StrCmpEqual(TextOf(s, env), "n");
      assert WellFormed(env) && TriOf(s, env) == NO;
    }
  }

  // ---------- The decision ----------

  /** "e != n" turns no comparison round that e does not. */
  lemma {:induction false} TransCompareFlippable(e: Expr, unequal: bool, neg: bool, env: Env)
    ensures Flippable(TransCompare(e, unequal, TargetNo), neg, env) <==> Flippable(e, neg == unequal, env)
  {
    match e
    case Not(x) => TransCompareFlippable(x, !unequal, neg, env);
    case Bin(_, l, r) =>
      TransCompareFlippable(l, false, neg != unequal, env);
      TransCompareFlippable(r, false, neg != unequal, env);
    case _ =>
  }

  /** What form keeps of "e != n", and what it is: normal and without anything that joins; if the
      normal form had no y or n inside, also without any operand twice. */
  ghost predicate Reduced(e: Option<Expr>, form: Expr) {
    var compared := Transform(TransCompareOrYes(e, true, TargetNo));
    && Equiv(compared, form) && Normal(form) && Settled(form) && NoTestsJoin(form)
    && (Clean(compared) ==> CleanOrYesNo(form) && NoTwins(form))
  }

  /** "e != n", normalised and without duplicates, as the loop compares it. */
  method ReducedForm(e: Option<Expr>) returns (form: Expr)
    ensures Reduced(e, form)
    ensures forall env | WellFormed(env) && (e.Some? ==> Flippable(e.value, false, env)) ::
              Value(form, env) == Value(TransCompareOrYes(e, true, TargetNo), env)
  {
    var compared := TransCompareOrYes(e, true, TargetNo);
    TransformNormal(compared);
    form := EliminateDups(Transform(compared));
    forall env | WellFormed(env) && (e.Some? ==> Flippable(e.value, false, env))
      ensures Value(form, env) == Value(compared, env)
    {
      if e.Some? {
        TransCompareFlippable(e.value, true, false, env);
      }
      TransformValue(compared, env);
    }
  }

  /** Why an entry with condition dep may stand under a symbol whose prompt has condition
      visible: dep needs the symbol itself, or the normal form of "dep != n" implies
      "visible != n". */
  ghost predicate Justified(dep: Expr, s: Symbol, visible: Option<Expr>) {
    && ContainsSymbol(dep, s)
    && (DependsSymbol(dep, s) ||
        forall env | WellFormed(env) ::
          Value(Transform(TransCompare(dep, true, TargetNo)), env)
          <= Value(TransCompareOrYes(visible, true, TargetNo), env))
  }

  /** The body of the loop: base is the parent's reduced form, form the entry's. */
  method MayPull(dep: Option<Expr>, s: Symbol, ghost visible: Option<Expr>, base: Expr)
      returns (pull: bool, ghost form: Expr)
    requires Equiv(Transform(TransCompareOrYes(visible, true, TargetNo)), base)
    ensures pull ==> dep.Some? && Justified(dep.value, s, visible)
    ensures dep.Some? && DependsSymbol(dep.value, s) ==> pull
    ensures dep.Some? && ContainsSymbol(dep.value, s) && IsYes(base) ==> pull
    ensures dep.Some? && ContainsSymbol(dep.value, s) && !DependsSymbol(dep.value, s) ==>
              Reduced(dep, form) && (pull <==> EliminateEq(form, base).1 == Sym(SYM_YES))
    ensures dep.Some? && ContainsSymbol(dep.value, s) && !DependsSymbol(dep.value, s)
            && CleanOrYesNo(form) && CleanOrYesNo(base) ==>
              (pull <==> IsYes(base) || (IsOp(AndOp, form) && Leaves(AndOp, base) <= Leaves(AndOp, form)))
  {
    form := base;
    if dep.None? {
      return false, form;
    }
    DependsContains(dep.value, s);
    if !ContainsSymbol(dep.value, s) {
      return false, form;
    }
    if DependsSymbol(dep.value, s) {
      return true, form;
    }
    var reduced := ReducedForm(dep);
    form := reduced;
    pull := IsYes(EliminateEq(reduced, base).1);
    if pull {
      CancelledJustifies(dep, visible, form, base);
    }
    if IsYes(base) {
      ConstantLeft(form, base);
    }
    if CleanOrYesNo(form) && CleanOrYesNo(base) {
      CancelsToYesExact(form, base);
    }
  }

  lemma CancelledJustifies(dep: Option<Expr>, visible: Option<Expr>, form: Expr, base: Expr)
    requires Equiv(Transform(TransCompareOrYes(visible, true, TargetNo)), base)
    requires Equiv(Transform(TransCompareOrYes(dep, true, TargetNo)), form)
    requires EliminateEq(form, base).1 == Sym(SYM_YES)
    ensures forall env | WellFormed(env) ::
              (Value(Transform(TransCompareOrYes(dep, true, TargetNo)), env)
               <= Value(TransCompareOrYes(visible, true, TargetNo), env))
  {
    forall env | WellFormed(env)
      ensures Value(Transform(TransCompareOrYes(dep, true, TargetNo)), env)
           <= Value(TransCompareOrYes(visible, true, TargetNo), env)
    {
      CancelledToYes(form, base, env);
      assert Value(Transform(TransCompareOrYes(dep, true, TargetNo)), env) == Value(form, env);
      TransformExact(TransCompareOrYes(visible, true, TargetNo), env);
    }
  }

  /** A condition that is no AND, even the very one of the prompt, is not cancelled to y: its entry
      stays outside. */
  lemma SameConditionStays(form: Expr)
    requires Clean(form) && !IsOp(AndOp, form)
    ensures EliminateEq(form, form).1 != Sym(SYM_YES)
  {
    CancelsToYesExact(form, form);
  }

  lemma {:induction false} DependsContains(e: Expr, s: Symbol)
    ensures DependsSymbol(e, s) ==> ContainsSymbol(e, s)
  {
    if e.Bin? {
      DependsContains(e.left, s);
      DependsContains(e.right, s);
    }
  }

  /** An entry pulled under a boolean or tristate symbol can only be visible when the symbol is
      on, or when the symbol's own prompt is, wherever the entry's compared form is right; the
      prompt's form may be wrong. */
  lemma PulledOnlyWhenVisible(dep: Expr, s: Symbol, visible: Option<Expr>, env: Env)
    requires WellFormed(env) && ByText(s) && Justified(dep, s, visible)
    requires Plain(dep) && Decides(dep, false, TargetNo, env) && Flippable(dep, false, env)
    requires visible.Some? ==> Plain(visible.value)
    ensures Value(dep, env) != NO ==> TriOf(s, env) != NO || ValueOrYes(visible, env) != NO
  {
    if DependsSymbol(dep, s) {
      DependsForces(dep, s, env);
    } else {
      CompareExact(dep, true, TargetNo, env);
      TransCompareFlippable(dep, true, false, env);
      TransformValue(TransCompare(dep, true, TargetNo), env);
      if visible.Some? {
        NotNoSound(visible.value, env);
      }
    }
  }

  // ---------- expr_trans_bool ----------

  function TransBool(e: Expr): Expr {
    match e
    case Cmp(Ne, l, r) => if l.Type().Tri? && r == SYM_NO then Sym(l) else e
    case Not(x) => Not(TransBool(x))
    case Bin(op, l, r) => Bin(op, TransBool(l), TransBool(r))
    case _ => e
  }

  /** sym_calc_visibility turns m into y for a symbol that is not a tristate. */
  function Lift(t: Tristate): Tristate {
    if t == MOD then YES else t
  }

  function AnyVisible(conditions: seq<Option<Expr>>, env: Env): Tristate {
    if conditions == [] then NO
    else Apply(OrOp, AnyVisible(conditions[..|conditions| - 1], env), ValueOrYes(conditions[|conditions| - 1], env))
  }

  /** The visibility of a symbol that is neither a tristate nor a choice value, from the
      conditions of its prompts. */
  function Visibility(conditions: seq<Option<Expr>>, env: Env): Tristate {
    Lift(AnyVisible(conditions, env))
  }

  /** The best of the prompts decides. */
  lemma {:induction false} AnyVisibleExact(conditions: seq<Option<Expr>>, env: Env, t: Tristate)
    requires t > NO
    ensures AnyVisible(conditions, env) >= t <==>
      exists i | 0 <= i < |conditions| :: ValueOrYes(conditions[i], env) >= t
  {
    if conditions != [] {
      var rest := conditions[..|conditions| - 1];
      AnyVisibleExact(rest, env, t);
      assert forall i | 0 <= i < |rest| :: rest[i] == conditions[i];
    }
  }

  /** On normal forms the rewrite is invisible once m counts as y. */
  lemma {:induction false} TransBoolLifted(e: Expr, env: Env)
    requires WellFormed(env) && Normal(e)
    ensures Lift(Value(TransBool(e), env)) == Lift(Value(e, env))
  {
    match e
    case Cmp(Ne, l, r) =>
      if l.Type().Tri? && r == SYM_NO {
        YmnTests(l, env);
      }
    case Bin(op, l, r) =>
      TransBoolLifted(l, env);
      TransBoolLifted(r, env);
    case _ =>
  }

  /** Above a comparison NOT would expose the rewrite, exactly when the symbol is m. */
  lemma TransBoolUnderNot(s: Symbol, env: Env)
    requires WellFormed(env) && s.Type().Tri?
    ensures var e := Not(Cmp(Ne, s, SYM_NO));
            Lift(Value(TransBool(e), env)) == Lift(Value(e, env)) <==> TriOf(s, env) != MOD
  {
    YmnTests(s, env);
  }

  /** The rewriting never raises the value; m for y is all it can do. */
  lemma {:induction false} TransBoolLowers(e: Expr, env: Env)
    requires WellFormed(env) && Normal(e)
    ensures Value(TransBool(e), env) == Value(e, env) || (Value(TransBool(e), env) == MOD && Value(e, env) == YES)
  {
    match e
    case Cmp(Ne, l, r) =>
      if l.Type().Tri? && r == SYM_NO {
        YmnTests(l, env);
      }
    case Bin(op, l, r) =>
      TransBoolLowers(l, env);
      TransBoolLowers(r, env);
    case _ =>
  }

  /** If e is y, this does not hang on a comparison of a symbol at m with n. */
  predicate Undisturbed(e: Expr, env: Env) {
    Value(e, env) == YES ==>
      match e
      case Cmp(Ne, l, r) => l.Type().Tri? && r == SYM_NO ==> TriOf(l, env) != MOD
      case Bin(AndOp, l, r) => Undisturbed(l, env) && Undisturbed(r, env)
      case Bin(OrOp, l, r) =>
        (Value(l, env) == YES && Undisturbed(l, env)) || (Value(r, env) == YES && Undisturbed(r, env))
      case _ => true
  }

  /** Where m is not taken for y, the rewriting is invisible exactly then. */
  lemma {:induction false} TransBoolExact(e: Expr, env: Env)
    requires WellFormed(env) && Normal(e)
    ensures Value(TransBool(e), env) == Value(e, env) <==> Undisturbed(e, env)
  {
    TransBoolLowers(e, env);
    match e
    case Cmp(Ne, l, r) =>
      if l.Type().Tri? && r == SYM_NO {
        YmnTests(l, env);
      }
    case Bin(op, l, r) =>
      TransBoolExact(l, env);
      TransBoolExact(r, env);
      TransBoolLowers(l, env);
      TransBoolLowers(r, env);
    case _ =>
  }

  /** What menu_finalize adds to the reverse dependency of a symbol that sym selects under e. */
  function Selects(sym: Symbol, e: Expr): Expr {
    Bin(AndOp, Sym(sym), e)
  }

  /** A select by a symbol that is no tristate keeps its force exactly if that symbol is n or the
      rewriting of its condition does not show. */
  lemma SelectExact(sym: Symbol, e: Expr, env: Env)
    requires WellFormed(env) && Normal(e) && sym.Config? && !sym.ty.Tri?
    ensures Value(Selects(sym, TransBool(e)), env) == Value(Selects(sym, e), env) <==>
      TriOf(sym, env) == NO || Undisturbed(e, env)
  {
    TransBoolExact(e, env);
    TransBoolLowers(e, env);
    assert sym == Config(sym.id, sym.ty);
  }

  /** FOO != n with FOO at m: what was selected to y is selected to m. */
  lemma SelectExample(sym: Symbol, foo: Symbol, env: Env)
    requires sym == Config(0, Boolean) && foo == Config(1, Tri)
    requires env == Env(YES, s => if s == sym then SymbolValue("y", YES) else if s == foo then SymbolValue("m", MOD)
                                  else SymbolValue("", NO), (t, ty) => NotANumber)
    ensures WellFormed(env) && Normal(Cmp(Ne, foo, SYM_NO))
    ensures Value(Selects(sym, Cmp(Ne, foo, SYM_NO)), env) == YES
    ensures Value(Selects(sym, TransBool(Cmp(Ne, foo, SYM_NO))), env) == MOD
  {
    YmnTests(foo, env);
  }

  /** Rewriting every prompt condition leaves the symbol's visibility as it was. */
  lemma {:induction false} VisibilityKept(before: seq<Option<Expr>>, after: seq<Option<Expr>>, env: Env)
    requires WellFormed(env) && |after| == |before|
    requires forall i | 0 <= i < |before| ::
               if before[i].None? then after[i] == None
               else Normal(before[i].value) && after[i] == Some(TransBool(before[i].value))
    ensures Visibility(after, env) == Visibility(before, env)
  {
    if before != [] {
      var n := |before| - 1;
      VisibilityKept(before[..n], after[..n], env);
      if before[n].Some? {
        TransBoolLifted(before[n].value, env);
      }
    }
  }
}
