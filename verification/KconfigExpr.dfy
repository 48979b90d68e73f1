/** Kconfig dependency expressions and their three-valued meaning.

    An expression is an owned tree over symbols; `Value` is the meaning that
    scripts/config/expr.c computes in expr_calc_value.  A symbol pointer is a
    Symbol value: constants are interned by name (sym_lookup), so two of them
    are the same pointer exactly when their names agree. */
module KconfigExpr {

  /** n, m and y are 0, 1 and 2. */
  type Tristate = t: int | 0 <= t <= 2

  const NO: Tristate := 0
  const MOD: Tristate := 1
  const YES: Tristate := 2

  datatype SymType = Unknown | Boolean | Tri | Int | Hex | Str | Other

  datatype Symbol =
    | Const(name: string)
    | Config(id: nat, ty: SymType)
  {
    function Type(): SymType {
      if Const? then Unknown else ty
    }

    predicate IsLogical() {
      Type().Boolean? || Type().Tri?
    }
  }

  const SYM_NO := Const("n")
  const SYM_MOD := Const("m")
  const SYM_YES := Const("y")

  datatype BinOp = OrOp | AndOp

  datatype RelOp = Eq | Ne | Lt | Le | Gt | Ge

  datatype Expr =
    | Sym(s: Symbol)
    | Cmp(rel: RelOp, lhs: Symbol, rhs: Symbol)
    | Not(e: Expr)
    | Bin(op: BinOp, left: Expr, right: Expr)

  function Size(e: Expr): (n: nat)
    ensures n >= 1
  {
    match e
    case Sym(_) => 1
    case Cmp(_, _, _) => 1
    case Not(x) => 1 + Size(x)
    case Bin(_, l, r) => 1 + Size(l) + Size(r)
  }

  // ---------- Environments: the current value of every symbol ----------

  datatype SymbolValue = SymbolValue(text: string, tri: Tristate)

  /** What strtoll and strtoull make of a symbol's text. */
  datatype Number = NotANumber | Signed(i: int) | Unsigned(u: nat)

  datatype Env = Env(modules: Tristate,
                     cur: Symbol -> SymbolValue,
                     number: (string, SymType) -> Number)

  function TriOf(s: Symbol, env: Env): Tristate {
    match s
    case Const(name) => if name == "y" then YES else if name == "m" then MOD else NO
    case Config(_, _) => env.cur(s).tri
  }

  function TriName(t: Tristate): string {
    if t == NO then "n" else if t == MOD then "m" else "y"
  }

  /** sym_get_string_value: a logical symbol at m prints as n while modules are off. */
  function TextOf(s: Symbol, env: Env): string {
    if s.IsLogical() then
      (if TriOf(s, env) == MOD && env.modules == NO then "n" else TriName(TriOf(s, env)))
    else if s.Const? then s.name
    else env.cur(s).text
  }

  /** What sym_calc_value guarantees of the values it stores: m only in a tristate while
      modules are on, and n in every symbol that is not logical.  strtoll finds no digits in
      the texts of y, m and n. */
  ghost predicate WellFormed(env: Env) {
    && (forall id, ty ::
          var t := env.cur(Config(id, ty)).tri;
          && (t == MOD ==> ty.Tri? && env.modules != NO)
          && (t != NO ==> ty.Boolean? || ty.Tri?))
    && (forall t: Tristate, ty :: env.number(TriName(t), ty).NotANumber?)
  }

  // ---------- Comparisons ----------

  function StrCmp(a: string, b: string): int {
    if a == [] then (if b == [] then 0 else -1)
    else if b == [] then 1
    else if a[0] == b[0] then StrCmp(a[1..], b[1..])
    else if a[0] < b[0] then -1 else 1
  }

  lemma {:induction false} StrCmpEqual(a: string, b: string)
    ensures StrCmp(a, b) == 0 <==> a == b
  {
    if a != [] && b != [] {
      assert a == [a[0]] + a[1..] && b == [b[0]] + b[1..];
      StrCmpEqual(a[1..], b[1..]);
    }
  }

  datatype Kind = KString | KNumber(n: Number) | KInvalid

  function KindOf(s: Symbol, env: Env): Kind {
    match s.Type()
    case Boolean => KString
    case Tri => KString
    case Other => KInvalid
    case _ =>
      var n := env.number(TextOf(s, env), s.Type());
      if n.NotANumber? then KString else KNumber(n)
  }

  /** The 64-bit pattern of a number read back through the other union member. */
  function Pattern(n: Number): nat {
    match n
    case NotANumber => 0
    case Signed(i) => i % 0x1_0000_0000_0000_0000
    case Unsigned(u) => u
  }

  /** The branch of expr_calc_value that cannot order its operands. */
  predicate Incomparable(l: Symbol, r: Symbol, env: Env) {
    && !(l.Type().Str? && r.Type().Str?)
    && !KindOf(l, env).KString? && !KindOf(r, env).KString?
    && (KindOf(l, env).KInvalid? || KindOf(r, env).KInvalid?)
  }

  function Sign(x: int, y: int): int {
    if x > y then 1 else if x < y then -1 else 0
  }

  function Compare(l: Symbol, r: Symbol, env: Env): int {
    var k1 := if l.Type().Str? && r.Type().Str? then KString else KindOf(l, env);
    var k2 := if l.Type().Str? && r.Type().Str? then KString else KindOf(r, env);
    if k1.KString? || k2.KString? || k1.KInvalid? || k2.KInvalid? then
      StrCmp(TextOf(l, env), TextOf(r, env))
    else if k1.n.Unsigned? || k2.n.Unsigned? then
      Sign(Pattern(k1.n), Pattern(k2.n))
    else
      match (k1.n, k2.n)
      case (Signed(x), Signed(y)) => Sign(x, y)
      case _ => 0
  }

  predicate Holds(rel: RelOp, res: int) {
    match rel
    case Eq => res == 0
    case Ne => res != 0
    case Lt => res < 0
    case Le => res <= 0
    case Gt => res > 0
    case Ge => res >= 0
  }

  function RelValue(rel: RelOp, l: Symbol, r: Symbol, env: Env): Tristate {
    if !rel.Eq? && !rel.Ne? && Incomparable(l, r, env) then NO
    else if Holds(rel, Compare(l, r, env)) then YES else NO
  }

  // ---------- What the comparisons mean ----------

  /** The first k characters are the same; then a ends, or has the smaller one. */
  ghost predicate SmallerAt(a: string, b: string, k: nat) {
    k <= |a| && k < |b| && (forall i | 0 <= i < k :: a[i] == b[i]) && (k == |a| || a[k] < b[k])
  }

  /** a comes before b in the order of character codes. */
  ghost predicate Before(a: string, b: string) {
    exists k: nat :: SmallerAt(a, b, k)
  }

  lemma {:induction false} StrCmpBefore(a: string, b: string)
    ensures StrCmp(a, b) < 0 <==> Before(a, b)
  {
    if a == [] {
      assert b != [] ==> SmallerAt(a, b, 0);
    } else if b != [] {
      StrCmpBefore(a[1..], b[1..]);
      BeforeNext(a, b);
    }
  }

  lemma BeforeNext(a: string, b: string)
    requires a != [] && b != []
    ensures Before(a, b) <==> a[0] < b[0] || (a[0] == b[0] && Before(a[1..], b[1..]))
  {
    if a[0] < b[0] {
      assert SmallerAt(a, b, 0);
    }
    if Before(a, b) && a[0] >= b[0] {
      var k: nat :| SmallerAt(a, b, k);
      assert k > 0 && SmallerAt(a[1..], b[1..], k - 1);
    }
    if a[0] == b[0] && Before(a[1..], b[1..]) {
      var k: nat :| SmallerAt(a[1..], b[1..], k);
      assert SmallerAt(a, b, k + 1) by {
        forall i | 0 <= i < k + 1
          ensures a[i] == b[i]
        {
          assert i > 0 ==> a[1..][i - 1] == b[1..][i - 1];
        }
      }
    }
  }

  lemma {:induction false} StrCmpTurned(a: string, b: string)
    ensures StrCmp(a, b) > 0 <==> StrCmp(b, a) < 0
  {
    if a != [] && b != [] {
      StrCmpTurned(a[1..], b[1..]);
    }
  }

  /** Text against text: two strings always, and whenever one of the operands is no number. */
  predicate AsText(l: Symbol, r: Symbol, env: Env) {
    (l.Type().Str? && r.Type().Str?) || KindOf(l, env).KString? || KindOf(r, env).KString?
  }

  /** Compared as text, < is the order of character codes. */
  lemma TextOrder(l: Symbol, r: Symbol, env: Env)
    requires AsText(l, r, env)
    ensures RelValue(Eq, l, r, env) == YES <==> TextOf(l, env) == TextOf(r, env)
    ensures RelValue(Lt, l, r, env) == YES <==> Before(TextOf(l, env), TextOf(r, env))
    ensures RelValue(Gt, l, r, env) == YES <==> Before(TextOf(r, env), TextOf(l, env))
  {
    StrCmpEqual(TextOf(l, env), TextOf(r, env));
    StrCmpBefore(TextOf(l, env), TextOf(r, env));
    StrCmpTurned(TextOf(l, env), TextOf(r, env));
    StrCmpBefore(TextOf(r, env), TextOf(l, env));
  }

  /** Two signed numbers are compared as such, otherwise both as 64 bits without a sign. */
  lemma NumberOrder(l: Symbol, r: Symbol, env: Env)
    requires !AsText(l, r, env) && KindOf(l, env).KNumber? && KindOf(r, env).KNumber?
    ensures var (m, n) := (env.number(TextOf(l, env), l.Type()), env.number(TextOf(r, env), r.Type()));
      && (m.Signed? && n.Signed? ==>
          (RelValue(Lt, l, r, env) == YES <==> m.i < n.i) && (RelValue(Eq, l, r, env) == YES <==> m.i == n.i))
      && (m.Unsigned? && n.Unsigned? ==>
          (RelValue(Lt, l, r, env) == YES <==> m.u < n.u) && (RelValue(Eq, l, r, env) == YES <==> m.u == n.u))
      && (m.Signed? && n.Unsigned? && 0 <= m.i < 0x8000_0000_0000_0000 ==>
          (RelValue(Lt, l, r, env) == YES <==> m.i < n.u) && (RelValue(Eq, l, r, env) == YES <==> m.i == n.u))
      && (m.Signed? && n.Unsigned? && -0x8000_0000_0000_0000 <= m.i < 0 ==>
          (RelValue(Lt, l, r, env) == YES <==> m.i + 0x1_0000_0000_0000_0000 < n.u))
  {}

  /** Of <, = and > exactly one holds between operands that can be ordered; <=, >= and != are the
      other two each. */
  lemma OneOfThree(l: Symbol, r: Symbol, env: Env)
    requires !Incomparable(l, r, env)
    ensures RelValue(Lt, l, r, env) + RelValue(Eq, l, r, env) + RelValue(Gt, l, r, env) == YES
    ensures RelValue(Le, l, r, env) == RelValue(Lt, l, r, env) + RelValue(Eq, l, r, env)
    ensures RelValue(Ge, l, r, env) == RelValue(Gt, l, r, env) + RelValue(Eq, l, r, env)
    ensures RelValue(Ne, l, r, env) == RelValue(Lt, l, r, env) + RelValue(Gt, l, r, env)
  {}

  /** Operands that cannot be ordered are neither, but may still be equal. */
  lemma Unordered(rel: RelOp, l: Symbol, r: Symbol, env: Env)
    requires Incomparable(l, r, env)
    ensures RelValue(rel, l, r, env) == YES <==> (rel.Eq? && TextOf(l, env) == TextOf(r, env))
                                                 || (rel.Ne? && TextOf(l, env) != TextOf(r, env))
  {
    StrCmpEqual(TextOf(l, env), TextOf(r, env));
  }

  // ---------- Meaning ----------

  function Apply(op: BinOp, a: Tristate, b: Tristate): Tristate {
    match op
    case OrOp => if a > b then a else b
    case AndOp => if a < b then a else b
  }

  function Value(e: Expr, env: Env): Tristate {
    match e
    case Sym(s) => TriOf(s, env)
    case Cmp(rel, l, r) => RelValue(rel, l, r, env)
    case Not(x) => 2 - Value(x, env)
    case Bin(op, l, r) => Apply(op, Value(l, env), Value(r, env))
  }

  /** The symbols that occur in e. */
  function Symbols(e: Expr): set<Symbol> {
    match e
    case Sym(s) => {s}
    case Cmp(_, l, r) => {l, r}
    case Not(x) => Symbols(x)
    case Bin(_, l, r) => Symbols(l) + Symbols(r)
  }

  /** The value hangs on these symbols alone. */
  lemma {:induction false} ValueOfSymbols(e: Expr, env: Env, env': Env)
    requires env'.modules == env.modules && env'.number == env.number
    requires forall s | s in Symbols(e) :: env'.cur(s) == env.cur(s)
    ensures Value(e, env') == Value(e, env)
  {
    match e
    case Sym(_) =>
    case Cmp(rel, l, r) =>
      assert l in Symbols(e) && r in Symbols(e);
    case Not(x) => ValueOfSymbols(x, env, env');
    case Bin(_, l, r) =>
      ValueOfSymbols(l, env, env');
      ValueOfSymbols(r, env, env');
  }

  /** Equal value in every well-formed environment. */
  ghost predicate Equiv(a: Expr, b: Expr) {
    forall env | WellFormed(env) :: Value(a, env) == Value(b, env)
  }

  /** A logical symbol's text names its value, so a test against a constant reads the value. */
  lemma LogicalText(s: Symbol, c: Symbol, env: Env)
    requires WellFormed(env) && s.IsLogical() && c.Const?
    ensures TextOf(s, env) == TriName(TriOf(s, env))
    ensures RelValue(Eq, s, c, env) == if TextOf(s, env) == c.name then YES else NO
    ensures RelValue(Ne, s, c, env) == if TextOf(s, env) == c.name then NO else YES
  {
    assert s == Config(s.id, s.ty);
    StrCmpEqual(TextOf(s, env), c.name);
  }

  // ---------- Constants of an AND/OR ----------

  function Neutral(op: BinOp): Symbol {
    if op.AndOp? then SYM_YES else SYM_NO
  }

  function Absorbing(op: BinOp): Symbol {
    if op.AndOp? then SYM_NO else SYM_YES
  }

  predicate IsYesNo(e: Expr) {
    e == Sym(SYM_YES) || e == Sym(SYM_NO)
  }

  /** A y or n sits somewhere under a chain of ANDs and ORs. */
  predicate HasYesNo(e: Expr) {
    IsYesNo(e) || (e.Bin? && (HasYesNo(e.left) || HasYesNo(e.right)))
  }

  /** expr_eliminate_yn: drop neutral operands and collapse on absorbing ones. */
  function EliminateYn(e: Expr): (r: Expr) {
    if !e.Bin? then e
    else
      var l := EliminateYn(e.left);
      var r := EliminateYn(e.right);
      if l == Sym(Absorbing(e.op)) then l
      else if l == Sym(Neutral(e.op)) then r
      else if r == Sym(Absorbing(e.op)) then r
      else if r == Sym(Neutral(e.op)) then l
      else Bin(e.op, l, r)
  }

  lemma {:induction false} EliminateYnValue(e: Expr, env: Env)
    ensures Value(EliminateYn(e), env) == Value(e, env)
  {
    if e.Bin? {
      EliminateYnValue(e.left, env);
      EliminateYnValue(e.right, env);
    }
  }

  /** The result holds a y or n only if it is one, and every such constant removed makes it smaller. */
  lemma {:induction false} EliminateYnShrinks(e: Expr)
    ensures Size(EliminateYn(e)) <= Size(e)
    ensures e.Bin? && HasYesNo(e) ==> Size(EliminateYn(e)) < Size(e)
    ensures HasYesNo(EliminateYn(e)) ==> IsYesNo(EliminateYn(e))
  {
    if e.Bin? {
      EliminateYnShrinks(e.left);
      EliminateYnShrinks(e.right);
    }
  }
}
