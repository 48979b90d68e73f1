/** Detection of recursive dependencies among ordinary symbols
    (scripts/config/symbol.c, sym_check_deps and its helpers): a depth-first walk that marks
    symbols with CHECK while they are on the call stack and CHECKED for good, and that gives
    up a symbol's remaining dependencies as soon as one of them reports a cycle. */
module DepCheck {
  import opened Options
  import opened KconfigExpr

  datatype PropKind = Choice | Select | Default | OtherKind

  datatype Property = Property(kind: PropKind, visible: Option<Expr>, expr: Option<Expr>)

  datatype SymbolInfo = SymbolInfo(revDep: Option<Expr>, props: seq<Property>)

  type Database = Symbol -> SymbolInfo

  // ---------- The dependency graph ----------

  function OptSymbols(e: Option<Expr>): set<Symbol> {
    if e.None? then {} else Symbols(e.value)
  }

  /** The symbols a property makes its symbol depend on. */
  function PropSymbols(p: Property): set<Symbol> {
    if p.kind.Choice? || p.kind.Select? then {}
    else OptSymbols(p.visible) + (if p.kind.Default? then OptSymbols(p.expr) else {})
  }

  function PropsSymbols(ps: seq<Property>): set<Symbol> {
    if ps == [] then {} else PropsSymbols(ps[..|ps| - 1]) + PropSymbols(ps[|ps| - 1])
  }

  lemma {:induction false} PropMember(ps: seq<Property>, i: nat)
    requires i < |ps|
    ensures PropSymbols(ps[i]) <= PropsSymbols(ps)
  {
    if i < |ps| - 1 {
      PropMember(ps[..|ps| - 1], i);
    }
  }

  /** What a symbol depends on. */
  function Deps(info: Database, s: Symbol): set<Symbol> {
    OptSymbols(info(s).revDep) + PropsSymbols(info(s).props)
  }

  /** One of the properties makes its symbol depend on d: any but a choice or select by its condition,
      a default also by its value. */
  ghost predicate Needs(ps: seq<Property>, i: nat, d: Symbol)
    requires i < |ps|
  {
    && !ps[i].kind.Choice? && !ps[i].kind.Select?
    && ((ps[i].visible.Some? && d in Symbols(ps[i].visible.value))
        || (ps[i].kind.Default? && ps[i].expr.Some? && d in Symbols(ps[i].expr.value)))
  }

  lemma {:induction false} PropsExact(ps: seq<Property>, d: Symbol)
    ensures d in PropsSymbols(ps) <==> exists i: nat | i < |ps| :: Needs(ps, i, d)
  {
    if ps != [] {
      var rest := ps[..|ps| - 1];
      PropsExact(rest, d);
      assert forall i: nat | i < |rest| :: Needs(rest, i, d) <==> Needs(ps, i, d);
      assert d in PropSymbols(ps[|ps| - 1]) <==> Needs(ps, |ps| - 1, d);
    }
  }

  /** A symbol depends on what occurs in its reverse dependency or in one of those properties. */
  lemma DepsExact(info: Database, s: Symbol, d: Symbol)
    ensures d in Deps(info, s) <==>
      || (info(s).revDep.Some? && d in Symbols(info(s).revDep.value))
      || exists i: nat | i < |info(s).props| :: Needs(info(s).props, i, d)
  {
    PropsExact(info(s).props, d);
  }

  ghost predicate Closed(info: Database, all: set<Symbol>) {
    forall s | s in all :: Deps(info, s) <= all
  }

  function Last(p: seq<Symbol>): Symbol
    requires p != []
  {
    p[|p| - 1]
  }

  function Front(p: seq<Symbol>): seq<Symbol>
    requires p != []
  {
    p[..|p| - 1]
  }

  function Elements(p: seq<Symbol>): set<Symbol> {
    if p == [] then {} else Elements(Front(p)) + {Last(p)}
  }

  /** Each symbol of the path depends on the next. */
  ghost predicate IsPath(info: Database, p: seq<Symbol>) {
    |p| > 1 ==> IsPath(info, Front(p)) && Last(p) in Deps(info, Last(Front(p)))
  }

  /** A path whose last symbol depends on its first. */
  ghost predicate IsCycle(info: Database, p: seq<Symbol>) {
    p != [] && IsPath(info, p) && p[0] in Deps(info, Last(p))
  }

  ghost predicate CycleIn(info: Database, all: set<Symbol>, p: seq<Symbol>) {
    IsCycle(info, p) && p[0] in all
  }

  predicate StartsAt(p: seq<Symbol>, s: Symbol) {
    p != [] && p[0] == s
  }

  ghost predicate AllCycles(info: Database, all: set<Symbol>, reports: seq<seq<Symbol>>) {
    reports != [] ==> AllCycles(info, all, reports[..|reports| - 1]) && CycleIn(info, all, reports[|reports| - 1])
  }

  /** Each symbol depends only on symbols before it. */
  ghost predicate Ordered(info: Database, done: seq<Symbol>) {
    done != [] ==> Ordered(info, Front(done)) && Deps(info, Last(done)) <= Elements(Front(done))
  }

  lemma {:induction false} PathStep(info: Database, p: seq<Symbol>, k: nat)
    requires IsPath(info, p) && 0 < k < |p|
    ensures p[k] in Deps(info, p[k - 1])
  {
    if k < |p| - 1 {
      PathStep(info, Front(p), k);
    }
  }

  /** What a listed symbol depends on is listed before it. */
  lemma {:induction false} ListedBefore(info: Database, done: seq<Symbol>, s: Symbol) returns (before: seq<Symbol>)
    requires Ordered(info, done) && s in Elements(done)
    ensures |before| < |done| && Ordered(info, before) && Deps(info, s) <= Elements(before)
  {
    if s == Last(done) {
      before := Front(done);
    } else {
      before := ListedBefore(info, Front(done), s);
    }
  }

  /** Following a path from a listed symbol leads ever further down the list. */
  lemma {:induction false} WalkDown(info: Database, done: seq<Symbol>, p: seq<Symbol>, k: nat)
      returns (before: seq<Symbol>)
    requires Ordered(info, done) && IsPath(info, p) && k < |p| && p[0] in Elements(done)
    ensures |before| <= |done| && Ordered(info, before) && p[k] in Elements(before)
  {
    if k == 0 {
      before := done;
    } else {
      before := WalkDown(info, done, p, k - 1);
      PathStep(info, p, k);
      before := ListedBefore(info, before, p[k - 1]);
    }
  }

  /** Listed symbols lie on no cycle. */
  lemma {:induction false} OrderedNoCycle(info: Database, done: seq<Symbol>, p: seq<Symbol>)
    requires Ordered(info, done) && IsCycle(info, p)
    ensures p[0] !in Elements(done)
    decreases |done|
  {
    if p[0] in Elements(done) {
      var before := WalkDown(info, done, p, |p| - 1);
      before := ListedBefore(info, before, Last(p));
      OrderedNoCycle(info, before, p);
    }
  }

  /** The first symbol of a cycle depends on something. */
  lemma CycleDepends(info: Database, p: seq<Symbol>)
    requires IsCycle(info, p)
    ensures Deps(info, p[0]) != {}
  {
    if |p| > 1 {
      PathStep(info, p, 1);
    }
  }

  lemma ElementsPush(p: seq<Symbol>, s: Symbol)
    ensures Front(p + [s]) == p && Last(p + [s]) == s && Elements(p + [s]) == Elements(p) + {s}
  {
    assert Front(p + [s]) == p;
  }

  /** The stack from the last s on. */
  function From(p: seq<Symbol>, s: Symbol): (r: seq<Symbol>)
    requires s in Elements(p)
    ensures r != [] && r[0] == s && Last(r) == Last(p)
  {
    if Last(p) == s then [s] else From(Front(p), s) + [Last(p)]
  }

  lemma {:induction false} FromIsPath(info: Database, p: seq<Symbol>, s: Symbol)
    requires IsPath(info, p) && s in Elements(p)
    ensures IsPath(info, From(p, s))
  {
    if Last(p) != s {
      FromIsPath(info, Front(p), s);
      ElementsPush(From(Front(p), s), Last(p));
    }
  }

  lemma FromStep(stack: seq<Symbol>, s: Symbol, k: nat)
    requires 0 < k < |stack| && stack[k] != s && s in Elements(stack[..k + 1]) && s in Elements(stack)
    requires From(stack, s) == From(stack[..k + 1], s) + stack[k + 1..]
    ensures s in Elements(stack[..k]) && From(stack, s) == From(stack[..k], s) + stack[k..]
  {
    assert Front(stack[..k + 1]) == stack[..k] && Last(stack[..k + 1]) == stack[k];
    assert [stack[k]] + stack[k + 1..] == stack[k..];
  }

  /** The search for s from the top of the stack down. */
  method FindFromTop(stack: seq<Symbol>, s: Symbol) returns (k: nat)
    requires s in Elements(stack)
    ensures k < |stack| && stack[k..] == From(stack, s)
  {
    k := |stack| - 1;
    assert stack[..k + 1] == stack;
    while stack[k] != s
      invariant 0 <= k < |stack| && s in Elements(stack[..k + 1])
      invariant From(stack, s) == From(stack[..k + 1], s) + stack[k + 1..]
      decreases k
    {
      NotFirst(stack, s, k);
      FromStep(stack, s, k);
      k := k - 1;
    }
    assert Last(stack[..k + 1]) == s;
    assert stack[k..] == [s] + stack[k + 1..];
  }

  lemma NotFirst(stack: seq<Symbol>, s: Symbol, k: nat)
    requires k < |stack| && stack[k] != s && s in Elements(stack[..k + 1])
    ensures k > 0
  {
    assert stack[..k + 1] != [] && Last(stack[..k + 1]) == stack[k];
  }

  // ---------- The walk ----------

  class Checker {
    const info: Database
    ghost const all: set<Symbol>

    /** Symbols with SYMBOL_CHECK and SYMBOL_CHECKED set. */
    var check: set<Symbol>
    var checked: set<Symbol>

    /** The dep_stack, oldest entry first. */
    var stack: seq<Symbol>

    /** The cycles printed so far. */
    var reports: seq<seq<Symbol>>

    /** While nothing is reported: the finished symbols, in the order in which they finished. */
    ghost var done: seq<Symbol>

    constructor (info: Database, ghost all: set<Symbol>)
      requires Closed(info, all)
      ensures Valid() && stack == [] && reports == [] && checked == {}
      ensures this.info == info && this.all == all
    {
      this.info, this.all := info, all;
      check, checked, stack, reports, done := {}, {}, [], [], [];
    }

    /** The state between calls: the CHECK symbols are those on the stack. */
    ghost predicate Valid()
      reads this
    {
      Entered(stack)
    }

    /** The CHECK symbols form a path of dependencies; every report is a cycle; and while
        there is none, the other checked symbols are ordered. */
    ghost predicate Entered(path: seq<Symbol>)
      reads this
    {
      && check == Elements(path) && check <= checked <= all
      && IsPath(info, path)
      && AllCycles(info, all, reports)
      && (reports == [] ==> Ordered(info, done) && Elements(done) == checked - check)
    }

    /** What every call leaves: the same stack, more symbols checked, more reports. */
    twostate predicate Walked()
      reads this
    {
      && check == old(check) && stack == old(stack)
      && old(checked) <= checked && old(reports) <= reports
    }

    /** Everything in deps was walked, unless a cycle was found. */
    ghost predicate Clean(deps: set<Symbol>)
      reads this
    {
      reports == [] ==> deps <= checked - check
    }

    /** The search is being broken off up to r, where the cycle starts that was just printed. */
    ghost predicate Pending(r: Option<Symbol>)
      reads this
    {
      r.Some? ==> reports != [] && StartsAt(reports[|reports| - 1], r.value) && r.value in check
    }

    /** Nothing was broken off: every one of deps is finished, and none is on the stack. */
    ghost predicate Through(r: Option<Symbol>, deps: set<Symbol>)
      reads this
    {
      r.None? ==> deps <= checked - check
    }

    /** The symbol on top of the stack depends on these. */
    ghost predicate Needed(deps: set<Symbol>)
      reads this
    {
      stack != [] && deps <= Deps(info, Last(stack)) && deps <= all
    }

    /** sym_check_print_recursive: the stack from s on is the cycle. */
    method PrintRecursive(s: Symbol)
      requires Valid() && s in check && Needed({s})
      modifies this`reports
      ensures Valid() && reports == old(reports) + [From(stack, s)]
    {
      var k := FindFromTop(stack, s);
      FromIsPath(info, stack, s);
      reports := reports + [stack[k..]];
      assert reports[..|reports| - 1] == old(reports);
    }

    /** Sets both flags of s. */
    method Mark(s: Symbol)
      requires Valid() && s in all && s !in checked && (stack != [] ==> Needed({s}))
      modifies this`check, this`checked
      ensures Entered(stack + [s])
      ensures check == old(check) + {s} && checked == old(checked) + {s}
    {
      check, checked := check + {s}, checked + {s};
      ElementsPush(stack, s);
      assert checked - check == old(checked) - old(check);
    }

    /** Clears the CHECK flag of s once its dependencies were walked. */
    method Unmark(s: Symbol)
      requires Entered(stack + [s]) && s !in Elements(stack) && Clean(Deps(info, s))
      modifies this`check, this`done
      ensures Valid() && check == old(check) - {s}
    {
      ElementsPush(stack, s);
      check := check - {s};
      if reports == [] {
        assert checked - check == (checked - old(check)) + {s};
        ElementsPush(done, s);
        done := done + [s];
      }
    }

    /** sym_check_expr_deps. */
    method CheckExprDeps(e: Option<Expr>) returns (r: Option<Symbol>)
      requires Closed(info, all)
      requires Valid() && Needed(OptSymbols(e))
      modifies this
      ensures Valid() && Walked() && Clean(OptSymbols(e)) && Through(r, OptSymbols(e))
      ensures Pending(r)
      decreases all - checked, 1, if e.None? then 0 else Size(e.value)
    {
      if e.None? {
        return None;
      }
      match e.value {
        case Sym(s) => r := CheckDeps(s);
        case Cmp(_, l, rhs) =>
          r := CheckDeps(l);
          if r.None? {
            r := CheckDeps(rhs);
          }
        case Not(x) => r := CheckExprDeps(Some(x));
        case Bin(_, l, rhs) =>
          r := CheckExprDeps(Some(l));
          if r.None? {
            r := CheckExprDeps(Some(rhs));
          }
      }
    }

    /** The body of the loop over properties. */
    method CheckProperty(p: Property) returns (r: Option<Symbol>)
      requires Closed(info, all)
      requires Valid() && Needed(PropSymbols(p))
      modifies this
      ensures Valid() && Walked() && Clean(PropSymbols(p)) && Through(r, PropSymbols(p))
      ensures Pending(r)
      decreases all - checked, 2, 0
    {
      if p.kind.Choice? || p.kind.Select? {
        return None;
      }
      r := CheckExprDeps(p.visible);
      if r.None? && p.kind.Default? {
        r := CheckExprDeps(p.expr);
      }
    }

    /** One more property, when those before were walked through. */
    method CheckPropertyAt(ps: seq<Property>, i: nat) returns (r: Option<Symbol>)
      requires Closed(info, all) && i < |ps|
      requires Valid() && Needed(PropsSymbols(ps))
      requires Clean(PropsSymbols(ps[..i])) && Through(None, PropsSymbols(ps[..i]))
      modifies this
      ensures Valid() && Walked() && Clean(PropsSymbols(ps[..i + 1])) && Through(r, PropsSymbols(ps[..i + 1]))
      ensures Pending(r)
      decreases all - checked, 2, 1
    {
      PropMember(ps, i);
      assert ps[..i + 1][..i] == ps[..i];
      r := CheckProperty(ps[i]);
    }

    /** The loop over properties. */
    method CheckProperties(ps: seq<Property>) returns (r: Option<Symbol>)
      requires Closed(info, all)
      requires Valid() && Needed(PropsSymbols(ps))
      modifies this
      ensures Valid() && Walked() && Clean(PropsSymbols(ps)) && Through(r, PropsSymbols(ps))
      ensures Pending(r)
      decreases all - checked, 3, 0
    {
      r := None;
      var i := 0;
      while r.None? && i < |ps|
        invariant i <= |ps| && Valid() && Needed(PropsSymbols(ps))
        invariant check == old(check) && stack == old(stack) && old(checked) <= checked && old(reports) <= reports
        invariant Clean(PropsSymbols(ps[..i])) && Through(r, PropsSymbols(ps[..i]))
        invariant Pending(r)
        decreases |ps| - i
      {
        r := CheckPropertyAt(ps, i);
        i := i + 1;
      }
      assert r.None? ==> ps[..i] == ps;
    }

    /** sym_check_sym_deps: s is marked but not yet on the stack. */
    method CheckSymDeps(s: Symbol) returns (r: Option<Symbol>)
      requires Closed(info, all)
      requires Entered(stack + [s])
      modifies this
      ensures Entered(stack + [s]) && Walked() && Clean(Deps(info, s)) && Through(r, Deps(info, s))
      ensures Pending(r)
      decreases all - checked, 4, 0
    {
      ElementsPush(stack, s);
      assert s in all;
      stack := stack + [s];
      r := CheckTop(s);
      stack := stack[..|stack| - 1];
      assert stack == old(stack);
    }

    /** Its body, with s on the stack. */
    method CheckTop(s: Symbol) returns (r: Option<Symbol>)
      requires Closed(info, all)
      requires Valid() && stack != [] && Last(stack) == s && s in all
      modifies this
      ensures Valid() && Walked() && Clean(Deps(info, s)) && Through(r, Deps(info, s)) && Pending(r)
      decreases all - checked, 3, 1
    {
      r := CheckExprDeps(info(s).revDep);
      if r.None? {
        r := CheckProperties(info(s).props);
      }
    }

    /** sym_check_deps on an ordinary symbol. */
    method CheckDeps(s: Symbol) returns (r: Option<Symbol>)
      requires Closed(info, all)
      requires Valid() && s in all && (stack != [] ==> Needed({s}))
      modifies this
      ensures Valid() && Walked() && Clean({s}) && Through(r, {s}) && s in checked
      ensures s in old(check) ==> r == Some(s) && reports == old(reports) + [From(stack, s)]
      ensures s in old(checked) - old(check) ==> r.None? && reports == old(reports)
      ensures s !in old(checked) && r.None? ==> BrokenOff(s)
      ensures Pending(r)
      decreases all - checked, 0, 0
    {
      if s in check {
        PrintRecursive(s);
        return Some(s);
      }
      if s in checked {
        return None;
      }
      r := CheckNew(s);
    }

    /** All that s depends on was walked, or the last cycle that was printed starts at s. */
    ghost predicate BrokenOff(s: Symbol)
      reads this
    {
      Deps(info, s) <= checked || (reports != [] && StartsAt(reports[|reports| - 1], s))
    }

    method CheckNew(s: Symbol) returns (r: Option<Symbol>)
      requires Closed(info, all)
      requires Valid() && s in all && (stack != [] ==> Needed({s})) && s !in checked
      modifies this
      ensures Valid() && Walked() && Clean({s}) && Through(r, {s}) && s in checked
      ensures r.None? ==> BrokenOff(s)
      ensures Pending(r)
      decreases all - checked, -1, 0
    {
      Mark(s);
      var cycle := CheckSymDeps(s);
      r := Finish(s, cycle);
    }

    /** The end of sym_check_deps: a cycle that starts at s is over here. */
    method Finish(s: Symbol, cycle: Option<Symbol>) returns (r: Option<Symbol>)
      requires Entered(stack + [s]) && s !in Elements(stack) && Clean(Deps(info, s))
      requires Through(cycle, Deps(info, s)) && Pending(cycle) && s in checked
      modifies this`check, this`done
      ensures Valid() && check == old(check) - {s} && Clean({s}) && Through(r, {s}) && Pending(r)
      ensures r.None? ==> BrokenOff(s)
    {
      Unmark(s);
      r := if cycle == Some(s) then None else cycle;
    }

    /** The loop at the end of conf_parse: every symbol is checked.  A dependency cycle is
        printed if and only if there is one, every printed cycle is real, and no CHECK flag
        is left.  But every call returns NULL, so nothing is counted as an error.  Symbols
        that are not in the list, as y, m and n, depend on nothing. */
    method CheckAll(symbols: seq<Symbol>) returns (returned: seq<Option<Symbol>>)
      requires Closed(info, all) && Elements(symbols) <= all
      requires forall s | s in all - Elements(symbols) :: Deps(info, s) == {}
      requires Valid() && stack == [] && reports == [] && checked == {}
      modifies this
      ensures Valid() && check == {} && Elements(symbols) <= checked <= all
      ensures AllCycles(info, all, reports)
      ensures reports != [] <==> exists p :: CycleIn(info, all, p)
      ensures |returned| == |symbols| && forall r | r in returned :: r.None?
    {
      returned := [];
      for i := 0 to |symbols|
        invariant Valid() && stack == []
        invariant |returned| == i && forall r | r in returned :: r.None?
        invariant Elements(symbols[..i]) <= checked
      {
        ElementMember(symbols, i);
        assert Front(symbols[..i + 1]) == symbols[..i];
        var r := CheckDeps(symbols[i]);
        returned := returned + [r];
      }
      assert symbols[..|symbols|] == symbols;
      if reports == [] {
        forall p | IsCycle(info, p)
          ensures !CycleIn(info, all, p)
        {
          OrderedNoCycle(info, done, p);
          CycleDepends(info, p);
        }
      } else {
        assert CycleIn(info, all, reports[|reports| - 1]);
      }
    }
  }

  lemma {:induction false} ElementMember(p: seq<Symbol>, i: nat)
    requires i < |p|
    ensures p[i] in Elements(p)
  {
    if i < |p| - 1 {
      ElementMember(Front(p), i);
    }
  }
}
