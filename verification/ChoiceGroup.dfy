/** Choice groups in scripts/config/symbol.c: sym_calc_value on a choice and its values,
    sym_calc_choice, sym_choice_default and sym_set_tristate_value.

    A choice has one prompt, and so has each of its values; no value has a default or is
    selected by another symbol. */
module ChoiceGroup {
  import opened Options
  import opened KconfigExpr

  function Min(a: Tristate, b: Tristate): Tristate {
    if a < b then a else b
  }

  function Max(a: Tristate, b: Tristate): Tristate {
    if a < b then b else a
  }

  /** What does not change: types, whether the choice is optional, and the values that its
      default properties name, in order. */
  datatype Group = Group(choiceIsTri: bool, optional: bool, valueIsTri: seq<bool>, defaults: seq<nat>)
  {
    function N(): nat {
      |valueIsTri|
    }

    ghost predicate Valid() {
      forall d | d in defaults :: d < N()
    }
  }

  /** What other symbols decide: whether modules are on, the choice's own visibility, that of
      each value besides the choice, and of each default. */
  datatype World = World(modules: bool, prompt: Tristate, own: seq<Tristate>, defaultOn: seq<Tristate>)
  {
    ghost predicate Fits(g: Group) {
      |own| == g.N() && |defaultOn| == |g.defaults|
    }
  }

  /** What the user set: SYMBOL_DEF_USER and def[S_DEF_USER] of the choice and of the values. */
  datatype User = User(touched: bool, tri: Tristate, pick: Option<nat>, valueSet: seq<bool>, valueTri: seq<Tristate>)
  {
    ghost predicate Fits(g: Group) {
      |valueSet| == g.N() && |valueTri| == g.N() && (pick.Some? ==> pick.value < g.N())
    }
  }

  /** What is calculated: the choice's value and the symbol it chose, and each value's
      visibility and value. */
  datatype Values = Values(tri: Tristate, val: Option<nat>, visible: seq<Tristate>, curr: seq<Tristate>)

  // ---------- The calculation as functions ----------

  /** m counts as y for what can only be n or y. */
  function Lift(t: Tristate, isTri: bool, modules: bool): Tristate {
    if t == MOD && (!isTri || !modules) then YES else t
  }

  /** A choice that is not optional is at least m where its prompt is visible. */
  function Reverse(g: Group, w: World): Tristate {
    if g.optional then NO else Lift(Min(w.prompt, MOD), g.choiceIsTri, w.modules)
  }

  /** The choice's value before it looks for a symbol. */
  function Wanted(g: Group, w: World, u: User): Tristate {
    var visible := Lift(w.prompt, g.choiceIsTri, w.modules);
    var mine := if visible != NO && u.touched then Min(u.tri, visible) else NO;
    Lift(Max(mine, Reverse(g, w)), g.choiceIsTri, w.modules)
  }

  /** A value depends on the choice, and on its being y if only the choice is tristate. */
  function Shown(g: Group, w: World, tri: Tristate, i: nat): Tristate
    requires w.Fits(g) && i < g.N()
  {
    var base := if g.choiceIsTri && !g.valueIsTri[i] && tri != YES then NO else Min(tri, w.own[i]);
    var strict := if g.valueIsTri[i] && base == MOD && tri == YES then NO else base;
    Lift(strict, g.valueIsTri[i], w.modules)
  }

  /** Visible in a choice at y. */
  predicate Offered(g: Group, w: World, i: nat)
    requires w.Fits(g) && i < g.N()
  {
    Shown(g, w, YES, i) != NO
  }

  function FirstOffered(g: Group, w: World, from: nat): (r: Option<nat>)
    requires w.Fits(g) && from <= g.N()
    ensures r.Some? ==> from <= r.value < g.N() && Offered(g, w, r.value)
    ensures r.Some? ==> forall i | from <= i < r.value :: !Offered(g, w, i)
    ensures r.None? ==> forall i | from <= i < g.N() :: !Offered(g, w, i)
    decreases g.N() - from
  {
    if from == g.N() then None else if Offered(g, w, from) then Some(from) else FirstOffered(g, w, from + 1)
  }

  /** Default k holds, and what it names is visible in a choice at y. */
  predicate DefaultOn(g: Group, w: World, k: nat)
    requires g.Valid() && w.Fits(g) && k < |g.defaults|
  {
    assert g.defaults[k] in g.defaults;
    w.defaultOn[k] != NO && Offered(g, w, g.defaults[k])
  }

  function FirstDefault(g: Group, w: World, from: nat): (r: Option<nat>)
    requires g.Valid() && w.Fits(g) && from <= |g.defaults|
    ensures r.Some? ==> r.value < g.N() && Offered(g, w, r.value)
    ensures r.Some? ==> exists k ::
              (from <= k < |g.defaults| && DefaultOn(g, w, k) && g.defaults[k] == r.value
               && forall j | from <= j < k :: !DefaultOn(g, w, j))
    ensures r.None? ==> forall k | from <= k < |g.defaults| :: !DefaultOn(g, w, k)
    decreases |g.defaults| - from
  {
    if from == |g.defaults| then None
    else
      var d := g.defaults[from];
      assert d in g.defaults;
      if w.defaultOn[from] != NO && Offered(g, w, d) then Some(d) else FirstDefault(g, w, from + 1)
  }

  /** The user's pick, else a default, else the first value; if visible at all. */
  function Chosen(g: Group, w: World, u: User): (r: Option<nat>)
    requires g.Valid() && w.Fits(g) && u.Fits(g)
    ensures r.Some? ==> r.value < g.N() && Offered(g, w, r.value)
  {
    if u.pick.Some? && Offered(g, w, u.pick.value) then u.pick
    else if FirstDefault(g, w, 0).Some? then FirstDefault(g, w, 0)
    else FirstOffered(g, w, 0)
  }

  function ChoiceVal(g: Group, w: World, u: User): Option<nat>
    requires g.Valid() && w.Fits(g) && u.Fits(g)
  {
    if Wanted(g, w, u) == YES then Chosen(g, w, u) else None
  }

  function ChoiceTri(g: Group, w: World, u: User): Tristate
    requires g.Valid() && w.Fits(g) && u.Fits(g)
  {
    if Wanted(g, w, u) == YES && Chosen(g, w, u).None? then NO else Wanted(g, w, u)
  }

  function CurrOf(u: User, val: Option<nat>, visible: Tristate, i: nat): Tristate
    requires i < |u.valueSet| && i < |u.valueTri|
  {
    if visible == YES then (if val == Some(i) then YES else NO)
    else if visible != NO && u.valueSet[i] then Min(u.valueTri[i], visible)
    else NO
  }

  /** Everything calculated anew. */
  function Calculated(g: Group, w: World, u: User): (r: Values)
    requires g.Valid() && w.Fits(g) && u.Fits(g)
    ensures |r.visible| == g.N() && |r.curr| == g.N()
  {
    var (tri, val) := (ChoiceTri(g, w, u), ChoiceVal(g, w, u));
    Values(tri, val,
           seq(g.N(), i requires 0 <= i < g.N() => Shown(g, w, tri, i)),
           seq(g.N(), i requires 0 <= i < g.N() => CurrOf(u, val, Shown(g, w, tri, i), i)))
  }

  /** sym_calc_choice drops the choice's user flag unless every visible value has its own. */
  ghost predicate AllOfferedSet(g: Group, w: World, u: User)
    requires w.Fits(g) && u.Fits(g)
  {
    forall i | 0 <= i < g.N() && Offered(g, w, i) :: u.valueSet[i]
  }

  ghost function Kept(g: Group, w: World, u: User): User
    requires w.Fits(g) && u.Fits(g)
  {
    if Wanted(g, w, u) == YES then u.(touched := u.touched && AllOfferedSet(g, w, u)) else u
  }

  // ---------- Exactly one ----------

  lemma ShownYes(g: Group, w: World, u: User, i: nat)
    requires g.Valid() && w.Fits(g) && u.Fits(g) && i < g.N()
    requires Shown(g, w, ChoiceTri(g, w, u), i) == YES
    ensures ChoiceTri(g, w, u) == YES
  {}

  /** A value offered by a choice at y is visible there, and fully. */
  lemma OfferedYes(g: Group, w: World, i: nat)
    requires w.Fits(g) && i < g.N() && Offered(g, w, i)
    ensures Shown(g, w, YES, i) == YES
  {}

  /** A choice at y has exactly one value at y; it is visible, and the user's pick if that is
      visible. */
  lemma ExactlyOne(g: Group, w: World, u: User)
    requires g.Valid() && w.Fits(g) && u.Fits(g) && Calculated(g, w, u).tri == YES
    ensures var r := Calculated(g, w, u);
      && r.val.Some? && r.val.value < g.N() && r.curr[r.val.value] == YES && r.visible[r.val.value] != NO
      && (forall i | 0 <= i < g.N() && i != r.val.value :: r.curr[i] != YES)
      && (u.pick.Some? && r.visible[u.pick.value] != NO ==> r.val == u.pick)
  {
    OfferedYes(g, w, Chosen(g, w, u).value);
    forall i | 0 <= i < g.N() && i != Chosen(g, w, u).value
      ensures Calculated(g, w, u).curr[i] != YES
    {
      if Offered(g, w, i) {
        OfferedYes(g, w, i);
      }
    }
  }

  /** A choice that is not at y has no value at y. */
  lemma NoneOtherwise(g: Group, w: World, u: User)
    requires g.Valid() && w.Fits(g) && u.Fits(g) && Calculated(g, w, u).tri != YES
    ensures forall i | 0 <= i < g.N() :: Calculated(g, w, u).curr[i] != YES
  {
    forall i | 0 <= i < g.N()
      ensures Calculated(g, w, u).curr[i] != YES
    {
      if Shown(g, w, ChoiceTri(g, w, u), i) == YES {
        ShownYes(g, w, u, i);
      }
    }
  }

  /** A choice is at y exactly when it should be and has a visible value; without one it is n. */
  lemma YesExactly(g: Group, w: World, u: User)
    requires g.Valid() && w.Fits(g) && u.Fits(g)
    ensures Calculated(g, w, u).tri == YES <==> Wanted(g, w, u) == YES && exists i :: 0 <= i < g.N() && Offered(g, w, i)
    ensures Wanted(g, w, u) == YES && (forall i | 0 <= i < g.N() :: !Offered(g, w, i)) ==> Calculated(g, w, u).tri == NO
  {}

  /** The user's pick is not to be had. */
  predicate NoPick(g: Group, w: World, u: User)
    requires w.Fits(g) && u.Fits(g)
  {
    u.pick.None? || !Offered(g, w, u.pick.value)
  }

  /** Without a visible pick a choice at y takes the first default that holds and is visible. */
  lemma DefaultWins(g: Group, w: World, u: User, k: nat)
    requires g.Valid() && w.Fits(g) && u.Fits(g) && Calculated(g, w, u).tri == YES && NoPick(g, w, u)
    requires k < |g.defaults| && DefaultOn(g, w, k) && forall j | 0 <= j < k :: !DefaultOn(g, w, j)
    ensures Calculated(g, w, u).val == Some(g.defaults[k]) && Calculated(g, w, u).curr[g.defaults[k]] == YES
  {
    assert g.defaults[k] in g.defaults;
    ExactlyOne(g, w, u);
  }

  /** If there is no such default, it takes the first visible value. */
  lemma FirstWins(g: Group, w: World, u: User, i: nat)
    requires g.Valid() && w.Fits(g) && u.Fits(g) && Calculated(g, w, u).tri == YES && NoPick(g, w, u)
    requires forall k | 0 <= k < |g.defaults| :: !DefaultOn(g, w, k)
    requires i < g.N() && Offered(g, w, i) && forall j | 0 <= j < i :: !Offered(g, w, j)
    ensures Calculated(g, w, u).val == Some(i) && Calculated(g, w, u).curr[i] == YES
  {
    ExactlyOne(g, w, u);
  }

  // ---------- What the parts come to ----------

  /** Whether the choice can be m. */
  predicate Modular(g: Group, w: World) {
    g.choiceIsTri && w.modules
  }

  /** The choice stays between what it must be and what its prompt allows; within that it is what
      the user set. */
  lemma WantedWithin(g: Group, w: World, u: User)
    ensures w.prompt == NO ==> Wanted(g, w, u) == NO
    ensures !g.optional && w.prompt != NO ==> Wanted(g, w, u) != NO
    ensures !Modular(g, w) ==> Wanted(g, w, u) != MOD
    ensures Modular(g, w) ==> Wanted(g, w, u) <= w.prompt
    ensures g.optional && !u.touched ==> Wanted(g, w, u) == NO
    ensures !g.optional && !u.touched && Modular(g, w) ==> Wanted(g, w, u) <= MOD
    ensures u.touched && Modular(g, w) && (u.tri != NO || g.optional) && u.tri <= w.prompt ==> Wanted(g, w, u) == u.tri
    ensures u.touched && !Modular(g, w) && w.prompt != NO ==>
              (Wanted(g, w, u) == YES <==> !g.optional || u.tri != NO)
  {}

  /** In a choice at y a tristate value must be fully visible; a boolean one may be visible as m. */
  lemma OfferedExact(g: Group, w: World, i: nat)
    requires w.Fits(g) && i < g.N()
    ensures Offered(g, w, i) <==> if g.valueIsTri[i] then w.own[i] == YES else w.own[i] != NO
  {}

  /** In a choice at m only tristate values are visible, as m; in one at n none is. */
  lemma ShownElsewhere(g: Group, w: World, i: nat)
    requires w.Fits(g) && i < g.N()
    ensures Modular(g, w) ==> Shown(g, w, MOD, i) == if g.valueIsTri[i] && w.own[i] != NO then MOD else NO
    ensures Shown(g, w, NO, i) == NO
  {}

  /** In a choice at m every visible value that the user set has its own setting. */
  lemma ModuleValues(g: Group, w: World, u: User, i: nat)
    requires g.Valid() && w.Fits(g) && u.Fits(g) && i < g.N() && Calculated(g, w, u).tri == MOD
    ensures Calculated(g, w, u).curr[i] ==
            if g.valueIsTri[i] && w.own[i] != NO && u.valueSet[i] && u.valueTri[i] != NO then MOD else NO
  {
    WantedWithin(g, w, u);
    ShownElsewhere(g, w, i);
  }

  // ---------- Calculating again ----------

  /** Exactly when calculating a second time, with nothing changed, gives the same. */
  lemma StableExactly(g: Group, w: World, u: User)
    requires g.Valid() && w.Fits(g) && u.Fits(g)
    ensures Calculated(g, w, Kept(g, w, u)) == Calculated(g, w, u)
       <==> Wanted(g, w, u) != YES || !u.touched || Reverse(g, w) == YES || AllOfferedSet(g, w, u)
  {
    var k := Kept(g, w, u);
    assert ChoiceVal(g, w, u) == None || Wanted(g, w, u) == YES;
    if Wanted(g, w, k) == Wanted(g, w, u) {
      assert ChoiceTri(g, w, k) == ChoiceTri(g, w, u);
    } else {
      YesExactly(g, w, u);
      YesExactly(g, w, k);
    }
  }

  /** A user who once set an optional choice to y, and nothing else, loses it again at the next
      calculation. */
  lemma ForgottenChoice(g: Group, w: World, u: User)
    requires g == Group(false, true, [false], []) && w == World(true, YES, [YES], [])
    requires u == User(true, YES, None, [false], [NO])
    ensures Calculated(g, w, u).tri == YES && Calculated(g, w, Kept(g, w, u)).tri == NO
  {
    assert Offered(g, w, 0);
    YesExactly(g, w, u);
  }

  // ---------- The symbols in place ----------

  class Choice {
    const g: Group
    var w: World
    var u: User
    var r: Values
    /** What the user had set when the values were last calculated. */
    ghost var u0: User

    ghost predicate Shaped()
      reads this
    {
      g.Valid() && w.Fits(g) && u.Fits(g) && |r.visible| == g.N() && |r.curr| == g.N()
    }

    /** The values are those last calculated.  Since then the user has at most confirmed what
        was so anyway. */
    ghost predicate Valid()
      reads this
    {
      && Shaped() && u0.Fits(g) && r == Calculated(g, w, u0)
      && (u.tri == u0.tri || u.tri == r.tri)
      && (u.pick == u0.pick || (u.pick.Some? && r.curr[u.pick.value] == YES))
      && (r.tri == MOD ==> Wanted(g, w, u) == MOD)
    }

    constructor (g: Group, w: World, u: User)
      requires g.Valid() && w.Fits(g) && u.Fits(g)
      ensures Valid() && this.g == g && this.w == w && this.u.pick == u.pick
    {
      this.g, this.w, this.u, this.u0 := g, w, u, u;
      r := Values(NO, None, seq(g.N(), _ => NO), seq(g.N(), _ => NO));
      new;
      Recalculate();
    }

    /** sym_calc_visibility on a value. */
    method CalcVisibility(i: nat)
      requires Shaped() && i < g.N()
      modifies this`r
      ensures r == old(r).(visible := old(r.visible)[i := Shown(g, w, old(r.tri), i)])
    {
      var base := if g.choiceIsTri && !g.valueIsTri[i] && r.tri != YES then NO else Min(r.tri, w.own[i]);
      if g.valueIsTri[i] && base == MOD && r.tri == YES {
        base := NO;
      }
      if base == MOD && (!g.valueIsTri[i] || !w.modules) {
        base := YES;
      }
      r := r.(visible := r.visible[i := base]);
    }

    /** sym_choice_default. */
    method ChoiceDefault() returns (d: Option<nat>)
      requires Shaped() && forall i | 0 <= i < g.N() :: r.visible[i] == Shown(g, w, YES, i)
      ensures d == if FirstDefault(g, w, 0).Some? then FirstDefault(g, w, 0) else FirstOffered(g, w, 0)
    {
      var k := 0;
      while k < |g.defaults|
        invariant k <= |g.defaults| && FirstDefault(g, w, k) == FirstDefault(g, w, 0)
      {
        var v := g.defaults[k];
        assert v in g.defaults;
        if w.defaultOn[k] != NO && r.visible[v] != NO {
          return Some(v);
        }
        k := k + 1;
      }
      k := 0;
      while k < g.N()
        invariant k <= g.N() && FirstOffered(g, w, k) == FirstOffered(g, w, 0)
      {
        if r.visible[k] != NO {
          return Some(k);
        }
        k := k + 1;
      }
      d := None;
    }

    /** sym_calc_choice, on a choice whose value is y so far. */
    method CalcChoice() returns (val: Option<nat>)
      requires Shaped() && r.tri == YES
      modifies this`r, this`u
      ensures Shaped() && val == Chosen(g, w, old(u)) && r.tri == (if val.None? then NO else YES)
      ensures u == old(u).(touched := old(u).touched && AllOfferedSet(g, w, old(u)))
    {
      var flag := u.touched;
      for i := 0 to g.N()
        invariant Shaped() && r.tri == YES && u == old(u)
        invariant forall k | 0 <= k < i :: r.visible[k] == Shown(g, w, YES, k)
        invariant flag <==> u.touched && forall k | 0 <= k < i && Offered(g, w, k) :: u.valueSet[k]
      {
        CalcVisibility(i);
        if r.visible[i] != NO {
          flag := flag && u.valueSet[i];
        }
      }
      u := u.(touched := flag);
      if u.pick.Some? && r.visible[u.pick.value] != NO {
        return u.pick;
      }
      val := ChoiceDefault();
      if val.None? {
        r := r.(tri := NO);
      }
    }

    /** sym_calc_value on the choice. */
    method CalcChoiceValue()
      requires Shaped()
      modifies this`r, this`u
      ensures Shaped() && u == Kept(g, w, old(u))
      ensures r.tri == ChoiceTri(g, w, old(u)) && r.val == ChoiceVal(g, w, old(u))
    {
      var isBool := !g.choiceIsTri || !w.modules;
      var visible := if w.prompt == MOD && isBool then YES else w.prompt;
      var reverse := if g.optional then NO else Min(w.prompt, MOD);
      if reverse == MOD && isBool {
        reverse := YES;
      }
      var newval: Tristate := NO;
      if visible != NO && u.touched {
        newval := Min(u.tri, visible);
      }
      newval := Max(newval, reverse);
      if newval == MOD && isBool {
        newval := YES;
      }
      r := r.(tri := newval, val := None);
      if newval == YES {
        var val := CalcChoice();
        r := r.(val := val);
      }
    }

    /** sym_calc_value on a value, after the choice. */
    method CalcValue(i: nat)
      requires Shaped() && i < g.N()
      modifies this`r
      ensures var v := Shown(g, w, old(r.tri), i);
        r == old(r).(visible := old(r.visible)[i := v], curr := old(r.curr)[i := CurrOf(u, old(r.val), v, i)])
    {
      CalcVisibility(i);
      var newval: Tristate := NO;
      if r.visible[i] == YES {
        newval := if r.val == Some(i) then YES else NO;
      } else if r.visible[i] != NO && u.valueSet[i] {
        newval := Min(u.valueTri[i], r.visible[i]);
      }
      r := r.(curr := r.curr[i := newval]);
    }

    /** Everything that sym_clear_all_valid makes invalid is calculated again. */
    method Recalculate()
      requires Shaped()
      modifies this
      ensures Valid() && u0 == old(u) && u == Kept(g, w, old(u)) && w == old(w)
    {
      ghost var before := u;
      CalcChoiceValue();
      for i := 0 to g.N()
        invariant Shaped() && u == Kept(g, w, before) && w == old(w)
        invariant r.tri == ChoiceTri(g, w, before) && r.val == ChoiceVal(g, w, before)
        invariant forall k | 0 <= k < i :: r.visible[k] == Shown(g, w, r.tri, k)
        invariant forall k | 0 <= k < i :: r.curr[k] == CurrOf(before, r.val, Shown(g, w, r.tri, k), k)
      {
        CalcValue(i);
      }
      u0 := before;
      assert r.visible == Calculated(g, w, before).visible && r.curr == Calculated(g, w, before).curr;
    }

    /** Other symbols change. */
    method Change(w': World)
      requires Valid() && w'.Fits(g)
      modifies this
      ensures Valid() && w == w' && u.pick == old(u.pick)
    {
      w := w';
      Recalculate();
    }

    /** sym_tristate_within_range on a value. */
    predicate WithinRange(i: nat, val: Tristate)
      requires Shaped() && i < g.N()
      reads this
    {
      && r.visible[i] != NO
      && !(val == MOD && (!g.valueIsTri[i] || r.visible[i] == YES || !w.modules))
      && if r.visible[i] == YES then val == YES else val <= r.visible[i]
    }

    /** Every visible value of the choice counts as set by the user. */
    method MarkVisible()
      requires Shaped()
      modifies this`u
      ensures Shaped() && u == old(u).(valueSet := u.valueSet)
      ensures forall k | 0 <= k < g.N() :: u.valueSet[k] <==> old(u.valueSet[k]) || r.visible[k] != NO
    {
      for k := 0 to g.N()
        invariant Shaped() && u == old(u).(valueSet := u.valueSet)
        invariant forall l | 0 <= l < g.N() :: u.valueSet[l] <==> old(u.valueSet[l]) || (l < k && r.visible[l] != NO)
      {
        if r.visible[k] != NO {
          u := u.(valueSet := u.valueSet[k := true]);
        }
      }
    }

    /** What sym_set_tristate_value writes for a value. */
    method Record(i: nat, val: Tristate)
      requires Shaped() && i < g.N()
      modifies this`u
      ensures Shaped() && u.valueSet[i] && u.valueTri == old(u.valueTri)[i := val] && u.tri == old(u.tri)
      ensures val != YES ==> u.pick == old(u.pick) && u.touched == old(u.touched)
      ensures val == YES ==> u.pick == Some(i) && u.touched
                             && forall k | 0 <= k < g.N() && r.visible[k] != NO :: u.valueSet[k]
    {
      u := u.(valueSet := u.valueSet[i := true]);
      u := u.(valueTri := u.valueTri[i := val]);
      if val == YES {
        u := u.(pick := Some(i), touched := true);
        MarkVisible();
      }
    }

    /** sym_set_tristate_value on a value. */
    method SetValue(i: nat, val: Tristate) returns (ok: bool)
      requires Valid() && i < g.N()
      modifies this
      ensures Valid() && w == old(w)
      ensures ok <==> old(r.curr[i]) == val || old(WithinRange(i, val))
      ensures !ok ==> u == old(u) && r == old(r)
      ensures u.pick == if ok && val == YES then Some(i) else old(u.pick)
      ensures ok ==> r.curr[i] == val
      ensures ok && val == YES ==> r.tri == YES && r.curr[i] == YES && u.touched && AllOfferedSet(g, w, u)
      ensures ok ==> u.valueSet[i] && u.valueTri[i] == val && u.tri == old(u.tri)
    {
      var oldval := r.curr[i];
      if oldval != val && !WithinRange(i, val) {
        return false;
      }
      ok := true;
      Record(i, val);
      if val == YES {
        PickWorks(g, w, u0, u, i, r);
      } else if oldval != val {
        ModuleWorks(g, w, u0, u, i, r);
      }
      if oldval != val {
        Recalculate();
      }
    }

    /** sym_tristate_within_range on the choice. */
    predicate ChoiceWithinRange(val: Tristate)
      reads this
    {
      var visible := Lift(w.prompt, g.choiceIsTri, w.modules);
      && visible != NO && !(val == MOD && (!g.choiceIsTri || !w.modules)) && visible > Reverse(g, w)
      && Reverse(g, w) <= val <= visible
    }

    /** sym_set_tristate_value on the choice: a value that is accepted is taken, unless it is y
        and nothing is offered. */
    method SetChoice(val: Tristate) returns (ok: bool)
      requires Valid()
      modifies this
      ensures Valid() && w == old(w) && u.pick == old(u.pick)
      ensures !ok ==> u == old(u) && r == old(r)
      ensures ok <==> old(r.tri) == val || old(ChoiceWithinRange(val))
      ensures ok && old(r.tri) == val ==> r == old(r)
      ensures ok ==> u.tri == val
      ensures ok && r.tri != val ==> val == YES && r.tri == NO && forall i | 0 <= i < g.N() :: !Offered(g, w, i)
    {
      ok := r.tri == val || ChoiceWithinRange(val);
      if ok {
        var oldval := r.tri;
        u := u.(touched := true, tri := val);
        if oldval != val {
          Recalculate();
        }
      }
    }
  }

  /** In every state that setting values and changes elsewhere lead to: a choice at y has
      exactly one value at y, a visible one, and the one the user picked last if that is
      visible; any other choice has none. */
  lemma InEveryState(c: Choice)
    requires c.Valid()
    ensures c.r.tri == YES ==> exists i :: 0 <= i < c.g.N() && OnlyYes(c.r, i) && c.r.visible[i] != NO
    ensures c.r.tri == YES && c.u.pick.Some? && c.r.visible[c.u.pick.value] != NO ==> OnlyYes(c.r, c.u.pick.value)
    ensures c.r.tri != YES ==> forall i | 0 <= i < c.g.N() :: c.r.curr[i] != YES
  {
    if c.r.tri == YES {
      ExactlyOne(c.g, c.w, c.u0);
      assert OnlyYes(c.r, c.r.val.value);
    } else {
      NoneOtherwise(c.g, c.w, c.u0);
    }
  }

  ghost predicate OnlyYes(r: Values, i: nat) {
    i < |r.curr| && r.curr[i] == YES && forall k | 0 <= k < |r.curr| && k != i :: r.curr[k] != YES
  }

  /** A value at m or n that the user may set so is so afterwards. */
  lemma ModuleWorks(g: Group, w: World, u0: User, u: User, i: nat, r: Values)
    requires g.Valid() && w.Fits(g) && u0.Fits(g) && u.Fits(g) && i < g.N()
    requires r == Calculated(g, w, u0) && r.visible[i] == MOD && (r.tri == MOD ==> Wanted(g, w, u) == MOD)
    requires u.valueSet[i] && u.valueTri[i] <= MOD
    ensures Calculated(g, w, u).curr[i] == u.valueTri[i]
  {
    WantedWithin(g, w, u0);
    OfferedExact(g, w, i);
    ShownElsewhere(g, w, i);
    assert r.tri == MOD;
    ModuleValues(g, w, u, i);
  }

  /** A visible value that the user picks in a choice at y becomes the one at y, and all that
      is visible counts as set. */
  lemma PickWorks(g: Group, w: World, u0: User, u: User, i: nat, r: Values)
    requires g.Valid() && w.Fits(g) && u0.Fits(g) && u.Fits(g) && i < g.N()
    requires r == Calculated(g, w, u0) && (r.visible[i] == YES || r.curr[i] == YES)
    requires u.touched && u.pick == Some(i) && (u.tri == u0.tri || u.tri == r.tri)
    requires forall k | 0 <= k < g.N() && r.visible[k] != NO :: u.valueSet[k]
    ensures Calculated(g, w, u).tri == YES && Calculated(g, w, u).curr[i] == YES && r.tri == YES
    ensures AllOfferedSet(g, w, u)
  {
    ShownYes(g, w, u0, i);
  }
}
