/** menu_finalize of scripts/config/menu.c and the tree walk of conf_write in
    scripts/config/confdata.c, on linked entries.  An entry is an index; the pointer fields
    of all entries are three sequences, and NULL is -1. */
module MenuTree {
  import opened MenuForest

  const NULL: int := -1

  datatype Mem = Mem(next: seq<int>, list: seq<int>, parent: seq<int>)

  ghost predicate Cell(m: Mem, id: nat) {
    id < |m.next| && id < |m.list| && id < |m.parent|
  }

  /** The pointer to the first entry of f, or end when there is none. */
  function Head(f: Forest, end: int): int {
    if f.Nil? then end else f.id
  }

  /** The entries of f are linked as f says, all of its top level below par, the last of them
      followed by end. */
  ghost predicate Linked(m: Mem, f: Forest, par: int, end: int) {
    f.Cons? ==>
      && Cell(m, f.id)
      && m.next[f.id] == Head(f.rest, end) && m.list[f.id] == Head(f.kids, NULL) && m.parent[f.id] == par
      && Linked(m, f.kids, f.id, NULL)
      && Linked(m, f.rest, par, end)
  }

  // ---------- Which entries a change can reach ----------

  function Ids(f: Forest): set<nat> {
    match f
    case Nil => {}
    case Cons(id, kids, rest) => {id} + Ids(kids) + Ids(rest)
  }

  /** No entry occurs twice. */
  ghost predicate Distinct(f: Forest) {
    f.Cons? ==>
      && f.id !in Ids(f.kids) && f.id !in Ids(f.rest) && Ids(f.kids) !! Ids(f.rest)
      && Distinct(f.kids) && Distinct(f.rest)
  }

  lemma {:induction false} JoinIds(a: Forest, b: Forest)
    ensures Ids(Join(a, b)) == Ids(a) + Ids(b)
  {
    if a.Cons? {
      JoinIds(a.rest, b);
    }
  }

  lemma {:induction false} JoinDistinct(a: Forest, b: Forest)
    ensures Distinct(Join(a, b)) <==> Distinct(a) && Distinct(b) && Ids(a) !! Ids(b)
  {
    if a.Cons? {
      JoinDistinct(a.rest, b);
      JoinIds(a.rest, b);
    }
  }

  /** The entries not in ids are as they were. */
  ghost predicate Outside(m: Mem, m': Mem, ids: set<nat>) {
    && |m'.next| == |m.next| && |m'.list| == |m.list| && |m'.parent| == |m.parent|
    && forall i: nat | Cell(m, i) && i !in ids ::
      m'.next[i] == m.next[i] && m'.list[i] == m.list[i] && m'.parent[i] == m.parent[i]
  }

  lemma {:induction false} LinkedOutside(m: Mem, m': Mem, ids: set<nat>, f: Forest, par: int, end: int)
    requires Linked(m, f, par, end) && Outside(m, m', ids) && Ids(f) !! ids
    ensures Linked(m', f, par, end)
  {
    if f.Cons? {
      LinkedOutside(m, m', ids, f.kids, f.id, NULL);
      LinkedOutside(m, m', ids, f.rest, par, end);
    }
  }

  lemma {:induction false} LinkedJoin(m: Mem, a: Forest, b: Forest, par: int, end: int)
    ensures Linked(m, Join(a, b), par, end) <==> Linked(m, a, par, Head(b, end)) && Linked(m, b, par, end)
  {
    if a.Cons? {
      LinkedJoin(m, a.rest, b, par, end);
    }
  }

  /** The last entry of the top level. */
  function Last(f: Forest): nat
    requires f.Cons?
  {
    if f.rest.Nil? then f.id else Last(f.rest)
  }

  lemma {:induction false} LastIn(f: Forest)
    requires f.Cons?
    ensures Last(f) in Ids(f)
  {
    if f.rest.Cons? {
      LastIn(f.rest);
    }
  }

  /** Redirecting the last entry of a list. */
  lemma {:induction false} LinkedEnd(m: Mem, f: Forest, par: int, end: int, m': Mem, end': int)
    requires f.Cons? && Linked(m, f, par, end) && Distinct(f)
    requires Cell(m, Last(f)) && m' == m.(next := m.next[Last(f) := end'])
    ensures Linked(m', f, par, end')
  {
    LastIn(f);
    if f.rest.Cons? {
      LastIn(f.rest);
      LinkedEnd(m, f.rest, par, end, m', end');
    }
    LinkedOutside(m, m', {Last(f)}, f.kids, f.id, NULL);
  }

  // ---------- Conservation, for sets of entries ----------

  lemma {:induction false} IdsPreorder(f: Forest)
    ensures forall i: nat :: i in Ids(f) <==> i in Preorder(f)
  {
    if f.Cons? {
      IdsPreorder(f.kids);
      IdsPreorder(f.rest);
    }
  }

  ghost predicate NoRepeats(s: seq<nat>) {
    forall i, j | 0 <= i < j < |s| :: s[i] != s[j]
  }

  ghost predicate Apart(s: seq<nat>, t: seq<nat>) {
    forall i, j | 0 <= i < |s| && 0 <= j < |t| :: s[i] != t[j]
  }

  lemma NoRepeatsConcat(s: seq<nat>, t: seq<nat>)
    ensures NoRepeats(s + t) <==> NoRepeats(s) && NoRepeats(t) && Apart(s, t)
  {
    var u := s + t;
    if NoRepeats(u) {
      assert forall i | 0 <= i < |s| :: s[i] == u[i];
      assert forall j | 0 <= j < |t| :: t[j] == u[|s| + j];
    }
  }

  ghost predicate Holds(s: seq<nat>, a: set<nat>) {
    forall i: nat :: i in a <==> i in s
  }

  lemma ApartSets(s: seq<nat>, t: seq<nat>, a: set<nat>, b: set<nat>)
    requires Holds(s, a) && Holds(t, b)
    ensures Apart(s, t) <==> a !! b
  {
    if Apart(s, t) {
      assert forall i | i in a :: i in s && i !in t;
    } else {
      var i, j :| 0 <= i < |s| && 0 <= j < |t| && s[i] == t[j];
      assert s[i] in a && s[i] in b;
    }
  }

  /** Being distinct, step by step and as sequences. */
  lemma DistinctStep(id: nat, s: seq<nat>, t: seq<nat>, a: set<nat>, b: set<nat>)
    requires Holds(s, a) && Holds(t, b)
    ensures NoRepeats([id] + s + t) <==> NoRepeats(s) && NoRepeats(t) && id !in a && id !in b && a !! b
  {
    assert Holds([id] + s, {id} + a) && Holds([id], {id});
    NoRepeatsConcat([id] + s, t);
    NoRepeatsConcat([id], s);
    ApartSets([id] + s, t, {id} + a, b);
    ApartSets([id], s, {id}, a);
  }

  lemma {:induction false} DistinctPreorder(f: Forest)
    ensures Distinct(f) <==> NoRepeats(Preorder(f))
  {
    if f.Cons? {
      DistinctPreorder(f.kids);
      DistinctPreorder(f.rest);
      IdsPreorder(f.kids);
      IdsPreorder(f.rest);
      DistinctStep(f.id, Preorder(f.kids), Preorder(f.rest), Ids(f.kids), Ids(f.rest));
    }
  }

  /** Forests with the same depth-first order have the same entries, each as often. */
  lemma SameOrder(f: Forest, g: Forest)
    requires Preorder(f) == Preorder(g)
    ensures Ids(f) == Ids(g) && (Distinct(f) <==> Distinct(g))
  {
    IdsPreorder(f);
    IdsPreorder(g);
    DistinctPreorder(f);
    DistinctPreorder(g);
  }

  // ---------- Walking along a list ----------

  /** The first entry of g alone. */
  function First(g: Forest): Forest
    requires g.Cons?
  {
    Cons(g.id, g.kids, Nil)
  }

  lemma FirstJoin(done: Forest, g: Forest)
    requires g.Cons?
    ensures Join(Join(done, First(g)), g.rest) == Join(done, g)
  {
    JoinAssociative(done, First(g), g.rest);
  }

  /** One more entry belongs to the part of the list that is done. */
  lemma FirstLinked(m: Mem, done: Forest, g: Forest, p: int)
    requires g.Cons? && Linked(m, done, p, g.id) && Linked(m, First(g), p, Head(g.rest, NULL))
    ensures Linked(m, Join(done, First(g)), p, Head(g.rest, NULL))
  {
    LinkedJoin(m, done, First(g), p, Head(g.rest, NULL));
  }

  /** The two parts of a list share nothing. */
  lemma PartsApart(done: Forest, g: Forest)
    requires Distinct(Join(done, g))
    ensures Distinct(done) && Distinct(g) && Ids(done) !! Ids(g) && Ids(Join(done, g)) == Ids(done) + Ids(g)
  {
    JoinDistinct(done, g);
    JoinIds(done, g);
  }

  lemma {:induction false} LastJoin(a: Forest, b: Forest)
    requires b.Cons?
    ensures Join(a, b).Cons? && Last(Join(a, b)) == Last(b)
  {
    if a.Cons? {
      LastJoin(a.rest, b);
    }
  }

  lemma {:induction false} LastCell(m: Mem, f: Forest, par: int, end: int)
    requires f.Cons? && Linked(m, f, par, end)
    ensures Cell(m, Last(f))
  {
    if f.rest.Cons? {
      LastCell(m, f.rest, par, end);
    }
  }

  /** Hanging the children of an entry, already below p, in behind it. */
  function Spliced(m: Mem, id: nat, last: nat): Mem
    requires Cell(m, id) && Cell(m, last)
  {
    Mem(m.next[last := m.next[id]][id := m.list[id]], m.list[id := NULL], m.parent)
  }

  lemma SpliceLinked(m: Mem, g: Forest, p: int)
    requires g.Cons? && g.kids.Cons? && Distinct(g) && Cell(m, g.id) && Cell(m, Last(g.kids))
    requires m.next[g.id] == Head(g.rest, NULL) && m.list[g.id] == g.kids.id && m.parent[g.id] == p
    requires Linked(m, g.kids, p, NULL) && Linked(m, g.rest, p, NULL)
    ensures Linked(Spliced(m, g.id, Last(g.kids)), Cons(g.id, Nil, Join(g.kids, g.rest)), p, NULL)
    ensures Outside(m, Spliced(m, g.id, Last(g.kids)), Ids(g))
  {
    LastIn(g.kids);
    var last := Last(g.kids);
    var m1 := m.(next := m.next[last := m.next[g.id]]);
    var m2 := Spliced(m, g.id, last);
    LinkedEnd(m, g.kids, p, NULL, m1, m.next[g.id]);
    LinkedOutside(m, m1, {last}, g.rest, p, NULL);
    LinkedJoin(m1, g.kids, g.rest, p, NULL);
    JoinIds(g.kids, g.rest);
    LinkedOutside(m1, m2, {g.id}, Join(g.kids, g.rest), p, NULL);
  }

  function Under(m: Mem, id: nat, p: int): Mem
    requires Cell(m, id)
  {
    m.(parent := m.parent[id := p])
  }

  /** Making p the parent of the next entry of a list. */
  lemma MovedUnder(m: Mem, done: Forest, g: Forest, p: int, par: int)
    requires g.Cons? && Linked(m, done, p, g.id) && Linked(m, g, par, NULL) && Distinct(Join(done, g))
    ensures Linked(Under(m, g.id, p), Join(done, First(g)), p, Head(g.rest, NULL))
    ensures Linked(Under(m, g.id, p), g.rest, par, NULL)
    ensures Outside(m, Under(m, g.id, p), {g.id}) && g.id in Ids(Join(done, g))
  {
    var m' := Under(m, g.id, p);
    PartsApart(done, g);
    LinkedOutside(m, m', {g.id}, done, p, g.id);
    LinkedOutside(m, m', {g.id}, g.kids, g.id, NULL);
    LinkedOutside(m, m', {g.id}, g.rest, par, NULL);
    FirstLinked(m', done, g, p);
  }

  /** A list of distinct entries, worked off up to g; what is done is below p, the rest below q. */
  ghost predicate Run(m: Mem, done: Forest, g: Forest, p: int, q: int, ids: set<nat>) {
    Linked(m, done, p, Head(g, NULL)) && Linked(m, g, q, NULL) && Distinct(Join(done, g)) && Ids(Join(done, g)) == ids
  }

  /** g became h, with the same entries in the same order, and its first entry is done. */
  lemma RunNext(m: Mem, done: Forest, g: Forest, p: int, q: int, ids: set<nat>, m': Mem, h: Forest)
    requires Run(m, done, g, p, q, ids) && g.Cons? && h.Cons? && h.id == g.id && Preorder(h) == Preorder(g)
    requires Outside(m, m', Ids(g)) && Linked(m', First(h), p, Head(h.rest, NULL)) && Linked(m', h.rest, q, NULL)
    ensures Run(m', Join(done, First(h)), h.rest, p, q, ids)
  {
    PartsApart(done, g);
    LinkedOutside(m, m', Ids(g), done, p, g.id);
    FirstLinked(m', done, h, p);
    FirstJoin(done, h);
    JoinPreorder(done, g);
    JoinPreorder(done, h);
    SameOrder(Join(done, g), Join(done, h));
  }

  /** All that can change between two looks at a list is in the list. */
  lemma OutsideNext(m0: Mem, m: Mem, m': Mem, ids: set<nat>, ids': set<nat>)
    requires Outside(m0, m, ids) && Outside(m, m', ids') && ids' <= ids
    ensures Outside(m0, m', ids)
  {}

  lemma RunIds(m: Mem, done: Forest, g: Forest, p: int, q: int, ids: set<nat>)
    requires Run(m, done, g, p, q, ids)
    ensures Ids(g) <= ids && Distinct(g)
  {
    PartsApart(done, g);
  }

  lemma HeadOfOrder(f: Forest, g: Forest)
    requires Preorder(f) == Preorder(g)
    ensures Head(f, NULL) == Head(g, NULL)
  {
    assert f.Cons? ==> Preorder(f)[0] == f.id;
    assert g.Cons? ==> Preorder(g)[0] == g.id;
  }

  /** The children of f's first entry were restructured. */
  lemma KidsChanged(m: Mem, f: Forest, q: int, m': Mem, kids: Forest)
    requires f.Cons? && Linked(m, f, q, NULL) && Distinct(f)
    requires Preorder(kids) == Preorder(f.kids) && Linked(m', kids, f.id, NULL) && Outside(m, m', Ids(f.kids))
    ensures Linked(m', Cons(f.id, kids, f.rest), q, NULL) && Distinct(Cons(f.id, kids, f.rest))
    ensures Ids(Cons(f.id, kids, f.rest)) == Ids(f)
  {
    HeadOfOrder(kids, f.kids);
    LinkedOutside(m, m', Ids(f.kids), f.rest, q, NULL);
    SameOrder(kids, f.kids);
  }

  /** Cutting the list behind last and making what is before it the children of p. */
  function Attached(m: Mem, p: nat, last: nat): Mem
    requires Cell(m, p) && Cell(m, last)
  {
    Mem(m.next[p := m.next[last]][last := NULL], m.list[p := m.next[p]], m.parent)
  }

  lemma AttachLinked(m: Mem, p: nat, q: int, done: Forest, g: Forest)
    requires done.Cons? && Run(m, done, g, p, q, Ids(Join(done, g))) && p !in Ids(Join(done, g))
    requires Cell(m, p) && m.next[p] == done.id && m.parent[p] == q && Cell(m, Last(done))
    ensures Linked(Attached(m, p, Last(done)), Cons(p, done, g), q, NULL)
    ensures Outside(m, Attached(m, p, Last(done)), {p} + Ids(done))
  {
    var last := Last(done);
    var m1 := m.(next := m.next[last := NULL]);
    PartsApart(done, g);
    LastIn(done);
    LastNext(m, done, p, Head(g, NULL));
    LinkedEnd(m, done, p, Head(g, NULL), m1, NULL);
    LinkedOutside(m, m1, {last}, g, q, NULL);
    LinkedOutside(m1, Attached(m, p, last), {p}, done, p, NULL);
    LinkedOutside(m1, Attached(m, p, last), {p}, g, q, NULL);
  }

  lemma {:induction false} LastNext(m: Mem, f: Forest, par: int, end: int)
    requires f.Cons? && Linked(m, f, par, end)
    ensures Cell(m, Last(f)) && m.next[Last(f)] == end
  {
    if f.rest.Cons? {
      LastNext(m, f.rest, par, end);
    }
  }

  // ---------- The linked entries ----------

  class Menus {
    const rules: Rules
    var next: seq<int>
    var list: seq<int>
    var parent: seq<int>

    constructor (rules: Rules, next: seq<int>, list: seq<int>, parent: seq<int>)
      ensures this.rules == rules && M() == Mem(next, list, parent)
    {
      this.rules, this.next, this.list, this.parent := rules, next, list, parent;
    }

    ghost function M(): Mem
      reads this
    {
      Mem(next, list, parent)
    }

    // ---------- Lifting the children of entries without a prompt ----------

    /** The loop that makes p the parent of every entry of a list. */
    method Reparent(head: nat, p: nat, ghost kids: Forest, ghost par: int) returns (last: nat)
      requires kids.Cons? && head == kids.id && Linked(M(), kids, par, NULL) && Distinct(kids)
      modifies this`parent
      ensures Linked(M(), kids, p, NULL) && last == Last(kids) && Outside(old(M()), M(), Ids(kids))
    {
      last := head;
      ghost var done, g := Nil, kids;
      while true
        invariant g.Cons? && last == g.id && Join(done, g) == kids
        invariant Linked(M(), done, p, g.id) && Linked(M(), g, par, NULL)
        invariant Outside(old(M()), M(), Ids(kids))
        decreases Size(g)
      {
        MovedUnder(M(), done, g, p, par);
        parent := parent[last := p];
        FirstJoin(done, g);
        LastJoin(done, First(g));
        if next[last] == NULL {
          break;
        }
        done, g := Join(done, First(g)), g.rest;
        last := next[last];
      }
    }

    /** The children of one entry become its next siblings. */
    method LiftOne(menu: nat, p: nat, ghost g: Forest)
      requires g.Cons? && g.kids.Cons? && menu == g.id && Linked(M(), g, p, NULL) && Distinct(g)
      modifies this
      ensures Linked(M(), Cons(g.id, Nil, Join(g.kids, g.rest)), p, NULL) && Outside(old(M()), M(), Ids(g))
    {
      ghost var m := M();
      var last := Reparent(list[menu], p, g.kids, g.id);
      LinkedOutside(m, M(), Ids(g.kids), g.rest, p, NULL);
      LastCell(M(), g.kids, p, NULL);
      SpliceLinked(M(), g, p);
      next := next[last := next[menu]];
      next := next[menu := list[menu]];
      list := list[menu := NULL];
    }

    method LiftRound(menu: nat, p: nat, ghost done: Forest, ghost g: Forest, ghost ids: set<nat>)
      requires g.Cons? && menu == g.id && Run(M(), done, g, p, p, ids)
      modifies this
      ensures Run(M(), Join(done, First(Lifted(rules, g))), Lifted(rules, g).rest, p, p, ids)
      ensures Outside(old(M()), M(), ids) && Cell(M(), menu) && next[menu] == Head(Lifted(rules, g).rest, NULL)
    {
      ghost var m := M();
      RunIds(m, done, g, p, p, ids);
      if list[menu] != NULL && !rules.hasPrompt(menu) {
        LiftOne(menu, p, g);
      }
      LiftedOrder(rules, g);
      RunNext(m, done, g, p, p, ids, M(), Lifted(rules, g));
      OutsideNext(m, m, M(), ids, Ids(g));
    }

    /** The last loop of menu_finalize. */
    method LiftKids(p: nat, ghost kids: Forest)
      requires Cell(M(), p) && list[p] == Head(kids, NULL) && Linked(M(), kids, p, NULL) && Distinct(kids)
      modifies this
      ensures Linked(M(), LiftAll(rules, kids), p, NULL) && Outside(old(M()), M(), Ids(kids))
    {
      var menu := list[p];
      ghost var m0 := M();
      ghost var done, g := Nil, kids;
      while menu != NULL
        invariant menu == Head(g, NULL) && Run(M(), done, g, p, p, Ids(kids))
        invariant Join(done, LiftAll(rules, g)) == LiftAll(rules, kids)
        invariant Outside(m0, M(), Ids(kids))
        decreases Size(g)
      {
        ghost var h := Lifted(rules, g);
        ghost var m := M();
        LiftRound(menu, p, done, g, Ids(kids));
        OutsideNext(m0, m, M(), Ids(kids), Ids(kids));
        JoinAssociative(done, First(h), LiftAll(rules, h.rest));
        menu := next[menu];
        done, g := Join(done, First(h)), h.rest;
      }
      JoinNil(done);
    }

    // ---------- Taking siblings along ----------

    method AbsorbRound(menu: nat, p: nat, ghost done: Forest, ghost g: Forest, ghost q: int, ghost ids: set<nat>)
      requires g.Cons? && menu == g.id && Run(M(), done, g, p, q, ids)
      modifies this
      ensures var h := MenuForest.Finalize(rules, g);
        && Run(M(), Join(done, First(h)), h.rest, p, q, ids)
        && Outside(old(M()), M(), ids) && Cell(M(), menu) && next[menu] == Head(h.rest, NULL)
      decreases Size(g), 2
    {
      ghost var m := M();
      ghost var h := MenuForest.Finalize(rules, g);
      RunIds(m, done, g, p, q, ids);
      FinalizePreorder(rules, g);
      SameOrder(g, h);
      Finalize(menu, g, q);
      ghost var m1 := M();
      MovedUnder(m1, Nil, h, p, q);
      parent := parent[menu := p];
      OutsideNext(m, m1, M(), Ids(g), {menu});
      RunNext(m, done, g, p, q, ids, M(), h);
      OutsideNext(m, m, M(), ids, Ids(g));
    }

    /** The branch of menu_finalize for an entry without children but with a symbol. */
    method AbsorbSiblings(p: nat, ghost f: Forest, ghost q: int)
      requires f.Cons? && f.id == p && f.kids.Nil? && Linked(M(), f, q, NULL) && Distinct(f)
      modifies this
      ensures var a := Absorb(rules, p, f.rest); Linked(M(), Cons(p, a.0, a.1), q, NULL)
      ensures Outside(old(M()), M(), Ids(f))
      decreases Size(f), 0
    {
      var last, menu := NULL, next[p];
      ghost var m0 := M();
      ghost var ids := Ids(f.rest);
      ghost var done, g := Nil, f.rest;
      while menu != NULL && rules.pulls(p, menu)
        invariant menu == Head(g, NULL) && Size(g) < Size(f) && Run(M(), done, g, p, q, ids)
        invariant last == if done.Nil? then NULL else Last(done)
        invariant Outside(m0, M(), ids) && next[p] == Head(Join(done, g), NULL)
        invariant (Join(done, Absorb(rules, p, g).0), Absorb(rules, p, g).1) == Absorb(rules, p, f.rest)
        decreases Size(g)
      {
        ghost var h := MenuForest.Finalize(rules, g);
        ghost var m := M();
        AbsorbRound(menu, p, done, g, q, ids);
        OutsideNext(m0, m, M(), ids, ids);
        JoinAssociative(done, First(h), Absorb(rules, p, h.rest).0);
        FirstJoin(done, h);
        LastJoin(done, First(h));
        last, menu := menu, next[menu];
        done, g := Join(done, First(h)), h.rest;
      }
      JoinNil(done);
      if last != NULL {
        Attach(p, last, done, g, q, m0, ids);
      }
    }

    /** The relinking after the loop over the siblings. */
    method Attach(p: nat, last: nat, ghost done: Forest, ghost g: Forest, ghost q: int, ghost m0: Mem,
        ghost ids: set<nat>)
      requires done.Cons? && last == Last(done) && Run(M(), done, g, p, q, ids) && p !in ids
      requires Outside(m0, M(), ids) && Cell(M(), p) && next[p] == done.id && parent[p] == q
      modifies this
      ensures Linked(M(), Cons(p, done, g), q, NULL) && Outside(m0, M(), {p} + ids)
    {
      ghost var m := M();
      LastCell(m, done, p, Head(g, NULL));
      PartsApart(done, g);
      AttachLinked(m, p, q, done, g);
      list := list[p := next[p]];
      next := next[p := next[last]];
      next := next[last := NULL];
    }

    // ---------- The whole ----------

    /** The loop that finalizes one child after the other. */
    method FinalizeList(head: int, ghost f: Forest, ghost q: int)
      requires head == Head(f, NULL) && Linked(M(), f, q, NULL) && Distinct(f)
      modifies this
      ensures Linked(M(), FinalizeAll(rules, f), q, NULL) && Outside(old(M()), M(), Ids(f))
      decreases Size(f), 2
    {
      var menu := head;
      ghost var m0 := M();
      ghost var done, g := Nil, f;
      while menu != NULL
        invariant menu == Head(g, NULL) && Size(g) <= Size(f) && Run(M(), done, g, q, q, Ids(f))
        invariant Join(done, FinalizeAll(rules, g)) == FinalizeAll(rules, f)
        invariant Outside(m0, M(), Ids(f))
        decreases Size(g)
      {
        ghost var h := MenuForest.Finalize(rules, g);
        ghost var m := M();
        RunIds(m, done, g, q, q, Ids(f));
        Finalize(menu, g, q);
        FinalizePreorder(rules, g);
        RunNext(m, done, g, q, q, Ids(f), M(), h);
        OutsideNext(m0, m, M(), Ids(f), Ids(g));
        JoinAssociative(done, First(h), FinalizeAll(rules, h.rest));
        menu := next[menu];
        done, g := Join(done, First(h)), h.rest;
      }
      JoinNil(done);
    }

    /** menu_finalize. */
    method Finalize(p: nat, ghost f: Forest, ghost q: int)
      requires f.Cons? && f.id == p && Linked(M(), f, q, NULL) && Distinct(f)
      modifies this
      ensures Linked(M(), MenuForest.Finalize(rules, f), q, NULL) && Outside(old(M()), M(), Ids(f))
      decreases Size(f), 1
    {
      ghost var m := M();
      ghost var g := f;
      if list[p] != NULL {
        FinalizeList(list[p], f.kids, p);
        FinalizeAllPreorder(rules, f.kids);
        g := Cons(p, FinalizeAll(rules, f.kids), f.rest);
        KidsChanged(m, f, q, M(), g.kids);
      } else if rules.hasSym(p) {
        AbsorbSiblings(p, f, q);
        g := Cons(p, Absorb(rules, p, f.rest).0, Absorb(rules, p, f.rest).1);
        AbsorbPreorder(rules, p, f.rest);
        SameOrder(f, g);
      }
      ghost var m1 := M();
      LiftKids(p, g.kids);
      LiftPreorder(rules, g.kids);
      KidsChanged(m1, g, q, M(), LiftAll(rules, g.kids));
      OutsideNext(m, m1, M(), Ids(f), Ids(g.kids));
    }
  }

  /** One round of the last loop. */
  function Lifted(r: Rules, g: Forest): (h: Forest)
    requires g.Cons?
    ensures h.Cons? && h.id == g.id && Size(h.rest) < Size(g)
    ensures LiftAll(r, g) == Cons(h.id, h.kids, LiftAll(r, h.rest))
  {
    if Lifts(r, g) then Cons(g.id, Nil, Join(g.kids, g.rest)) else g
  }

  lemma LiftedOrder(r: Rules, g: Forest)
    requires g.Cons?
    ensures Preorder(Lifted(r, g)) == Preorder(g)
  {
    JoinPreorder(g.kids, g.rest);
  }

  lemma {:induction false} JoinNil(f: Forest)
    ensures Join(f, Nil) == f
  {
    if f.Cons? {
      JoinNil(f.rest);
    }
  }
}
