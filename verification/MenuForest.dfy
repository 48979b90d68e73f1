/** The menu tree of scripts/config/menu.c as a value, and what menu_finalize makes of it.

    A forest is a list of siblings; the shape is that of the list and next pointers. */
module MenuForest {

  datatype Forest = Nil | Cons(id: nat, kids: Forest, rest: Forest)

  /** The entries in the order in which a depth-first walk meets them. */
  function Preorder(f: Forest): seq<nat> {
    match f
    case Nil => []
    case Cons(id, kids, rest) => [id] + Preorder(kids) + Preorder(rest)
  }

  function Size(f: Forest): nat {
    match f
    case Nil => 0
    case Cons(_, kids, rest) => 1 + Size(kids) + Size(rest)
  }

  /** The siblings of a followed by those of b. */
  function Join(a: Forest, b: Forest): (r: Forest)
    ensures Size(r) == Size(a) + Size(b)
  {
    match a
    case Nil => b
    case Cons(id, kids, rest) => Cons(id, kids, Join(rest, b))
  }

  lemma {:induction false} JoinPreorder(a: Forest, b: Forest)
    ensures Preorder(Join(a, b)) == Preorder(a) + Preorder(b)
  {
    if a.Cons? {
      JoinPreorder(a.rest, b);
    }
  }

  lemma {:induction false} JoinAssociative(a: Forest, b: Forest, c: Forest)
    ensures Join(Join(a, b), c) == Join(a, Join(b, c))
  {
    if a.Cons? {
      JoinAssociative(a.rest, b, c);
    }
  }

  /** What decides how the tree is restructured: which entries have a symbol, which have a
      prompt with text, and which entry is pulled under which. */
  datatype Rules = Rules(hasSym: nat -> bool, hasPrompt: nat -> bool, pulls: (nat, nat) -> bool)

  /** menu_finalize on the first entry of f, which may take some of its later siblings along. */
  function Finalize(r: Rules, f: Forest): (g: Forest)
    requires f.Cons?
    ensures g.Cons? && g.id == f.id && Size(g) == Size(f)
    decreases Size(f), 0
  {
    if f.kids.Cons? then Cons(f.id, LiftAll(r, FinalizeAll(r, f.kids)), f.rest)
    else if r.hasSym(f.id) then
      var a := Absorb(r, f.id, f.rest);
      Cons(f.id, LiftAll(r, a.0), a.1)
    else f
  }

  /** menu_finalize on one sibling after the other. */
  function FinalizeAll(r: Rules, f: Forest): (g: Forest)
    ensures Size(g) == Size(f)
    decreases Size(f), 1
  {
    if f.Nil? then Nil
    else
      var g := Finalize(r, f);
      Cons(g.id, g.kids, FinalizeAll(r, g.rest))
  }

  /** The siblings that p takes, each finalized first, and those that it leaves. */
  function Absorb(r: Rules, p: nat, f: Forest): (a: (Forest, Forest))
    ensures Size(a.0) + Size(a.1) == Size(f)
    decreases Size(f), 1
  {
    if f.Nil? || !r.pulls(p, f.id) then (Nil, f)
    else
      var g := Finalize(r, f);
      var a := Absorb(r, p, g.rest);
      (Cons(g.id, g.kids, a.0), a.1)
  }

  /** The entry is one whose children move up a level. */
  predicate Lifts(r: Rules, f: Forest)
    requires f.Cons?
  {
    f.kids.Cons? && !r.hasPrompt(f.id)
  }

  /** The children of entries without a prompt become their next siblings. */
  function LiftAll(r: Rules, f: Forest): (g: Forest)
    ensures Size(g) == Size(f)
    decreases Size(f)
  {
    if f.Nil? then Nil
    else if Lifts(r, f) then Cons(f.id, Nil, LiftAll(r, Join(f.kids, f.rest)))
    else Cons(f.id, f.kids, LiftAll(r, f.rest))
  }

  // ---------- What is conserved ----------

  lemma {:induction false} LiftPreorder(r: Rules, f: Forest)
    ensures Preorder(LiftAll(r, f)) == Preorder(f)
    decreases Size(f)
  {
    if f.Cons? {
      if Lifts(r, f) {
        LiftPreorder(r, Join(f.kids, f.rest));
        JoinPreorder(f.kids, f.rest);
      } else {
        LiftPreorder(r, f.rest);
      }
    }
  }

  /** Restructuring never moves an entry in the depth-first order. */
  lemma {:induction false} FinalizePreorder(r: Rules, f: Forest)
    requires f.Cons?
    ensures Preorder(Finalize(r, f)) == Preorder(f)
    decreases Size(f), 0
  {
    if f.kids.Cons? {
      FinalizeAllPreorder(r, f.kids);
      LiftPreorder(r, FinalizeAll(r, f.kids));
    } else if r.hasSym(f.id) {
      AbsorbPreorder(r, f.id, f.rest);
      LiftPreorder(r, Absorb(r, f.id, f.rest).0);
    }
  }

  lemma {:induction false} FinalizeAllPreorder(r: Rules, f: Forest)
    ensures Preorder(FinalizeAll(r, f)) == Preorder(f)
    decreases Size(f), 1
  {
    if f.Cons? {
      FinalizePreorder(r, f);
      FinalizeAllPreorder(r, Finalize(r, f).rest);
    }
  }

  lemma {:induction false} AbsorbPreorder(r: Rules, p: nat, f: Forest)
    ensures Preorder(Absorb(r, p, f).0) + Preorder(Absorb(r, p, f).1) == Preorder(f)
    decreases Size(f), 1
  {
    if f.Cons? && r.pulls(p, f.id) {
      FinalizePreorder(r, f);
      AbsorbPreorder(r, p, Finalize(r, f).rest);
    }
  }

  // ---------- What is achieved ----------

  /** No entry at this level without a prompt has children. */
  predicate NoneHidden(r: Rules, f: Forest) {
    f.Cons? ==> (f.kids.Cons? ==> r.hasPrompt(f.id)) && NoneHidden(r, f.rest)
  }

  lemma {:induction false} LiftNoneHidden(r: Rules, f: Forest)
    ensures NoneHidden(r, LiftAll(r, f))
    decreases Size(f)
  {
    if f.Cons? {
      LiftNoneHidden(r, if Lifts(r, f) then Join(f.kids, f.rest) else f.rest);
    }
  }

  /** ... nor at any level below. */
  predicate NoneHiddenBelow(r: Rules, f: Forest) {
    f.Cons? ==> NoneHidden(r, f.kids) && NoneHiddenBelow(r, f.kids) && NoneHiddenBelow(r, f.rest)
  }

  lemma {:induction false} JoinBelow(r: Rules, a: Forest, b: Forest)
    requires NoneHiddenBelow(r, a) && NoneHiddenBelow(r, b)
    ensures NoneHiddenBelow(r, Join(a, b))
  {
    if a.Cons? {
      JoinBelow(r, a.rest, b);
    }
  }

  lemma {:induction false} LiftBelow(r: Rules, f: Forest)
    requires NoneHiddenBelow(r, f)
    ensures NoneHiddenBelow(r, LiftAll(r, f))
    decreases Size(f)
  {
    if f.Cons? {
      if Lifts(r, f) {
        JoinBelow(r, f.kids, f.rest);
        LiftBelow(r, Join(f.kids, f.rest));
      } else {
        LiftBelow(r, f.rest);
      }
    }
  }

  /** Finalizing every sibling leaves no entry below them whose children no menu can show. */
  lemma {:induction false} FinalizeAllBelow(r: Rules, f: Forest)
    ensures NoneHiddenBelow(r, FinalizeAll(r, f))
    decreases Size(f), 2
  {
    if f.Cons? {
      FinalizeBelow(r, f);
      FinalizeAllBelow(r, Finalize(r, f).rest);
    }
  }

  lemma {:induction false} FinalizeBelow(r: Rules, f: Forest)
    requires f.Cons?
    ensures NoneHidden(r, Finalize(r, f).kids) && NoneHiddenBelow(r, Finalize(r, f).kids)
    decreases Size(f), 1
  {
    if f.kids.Cons? {
      FinalizeAllBelow(r, f.kids);
      LiftBelow(r, FinalizeAll(r, f.kids));
      LiftNoneHidden(r, FinalizeAll(r, f.kids));
    } else if r.hasSym(f.id) {
      AbsorbBelow(r, f.id, f.rest);
      LiftBelow(r, Absorb(r, f.id, f.rest).0);
      LiftNoneHidden(r, Absorb(r, f.id, f.rest).0);
    }
  }

  lemma {:induction false} AbsorbBelow(r: Rules, p: nat, f: Forest)
    ensures NoneHiddenBelow(r, Absorb(r, p, f).0)
    decreases Size(f), 2
  {
    if f.Cons? && r.pulls(p, f.id) {
      FinalizeBelow(r, f);
      AbsorbBelow(r, p, Finalize(r, f).rest);
    }
  }

  // ---------- What moves, and what stays ----------

  /** Exactly where every entry with children has a prompt is nothing lifted. */
  lemma {:induction false} LiftKept(r: Rules, f: Forest)
    ensures LiftAll(r, f) == f <==> NoneHidden(r, f)
  {
    LiftNoneHidden(r, f);
    if NoneHidden(r, f) {
      LiftsNothing(r, f);
    }
  }

  lemma {:induction false} LiftsNothing(r: Rules, f: Forest)
    requires NoneHidden(r, f)
    ensures LiftAll(r, f) == f
  {
    if f.Cons? {
      LiftsNothing(r, f.rest);
    }
  }

  /** One entry and its children. */
  datatype Entry = Entry(id: nat, kids: Forest)

  /** The entries of the top level, in order. */
  function Level(f: Forest): seq<Entry> {
    if f.Nil? then [] else [Entry(f.id, f.kids)] + Level(f.rest)
  }

  /** What a level should show: entries with a prompt with all their children, and in place of the
      children of the others these themselves, behind their parent. */
  function Shown(r: Rules, f: Forest): seq<Entry> {
    if f.Nil? then []
    else if r.hasPrompt(f.id) then [Entry(f.id, f.kids)] + Shown(r, f.rest)
    else [Entry(f.id, Nil)] + Shown(r, f.kids) + Shown(r, f.rest)
  }

  lemma {:induction false} ShownJoin(r: Rules, a: Forest, b: Forest)
    ensures Shown(r, Join(a, b)) == Shown(r, a) + Shown(r, b)
  {
    if a.Cons? {
      ShownJoin(r, a.rest, b);
    }
  }

  /** Lifting makes exactly that level. */
  lemma {:induction false} LiftExact(r: Rules, f: Forest)
    ensures Level(LiftAll(r, f)) == Shown(r, f)
    decreases Size(f)
  {
    if f.Cons? {
      if Lifts(r, f) {
        LiftExact(r, Join(f.kids, f.rest));
        ShownJoin(r, f.kids, f.rest);
      } else {
        LiftExact(r, f.rest);
      }
    }
  }

  /** An entry with a prompt keeps all its children. */
  lemma {:induction false} PromptKeeps(r: Rules, f: Forest, e: Entry)
    requires e in Level(f) && r.hasPrompt(e.id)
    ensures e in Level(LiftAll(r, f))
  {
    LiftExact(r, f);
    ShowsPrompt(r, f, e);
  }

  lemma {:induction false} ShowsPrompt(r: Rules, f: Forest, e: Entry)
    requires e in Level(f) && r.hasPrompt(e.id)
    ensures e in Shown(r, f)
  {
    if e != Entry(f.id, f.kids) {
      ShowsPrompt(r, f.rest, e);
    }
  }

  /** Which entries of f have no children yet. */
  ghost predicate Leaves(leaf: nat -> bool, f: Forest) {
    f.Cons? ==> (leaf(f.id) <==> f.kids.Nil?) && Leaves(leaf, f.rest)
  }

  /** No entry with a symbol that had no children stands before one that it should have taken. */
  ghost predicate Greedy(r: Rules, leaf: nat -> bool, g: Forest) {
    g.Cons? ==>
      && (g.rest.Cons? && leaf(g.id) && r.hasSym(g.id) ==> !r.pulls(g.id, g.rest.id))
      && Greedy(r, leaf, g.rest)
  }

  /** p takes exactly the next siblings that it pulls, up to the first that it does not. */
  lemma {:induction false} AbsorbExact(r: Rules, p: nat, f: Forest)
    ensures forall e | e in Level(Absorb(r, p, f).0) :: r.pulls(p, e.id)
    ensures Absorb(r, p, f).1.Cons? ==> !r.pulls(p, Absorb(r, p, f).1.id)
    decreases Size(f)
  {
    if f.Cons? && r.pulls(p, f.id) {
      AbsorbExact(r, p, Finalize(r, f).rest);
    }
  }

  /** Only an entry with a symbol and without children takes siblings, and then all that it can. */
  lemma FinalizeRest(r: Rules, f: Forest)
    requires f.Cons?
    ensures f.kids.Cons? || !r.hasSym(f.id) ==> Finalize(r, f).rest == f.rest
    ensures f.kids.Nil? && !r.hasSym(f.id) ==> Finalize(r, f) == f
    ensures f.kids.Nil? && r.hasSym(f.id) && Finalize(r, f).rest.Cons? ==> !r.pulls(f.id, Finalize(r, f).rest.id)
  {
    AbsorbExact(r, f.id, f.rest);
  }

  /** What is left of the siblings is as it was. */
  lemma {:induction false} AbsorbLeaves(r: Rules, leaf: nat -> bool, p: nat, f: Forest)
    requires Leaves(leaf, f)
    ensures Leaves(leaf, Absorb(r, p, f).1)
    decreases Size(f), 1
  {
    if f.Cons? && r.pulls(p, f.id) {
      FinalizeLeaves(r, leaf, f);
      AbsorbLeaves(r, leaf, p, Finalize(r, f).rest);
    }
  }

  lemma {:induction false} FinalizeLeaves(r: Rules, leaf: nat -> bool, f: Forest)
    requires f.Cons? && Leaves(leaf, f)
    ensures Leaves(leaf, Finalize(r, f).rest)
    decreases Size(f), 0
  {
    if f.kids.Nil? && r.hasSym(f.id) {
      AbsorbLeaves(r, leaf, f.id, f.rest);
    }
  }

  /** After the siblings were finalized in turn every one of them has taken all that it can. */
  lemma {:induction false} FinalizeAllGreedy(r: Rules, leaf: nat -> bool, f: Forest)
    requires Leaves(leaf, f)
    ensures Greedy(r, leaf, FinalizeAll(r, f))
    decreases Size(f)
  {
    if f.Cons? {
      FinalizeRest(r, f);
      FinalizeLeaves(r, leaf, f);
      FinalizeAllGreedy(r, leaf, Finalize(r, f).rest);
    }
  }

  /** So have those that one entry takes. */
  lemma {:induction false} AbsorbGreedy(r: Rules, leaf: nat -> bool, p: nat, f: Forest)
    requires Leaves(leaf, f)
    ensures Greedy(r, leaf, Absorb(r, p, f).0)
    ensures Absorb(r, p, f).0.Cons? ==> f.Cons? && Absorb(r, p, f).0.id == f.id
    decreases Size(f)
  {
    if f.Cons? && r.pulls(p, f.id) {
      FinalizeRest(r, f);
      FinalizeLeaves(r, leaf, f);
      AbsorbGreedy(r, leaf, p, Finalize(r, f).rest);
    }
  }

  /** The children of an entry after menu_finalize: its old children or what it pulls, each finalized,
      and then shown. */
  lemma FinalizeShows(r: Rules, leaf: nat -> bool, f: Forest) returns (g: Forest)
    requires f.Cons? && Leaves(leaf, f.kids) && Leaves(leaf, f.rest)
    ensures Level(Finalize(r, f).kids) == Shown(r, g) && Greedy(r, leaf, g)
    ensures f.kids.Cons? ==> Preorder(g) == Preorder(f.kids)
    ensures f.kids.Nil? ==> forall e | e in Level(g) :: r.hasSym(f.id) && r.pulls(f.id, e.id)
  {
    if f.kids.Cons? {
      g := FinalizeAll(r, f.kids);
      FinalizeAllGreedy(r, leaf, f.kids);
      FinalizeAllPreorder(r, f.kids);
      LiftExact(r, g);
    } else if r.hasSym(f.id) {
      g := Absorb(r, f.id, f.rest).0;
      AbsorbGreedy(r, leaf, f.id, f.rest);
      AbsorbExact(r, f.id, f.rest);
      LiftExact(r, g);
    } else {
      g := Nil;
    }
  }
}
