/** The walk over the menu entries in conf_write (scripts/config/confdata.c), which has no
    stack but the parent pointers. */
module MenuWalk {
  import opened MenuForest
  import opened MenuTree

  /** Where the walk is: below root, or below an entry that has later siblings and an entry
      above it in turn. */
  datatype Context = Top(root: nat) | Inside(id: nat, rest: Forest, up: Context)

  function Par(c: Context): nat {
    if c.Top? then c.root else c.id
  }

  /** The entries above are linked as the context says; the root has no parent and no sibling. */
  ghost predicate Above(m: Mem, c: Context) {
    match c
    case Top(root) => Cell(m, root) && m.next[root] == NULL && m.parent[root] == NULL
    case Inside(id, rest, up) =>
      && Cell(m, id) && m.next[id] == Head(rest, NULL) && m.parent[id] == Par(up)
      && Linked(m, rest, Par(up), NULL) && Above(m, up)
  }

  /** The entries of f, and then some. */
  function Before(f: Forest, tail: seq<nat>): seq<nat> {
    match f
    case Nil => tail
    case Cons(id, kids, rest) => [id] + Before(kids, Before(rest, tail))
  }

  lemma {:induction false} BeforeIsPreorder(f: Forest, tail: seq<nat>)
    ensures Before(f, tail) == Preorder(f) + tail
  {
    if f.Cons? {
      BeforeIsPreorder(f.rest, tail);
      BeforeIsPreorder(f.kids, Before(f.rest, tail));
    }
  }

  /** What is left to visit once the current list is done. */
  function Pending(c: Context): seq<nat> {
    match c
    case Top(_) => []
    case Inside(_, rest, up) => Before(rest, Pending(up))
  }

  /** The walk stands before g in context c. */
  ghost predicate Standing(m: Mem, menu: int, g: Forest, c: Context) {
    && menu == Head(g, NULL) && Linked(m, g, Par(c), NULL) && Above(m, c)
    && (g.Nil? ==> Pending(c) == [])
  }

  function Left(g: Forest, c: Context): seq<nat> {
    Before(g, Pending(c))
  }

  lemma Descend(m: Mem, g: Forest, c: Context)
    requires g.Cons? && g.kids.Cons? && Standing(m, g.id, g, c)
    ensures m.list[g.id] == g.kids.id && Standing(m, g.kids.id, g.kids, Inside(g.id, g.rest, c))
    ensures Left(g, c) == [g.id] + Left(g.kids, Inside(g.id, g.rest, c))
  {}

  lemma Onward(m: Mem, g: Forest, c: Context)
    requires g.Cons? && g.kids.Nil? && Standing(m, g.id, g, c)
    ensures m.list[g.id] == NULL && m.parent[g.id] == Par(c)
    ensures g.rest.Cons? ==> m.next[g.id] == g.rest.id && Standing(m, g.rest.id, g.rest, c)
    ensures g.rest.Nil? ==> m.next[g.id] == NULL
    ensures Left(g, c) == [g.id] + Left(g.rest, c)
  {
    assert Before(g.kids, Before(g.rest, Pending(c))) == Before(g.rest, Pending(c));
  }

  lemma VisitedNext(visited: seq<nat>, id: nat, left: seq<nat>)
    ensures visited + ([id] + left) == (visited + [id]) + left
  {}

  /** The inner loop: up to an entry with a later sibling. */
  method Climb(t: Menus, start: nat, ghost c0: Context) returns (menu: int, ghost g: Forest, ghost c: Context)
    requires Cell(t.M(), start) && t.parent[start] == Par(c0) && Above(t.M(), c0)
    ensures Standing(t.M(), menu, g, c) && Left(g, c) == Pending(c0)
  {
    menu := t.parent[start];
    g, c := Nil, c0;
    while menu != NULL
      invariant Above(t.M(), c) && Pending(c) == Pending(c0)
      invariant menu == Par(c) || (menu == NULL && c.Top?)
      decreases c, menu != NULL
    {
      if t.next[menu] != NULL {
        menu := t.next[menu];
        g, c := c.rest, c.up;
        return;
      }
      menu := t.parent[menu];
      if c.Inside? {
        c := c.up;
      }
    }
  }

  /** From one entry to the next. */
  method Onwards(t: Menus, menu0: nat, ghost g0: Forest, ghost c0: Context)
      returns (menu: int, ghost g: Forest, ghost c: Context)
    requires g0.Cons? && menu0 == g0.id && Standing(t.M(), menu0, g0, c0)
    ensures Standing(t.M(), menu, g, c) && Left(g0, c0) == [menu0] + Left(g, c)
  {
    if t.list[menu0] != NULL {
      Descend(t.M(), g0, c0);
      menu := t.list[menu0];
      g, c := g0.kids, Inside(g0.id, g0.rest, c0);
      return;
    }
    Onward(t.M(), g0, c0);
    if t.next[menu0] != NULL {
      menu := t.next[menu0];
      g, c := g0.rest, c0;
    } else {
      menu, g, c := Climb(t, menu0, c0);
    }
  }

  /** The loop of conf_write, from root's list: every entry below root is visited, in order. */
  method Walk(t: Menus, root: nat, ghost f: Forest) returns (visited: seq<nat>)
    requires Linked(t.M(), Cons(root, f, Nil), NULL, NULL)
    ensures visited == Preorder(f)
  {
    visited := [];
    var menu := t.list[root];
    ghost var g, c := f, Top(root);
    BeforeIsPreorder(f, []);
    while menu != NULL
      invariant Standing(t.M(), menu, g, c)
      invariant visited + Left(g, c) == Preorder(f)
      decreases |Left(g, c)|
    {
      ghost var (before, id) := (visited, menu);
      visited := visited + [menu];
      menu, g, c := Onwards(t, menu, g, c);
      VisitedNext(before, id, Left(g, c));
    }
  }

  /** menu_finalize on the root, then the walk: the entries are written in the order in which
      they stood before, each once. */
  method FinalizeAndWalk(t: Menus, root: nat, ghost f: Forest) returns (visited: seq<nat>)
    requires Linked(t.M(), Cons(root, f, Nil), NULL, NULL) && Distinct(Cons(root, f, Nil))
    modifies t
    ensures visited == Preorder(f) && NoRepeats(visited)
    ensures exists g: Forest :: Linked(t.M(), Cons(root, g, Nil), NULL, NULL) && NoneHidden(t.rules, g)
                                && NoneHiddenBelow(t.rules, g)
  {
    ghost var whole := Cons(root, f, Nil);
    t.Finalize(root, whole, NULL);
    ghost var after := Finalize(t.rules, whole);
    FinalizePreorder(t.rules, whole);
    FinalizeBelow(t.rules, whole);
    RootAlone(t.rules, whole);
    DistinctPreorder(f);
    assert after == Cons(root, after.kids, Nil);
    visited := Walk(t, root, after.kids);
    assert Preorder(whole)[1..] == Preorder(f) && Preorder(after)[1..] == Preorder(after.kids);
  }

  /** An entry without later siblings has none afterwards. */
  lemma RootAlone(r: Rules, f: Forest)
    requires f.Cons? && f.rest.Nil?
    ensures Finalize(r, f).rest.Nil?
  {}
}
