/** expr_eliminate_dups1 and expr_eliminate_dups (scripts/config/expr.c) on nodes in memory: two
    slots point into one spine, whose operands are freed and replaced while it is walked. */
module ExprHeapDups {
  import opened Options
  import opened KconfigExpr
  import opened ExprEquality
  import opened ExprCanonical
  import ExprTransform
  import opened ExprJoin
  import opened ExprSpine
  import opened ExprHeap
  import Dups = ExprDups

  // ---------- Slots ----------

  /** A `struct expr **`: a variable that points to id, or a field of node id. */
  datatype Slot = Var(id: nat) | LeftOf(id: nat) | RightOf(id: nat)

  ghost predicate Loadable(c: seq<Cell>, s: Slot) {
    s.Var? || (s.id < |c| && c[s.id].BinCell?)
  }

  function Load(c: seq<Cell>, s: Slot): nat
    requires Loadable(c, s)
  {
    match s
    case Var(id) => id
    case LeftOf(id) => c[id].left
    case RightOf(id) => c[id].right
  }

  /** The node of the slot, pointing to v. */
  function Redirected(x: Cell, s: Slot, v: nat): Cell
    requires x.BinCell?
  {
    if s.LeftOf? then x.(left := v) else x.(right := v)
  }

  /** The nodes below path p of a spine. */
  function SpotAt(sp: Spot, p: Path): Spot {
    if p == [] || !sp.Two? then sp else SpotAt(if p[0].L? then sp.left else sp.right, p[1..])
  }

  /** The slot there; root is the slot of the whole spine. */
  function SlotAt(sp: Spot, root: Slot, p: Path): Slot {
    if p == [] || !sp.Two? then root
    else if p[0].L? then SlotAt(sp.left, LeftOf(sp.id), p[1..])
    else SlotAt(sp.right, RightOf(sp.id), p[1..])
  }

  function PutSpot(sp: Spot, p: Path, t: Spot): Spot {
    if p == [] || !sp.Two? then t
    else if p[0].L? then Two(sp.id, PutSpot(sp.left, p[1..], t), sp.right)
    else Two(sp.id, sp.left, PutSpot(sp.right, p[1..], t))
  }

  /** The slot points to the expression and is not part of it. */
  ghost predicate Points(c: seq<Cell>, s: Slot, sp: Spot) {
    Loadable(c, s) && Load(c, s) == sp.id && (s.Var? || s.id !in Ids(sp))
  }

  /** The slot at a path points to what is there; below the root it is a field of a spine node. */
  lemma {:induction false} AtSlot(c: seq<Cell>, op: BinOp, sp: Spot, e: Expr, root: Slot, p: Path)
    requires Owned(c, sp, e) && Points(c, root, sp) && InShape(ShapeOf(op, e), p)
    ensures Owned(c, SpotAt(sp, p), Get(op, e, p)) && Ids(SpotAt(sp, p)) <= Ids(sp)
    ensures Points(c, SlotAt(sp, root, p), SpotAt(sp, p))
    ensures p != [] ==> !SlotAt(sp, root, p).Var? && SlotAt(sp, root, p).id in Ids(sp)
  {
    if p != [] {
      if p[0].L? {
        AtSlot(c, op, sp.left, e.left, LeftOf(sp.id), p[1..]);
      } else {
        AtSlot(c, op, sp.right, e.right, RightOf(sp.id), p[1..]);
      }
    }
  }

  /** The two slots of the spine node at a path. */
  lemma {:induction false} StepDown(op: BinOp, c: seq<Cell>, sp: Spot, e: Expr, root: Slot, p: Path, d: Dir)
    requires Owned(c, sp, e) && InShape(ShapeOf(op, e), p) && SubShape(ShapeOf(op, e), p).Fork?
    ensures SlotAt(sp, root, p + [d]) == if d.L? then LeftOf(SpotAt(sp, p).id) else RightOf(SpotAt(sp, p).id)
  {
    if p == [] {
      assert [d][1..] == [];
    } else {
      assert (p + [d])[1..] == p[1..] + [d];
      if p[0].L? {
        StepDown(op, c, sp.left, e.left, LeftOf(sp.id), p[1..], d);
      } else {
        StepDown(op, c, sp.right, e.right, RightOf(sp.id), p[1..], d);
      }
    }
  }

  /** Two operands in the same node are the same operand. */
  lemma {:induction false} SameNode(op: BinOp, c: seq<Cell>, sp: Spot, e: Expr, p: Path, q: Path)
    requires Owned(c, sp, e) && IsTip(ShapeOf(op, e), p) && IsTip(ShapeOf(op, e), q)
    ensures SpotAt(sp, p).id == SpotAt(sp, q).id <==> p == q
  {
    if p != [] && q != [] {
      assert p == [p[0]] + p[1..] && q == [q[0]] + q[1..];
      AtChild(op, c, sp, e, p);
      AtChild(op, c, sp, e, q);
      if p[0] == q[0] {
        SameNode(op, c, if p[0].L? then sp.left else sp.right, if p[0].L? then e.left else e.right, p[1..], q[1..]);
      }
    }
  }

  lemma AtChild(op: BinOp, c: seq<Cell>, sp: Spot, e: Expr, p: Path)
    requires Owned(c, sp, e) && InShape(ShapeOf(op, e), p) && p != []
    ensures SpotAt(sp, p).id in Ids(if p[0].L? then sp.left else sp.right)
  {
    if p[0].L? {
      AtSlot(c, op, sp.left, e.left, LeftOf(sp.id), p[1..]);
    } else {
      AtSlot(c, op, sp.right, e.right, RightOf(sp.id), p[1..]);
    }
    assert SpotAt(sp, p).id in Ids(SpotAt(sp, p));
  }

  // ---------- What stays ----------

  /** The spine nodes are the same ones. */
  ghost predicate SpineKept(s: Shape, sp: Spot, sp': Spot) {
    s.Fork? ==>
      && sp.Two? && sp'.Two? && sp'.id == sp.id
      && SpineKept(s.left, sp.left, sp'.left) && SpineKept(s.right, sp.right, sp'.right)
  }

  lemma {:induction false} SpineKeptOn(s: Shape, a: Spot, b: Spot, d: Spot)
    requires SpineKept(s, a, b) && SpineKept(s, b, d)
    ensures SpineKept(s, a, d)
  {
    if s.Fork? {
      SpineKeptOn(s.left, a.left, b.left, d.left);
      SpineKeptOn(s.right, a.right, b.right, d.right);
    }
  }

  lemma {:induction false} SpineSame(op: BinOp, c: seq<Cell>, sp: Spot, e: Expr)
    requires Owned(c, sp, e)
    ensures SpineKept(ShapeOf(op, e), sp, sp)
  {
    if IsOp(op, e) {
      SpineSame(op, c, sp.left, e.left);
      SpineSame(op, c, sp.right, e.right);
    }
  }

  /** So are the slots. */
  lemma {:induction false} SlotsKept(s: Shape, sp: Spot, sp': Spot, root: Slot, p: Path)
    requires SpineKept(s, sp, sp') && InShape(s, p)
    ensures SlotAt(sp', root, p) == SlotAt(sp, root, p)
  {
    if p != [] {
      if p[0].L? {
        SlotsKept(s.left, sp.left, sp'.left, LeftOf(sp.id), p[1..]);
      } else {
        SlotsKept(s.right, sp.right, sp'.right, RightOf(sp.id), p[1..]);
      }
    }
  }

  /** sp' holds e' where sp held e: with the same spine in the same nodes, otherwise in nodes of
      sp or new ones, and no other node changed. */
  ghost predicate Rewritten(c: seq<Cell>, c': seq<Cell>, op: BinOp, sp: Spot, e: Expr, sp': Spot, e': Expr) {
    && Owned(c', sp', e') && sp'.id == sp.id && ShapeOf(op, e') == ShapeOf(op, e)
    && SpineKept(ShapeOf(op, e), sp, sp')
    && From(sp', Ids(sp), |c|) && Outside(c, c', Ids(sp))
  }

  lemma Unchanged(c: seq<Cell>, op: BinOp, sp: Spot, e: Expr)
    requires Owned(c, sp, e)
    ensures Rewritten(c, c, op, sp, e, sp, e)
  {
    SpineSame(op, c, sp, e);
  }

  lemma RewrittenInTurn(c: seq<Cell>, c1: seq<Cell>, c2: seq<Cell>, op: BinOp, sp: Spot, e: Expr, s1: Spot, e1: Expr,
                        s2: Spot, e2: Expr)
    requires Rewritten(c, c1, op, sp, e, s1, e1) && Rewritten(c1, c2, op, s1, e1, s2, e2)
    ensures Rewritten(c, c2, op, sp, e, s2, e2)
  {
    SpineKeptOn(ShapeOf(op, e), sp, s1, s2);
    OutsideNext(c, c1, c2, Ids(sp), Ids(s1));
  }

  /** Two slots into one spine. */
  ghost predicate Slots(c: seq<Cell>, op: BinOp, sp: Spot, e: Expr, root: Slot, s1: Slot, p: Path, s2: Slot, q: Path) {
    && Owned(c, sp, e) && Points(c, root, sp)
    && InShape(ShapeOf(op, e), p) && InShape(ShapeOf(op, e), q)
    && s1 == SlotAt(sp, root, p) && s2 == SlotAt(sp, root, q)
  }

  /** They are still good after a rewriting. */
  lemma SlotsGood(c: seq<Cell>, c': seq<Cell>, op: BinOp, sp: Spot, e: Expr, sp': Spot, e': Expr, root: Slot,
                  s1: Slot, p: Path, s2: Slot, q: Path)
    requires Slots(c, op, sp, e, root, s1, p, s2, q) && Rewritten(c, c', op, sp, e, sp', e')
    ensures Slots(c', op, sp', e', root, s1, p, s2, q)
  {
    SlotsKept(ShapeOf(op, e), sp, sp', root, p);
    SlotsKept(ShapeOf(op, e), sp, sp', root, q);
  }

  // ---------- Replacing one operand ----------

  /** Of the nodes before, only those in ids and the slot's own may have changed, which now
      points to v. */
  ghost predicate Swapped(c: seq<Cell>, c': seq<Cell>, s: Slot, v: nat, ids: set<nat>)
    requires Loadable(c, s) && !s.Var?
  {
    && |c| <= |c'|
    && (s.id !in ids ==> c'[s.id] == Redirected(c[s.id], s, v))
    && forall i: nat | i < |c| && i !in ids && i != s.id :: c'[i] == c[i]
  }

  lemma {:induction false} PutIds(op: BinOp, c: seq<Cell>, sp: Spot, e: Expr, p: Path, t: Spot)
    requires Owned(c, sp, e) && InShape(ShapeOf(op, e), p)
    ensures Ids(SpotAt(sp, p)) <= Ids(sp)
    ensures forall i | i in Ids(PutSpot(sp, p, t)) :: i in Ids(t) || (i in Ids(sp) && i !in Ids(SpotAt(sp, p)))
  {
    if p != [] {
      if p[0].L? {
        PutIds(op, c, sp.left, e.left, p[1..], t);
      } else {
        PutIds(op, c, sp.right, e.right, p[1..], t);
      }
    }
  }

  lemma {:induction false} SpinePut(op: BinOp, c: seq<Cell>, sp: Spot, e: Expr, p: Path, t: Spot)
    requires Owned(c, sp, e) && IsTip(ShapeOf(op, e), p)
    ensures SpineKept(ShapeOf(op, e), sp, PutSpot(sp, p, t))
  {
    if p != [] {
      if p[0].L? {
        SpinePut(op, c, sp.left, e.left, p[1..], t);
        SpineSame(op, c, sp.right, e.right);
      } else {
        SpinePut(op, c, sp.right, e.right, p[1..], t);
        SpineSame(op, c, sp.left, e.left);
      }
    }
  }

  /** The operand at p is now t, in nodes of its own. */
  lemma {:induction false} Replaced(c: seq<Cell>, c': seq<Cell>, op: BinOp, sp: Spot, e: Expr, root: Slot, p: Path,
                                    t: Spot, x: Expr)
    requires Owned(c, sp, e) && Points(c, root, sp) && InShape(ShapeOf(op, e), p) && p != []
    requires Loadable(c, SlotAt(sp, root, p)) && !SlotAt(sp, root, p).Var?
    requires Owned(c', t, x) && Swapped(c, c', SlotAt(sp, root, p), t.id, Ids(SpotAt(sp, p)))
    requires forall i | i in Ids(t) :: i in Ids(SpotAt(sp, p)) || i !in Ids(sp)
    ensures Owned(c', PutSpot(sp, p, t), Put(op, e, p, x)) && PutSpot(sp, p, t).id == sp.id
    decreases p
  {
    var s := SlotAt(sp, root, p);
    var changed := Ids(SpotAt(sp, p)) + {s.id};
    AtSlot(c, op, sp, e, root, p);
    HoldsBelow(c, sp, e);
    if p[0].L? {
      AtSlot(c, op, sp.left, e.left, LeftOf(sp.id), p[1..]);
      if p[1..] != [] {
        Replaced(c, c', op, sp.left, e.left, LeftOf(sp.id), p[1..], t, x);
      }
      HoldsOutside(c, c', changed, sp.right, e.right);
      PutIds(op, c, sp.left, e.left, p[1..], t);
    } else {
      AtSlot(c, op, sp.right, e.right, RightOf(sp.id), p[1..]);
      if p[1..] != [] {
        Replaced(c, c', op, sp.right, e.right, RightOf(sp.id), p[1..], t, x);
      }
      HoldsOutside(c, c', changed, sp.left, e.left);
      PutIds(op, c, sp.right, e.right, p[1..], t);
    }
  }

  // ---------- Joining two operands ----------

  /** A node as far down as the joins look: to the symbol or comparison under a NOT. */
  function Look(c: seq<Cell>, id: nat): Expr
    requires id < |c|
  {
    match c[id]
    case SymCell(s) => Sym(s)
    case CmpCell(rel, l, r) => Cmp(rel, l, r)
    case NotCell(x) => if x < |c| then Not(LookBelow(c[x])) else Not(Deep())
    case BinCell(_, _, _) => Deep()
  }

  function LookBelow(x: Cell): Expr {
    match x
    case SymCell(s) => Sym(s)
    case CmpCell(rel, l, r) => Cmp(rel, l, r)
    case _ => Deep()
  }

  /** Something that does not join. */
  function Deep(): Expr {
    Bin(OrOp, Sym(SYM_NO), Sym(SYM_NO))
  }

  /** Looking so far is enough. */
  lemma LookEnough(c: seq<Cell>, op: BinOp, sp1: Spot, e1: Expr, sp2: Spot, e2: Expr)
    requires Owned(c, sp1, e1) && Owned(c, sp2, e2)
    ensures JoinUnequal(op, Look(c, sp1.id), Look(c, sp2.id)) == JoinUnequal(op, e1, e2)
  {
    LookAs(c, sp1, e1);
    LookAs(c, sp2, e2);
    assert SharedSymbol(Look(c, sp1.id), Look(c, sp2.id)) == SharedSymbol(e1, e2);
  }

  lemma LookAs(c: seq<Cell>, sp: Spot, e: Expr)
    requires Owned(c, sp, e)
    ensures var a := Look(c, sp.id);
      && (e.Sym? || e.Cmp? ==> a == e) && (e.Bin? ==> a.Bin?) && (e.Not? ==> a.Not?)
      && (e.Not? && (e.e.Sym? || e.e.Cmp?) ==> a == e) && (e.Not? && (e.e.Not? || e.e.Bin?) ==> a.e.Bin?)
  {
    if e.Not? {
      assert Owned(c, sp.child, e.e);
    }
  }

  /** expr_join_or and expr_join_and: the result is all in new nodes, and no node changes. */
  method JoinNodes(t: Nodes, op: BinOp, id1: nat, id2: nat, ghost sp1: Spot, ghost e1: Expr, ghost sp2: Spot,
                   ghost e2: Expr) returns (r: Option<nat>, ghost spr: Spot)
    requires Owned(t.cell, sp1, e1) && Owned(t.cell, sp2, e2) && id1 == sp1.id && id2 == sp2.id
    modifies t
    ensures Outside(old(t.cell), t.cell, {}) && (r.Some? <==> Join(op, e1, e2).Some?)
    ensures r.Some? ==> Owned(t.cell, spr, Join(op, e1, e2).value) && spr.id == r.value
                        && From(spr, {}, old(|t.cell|))
  {
    ghost var c0 := t.cell;
    var equal := t.ExprEq(id1, id2, sp1, e1, sp2, e2);
    HoldsOutside(c0, t.cell, {}, sp1, e1);
    HoldsOutside(c0, t.cell, {}, sp2, e2);
    r, spr := None, sp1;
    if equal {
      var id;
      id, spr := t.Copy(id1, sp1, e1);
      r := Some(id);
      return;
    }
    LookEnough(t.cell, op, sp1, e1, sp2, e2);
    match JoinUnequal(op, Look(t.cell, id1), Look(t.cell, id2))
    case Some(Sym(s)) =>
      var id := t.Alloc(SymCell(s));
      r, spr := Some(id), Spot.Tip(id);
    case Some(Cmp(rel, x, y)) =>
      var id := t.Alloc(CmpCell(rel, x, y));
      r, spr := Some(id), Spot.Tip(id);
    case _ =>
  }

  /** The other operands are where they were. */
  lemma {:induction false} SpotOther(op: BinOp, c: seq<Cell>, sp: Spot, e: Expr, p: Path, t: Spot, q: Path)
    requires Owned(c, sp, e) && IsTip(ShapeOf(op, e), p) && IsTip(ShapeOf(op, e), q) && p != q
    ensures SpotAt(PutSpot(sp, p, t), q) == SpotAt(sp, q)
  {
    if p != [] && q != [] {
      assert p == [p[0]] + p[1..] && q == [q[0]] + q[1..];
      if p[0] == q[0] {
        SpotOther(op, c, if p[0].L? then sp.left else sp.right, if p[0].L? then e.left else e.right, p[1..], t, q[1..]);
      }
    }
  }

  /** One operand was replaced by one in new nodes. */
  lemma NewOperand(c: seq<Cell>, c1: seq<Cell>, c2: seq<Cell>, op: BinOp, sp: Spot, e: Expr, root: Slot, s: Slot,
                   p: Path, t: Spot, x: Expr)
    requires Owned(c, sp, e) && Points(c, root, sp) && IsTip(ShapeOf(op, e), p) && p != [] && s == SlotAt(sp, root, p)
    requires Outside(c, c1, {}) && Owned(c1, t, x) && (forall i | i in Ids(t) :: i !in Ids(sp)) && !IsOp(op, x)
    requires s.id < |c1| && c1[s.id].BinCell? && c2 == c1[s.id := Redirected(c1[s.id], s, t.id)]
    ensures var (sp', e') := (PutSpot(sp, p, t), Put(op, e, p, x));
      && Owned(c2, sp', e') && sp'.id == sp.id && ShapeOf(op, e') == ShapeOf(op, e)
      && SpineKept(ShapeOf(op, e), sp, sp') && Outside(c, c2, Ids(sp))
      && forall i | i in Ids(sp') :: i in Ids(t) || (i in Ids(sp) && i !in Ids(SpotAt(sp, p)))
  {
    AtSlot(c, op, sp, e, root, p);
    HoldsBelow(c, sp, e);
    HoldsOutside(c1, c2, {s.id}, t, x);
    Replaced(c, c2, op, sp, e, root, p, t, x);
    PutIds(op, c, sp, e, p, t);
    SpinePut(op, c, sp, e, p, t);
    PutSlot(op, e, p, x);
  }

  lemma SlotNode(c: seq<Cell>, c': seq<Cell>, op: BinOp, sp: Spot, e: Expr, root: Slot, p: Path)
    requires Owned(c, sp, e) && Points(c, root, sp) && InShape(ShapeOf(op, e), p) && p != [] && Outside(c, c', {})
    ensures var s := SlotAt(sp, root, p);
      !s.Var? && s.id in Ids(sp) && s.id < |c| && c'[s.id] == c[s.id] && c[s.id].BinCell?
  {
    AtSlot(c, op, sp, e, root, p);
    HoldsBelow(c, sp, e);
  }

  /** None of the nodes of freed is in sp. */
  ghost predicate Unused(sp: Spot, freed: Spot) {
    forall i | i in Ids(sp) :: i !in Ids(freed)
  }

  /** The tree after both slots were written. */
  function JoinedSpot(sp: Spot, p: Path, q: Path, n: nat, spr: Spot): Spot {
    PutSpot(PutSpot(sp, p, Spot.Tip(n)), q, spr)
  }

  function JoinedExpr(op: BinOp, e: Expr, p: Path, q: Path, x: Expr): Expr
    requires IsTip(ShapeOf(op, e), p) && IsTip(ShapeOf(op, e), q) && p != q
  {
    PutOther(op, e, p, Sym(Neutral(op)), q);
    Put(op, Put(op, e, p, Sym(Neutral(op))), q, x)
  }

  /** After the first write. */
  lemma BlankAt(c0: seq<Cell>, c1: seq<Cell>, c2: seq<Cell>, op: BinOp, sp: Spot, e: Expr, root: Slot,
                s1: Slot, p: Path, s2: Slot, q: Path, n: nat, spr: Spot, x: Expr)
    requires Slots(c0, op, sp, e, root, s1, p, s2, q) && IsTip(ShapeOf(op, e), p) && IsTip(ShapeOf(op, e), q) && p != q
    requires Outside(c0, c1, {}) && |c1| == n + 1 && |c0| <= n && c1[n] == SymCell(Neutral(op)) && p != [] && q != []
    requires s1.id < |c1| && c1[s1.id].BinCell? && c2 == c1[s1.id := Redirected(c1[s1.id], s1, n)]
    requires Owned(c1, spr, x) && From(spr, {}, |c0|)
    ensures Owned(c2, spr, x)
    ensures var (sp1, e1) := (PutSpot(sp, p, Spot.Tip(n)), Put(op, e, p, Sym(Neutral(op))));
      && Owned(c2, sp1, e1) && sp1.id == sp.id && ShapeOf(op, e1) == ShapeOf(op, e)
      && SpineKept(ShapeOf(op, e), sp, sp1)
      && Points(c2, root, sp1) && s2 == SlotAt(sp1, root, q) && SpotAt(sp1, q) == SpotAt(sp, q)
      && Outside(c0, c2, Ids(sp)) && s1.id in Ids(sp)
      && forall i | i in Ids(sp1) :: i == n || (i in Ids(sp) && i !in Ids(SpotAt(sp, p)))
  {
    HoldsBelow(c0, sp, e);
    NewOperand(c0, c1, c2, op, sp, e, root, s1, p, Spot.Tip(n), Sym(Neutral(op)));
    SlotsKept(ShapeOf(op, e), sp, PutSpot(sp, p, Spot.Tip(n)), root, q);
    SpotOther(op, c0, sp, e, p, Spot.Tip(n), q);
    SlotNode(c0, c1, op, sp, e, root, p);
    KeptAway(c1, c2, s1.id, Redirected(c1[s1.id], s1, n), spr, x, |c0|);
  }

  /** After both. */
  lemma JoinedAt(c0: seq<Cell>, c1: seq<Cell>, c2: seq<Cell>, c3: seq<Cell>, op: BinOp, sp: Spot, e: Expr, root: Slot,
                 s1: Slot, p: Path, s2: Slot, q: Path, n: nat, spr: Spot, x: Expr)
    requires Slots(c0, op, sp, e, root, s1, p, s2, q) && IsTip(ShapeOf(op, e), p) && IsTip(ShapeOf(op, e), q) && p != q
    requires Outside(c0, c1, {}) && |c1| == n + 1 && |c0| <= n && c1[n] == SymCell(Neutral(op)) && p != [] && q != []
    requires Owned(c1, spr, x) && !IsOp(op, x) && From(spr, {}, |c0|) && n !in Ids(spr)
    requires s1.id < |c1| && c1[s1.id].BinCell? && c2 == c1[s1.id := Redirected(c1[s1.id], s1, n)]
    requires s2.id < |c1| && c2[s2.id].BinCell? && c3 == c2[s2.id := Redirected(c2[s2.id], s2, spr.id)]
    ensures Rewritten(c0, c3, op, sp, e, JoinedSpot(sp, p, q, n, spr), JoinedExpr(op, e, p, q, x))
  {
    var (sp1, e1) := (PutSpot(sp, p, Spot.Tip(n)), Put(op, e, p, Sym(Neutral(op))));
    HoldsBelow(c0, sp, e);
    BlankAt(c0, c1, c2, op, sp, e, root, s1, p, s2, q, n, spr, x);
    SecondAt(c0, c2, c3, op, sp, e, sp1, e1, root, s2, q, n, spr, x);
  }

  /** The nodes of neither operand are left. */
  lemma BothUnused(op: BinOp, c0: seq<Cell>, sp: Spot, e: Expr, p: Path, q: Path, n: nat, spr: Spot, c2: seq<Cell>,
                   sp1: Spot, e1: Expr)
    requires Owned(c0, sp, e) && IsTip(ShapeOf(op, e), p) && IsTip(ShapeOf(op, e), q) && p != q && |c0| <= n
    requires From(spr, {}, |c0|) && sp1 == PutSpot(sp, p, Spot.Tip(n))
    requires Owned(c2, sp1, e1) && ShapeOf(op, e1) == ShapeOf(op, e)
    ensures var sp' := JoinedSpot(sp, p, q, n, spr); Unused(sp', SpotAt(sp, p)) && Unused(sp', SpotAt(sp, q))
  {
    HoldsBelow(c0, sp, e);
    SpotOther(op, c0, sp, e, p, Spot.Tip(n), q);
    PutIds(op, c0, sp, e, p, Spot.Tip(n));
    PutIds(op, c0, sp, e, q, spr);
    PutIds(op, c2, sp1, e1, q, spr);
  }

  lemma KeptAway(c: seq<Cell>, c': seq<Cell>, id: nat, v: Cell, sp: Spot, e: Expr, limit: nat)
    requires Owned(c, sp, e) && From(sp, {}, limit) && id < limit && id < |c| && c' == c[id := v]
    ensures Owned(c', sp, e)
  {
    HoldsOutside(c, c', {id}, sp, e);
  }

  /** The second write, and what both did. */
  lemma SecondAt(c0: seq<Cell>, c2: seq<Cell>, c3: seq<Cell>, op: BinOp, sp: Spot, e: Expr, sp1: Spot, e1: Expr,
                 root: Slot, s2: Slot, q: Path, n: nat, spr: Spot, x: Expr)
    requires Owned(c2, sp1, e1) && sp1.id == sp.id && ShapeOf(op, e1) == ShapeOf(op, e)
    requires SpineKept(ShapeOf(op, e), sp, sp1) && Points(c2, root, sp1) && s2 == SlotAt(sp1, root, q)
    requires Outside(c0, c2, Ids(sp)) && |c0| <= n && forall i | i in Ids(sp1) :: i == n || i in Ids(sp)
    requires IsTip(ShapeOf(op, e), q) && q != [] && Owned(c2, spr, x) && !IsOp(op, x)
    requires From(spr, {}, |c0|) && n !in Ids(spr) && forall i | i in Ids(sp) :: i < |c0|
    requires s2.id < |c2| && c2[s2.id].BinCell? && c3 == c2[s2.id := Redirected(c2[s2.id], s2, spr.id)]
    ensures Rewritten(c0, c3, op, sp, e, PutSpot(sp1, q, spr), Put(op, e1, q, x))
  {
    NewOperand(c2, c2, c3, op, sp1, e1, root, s2, q, spr, x);
    SpineKeptOn(ShapeOf(op, e), sp, sp1, PutSpot(sp1, q, spr));
    OutsideNext(c0, c2, c3, Ids(sp), Ids(sp1));
  }

  // ---------- The passes ----------

  method Store(t: Nodes, s: Slot, v: nat)
    requires Loadable(t.cell, s) && !s.Var?
    modifies t
    ensures t.cell == old(t.cell)[s.id := Redirected(old(t.cell)[s.id], s, v)]
  {
    t.cell := t.cell[s.id := if s.LeftOf? then t.cell[s.id].(left := v) else t.cell[s.id].(right := v)];
  }

  /** What a pass over two slots guarantees. */
  ghost predicate Done(c: seq<Cell>, c': seq<Cell>, op: BinOp, sp: Spot, e: Expr, count: nat, sp': Spot, e': Expr,
                       count': nat) {
    Rewritten(c, c', op, sp, e, sp', e') && Dups.Passed(op, e, count, e', count')
  }

  /** expr_eliminate_dups1, reading its operands through the slots. */
  method EliminateDups1(t: Nodes, op: BinOp, s1: Slot, s2: Slot, count: nat, ghost root: Slot, ghost sp: Spot,
                        ghost e: Expr, ghost p: Path, ghost q: Path)
      returns (count': nat, ghost sp': Spot, ghost e': Expr)
    requires Slots(t.cell, op, sp, e, root, s1, p, s2, q)
    modifies t
    ensures Done(old(t.cell), t.cell, op, sp, e, count, sp', e', count')
    ensures count == count' ==> Dups.PairsSettled(op, e, p, q)
    decreases Size(e), Forks(SubShape(ShapeOf(op, e), p)) + Forks(SubShape(ShapeOf(op, e), q)), 3
  {
    AtSlot(t.cell, op, sp, e, root, p);
    AtSlot(t.cell, op, sp, e, root, q);
    var (id1, id2) := (Load(t.cell, s1), Load(t.cell, s2));
    if t.cell[id1].BinCell? && t.cell[id1].op == op {
      count', sp', e' := FirstBelow(t, op, id1, s1, s2, count, root, sp, e, p, q);
    } else if t.cell[id2].BinCell? && t.cell[id2].op == op {
      count', sp', e' := SecondBelow(t, op, id2, s1, s2, count, root, sp, e, p, q);
    } else if id1 == id2 {
      SameNode(op, t.cell, sp, e, p, q);
      Dups.OnePair(op, e, p, q);
      Unchanged(t.cell, op, sp, e);
      count', sp', e' := count, sp, e;
    } else {
      SameNode(op, t.cell, sp, e, p, q);
      count', sp', e' := OnePair(t, op, s1, s2, count, root, sp, e, p, q);
    }
  }

  /** The first slot holds an op: both its sides. */
  method FirstBelow(t: Nodes, op: BinOp, id: nat, s1: Slot, s2: Slot, count: nat, ghost root: Slot, ghost sp: Spot,
                    ghost e: Expr, ghost p: Path, ghost q: Path)
      returns (count': nat, ghost sp': Spot, ghost e': Expr)
    requires Slots(t.cell, op, sp, e, root, s1, p, s2, q) && id == SpotAt(sp, p).id && IsOp(op, Get(op, e, p))
    modifies t
    ensures Done(old(t.cell), t.cell, op, sp, e, count, sp', e', count')
    ensures count == count' ==> Dups.PairsSettled(op, e, p, q)
    decreases Size(e), Forks(SubShape(ShapeOf(op, e), p)) + Forks(SubShape(ShapeOf(op, e), q)), 2
  {
    ghost var c0 := t.cell;
    Extend(ShapeOf(op, e), p, L);
    Extend(ShapeOf(op, e), p, R);
    StepDown(op, c0, sp, e, root, p, L);
    StepDown(op, c0, sp, e, root, p, R);
    var n;
    ghost var sp1, e1;
    n, sp1, e1 := EliminateDups1(t, op, LeftOf(id), s2, count, root, sp, e, p + [L], q);
    ghost var c1 := t.cell;
    SlotsGood(c0, c1, op, sp, e, sp1, e1, root, RightOf(id), p + [R], s2, q);
    count', sp', e' := EliminateDups1(t, op, RightOf(id), s2, n, root, sp1, e1, p + [R], q);
    RewrittenInTurn(c0, c1, t.cell, op, sp, e, sp1, e1, sp', e');
    Dups.PassedInTurn(op, e, count, e1, n, e', count');
    if count == count' {
      Dups.BothSides(op, e, p, q);
    }
  }

  /** Only the second one does. */
  method SecondBelow(t: Nodes, op: BinOp, id: nat, s1: Slot, s2: Slot, count: nat, ghost root: Slot, ghost sp: Spot,
                     ghost e: Expr, ghost p: Path, ghost q: Path)
      returns (count': nat, ghost sp': Spot, ghost e': Expr)
    requires Slots(t.cell, op, sp, e, root, s1, p, s2, q) && id == SpotAt(sp, q).id && IsOp(op, Get(op, e, q))
    modifies t
    ensures Done(old(t.cell), t.cell, op, sp, e, count, sp', e', count')
    ensures count == count' ==> Dups.PairsSettled(op, e, p, q)
    decreases Size(e), Forks(SubShape(ShapeOf(op, e), p)) + Forks(SubShape(ShapeOf(op, e), q)), 2
  {
    ghost var c0 := t.cell;
    Extend(ShapeOf(op, e), q, L);
    Extend(ShapeOf(op, e), q, R);
    StepDown(op, c0, sp, e, root, q, L);
    StepDown(op, c0, sp, e, root, q, R);
    var n;
    ghost var sp1, e1;
    n, sp1, e1 := EliminateDups1(t, op, s1, LeftOf(id), count, root, sp, e, p, q + [L]);
    ghost var c1 := t.cell;
    SlotsGood(c0, c1, op, sp, e, sp1, e1, root, s1, p, RightOf(id), q + [R]);
    count', sp', e' := EliminateDups1(t, op, s1, RightOf(id), n, root, sp1, e1, p, q + [R]);
    RewrittenInTurn(c0, c1, t.cell, op, sp, e, sp1, e1, sp', e');
    Dups.PassedInTurn(op, e, count, e1, n, e', count');
    if count == count' {
      Dups.BothSidesSecond(op, e, p, q);
    }
  }

  /** Two different operands: the first one's own duplicates, then the join of both. */
  method OnePair(t: Nodes, op: BinOp, s1: Slot, s2: Slot, count: nat, ghost root: Slot, ghost sp: Spot, ghost e: Expr,
                 ghost p: Path, ghost q: Path)
      returns (count': nat, ghost sp': Spot, ghost e': Expr)
    requires Slots(t.cell, op, sp, e, root, s1, p, s2, q)
    requires IsTip(ShapeOf(op, e), p) && IsTip(ShapeOf(op, e), q) && p != q
    modifies t
    ensures Done(old(t.cell), t.cell, op, sp, e, count, sp', e', count')
    ensures count == count' ==> Dups.PairsSettled(op, e, p, q)
    decreases Size(e), Forks(SubShape(ShapeOf(op, e), p)) + Forks(SubShape(ShapeOf(op, e), q)), 2
  {
    ghost var c0 := t.cell;
    var n;
    ghost var sp1, e1;
    n, sp1, e1 := Inside(t, op, s1, count, root, sp, e, p, q, s2);
    ghost var c1 := t.cell;
    SlotsGood(c0, c1, op, sp, e, sp1, e1, root, s1, p, s2, q);
    count', sp', e' := JoinPair(t, op, s1, s2, n, root, sp1, e1, p, q);
    RewrittenInTurn(c0, c1, t.cell, op, sp, e, sp1, e1, sp', e');
    Dups.PassedInTurn(op, e, count, e1, n, e', count');
    if count == count' {
      Dups.OnePair(op, e, p, q);
    }
  }

  /** An operand of the other kind is cleaned where it stands, both slots being the one that
      points to it. */
  method Inside(t: Nodes, op: BinOp, s1: Slot, count: nat, ghost root: Slot, ghost sp: Spot, ghost e: Expr,
                ghost p: Path, ghost q: Path, ghost s2: Slot)
      returns (count': nat, ghost sp': Spot, ghost e': Expr)
    requires Slots(t.cell, op, sp, e, root, s1, p, s2, q)
    requires IsTip(ShapeOf(op, e), p) && IsTip(ShapeOf(op, e), q) && p != q
    modifies t
    ensures Done(old(t.cell), t.cell, op, sp, e, count, sp', e', count')
    ensures count == count' ==> p != [] && Dups.Settled(Get(op, e, p))
    decreases Size(e), Forks(SubShape(ShapeOf(op, e), p)) + Forks(SubShape(ShapeOf(op, e), q)), 1
  {
    count', sp', e' := count, sp, e;
    ghost var c0 := t.cell;
    if p == [] {
      TipHasNoBelow(ShapeOf(op, e), p, q);
    }
    AtSlot(c0, op, sp, e, root, p);
    Unchanged(c0, op, sp, e);
    var id1 := Load(t.cell, s1);
    if t.cell[id1].BinCell? {
      ghost var (x, spx) := (Get(op, e, p), SpotAt(sp, p));
      ghost var x', spx';
      count', spx', x' := EliminateDups1(t, t.cell[id1].op, s1, s1, count, s1, spx, x, [], []);
      CleanedAt(c0, t.cell, op, sp, e, root, p, spx', x');
      Dups.OperandCleaned(op, e, p, count, x', count');
      sp', e' := PutSpot(sp, p, spx'), Put(op, e, p, x');
    }
  }

  lemma CleanedAt(c: seq<Cell>, c': seq<Cell>, op: BinOp, sp: Spot, e: Expr, root: Slot, p: Path, t: Spot, x: Expr)
    requires Owned(c, sp, e) && Points(c, root, sp) && IsTip(ShapeOf(op, e), p) && p != [] && Get(op, e, p).Bin?
    requires Rewritten(c, c', Get(op, e, p).op, SpotAt(sp, p), Get(op, e, p), t, x)
    ensures Rewritten(c, c', op, sp, e, PutSpot(sp, p, t), Put(op, e, p, x))
  {
    AtSlot(c, op, sp, e, root, p);
    HoldsBelow(c, sp, e);
    assert ShapeOf(Get(op, e, p).op, x).Fork?;
    Replaced(c, c', op, sp, e, root, p, t, x);
    PutIds(op, c, sp, e, p, t);
    SpinePut(op, c, sp, e, p, t);
    PutSlot(op, e, p, x);
  }

  /** The operands at both slots are joined, if they join: a constant goes into the first slot,
      the join into the second, and the nodes of both operands are used no more. */
  method JoinPair(t: Nodes, op: BinOp, s1: Slot, s2: Slot, count: nat, ghost root: Slot, ghost sp: Spot, ghost e: Expr,
                  ghost p: Path, ghost q: Path)
      returns (count': nat, ghost sp': Spot, ghost e': Expr)
    requires Slots(t.cell, op, sp, e, root, s1, p, s2, q)
    requires IsTip(ShapeOf(op, e), p) && IsTip(ShapeOf(op, e), q) && p != q
    modifies t
    ensures Done(old(t.cell), t.cell, op, sp, e, count, sp', e', count')
    ensures count == count' ==> Join(op, Get(op, e, p), Get(op, e, q)).None?
    ensures count != count' ==> Unused(sp', SpotAt(sp, p)) && Unused(sp', SpotAt(sp, q))
  {
    count', sp', e' := count, sp, e;
    ghost var c0 := t.cell;
    AtSlot(c0, op, sp, e, root, p);
    AtSlot(c0, op, sp, e, root, q);
    var r;
    ghost var spr;
    r, spr := JoinNodes(t, op, Load(t.cell, s1), Load(t.cell, s2), SpotAt(sp, p), Get(op, e, p), SpotAt(sp, q),
      Get(op, e, q));
    HoldsOutside(c0, t.cell, {}, sp, e);
    Unchanged(c0, op, sp, e);
    if r.Some? {
      ghost var (c, x) := (t.cell, Join(op, Get(op, e, p), Get(op, e, q)).value);
      HoldsBelow(c, spr, x);
      count' := count + 1;
      var n := t.Alloc(SymCell(Neutral(op)));
      HoldsOutside(c, t.cell, {}, spr, x);
      JoinNoOp(op, Get(op, e, p), Get(op, e, q));
      Dups.PairJoined(op, e, p, q, count);
      sp', e' := PutPair(t, op, s1, s2, n, r.value, c0, root, sp, e, p, q, spr, x);
    }
  }

  lemma JoinNoOp(op: BinOp, e1: Expr, e2: Expr)
    requires !IsOp(op, e1) && Join(op, e1, e2).Some?
    ensures !IsOp(op, Join(op, e1, e2).value)
  {
    JoinShape(op, e1, e2);
  }

  /** The two writes. */
  method PutPair(t: Nodes, op: BinOp, s1: Slot, s2: Slot, n: nat, r: nat, ghost c0: seq<Cell>, ghost root: Slot,
                 ghost sp: Spot, ghost e: Expr, ghost p: Path, ghost q: Path, ghost spr: Spot, ghost x: Expr)
      returns (ghost sp': Spot, ghost e': Expr)
    requires Slots(c0, op, sp, e, root, s1, p, s2, q)
    requires IsTip(ShapeOf(op, e), p) && IsTip(ShapeOf(op, e), q) && p != q && r == spr.id
    requires Outside(c0, t.cell, {}) && |t.cell| == n + 1 && |c0| <= n && t.cell[n] == SymCell(Neutral(op))
    requires Owned(t.cell, spr, x) && !IsOp(op, x) && From(spr, {}, |c0|) && n !in Ids(spr)
    modifies t
    ensures e' == JoinedExpr(op, e, p, q, x) && Rewritten(c0, t.cell, op, sp, e, sp', e')
    ensures Unused(sp', SpotAt(sp, p)) && Unused(sp', SpotAt(sp, q))
  {
    ghost var c1 := t.cell;
    TipsBelow(ShapeOf(op, e), p, q);
    SlotNode(c0, c1, op, sp, e, root, p);
    SlotNode(c0, c1, op, sp, e, root, q);
    Store(t, s1, n);
    ghost var c2 := t.cell;
    Store(t, s2, r);
    JoinedAt(c0, c1, c2, t.cell, op, sp, e, root, s1, p, s2, q, n, spr, x);
    BlankAt(c0, c1, c2, op, sp, e, root, s1, p, s2, q, n, spr, x);
    BothUnused(op, c0, sp, e, p, q, n, spr, c2, PutSpot(sp, p, Spot.Tip(n)), Put(op, e, p, Sym(Neutral(op))));
    sp', e' := JoinedSpot(sp, p, q, n, spr), JoinedExpr(op, e, p, q, x);
  }

  lemma TipsBelow(s: Shape, p: Path, q: Path)
    requires IsTip(s, p) && IsTip(s, q) && p != q
    ensures p != [] && q != []
  {
    if p == [] {
      TipHasNoBelow(s, p, q);
    } else if q == [] {
      TipHasNoBelow(s, q, p);
    }
  }

  /** expr_eliminate_dups: passes until one joins nothing.  The variable with the expression is
      never written by a pass. */
  method EliminateDups(t: Nodes, id: nat, ghost sp: Spot, ghost e: Expr) returns (ghost sp': Spot, ghost e': Expr)
    requires Owned(t.cell, sp, e) && id == sp.id
    modifies t
    ensures Owned(t.cell, sp', e') && sp'.id == id
    ensures From(sp', Ids(sp), old(|t.cell|)) && Outside(old(t.cell), t.cell, Ids(sp))
    ensures Equiv(e, e') && Size(e') <= Size(e) && Dups.Settled(e')
    ensures ExprTransform.Normal(e) ==> ExprTransform.Normal(e')
    ensures Dups.NoTestsJoin(e') && (ExprTransform.Normal(e) && Clean(e) ==> Dups.CleanOrYesNo(e') && Dups.NoTwins(e'))
  {
    ghost var c0 := t.cell;
    sp', e' := sp, e;
    while true
      invariant Owned(t.cell, sp', e') && sp'.id == id
      invariant From(sp', Ids(sp), |c0|) && Outside(c0, t.cell, Ids(sp))
      invariant Equiv(e, e') && Size(e') <= Size(e) && (ExprTransform.Normal(e) ==> ExprTransform.Normal(e'))
      invariant ExprTransform.Normal(e) && Clean(e) ==> Dups.CleanOrYesNo(e')
      decreases Size(e')
    {
      ghost var (c, sp0, e0) := (t.cell, sp', e');
      var transCount := 0;
      if t.cell[id].BinCell? {
        transCount, sp', e' := EliminateDups1(t, t.cell[id].op, Var(id), Var(id), 0, Var(id), sp0, e0, [], []);
      }
      ghost var (c1, sp1, e1) := (t.cell, sp', e');
      OutsideNext(c0, c, c1, Ids(sp), Ids(sp0));
      if transCount == 0 {
        break;
      }
      sp' := t.EliminateYn(id, sp1, e1);
      e' := EliminateYn(e1);
      OutsideNext(c0, c1, t.cell, Ids(sp), Ids(sp1));
      RoundValue(e, e0, e1);
    }
    Dups.SettledResult(e');
  }

  lemma RoundValue(e: Expr, e0: Expr, e1: Expr)
    requires Equiv(e, e0) && Equiv(e0, e1) && e1.Bin? && HasYesNo(e1) && Size(e1) <= Size(e0)
    ensures Equiv(e, EliminateYn(e1)) && Size(EliminateYn(e1)) < Size(e0)
    ensures ExprTransform.Normal(e1) ==> ExprTransform.Normal(EliminateYn(e1)) && Dups.CleanOrYesNo(EliminateYn(e1))
  {
    if ExprTransform.Normal(e1) {
      NormalClean(e1);
    }
    EliminateYnShrinks(e1);
    Dups.EliminateYnNormal(e1);
    forall env | WellFormed(env)
      ensures Value(e, env) == Value(EliminateYn(e1), env)
    {
      assert Value(e, env) == Value(e0, env) == Value(e1, env);
      EliminateYnValue(e1, env);
    }
  }
}
