/** The rewriting of scripts/config/expr.c on nodes in memory: expr_eliminate_yn,
    expr_eliminate_eq with expr_eq and expr_copy, expr_transform and expr_trans_bool.

    A node is an index into the memory; freed nodes stay behind, unused.  What the original
    writes through `struct expr **` is returned and stored by the caller. */
module ExprHeap {
  import opened KconfigExpr
  import Equality = ExprEquality
  import Normal = ExprTransform
  import Submenu

  datatype Cell =
    | SymCell(s: Symbol)
    | CmpCell(rel: RelOp, lhs: Symbol, rhs: Symbol)
    | NotCell(child: nat)
    | BinCell(op: BinOp, left: nat, right: nat)

  /** Where the nodes of an expression are. */
  datatype Spot = Tip(id: nat) | One(id: nat, child: Spot) | Two(id: nat, left: Spot, right: Spot)

  /** The nodes at sp make up e. */
  ghost predicate Holds(c: seq<Cell>, sp: Spot, e: Expr) {
    && sp.id < |c|
    && match e
       case Sym(s) => sp.Tip? && c[sp.id] == SymCell(s)
       case Cmp(rel, l, r) => sp.Tip? && c[sp.id] == CmpCell(rel, l, r)
       case Not(x) => sp.One? && c[sp.id] == NotCell(sp.child.id) && Holds(c, sp.child, x)
       case Bin(op, l, r) =>
         && sp.Two? && c[sp.id] == BinCell(op, sp.left.id, sp.right.id)
         && Holds(c, sp.left, l) && Holds(c, sp.right, r)
  }

  function Ids(sp: Spot): set<nat> {
    match sp
    case Tip(id) => {id}
    case One(id, x) => {id} + Ids(x)
    case Two(id, l, r) => {id} + Ids(l) + Ids(r)
  }

  /** No node is shared. */
  ghost predicate Distinct(sp: Spot) {
    match sp
    case Tip(_) => true
    case One(id, x) => id !in Ids(x) && Distinct(x)
    case Two(id, l, r) => id !in Ids(l) && id !in Ids(r) && Ids(l) !! Ids(r) && Distinct(l) && Distinct(r)
  }

  /** An expression of its own. */
  ghost predicate Owned(c: seq<Cell>, sp: Spot, e: Expr) {
    Holds(c, sp, e) && Distinct(sp)
  }

  /** Memory may have grown; of the nodes before, only those in ids may have changed. */
  ghost predicate Outside(c: seq<Cell>, c': seq<Cell>, ids: set<nat>) {
    |c| <= |c'| && forall i: nat | i < |c| && i !in ids :: c'[i] == c[i]
  }

  /** The nodes at sp come from ids, or are new. */
  ghost predicate From(sp: Spot, ids: set<nat>, n: nat) {
    forall i | i in Ids(sp) :: i in ids || i >= n
  }

  lemma {:induction false} HoldsBelow(c: seq<Cell>, sp: Spot, e: Expr)
    requires Holds(c, sp, e)
    ensures forall i | i in Ids(sp) :: i < |c|
  {
    match e
    case Sym(_) =>
    case Cmp(_, _, _) =>
    case Not(x) => HoldsBelow(c, sp.child, x);
    case Bin(_, l, r) =>
      HoldsBelow(c, sp.left, l);
      HoldsBelow(c, sp.right, r);
  }

  lemma {:induction false} HoldsOutside(c: seq<Cell>, c': seq<Cell>, ids: set<nat>, sp: Spot, e: Expr)
    requires Holds(c, sp, e) && Outside(c, c', ids) && Ids(sp) !! ids
    ensures Holds(c', sp, e)
  {
    assert sp.id in Ids(sp);
    match e
    case Sym(_) =>
    case Cmp(_, _, _) =>
    case Not(x) => HoldsOutside(c, c', ids, sp.child, x);
    case Bin(_, l, r) =>
      HoldsOutside(c, c', ids, sp.left, l);
      HoldsOutside(c, c', ids, sp.right, r);
  }

  lemma OutsideNext(c0: seq<Cell>, c: seq<Cell>, c': seq<Cell>, ids: set<nat>, ids': set<nat>)
    requires Outside(c0, c, ids) && Outside(c, c', ids') && forall i | i in ids' :: i in ids || i >= |c0|
    ensures Outside(c0, c', ids)
  {}

  // ---------- Moving a node's contents ----------

  function MovedTo(sp: Spot, id: nat): Spot {
    match sp
    case Tip(_) => Tip(id)
    case One(_, x) => One(id, x)
    case Two(_, l, r) => Two(id, l, r)
  }

  /** Overwriting one node with another moves the expression there. */
  lemma MoveHolds(c: seq<Cell>, sp: Spot, e: Expr, id: nat)
    requires Owned(c, sp, e) && id !in Ids(sp) && id < |c|
    ensures Owned(c[id := c[sp.id]], MovedTo(sp, id), e)
    ensures Ids(MovedTo(sp, id)) <= {id} + Ids(sp)
  {
    match e
    case Sym(_) =>
    case Cmp(_, _, _) =>
    case Not(x) => HoldsOutside(c, c[id := c[sp.id]], {id}, sp.child, x);
    case Bin(_, l, r) =>
      HoldsOutside(c, c[id := c[sp.id]], {id}, sp.left, l);
      HoldsOutside(c, c[id := c[sp.id]], {id}, sp.right, r);
  }

  /** Two operands were rewritten, one after the other. */
  lemma BothRewritten(c0: seq<Cell>, sp: Spot, e: Expr, c1: seq<Cell>, l: Spot, el: Expr)
    requires e.Bin? && Owned(c0, sp, e) && Owned(c1, l, el)
    requires Outside(c0, c1, Ids(sp.left)) && From(l, Ids(sp.left), |c0|)
    ensures Owned(c1, sp.right, e.right) && Ids(l) !! Ids(sp.right) && sp.id !in Ids(l)
    ensures c1[sp.id] == c0[sp.id]
  {
    HoldsBelow(c0, sp, e);
    assert sp.id in Ids(sp) && Ids(sp.right) <= Ids(sp);
    forall i | i in Ids(sp.right)
      ensures i !in Ids(l)
    {
      assert i in Ids(sp);
    }
    HoldsOutside(c0, c1, Ids(sp.left), sp.right, e.right);
  }

  /** A node over two expressions that share nothing. */
  lemma StoredBoth(c: seq<Cell>, id: nat, op: BinOp, l: Spot, el: Expr, r: Spot, er: Expr)
    requires Owned(c, l, el) && Owned(c, r, er) && id < |c| && id !in Ids(l) && id !in Ids(r) && Ids(l) !! Ids(r)
    ensures Owned(c[id := BinCell(op, l.id, r.id)], Two(id, l, r), Bin(op, el, er))
  {
    HoldsOutside(c, c[id := BinCell(op, l.id, r.id)], {id}, l, el);
    HoldsOutside(c, c[id := BinCell(op, l.id, r.id)], {id}, r, er);
  }

  class Nodes {
    var cell: seq<Cell>

    // ---------- expr_eliminate_yn ----------

    /** expr_eliminate_yn: the result is in the same node. */
    method EliminateYn(id: nat, ghost sp: Spot, ghost e: Expr) returns (ghost sp': Spot)
      requires Owned(cell, sp, e) && id == sp.id
      modifies this
      ensures Owned(cell, sp', KconfigExpr.EliminateYn(e)) && sp'.id == id
      ensures Ids(sp') <= Ids(sp) && Outside(old(cell), cell, Ids(sp)) && |cell| == old(|cell|)
      decreases e
    {
      sp' := sp;
      if cell[id].BinCell? {
        var (op, l, r) := (cell[id].op, cell[id].left, cell[id].right);
        ghost var (c0, el, er) := (cell, KconfigExpr.EliminateYn(e.left), KconfigExpr.EliminateYn(e.right));
        ghost var spl := EliminateYn(l, sp.left, e.left);
        ghost var c1 := cell;
        BothRewritten(c0, sp, e, c1, spl, el);
        ghost var spr := EliminateYn(r, sp.right, e.right);
        HoldsOutside(c1, cell, Ids(sp.right), spl, el);
        OutsideNext(c0, c0, c1, Ids(sp), Ids(sp.left));
        OutsideNext(c0, c1, cell, Ids(sp), Ids(sp.right));
        ghost var c2 := cell;
        sp' := Collapse(id, op, l, r, spl, el, spr, er);
        OutsideNext(c0, c2, cell, Ids(sp), {id});
      }
    }

    /** The rest of expr_eliminate_yn, after both operands. */
    method Collapse(id: nat, op: BinOp, l: nat, r: nat, ghost spl: Spot, ghost el: Expr, ghost spr: Spot,
        ghost er: Expr)
        returns (ghost sp': Spot)
      requires Owned(cell, spl, el) && Owned(cell, spr, er) && l == spl.id && r == spr.id
      requires Ids(spl) !! Ids(spr) && id !in Ids(spl) && id !in Ids(spr) && id < |cell|
          && cell[id] == BinCell(op, l, r)
      modifies this
      ensures Owned(cell, sp', Collapsed(op, el, er)) && sp'.id == id && Ids(sp') <= {id} + Ids(spl) + Ids(spr)
      ensures Outside(old(cell), cell, {id}) && |cell| == old(|cell|)
    {
      sp' := Tip(id);
      if cell[l] == SymCell(Absorbing(op)) || (cell[l] != SymCell(Neutral(op)) && cell[r] == SymCell(Absorbing(op))) {
        cell := cell[id := SymCell(Absorbing(op))];
      } else if cell[l] == SymCell(Neutral(op)) {
        MoveHolds(cell, spr, er, id);
        cell := cell[id := cell[r]];
        sp' := MovedTo(spr, id);
      } else if cell[r] == SymCell(Neutral(op)) {
        MoveHolds(cell, spl, el, id);
        cell := cell[id := cell[l]];
        sp' := MovedTo(spl, id);
      } else {
        sp' := Two(id, spl, spr);
      }
    }

    // ---------- expr_trans_bool ----------

    /** expr_trans_bool: every node stays where it is. */
    method TransBool(id: nat, ghost sp: Spot, ghost e: Expr)
      requires Owned(cell, sp, e) && id == sp.id
      modifies this
      ensures Owned(cell, sp, Submenu.TransBool(e)) && Outside(old(cell), cell, Ids(sp)) && |cell| == old(|cell|)
      decreases e
    {
      match cell[id]
      case SymCell(_) =>
      case CmpCell(rel, l, r) =>
        if rel.Ne? && l.Type().Tri? && r == SYM_NO {
          cell := cell[id := SymCell(l)];
        }
      case NotCell(x) => TransBool(x, sp.child, e.e);
      case BinCell(op, l, r) =>
        ghost var c0 := cell;
        TransBool(l, sp.left, e.left);
        ghost var c1 := cell;
        HoldsOutside(c0, c1, Ids(sp.left), sp.right, e.right);
        TransBool(r, sp.right, e.right);
        HoldsOutside(c1, cell, Ids(sp.right), sp.left, Submenu.TransBool(e.left));
    }

    // ---------- expr_transform ----------

    method Alloc(x: Cell) returns (id: nat)
      modifies this
      ensures id == old(|cell|) && cell == old(cell) + [x]
    {
      id := |cell|;
      cell := cell + [x];
    }

    /** A comparison of a boolean symbol with y, m or n. */
    method TransformCmp(id: nat, rel: RelOp, l: Symbol, r: Symbol) returns (ghost sp': Spot)
      requires id < |cell| && cell[id] == CmpCell(rel, l, r)
      modifies this
      ensures Owned(cell, sp', Normal.TransformCmp(rel, l, r)) && sp'.id == id
      ensures From(sp', {id}, old(|cell|)) && Outside(old(cell), cell, {id})
    {
      sp' := Tip(id);
      if !l.Type().Boolean? || !(rel.Eq? || rel.Ne?) {
        return;
      }
      if r == (if rel.Eq? then SYM_NO else SYM_YES) {
        var n := Alloc(SymCell(l));
        cell := cell[id := NotCell(n)];
        sp' := One(id, Tip(n));
      } else if r == SYM_MOD {
        cell := cell[id := SymCell(if rel.Eq? then SYM_NO else SYM_YES)];
      } else if r == SYM_YES || r == SYM_NO {
        cell := cell[id := SymCell(l)];
      }
    }

    /** expr_transform: the result may be in another node. */
    method Transform(id: nat, ghost sp: Spot, ghost e: Expr) returns (r: nat, ghost sp': Spot)
      requires Owned(cell, sp, e) && id == sp.id
      modifies this
      ensures Owned(cell, sp', Normal.Transform(e)) && sp'.id == r
      ensures From(sp', Ids(sp), old(|cell|)) && Outside(old(cell), cell, Ids(sp))
      decreases Normal.Weight(e), 1
    {
      r, sp' := id, sp;
      match cell[id]
      case SymCell(_) =>
      case CmpCell(rel, lhs, rhs) => sp' := TransformCmp(id, rel, lhs, rhs);
      case BinCell(_, _, _) => sp' := TransformBoth(id, sp, e);
      case NotCell(x) =>
        ghost var c0 := cell;
        var x', spx := Transform(x, sp.child, e.e);
        HoldsBelow(c0, sp, e);
        HoldsBelow(cell, spx, Normal.Transform(e.e));
        ghost var c1 := cell;
        cell := cell[id := NotCell(x')];
        HoldsOutside(c1, cell, {id}, spx, Normal.Transform(e.e));
        OutsideNext(c0, c0, c1, Ids(sp), Ids(sp.child));
        OutsideNext(c0, c1, cell, Ids(sp), {id});
        ghost var c2 := cell;
        r, sp' := FinishNot(id, x', spx, Normal.Transform(e.e));
        OutsideNext(c0, c2, cell, Ids(sp), {id} + Ids(spx));
    }

    /** Both operands of an AND or OR. */
    method TransformBoth(id: nat, ghost sp: Spot, ghost e: Expr) returns (ghost sp': Spot)
      requires Owned(cell, sp, e) && id == sp.id && e.Bin?
      modifies this
      ensures Owned(cell, sp', Normal.Transform(e)) && sp'.id == id
      ensures From(sp', Ids(sp), old(|cell|)) && Outside(old(cell), cell, Ids(sp))
      decreases Normal.Weight(e), 0
    {
      var (op, l, r) := (cell[id].op, cell[id].left, cell[id].right);
      ghost var (c0, el, er) := (cell, Normal.Transform(e.left), Normal.Transform(e.right));
      var l', spl := Transform(l, sp.left, e.left);
      ghost var c1 := cell;
      BothRewritten(c0, sp, e, c1, spl, el);
      HoldsBelow(c1, spl, el);
      var r', spr := Transform(r, sp.right, e.right);
      ghost var c2 := cell;
      HoldsOutside(c1, c2, Ids(sp.right), spl, el);
      Joined(c0, sp, e, spl, spr, |c1|);
      cell := cell[id := BinCell(op, l', r')];
      sp' := Two(id, spl, spr);
      StoredBoth(c2, id, op, spl, el, spr, er);
      OutsideNext(c0, c0, c1, Ids(sp), Ids(sp.left));
      OutsideNext(c0, c1, c2, Ids(sp), Ids(sp.right));
      OutsideNext(c0, c2, cell, Ids(sp), {id});
    }

    /** What is left to do for a NOT whose operand is done. */
    method FinishNot(id: nat, x: nat, ghost spx: Spot, ghost ex: Expr) returns (r: nat, ghost sp': Spot)
      requires Owned(cell, spx, ex) && x == spx.id && id !in Ids(spx) && id < |cell| && cell[id] == NotCell(x)
      modifies this
      ensures Owned(cell, sp', FinishedNot(ex)) && sp'.id == r
      ensures From(sp', {id} + Ids(spx), old(|cell|)) && Outside(old(cell), cell, {id} + Ids(spx))
      decreases 2 * Normal.Weight(ex), 0
    {
      r, sp' := x, spx;
      match cell[x]
      case NotCell(y) => r, sp' := Transform(y, spx.child, ex.e);
      case CmpCell(rel, lhs, rhs) => cell := cell[x := CmpCell(Normal.FlipRel(rel), lhs, rhs)];
      case SymCell(s) =>
        if s == SYM_YES {
          cell := cell[x := SymCell(SYM_NO)];
        } else if s == SYM_NO {
          cell := cell[x := SymCell(SYM_YES)];
        } else if s != SYM_MOD {
          r, sp' := id, One(id, spx);
        }
      case BinCell(op, a, b) =>
        ghost var c0 := cell;
        HoldsBelow(c0, spx, ex);
        var n := Alloc(NotCell(b));
        cell := cell[id := BinCell(Normal.FlipOp(op), x, n)];
        cell := cell[x := NotCell(a)];
        ghost var (sp, e) := Morgan(id, n, spx, ex);
        MorganHolds(c0, cell, id, n, spx, ex);
        Normal.DeMorganShrinks(ex.op, ex.left, ex.right);
        ghost var c1 := cell;
        r, sp' := Transform(id, sp, e);
        OutsideNext(c0, c1, cell, {id} + Ids(spx), Ids(sp));
    }

    // ---------- expr_copy, expr_eq and expr_eliminate_eq ----------

    /** expr_copy: new nodes only. */
    method Copy(id: nat, ghost sp: Spot, ghost e: Expr) returns (r: nat, ghost sp': Spot)
      requires Owned(cell, sp, e) && id == sp.id
      modifies this
      ensures Owned(cell, sp', e) && sp'.id == r && From(sp', {}, old(|cell|)) && Outside(old(cell), cell, {})
      decreases e
    {
      ghost var c0 := cell;
      HoldsBelow(c0, sp, e);
      r := Alloc(cell[id]);
      sp' := Tip(r);
      HoldsOutside(c0, cell, {}, sp, e);
      match cell[id]
      case SymCell(_) =>
      case CmpCell(_, _, _) =>
      case NotCell(x) =>
        var x', spx := Copy(x, sp.child, e.e);
        ghost var c1 := cell;
        cell := cell[r := NotCell(x')];
        HoldsOutside(c1, cell, {r}, spx, e.e);
        sp' := One(r, spx);
      case BinCell(op, a, b) =>
        var a', spa := Copy(a, sp.left, e.left);
        ghost var c1 := cell;
        HoldsBelow(c1, spa, e.left);
        HoldsOutside(c0, c1, {}, sp.right, e.right);
        var b', spb := Copy(b, sp.right, e.right);
        ghost var c2 := cell;
        HoldsOutside(c1, c2, {}, spa, e.left);
        StoredBoth(c2, r, op, spa, e.left, spb, e.right);
        cell := cell[r := BinCell(op, a', b')];
        sp' := Two(r, spa, spb);
    }

    /** expr_eq: the answer is that of the equality test, and no node of either expression, or of
        any other, changes. */
    method ExprEq(id1: nat, id2: nat, ghost sp1: Spot, ghost e1: Expr, ghost sp2: Spot, ghost e2: Expr)
        returns (res: bool)
      requires Owned(cell, sp1, e1) && Owned(cell, sp2, e2) && id1 == sp1.id && id2 == sp2.id
      modifies this
      ensures res == Equality.ExprEq(e1, e2) && Outside(old(cell), cell, {})
      decreases Size(e1) + Size(e2), 2
    {
      match (cell[id1], cell[id2]) {
        case (CmpCell(rel1, l1, r1), CmpCell(rel2, l2, r2)) => return rel1 == rel2 && l1 == l2 && r1 == r2;
        case (SymCell(s1), SymCell(s2)) => return s1 == s2;
        case (NotCell(x1), NotCell(x2)) =>
          res := ExprEq(x1, x2, sp1.child, e1.e, sp2.child, e2.e);
          return;
        case (BinCell(op1, _, _), BinCell(op2, _, _)) =>
          if op1 != op2 {
            return false;
          }
          ghost var c0 := cell;
          var r1, s1 := Copy(id1, sp1, e1);
          ghost var c1 := cell;
          HoldsBelow(c1, s1, e1);
          HoldsOutside(c0, c1, {}, sp2, e2);
          var r2, s2 := Copy(id2, sp2, e2);
          ghost var c2 := cell;
          HoldsOutside(c1, c2, {}, s1, e1);
          r1, r2, s1, s2 := EliminateEq(r1, r2, s1, e1, s2, e2);
          res := cell[r1].SymCell? && cell[r2].SymCell? && cell[r1].s == cell[r2].s;
          return;
        case _ => return false;
      }
    }

    /** Two expressions of their own that share nothing, in nodes of ids or new ones. */
    ghost predicate Pair(sp1: Spot, e1: Expr, sp2: Spot, e2: Expr)
      reads this
    {
      Owned(cell, sp1, e1) && Owned(cell, sp2, e2) && Ids(sp1) !! Ids(sp2)
    }

    /** __expr_eliminate_eq, on what the two slots point to; the results go into the slots. */
    method EliminateEq1(op: BinOp, id1: nat, id2: nat, ghost sp1: Spot, ghost e1: Expr, ghost sp2: Spot, ghost e2: Expr)
        returns (r1: nat, r2: nat, ghost s1: Spot, ghost s2: Spot)
      requires Pair(sp1, e1, sp2, e2) && id1 == sp1.id && id2 == sp2.id
      modifies this
      ensures Pair(s1, Equality.EliminateEq1(op, e1, e2).0, s2, Equality.EliminateEq1(op, e1, e2).1)
      ensures s1.id == r1 && s2.id == r2 && Outside(old(cell), cell, Ids(sp1) + Ids(sp2))
      ensures From(s1, Ids(sp1), old(|cell|)) && From(s2, Ids(sp2), old(|cell|))
      decreases Size(e1) + Size(e2), (if Equality.IsOp(op, e1) || Equality.IsOp(op, e2) then 0 else 3), 1
    {
      r1, r2, s1, s2 := id1, id2, sp1, sp2;
      if cell[id1].BinCell? && cell[id1].op == op {
        r2, s1, s2 := LeftSpine(op, id1, id2, sp1, e1, sp2, e2);
      } else if cell[id2].BinCell? && cell[id2].op == op {
        r1, s2, s1 := RightSpine(op, id1, id2, sp1, e1, sp2, e2);
      } else {
        r1, r2, s1, s2 := Operands(op, id1, id2, sp1, e1, sp2, e2);
      }
    }

    /** The first expression is of the kind: both its operands in turn. */
    method LeftSpine(op: BinOp, id1: nat, id2: nat, ghost sp1: Spot, ghost e1: Expr, ghost sp2: Spot, ghost e2: Expr)
        returns (r2: nat, ghost s1: Spot, ghost s2: Spot)
      requires Pair(sp1, e1, sp2, e2) && id1 == sp1.id && id2 == sp2.id && Equality.IsOp(op, e1)
      modifies this
      ensures Pair(s1, Equality.EliminateEq1(op, e1, e2).0, s2, Equality.EliminateEq1(op, e1, e2).1)
      ensures s1.id == id1 && s2.id == r2 && Outside(old(cell), cell, Ids(sp1) + Ids(sp2))
      ensures From(s1, Ids(sp1), old(|cell|)) && From(s2, Ids(sp2), old(|cell|))
      decreases Size(e1) + Size(e2), 0, 0
    {
      var (l, r) := (cell[id1].left, cell[id1].right);
      ghost var c0 := cell;
      ghost var a := Equality.EliminateEq1(op, e1.left, e2);
      ghost var b := Equality.EliminateEq1(op, e1.right, a.1);
      var l', m2, sl, sm := EliminateEq1(op, l, id2, sp1.left, e1.left, sp2, e2);
      ghost var c1 := cell;
      BetweenTurns(c0, c1, sp1, e1, sp2, e2, sl, a.0, sm, a.1);
      var r', n2, sr, sn := EliminateEq1(op, r, m2, sp1.right, e1.right, sm, a.1);
      ghost var c2 := cell;
      AfterTurns(c0, c1, c2, sp1, e1, sp2, e2, sl, a.0, sm, a.1, sr, b.0, sn, b.1);
      cell := cell[id1 := BinCell(op, l', r')];
      r2, s1, s2 := n2, Two(id1, sl, sr), sn;
      StoredBoth(c2, id1, op, sl, a.0, sr, b.0);
      HoldsOutside(c2, cell, {id1}, sn, b.1);
      OutsideNext(c0, c2, cell, Ids(sp1) + Ids(sp2), {id1});
    }

    /** Only the second one is of the kind: the first against both its operands in turn. */
    method RightSpine(op: BinOp, id1: nat, id2: nat, ghost sp1: Spot, ghost e1: Expr, ghost sp2: Spot, ghost e2: Expr)
        returns (r1: nat, ghost s2: Spot, ghost s1: Spot)
      requires Pair(sp1, e1, sp2, e2) && id1 == sp1.id && id2 == sp2.id
      requires !Equality.IsOp(op, e1) && Equality.IsOp(op, e2)
      modifies this
      ensures Pair(s1, Equality.EliminateEq1(op, e1, e2).0, s2, Equality.EliminateEq1(op, e1, e2).1)
      ensures s1.id == r1 && s2.id == id2 && Outside(old(cell), cell, Ids(sp1) + Ids(sp2))
      ensures From(s1, Ids(sp1), old(|cell|)) && From(s2, Ids(sp2), old(|cell|))
      decreases Size(e1) + Size(e2), 0, 0
    {
      var (l, r) := (cell[id2].left, cell[id2].right);
      ghost var c0 := cell;
      ghost var a := Equality.EliminateEq1(op, e1, e2.left);
      ghost var b := Equality.EliminateEq1(op, a.0, e2.right);
      var m1, l', sm, sl := EliminateEq1(op, id1, l, sp1, e1, sp2.left, e2.left);
      ghost var c1 := cell;
      BetweenTurns(c0, c1, sp2, e2, sp1, e1, sl, a.1, sm, a.0);
      var n1, r', sn, sr := EliminateEq1(op, m1, r, sm, a.0, sp2.right, e2.right);
      ghost var c2 := cell;
      AfterTurns(c0, c1, c2, sp2, e2, sp1, e1, sl, a.1, sm, a.0, sr, b.1, sn, b.0);
      cell := cell[id2 := BinCell(op, l', r')];
      r1, s2, s1 := n1, Two(id2, sl, sr), sn;
      StoredBoth(c2, id2, op, sl, a.1, sr, b.1);
      HoldsOutside(c2, cell, {id2}, sn, b.0);
      OutsideNext(c0, c2, cell, Ids(sp1) + Ids(sp2), {id2});
    }

    /** Two operands: if they are equal, both slots get a new neutral constant. */
    method Operands(op: BinOp, id1: nat, id2: nat, ghost sp1: Spot, ghost e1: Expr, ghost sp2: Spot, ghost e2: Expr)
        returns (r1: nat, r2: nat, ghost s1: Spot, ghost s2: Spot)
      requires Pair(sp1, e1, sp2, e2) && id1 == sp1.id && id2 == sp2.id
      requires !Equality.IsOp(op, e1) && !Equality.IsOp(op, e2)
      modifies this
      ensures Pair(s1, Equality.EliminateEq1(op, e1, e2).0, s2, Equality.EliminateEq1(op, e1, e2).1)
      ensures s1.id == r1 && s2.id == r2 && Outside(old(cell), cell, Ids(sp1) + Ids(sp2))
      ensures From(s1, Ids(sp1), old(|cell|)) && From(s2, Ids(sp2), old(|cell|))
      decreases Size(e1) + Size(e2), 3, 0
    {
      r1, r2, s1, s2 := id1, id2, sp1, sp2;
      if cell[id1] == cell[id2] && (cell[id1] == SymCell(SYM_YES) || cell[id1] == SymCell(SYM_NO)) {
        return;
      }
      ghost var c0 := cell;
      var equal := ExprEq(id1, id2, sp1, e1, sp2, e2);
      HoldsOutside(c0, cell, {}, sp1, e1);
      HoldsOutside(c0, cell, {}, sp2, e2);
      if equal {
        r1 := Alloc(SymCell(Neutral(op)));
        r2 := Alloc(SymCell(Neutral(op)));
        s1, s2 := Tip(r1), Tip(r2);
      }
    }

    /** expr_eliminate_eq. */
    method EliminateEq(id1: nat, id2: nat, ghost sp1: Spot, ghost e1: Expr, ghost sp2: Spot, ghost e2: Expr)
        returns (r1: nat, r2: nat, ghost s1: Spot, ghost s2: Spot)
      requires Pair(sp1, e1, sp2, e2) && id1 == sp1.id && id2 == sp2.id
      modifies this
      ensures Pair(s1, Equality.EliminateEq(e1, e2).0, s2, Equality.EliminateEq(e1, e2).1)
      ensures s1.id == r1 && s2.id == r2 && Outside(old(cell), cell, Ids(sp1) + Ids(sp2))
      ensures From(s1, Ids(sp1), old(|cell|)) && From(s2, Ids(sp2), old(|cell|))
      decreases Size(e1) + Size(e2), 1
    {
      ghost var c0 := cell;
      ghost var p := if e1.Bin? then Equality.EliminateEq1(e1.op, e1, e2) else (e1, e2);
      r1, r2, s1, s2 := id1, id2, sp1, sp2;
      if cell[id1].BinCell? {
        r1, r2, s1, s2 := EliminateEq1(cell[id1].op, id1, id2, sp1, e1, sp2, e2);
      }
      ghost var c1 := cell;
      ghost var (t1, t2) := (s1, s2);
      if cell[r2].BinCell? && !(cell[r1].BinCell? && cell[r1].op == cell[r2].op) {
        r1, r2, s1, s2 := EliminateEq1(cell[r2].op, r1, r2, s1, p.0, s2, p.1);
      }
      ghost var q := if p.1.Bin? && !Equality.IsOp(p.1.op, p.0) then Equality.EliminateEq1(p.1.op, p.0, p.1) else p;
      ghost var c2 := cell;
      OutsideNext(c0, c1, c2, Ids(sp1) + Ids(sp2), Ids(t1) + Ids(t2));
      ghost var (u1, u2) := (s1, s2);
      s1, s2 := EliminateBoth(r1, r2, u1, q.0, u2, q.1);
      OutsideNext(c0, c2, cell, Ids(sp1) + Ids(sp2), Ids(u1) + Ids(u2));
    }

    /** The constants out of both. */
    method EliminateBoth(id1: nat, id2: nat, ghost sp1: Spot, ghost e1: Expr, ghost sp2: Spot, ghost e2: Expr)
        returns (ghost s1: Spot, ghost s2: Spot)
      requires Pair(sp1, e1, sp2, e2) && id1 == sp1.id && id2 == sp2.id
      modifies this
      ensures Pair(s1, KconfigExpr.EliminateYn(e1), s2, KconfigExpr.EliminateYn(e2))
      ensures s1.id == id1 && s2.id == id2 && Ids(s1) <= Ids(sp1) && Ids(s2) <= Ids(sp2)
      ensures Outside(old(cell), cell, Ids(sp1) + Ids(sp2)) && |cell| == old(|cell|)
    {
      ghost var c0 := cell;
      s1 := EliminateYn(id1, sp1, e1);
      ghost var c1 := cell;
      HoldsOutside(c0, c1, Ids(sp1), sp2, e2);
      s2 := EliminateYn(id2, sp2, e2);
      HoldsOutside(c1, cell, Ids(sp2), s1, KconfigExpr.EliminateYn(e1));
    }
  }

  /** What expr_eliminate_yn makes of an AND or OR whose operands are done. */
  function Collapsed(op: BinOp, l: Expr, r: Expr): Expr {
    if l == Sym(Absorbing(op)) then l
    else if l == Sym(Neutral(op)) then r
    else if r == Sym(Absorbing(op)) then r
    else if r == Sym(Neutral(op)) then l
    else Bin(op, l, r)
  }

  /** What expr_transform makes of the negation of an expression that is done. */
  function FinishedNot(ex: Expr): Expr {
    match ex
    case Not(y) => Normal.Transform(y)
    case Cmp(rel, l, r) => Cmp(Normal.FlipRel(rel), l, r)
    case Bin(op, l, r) => Normal.Transform(Bin(Normal.FlipOp(op), Not(l), Not(r)))
    case Sym(s) =>
      if s == SYM_YES then Sym(SYM_NO)
      else if s == SYM_MOD then Sym(SYM_MOD)
      else if s == SYM_NO then Sym(SYM_YES)
      else Not(Sym(s))
  }

  /** De Morgan's step: one new node, and where everything is after it. */
  function Morgan(id: nat, n: nat, spx: Spot, ex: Expr): (Spot, Expr)
    requires ex.Bin? && spx.Two?
  {
    (Two(id, One(spx.id, spx.left), One(n, spx.right)), Bin(Normal.FlipOp(ex.op), Not(ex.left), Not(ex.right)))
  }

  lemma MorganHolds(c: seq<Cell>, c': seq<Cell>, id: nat, n: nat, spx: Spot, ex: Expr)
    requires Owned(c, spx, ex) && ex.Bin? && id !in Ids(spx) && id < |c| && n == |c|
    requires c' == (c + [NotCell(spx.right.id)])[id := BinCell(Normal.FlipOp(ex.op), spx.id,
        n)][spx.id := NotCell(spx.left.id)]
    ensures Owned(c', Morgan(id, n, spx, ex).0, Morgan(id, n, spx, ex).1)
    ensures Outside(c, c', {id} + Ids(spx))
  {
    HoldsBelow(c, spx, ex);
    assert spx.id in Ids(spx) && Ids(spx.left) <= Ids(spx) && Ids(spx.right) <= Ids(spx);
    HoldsOutside(c, c', {id, spx.id}, spx.left, ex.left);
    HoldsOutside(c, c', {id, spx.id}, spx.right, ex.right);
  }

  /** The new operands share nothing. */
  lemma Joined(c0: seq<Cell>, sp: Spot, e: Expr, spl: Spot, spr: Spot, n: nat)
    requires e.Bin? && Owned(c0, sp, e) && |c0| <= n
    requires From(spl, Ids(sp.left), |c0|) && From(spr, Ids(sp.right), n) && forall i | i in Ids(spl) :: i < n
    ensures Ids(spl) !! Ids(spr) && sp.id !in Ids(spl) && sp.id !in Ids(spr)
  {
    HoldsBelow(c0, sp, e);
    assert sp.id in Ids(sp) && Ids(sp.left) <= Ids(sp) && Ids(sp.right) <= Ids(sp);
  }

  /** After the first operand of a spine was cancelled against the other expression, the second
      one is still to come. */
  lemma BetweenTurns(c0: seq<Cell>, c1: seq<Cell>, sp: Spot, e: Expr, other: Spot, eo: Expr,
                     sl: Spot, el: Expr, sm: Spot, em: Expr)
    requires Owned(c0, sp, e) && e.Bin? && Owned(c0, other, eo) && Ids(sp) !! Ids(other)
    requires Owned(c1, sl, el) && Owned(c1, sm, em) && Outside(c0, c1, Ids(sp.left) + Ids(other))
    requires From(sl, Ids(sp.left), |c0|) && From(sm, Ids(other), |c0|)
    ensures Owned(c1, sp.right, e.right) && Ids(sp.right) !! Ids(sm) && Ids(sp.right) !! Ids(sl)
    ensures sp.id !in Ids(sl) && sp.id !in Ids(sm) && c1[sp.id] == c0[sp.id]
  {
    HoldsBelow(c0, sp, e);
    assert sp.id in Ids(sp) && Ids(sp.left) <= Ids(sp) && Ids(sp.right) <= Ids(sp);
    HoldsOutside(c0, c1, Ids(sp.left) + Ids(other), sp.right, e.right);
  }

  /** After both operands. */
  lemma AfterTurns(c0: seq<Cell>, c1: seq<Cell>, c2: seq<Cell>, sp: Spot, e: Expr, other: Spot, eo: Expr,
                   sl: Spot, el: Expr, sm: Spot, em: Expr, sr: Spot, er: Expr, sn: Spot, en: Expr)
    requires Owned(c0, sp, e) && e.Bin? && Owned(c0, other, eo) && Ids(sp) !! Ids(other)
    requires Owned(c1, sl, el) && Owned(c1, sm, em) && Ids(sl) !! Ids(sm) && Outside(c0, c1, Ids(sp.left) + Ids(other))
    requires From(sl, Ids(sp.left), |c0|) && From(sm, Ids(other), |c0|)
    requires Owned(c2, sr, er) && Owned(c2, sn, en) && Ids(sr) !! Ids(sn) && Outside(c1, c2, Ids(sp.right) + Ids(sm))
    requires From(sr, Ids(sp.right), |c1|) && From(sn, Ids(sm), |c1|)
    ensures Owned(c2, sl, el) && Ids(sl) !! Ids(sr) && Ids(sl) !! Ids(sn)
    ensures sp.id !in Ids(sl) && sp.id !in Ids(sr) && sp.id !in Ids(sn) && sp.id < |c0|
    ensures Outside(c0, c2, Ids(sp) + Ids(other)) && From(Two(sp.id, sl, sr), Ids(sp), |c0|)
        && From(sn, Ids(other), |c0|)
  {
    BetweenTurns(c0, c1, sp, e, other, eo, sl, el, sm, em);
    HoldsBelow(c0, sp, e);
    HoldsBelow(c1, sl, el);
    HoldsBelow(c1, sm, em);
    assert sp.id in Ids(sp) && Ids(sp.left) <= Ids(sp) && Ids(sp.right) <= Ids(sp);
    HoldsOutside(c1, c2, Ids(sp.right) + Ids(sm), sl, el);
    OutsideNext(c0, c0, c1, Ids(sp) + Ids(other), Ids(sp.left) + Ids(other));
    OutsideNext(c0, c1, c2, Ids(sp) + Ids(other), Ids(sp.right) + Ids(sm));
  }
}
