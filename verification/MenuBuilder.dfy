/** The functions with which the parser builds the menu tree (scripts/config/menu.c):
    menu_add_entry, menu_add_menu and menu_end_menu, with their three global variables. */
module MenuBuilder {
  import opened MenuForest
  import opened MenuTree

  /** Where last_entry_ptr points: a next or a list field. */
  datatype Slot = NextOf(id: nat) | ListOf(id: nat)

  /** The last entry of the top level of f, of the top level below that, and so on: k levels
      down there is a menu that is open. */
  ghost predicate Open(f: Forest, k: nat)
    decreases f, k
  {
    if k == 0 then true
    else f.Cons? && if f.rest.Cons? then Open(f.rest, k) else Open(f.kids, k - 1)
  }

  /** f with one more entry at the end of the level k below its last entries. */
  function Append(f: Forest, k: nat, id: nat): (g: Forest)
    requires Open(f, k)
    ensures g.Cons? && (f.Cons? ==> g.id == f.id)
    decreases f, k
  {
    if f.Nil? then Cons(id, Nil, Nil)
    else if f.rest.Cons? || k == 0 then Cons(f.id, f.kids, Append(f.rest, k, id))
    else Cons(f.id, Append(f.kids, k - 1, id), Nil)
  }

  /** The entry whose children the level k below the last entries of f are. */
  function ParentAt(f: Forest, k: nat, par: int): int
    requires Open(f, k)
    decreases f, k
  {
    if k == 0 then par
    else if f.rest.Cons? then ParentAt(f.rest, k, par)
    else ParentAt(f.kids, k - 1, f.id)
  }

  /** The field that has to point to the next entry there. */
  function SlotAt(f: Forest, k: nat, slot: Slot): Slot
    requires Open(f, k)
    decreases f, k
  {
    if f.Nil? then slot
    else if f.rest.Cons? || k == 0 then SlotAt(f.rest, k, NextOf(f.id))
    else SlotAt(f.kids, k - 1, ListOf(f.id))
  }

  /** The new entry comes last in the depth-first order. */
  lemma {:induction false} AppendPreorder(f: Forest, k: nat, id: nat)
    requires Open(f, k)
    ensures Preorder(Append(f, k, id)) == Preorder(f) + [id]
    decreases f, k
  {
    if f.Cons? {
      if f.rest.Cons? || k == 0 {
        AppendPreorder(f.rest, k, id);
      } else {
        AppendPreorder(f.kids, k - 1, id);
      }
    }
  }

  /** The same level is still open, under the same entry, behind the new one. */
  lemma {:induction false} AppendOpen(f: Forest, k: nat, id: nat, par: int, slot: Slot, slot': Slot)
    requires Open(f, k)
    ensures Open(Append(f, k, id), k)
    ensures ParentAt(Append(f, k, id), k, par) == ParentAt(f, k, par)
    ensures SlotAt(Append(f, k, id), k, slot') == NextOf(id)
    decreases f, k
  {
    if f.Cons? {
      if f.rest.Cons? || k == 0 {
        AppendOpen(f.rest, k, id, par, NextOf(f.id), NextOf(f.id));
      } else {
        AppendOpen(f.kids, k - 1, id, f.id, ListOf(f.id), ListOf(f.id));
      }
    }
  }

  // ---------- On the linked entries ----------

  /** m' is m with a new last cell, below p, and the field s pointing to it. */
  ghost predicate Extends(m: Mem, m': Mem, id: nat, p: int, s: Slot) {
    && |m.next| == |m.list| == |m.parent| == id && Cell(m', id)
    && m'.next[id] == NULL && m'.list[id] == NULL && m'.parent[id] == p
    && (forall i: nat | Cell(m, i) :: Cell(m', i) && m'.parent[i] == m.parent[i])
    && (forall i: nat | Cell(m, i) :: m'.next[i] == if s == NextOf(i) then id else m.next[i])
    && (forall i: nat | Cell(m, i) :: m'.list[i] == if s == ListOf(i) then id else m.list[i])
  }

  lemma {:induction false} LinkedKept(m: Mem, m': Mem, id: nat, p: int, s: Slot, f: Forest, par: int)
    requires Extends(m, m', id, p, s) && Linked(m, f, par, NULL) && s.id !in Ids(f)
    ensures Linked(m', f, par, NULL)
  {
    if f.Cons? {
      LinkedKept(m, m', id, p, s, f.kids, f.id);
      LinkedKept(m, m', id, p, s, f.rest, par);
    }
  }

  lemma {:induction false} SlotIn(f: Forest, k: nat, slot: Slot)
    requires Open(f, k)
    ensures if f.Nil? then SlotAt(f, k, slot) == slot else SlotAt(f, k, slot).id in Ids(f)
    decreases f, k
  {
    if f.Cons? {
      if f.rest.Cons? || k == 0 {
        SlotIn(f.rest, k, NextOf(f.id));
      } else {
        SlotIn(f.kids, k - 1, ListOf(f.id));
      }
    }
  }

  /** Writing the new entry through the slot appends it to the tree. */
  lemma {:induction false} AppendLinked(m: Mem, m': Mem, f: Forest, k: nat, id: nat, par: int, slot: Slot)
    requires Open(f, k) && Linked(m, f, par, NULL) && Distinct(f)
    requires Extends(m, m', id, ParentAt(f, k, par), SlotAt(f, k, slot))
    ensures Linked(m', Append(f, k, id), par, NULL)
    decreases f, k
  {
    if f.Cons? {
      var (p, s) := (ParentAt(f, k, par), SlotAt(f, k, slot));
      if f.rest.Cons? || k == 0 {
        SlotIn(f.rest, k, NextOf(f.id));
        AppendLinked(m, m', f.rest, k, id, par, NextOf(f.id));
        LinkedKept(m, m', id, p, s, f.kids, f.id);
      } else {
        SlotIn(f.kids, k - 1, ListOf(f.id));
        AppendLinked(m, m', f.kids, k - 1, id, f.id, ListOf(f.id));
      }
    }
  }

  /** The last entry, still without children, can be opened. */
  lemma {:induction false} Deeper(m: Mem, f: Forest, k: nat, par: int, slot: Slot, e: nat)
    requires f.Cons? && Open(f, k) && Linked(m, f, par, NULL)
    requires SlotAt(f, k, slot) == NextOf(e) && Cell(m, e) && m.list[e] == NULL
    ensures Open(f, k + 1) && ParentAt(f, k + 1, par) == e && SlotAt(f, k + 1, slot) == ListOf(e)
    decreases f, k
  {
    if f.rest.Cons? {
      Deeper(m, f.rest, k, par, NextOf(f.id), e);
    } else if k > 0 {
      Deeper(m, f.kids, k - 1, f.id, ListOf(f.id), e);
    }
  }

  /** Closing the menu at level k: its parent is open again, behind it. */
  lemma {:induction false} Shallower(m: Mem, f: Forest, k: nat, par: int, slot: Slot)
    requires f.Cons? && Open(f, k) && k >= 1 && Linked(m, f, par, NULL)
    ensures Open(f, k - 1)
    ensures var c := ParentAt(f, k, par);
      c >= 0 && Cell(m, c) && SlotAt(f, k - 1, slot) == NextOf(c) && m.parent[c] == ParentAt(f, k - 1, par)
    decreases f, k
  {
    if f.rest.Cons? {
      Shallower(m, f.rest, k, par, NextOf(f.id));
    } else if k > 1 {
      Shallower(m, f.kids, k - 1, f.id, ListOf(f.id));
    }
  }

  // ---------- The builder ----------

  function UpTo(n: nat): seq<nat> {
    seq(n, i requires 0 <= i < n => i)
  }

  /** A new entry below p, and the field s pointing to it. */
  function Allocated(m: Mem, p: int, s: Slot): Mem
    requires |m.next| == |m.list| == |m.parent| && s.id < |m.next|
  {
    var id := |m.next|;
    var (next, list) := (m.next + [NULL], m.list + [NULL]);
    match s
    case NextOf(j) => Mem(next[j := id], list, m.parent + [p])
    case ListOf(j) => Mem(next, list[j := id], m.parent + [p])
  }

  lemma AllocateExtends(m: Mem, p: int, s: Slot)
    requires |m.next| == |m.list| == |m.parent| && s.id < |m.next|
    ensures Extends(m, Allocated(m, p, s), |m.next|, p, s)
  {}

  lemma AppendOrder(f: Forest, k: nat, n: nat)
    requires Open(f, k) && Preorder(f) == UpTo(n)
    ensures Preorder(Append(f, k, n)) == UpTo(n + 1)
  {
    AppendPreorder(f, k, n);
  }

  class Builder {
    var next: seq<int>
    var list: seq<int>
    var parent: seq<int>
    var currentMenu: int
    var currentEntry: int
    var lastEntryPtr: Slot
    ghost var f: Forest
    ghost var k: nat

    ghost function M(): Mem
      reads this
    {
      Mem(next, list, parent)
    }

    /** The entries so far are a tree below the root menu, whose depth-first order is the
        order in which they were added, and the globals point to its open end. */
    ghost predicate Valid()
      reads this
    {
      && |next| == |list| == |parent| && |next| > 0
      && f.Cons? && f.id == 0 && f.rest.Nil? && k >= 1 && Open(f, k)
      && Linked(M(), f, NULL, NULL) && Preorder(f) == UpTo(|next|)
      && currentMenu == ParentAt(f, k, NULL) && lastEntryPtr == SlotAt(f, k, NextOf(0))
      && 0 <= currentEntry < |next| && 0 <= currentMenu
    }

    /** _menu_init. */
    constructor ()
      ensures Valid() && |next| == 1 && k == 1
    {
      next, list, parent := [NULL], [NULL], [NULL];
      currentMenu, currentEntry, lastEntryPtr := 0, 0, ListOf(0);
      f, k := Cons(0, Nil, Nil), 1;
    }

    /** The new entry, and the write through last_entry_ptr. */
    method Allocate(id: nat)
      requires id == |next| == |list| == |parent| && lastEntryPtr.id < id
      modifies this`next, this`list, this`parent
      ensures M() == Allocated(old(M()), currentMenu, lastEntryPtr)
    {
      next, list, parent := next + [NULL], list + [NULL], parent + [currentMenu];
      match lastEntryPtr {
        case NextOf(j) => next := next[j := id];
        case ListOf(j) => list := list[j := id];
      }
    }

    /** menu_add_entry: the new entry is last in the order, below the current menu. */
    method AddEntry()
      requires Valid()
      modifies this
      ensures Valid() && f == Append(old(f), old(k), old(|next|)) && k == old(k)
      ensures |next| == old(|next|) + 1 && currentEntry == old(|next|) && currentMenu == old(currentMenu)
      ensures lastEntryPtr == NextOf(old(|next|)) && list[old(|next|)] == NULL
      ensures parent == old(parent) + [old(currentMenu)]
    {
      var id: nat := |next|;
      ghost var m := M();
      DistinctOrder(f, id);
      SlotBelow(f, k, id);
      AllocateExtends(m, currentMenu, lastEntryPtr);
      Allocate(id);
      AppendLinked(m, Allocated(m, currentMenu, lastEntryPtr), f, k, id, NULL, NextOf(0));
      AppendOrder(f, k, id);
      AppendOpen(f, k, id, NULL, NextOf(0), NextOf(0));
      lastEntryPtr, currentEntry := NextOf(id), id;
      f := Append(f, k, id);
    }

    /** menu_add_menu, for the entry that was just added. */
    method AddMenu()
      requires Valid() && lastEntryPtr == NextOf(currentEntry) && list[currentEntry] == NULL
      modifies this
      ensures Valid() && f == old(f) && k == old(k) + 1 && next == old(next)
      ensures currentMenu == old(currentEntry) && currentEntry == old(currentEntry)
    {
      Deeper(M(), f, k, NULL, NextOf(0), currentEntry);
      lastEntryPtr := ListOf(currentEntry);
      currentMenu := currentEntry;
      k := k + 1;
    }

    /** menu_end_menu, which no one calls for the root menu. */
    method EndMenu()
      requires Valid() && currentMenu != 0
      modifies this
      ensures Valid() && f == old(f) && k == old(k) - 1 && next == old(next)
      ensures lastEntryPtr == NextOf(old(currentMenu)) && currentEntry == old(currentEntry)
    {
      Shallower(M(), f, k, NULL, NextOf(0));
      Shallower(M(), f, k - 1, NULL, NextOf(0));
      lastEntryPtr := NextOf(currentMenu);
      currentMenu := parent[currentMenu];
      k := k - 1;
    }
  }

  lemma DistinctOrder(f: Forest, n: nat)
    requires Preorder(f) == UpTo(n)
    ensures Distinct(f)
  {
    DistinctPreorder(f);
  }

  lemma SlotBelow(f: Forest, k: nat, n: nat)
    requires f.Cons? && Open(f, k) && Preorder(f) == UpTo(n)
    ensures SlotAt(f, k, NextOf(0)).id < n
  {
    SlotIn(f, k, NextOf(0));
    IdsPreorder(f);
  }
}
