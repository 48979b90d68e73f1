/** From the menu entries that the parser meets to those that conf_write writes: the builder of
    scripts/config/menu.c, menu_finalize and the walk, one after the other. */
module MenuRun {
  import opened MenuForest
  import opened MenuTree
  import opened MenuBuilder
  import MenuWalk

  /** What the parser does: an entry, an entry that opens a menu, the end of a menu. */
  datatype Command = Entry | OpenMenu | CloseMenu

  function Depth(cs: seq<Command>): int {
    if cs == [] then 0
    else
      Depth(cs[..|cs| - 1]) + match cs[|cs| - 1] case Entry => 0 case OpenMenu => 1 case CloseMenu => -1
  }

  /** No menu ends that was not opened. */
  ghost predicate Nested(cs: seq<Command>) {
    forall i | 0 <= i <= |cs| :: Depth(cs[..i]) >= 0
  }

  function Entries(cs: seq<Command>): nat {
    if cs == [] then 0 else Entries(cs[..|cs| - 1]) + if cs[|cs| - 1].CloseMenu? then 0 else 1
  }

  lemma {:induction false} ParentIn(f: Forest, k: nat, par: int)
    requires Open(f, k) && k >= 1
    ensures ParentAt(f, k, par) >= 0 && ParentAt(f, k, par) in Ids(f)
    decreases f, k
  {
    if f.rest.Cons? {
      ParentIn(f.rest, k, par);
    } else if k > 1 {
      ParentIn(f.kids, k - 1, f.id);
    }
  }

  /** Inside a menu the current menu is not the root. */
  lemma BelowRoot(f: Forest, k: nat, n: nat)
    requires f.Cons? && f.id == 0 && f.rest.Nil? && Open(f, k) && k >= 2 && Preorder(f) == UpTo(n)
    ensures ParentAt(f, k, NULL) != 0
  {
    DistinctOrder(f, n);
    ParentIn(f.kids, k - 1, 0);
  }

  method Build(cs: seq<Command>) returns (b: Builder)
    requires Nested(cs)
    ensures fresh(b) && b.Valid() && |b.next| == 1 + Entries(cs)
  {
    b := new Builder();
    for i := 0 to |cs|
      invariant fresh(b) && b.Valid() && b.k == 1 + Depth(cs[..i]) && |b.next| == 1 + Entries(cs[..i])
    {
      assert cs[..i + 1][..i] == cs[..i];
      assert Depth(cs[..i + 1]) >= 0;
      match cs[i] {
        case Entry =>
          b.AddEntry();
        case OpenMenu =>
          b.AddEntry();
          b.AddMenu();
        case CloseMenu =>
          BelowRoot(b.f, b.k, |b.next|);
          b.EndMenu();
      }
    }
    assert cs[..|cs|] == cs;
  }

  /** Whatever the rules pull and lift, every entry is written once, in source order. */
  method BuildAndWrite(cs: seq<Command>, rules: Rules) returns (visited: seq<nat>)
    requires Nested(cs)
    ensures visited == seq(Entries(cs), i requires 0 <= i < Entries(cs) => i + 1)
  {
    var b := Build(cs);
    var t := new Menus(rules, b.next, b.list, b.parent);
    DistinctOrder(b.f, |b.next|);
    visited := MenuWalk.FinalizeAndWalk(t, 0, b.f.kids);
    assert Preorder(b.f)[1..] == Preorder(b.f.kids);
  }
}
