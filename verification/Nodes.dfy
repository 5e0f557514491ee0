/** Interval nodes of lib/src/diet.h and what it means for linked nodes to have
    the shape of a tree value. */
module Nodes {
  import opened SplayShape

  /** struct ival with its splay_entry links. */
  class Ival {
    var lo: nat
    var hi: nat
    var t: nat
    var left: Ival?
    var right: Ival?

    /** mk_ival: calloc leaves both links null. */
    constructor (n: nat, when: nat)
      ensures lo == n && hi == n && t == when && left == null && right == null
    {
      lo, hi, t, left, right := n, n, when, null, null;
    }
  }

  ghost function Elems(t: Tree<Ival>): (r: set<Ival>)
  {
    match t
    case Leaf => {}
    case Node(l, x, r) => Elems(l) + {x} + Elems(r)
  }

  /** No node occurs twice. */
  ghost predicate Proper(t: Tree<Ival>)
  {
    match t
    case Leaf => true
    case Node(l, x, r) =>
      Proper(l) && Proper(r) && x !in Elems(l) && x !in Elems(r) && Elems(l) !! Elems(r)
  }

  ghost function LimbElems(ls: seq<Limb<Ival>>): (r: set<Ival>)
  {
    if ls == [] then {}
    else LimbElems(ls[..|ls| - 1]) + {ls[|ls| - 1].elem} + Elems(ls[|ls| - 1].sub)
  }

  ghost predicate ProperLimbs(ls: seq<Limb<Ival>>)
  {
    if ls == [] then true
    else
      var last := ls[|ls| - 1];
      var rest := LimbElems(ls[..|ls| - 1]);
      && ProperLimbs(ls[..|ls| - 1]) && Proper(last.sub)
      && last.elem !in rest && last.elem !in Elems(last.sub) && rest !! Elems(last.sub)
  }

  ghost function ZipElems(z: Zipper<Ival>): (r: set<Ival>)
  {
    LimbElems(z.left) + Elems(z.mid) + LimbElems(z.right)
  }

  ghost predicate ProperZip(z: Zipper<Ival>)
  {
    && ProperLimbs(z.left) && Proper(z.mid) && ProperLimbs(z.right)
    && LimbElems(z.left) !! Elems(z.mid) && LimbElems(z.left) !! LimbElems(z.right)
    && Elems(z.mid) !! LimbElems(z.right)
  }

  lemma RotateRightProper(t: Tree<Ival>)
    requires t.Node? && t.left.Node? && Proper(t)
    ensures Proper(RotateRight(t)) && Elems(RotateRight(t)) == Elems(t)
  {
    assert Elems(t.left.left) <= Elems(t.left) && Elems(t.left.right) <= Elems(t.left);
  }

  lemma RotateLeftProper(t: Tree<Ival>)
    requires t.Node? && t.right.Node? && Proper(t)
    ensures Proper(RotateLeft(t)) && Elems(RotateLeft(t)) == Elems(t)
  {
    assert Elems(t.right.left) <= Elems(t.right) && Elems(t.right.right) <= Elems(t.right);
  }

  lemma LinkLeftProper(z: Zipper<Ival>)
    requires z.mid.Node? && ProperZip(z)
    ensures ProperZip(LinkLeft(z)) && ZipElems(LinkLeft(z)) == ZipElems(z)
  {
    var rs := LinkLeft(z).right;
    assert rs[..|rs| - 1] == z.right;
  }

  lemma LinkRightProper(z: Zipper<Ival>)
    requires z.mid.Node? && ProperZip(z)
    ensures ProperZip(LinkRight(z)) && ZipElems(LinkRight(z)) == ZipElems(z)
  {
    var ls := LinkRight(z).left;
    assert ls[..|ls| - 1] == z.left;
  }

  lemma RotateLeftZip(z: Zipper<Ival>)
    requires z.mid.Node? && z.mid.right.Node? && ProperZip(z)
    ensures var z' := z.(mid := RotateLeft(z.mid)); ProperZip(z') && ZipElems(z') == ZipElems(z)
  {
    RotateLeftProper(z.mid);
  }

  lemma RotateRightZip(z: Zipper<Ival>)
    requires z.mid.Node? && z.mid.left.Node? && ProperZip(z)
    ensures var z' := z.(mid := RotateRight(z.mid)); ProperZip(z') && ZipElems(z') == ZipElems(z)
  {
    RotateRightProper(z.mid);
  }

  lemma AssembleProper(z: Zipper<Ival>)
    requires z.mid.Node? && ProperZip(z)
    ensures Proper(Assemble(z)) && Elems(Assemble(z)) == ZipElems(z)
    ensures Elems(BuildLeft(z.left, z.mid.left)) == LimbElems(z.left) + Elems(z.mid.left)
    ensures Elems(BuildRight(z.right, z.mid.right)) == LimbElems(z.right) + Elems(z.mid.right)
  {
    BuildLeftProper(z.left, z.mid.left);
    BuildRightProper(z.right, z.mid.right);
  }

  lemma TurnLeftProper(c: Ival -> int, z: Zipper<Ival>)
    requires z.mid.Node? && z.mid.left.Node? && ProperZip(z)
    ensures ProperZip(TurnLeft(c, z)) && ZipElems(TurnLeft(c, z)) == ZipElems(z)
    ensures ZipElems(LinkLeft(TurnLeft(c, z))) == ZipElems(z)
  {
    RotateRightProper(z.mid);
    LinkLeftProper(TurnLeft(c, z));
  }

  lemma TurnRightProper(c: Ival -> int, z: Zipper<Ival>)
    requires z.mid.Node? && z.mid.right.Node? && ProperZip(z)
    ensures ProperZip(TurnRight(c, z)) && ZipElems(TurnRight(c, z)) == ZipElems(z)
    ensures ZipElems(LinkRight(TurnRight(c, z))) == ZipElems(z)
  {
    RotateLeftProper(z.mid);
    LinkRightProper(TurnRight(c, z));
  }

  /** The nodes reachable from `p` form the tree `t`. */
  ghost predicate Linked(p: Ival?, t: Tree<Ival>)
    reads Elems(t)`left, Elems(t)`right
    decreases t
  {
    match t
    case Leaf => p == null
    case Node(l, x, r) => p == x && Linked(x.left, l) && Linked(x.right, r)
  }

  ghost function LastElem(ls: seq<Limb<Ival>>): (r: set<Ival>)
  {
    if ls == [] then {} else {ls[|ls| - 1].elem}
  }

  lemma LastLimb(ls: seq<Limb<Ival>>)
    ensures LastElem(ls) <= LimbElems(ls)
  {
  }

  /** The left partial tree of a splay: each limb's left child is its subtree and
      its right child is the next limb.  The right link of the last limb is loose. */
  ghost predicate LeftSpine(ls: seq<Limb<Ival>>)
    requires ProperLimbs(ls)
    reads LimbElems(ls)`left, (LimbElems(ls) - LastElem(ls))`right
  {
    if ls == [] then true
    else
      var n := |ls| - 1;
      && LeftSpine(ls[..n])
      && Linked(ls[n].elem.left, ls[n].sub)
      && (n > 0 ==> ls[..n][n - 1].elem.right == ls[n].elem)
  }

  /** The right partial tree, mirrored; the left link of the last limb is loose. */
  ghost predicate RightSpine(rs: seq<Limb<Ival>>)
    requires ProperLimbs(rs)
    reads LimbElems(rs)`right, (LimbElems(rs) - LastElem(rs))`left
  {
    if rs == [] then true
    else
      var n := |rs| - 1;
      && RightSpine(rs[..n])
      && Linked(rs[n].elem.right, rs[n].sub)
      && (n > 0 ==> rs[..n][n - 1].elem.left == rs[n].elem)
  }

  lemma ExtendLeft(ls: seq<Limb<Ival>>, b: Limb<Ival>)
    requires ProperLimbs(ls) && ProperLimbs(ls + [b]) && LeftSpine(ls)
    requires Linked(b.elem.left, b.sub) && (ls != [] ==> ls[|ls| - 1].elem.right == b.elem)
    ensures LeftSpine(ls + [b])
  {
    assert (ls + [b])[..|ls|] == ls;
  }

  lemma ExtendRight(rs: seq<Limb<Ival>>, b: Limb<Ival>)
    requires ProperLimbs(rs) && ProperLimbs(rs + [b]) && RightSpine(rs)
    requires Linked(b.elem.right, b.sub) && (rs != [] ==> rs[|rs| - 1].elem.left == b.elem)
    ensures RightSpine(rs + [b])
  {
    assert (rs + [b])[..|rs|] == rs;
  }

  /** Hanging a linked tree on the loose end closes the left partial tree. */
  lemma {:induction false} CloseLeft(ls: seq<Limb<Ival>>, t: Tree<Ival>)
    requires ls != [] && ProperLimbs(ls) && LeftSpine(ls)
    requires Linked(ls[|ls| - 1].elem.right, t)
    ensures Linked(ls[0].elem, BuildLeft(ls, t))
    decreases |ls|
  {
    var n := |ls| - 1;
    var u := Node(ls[n].sub, ls[n].elem, t);
    assert Linked(ls[n].elem, u);
    if n == 0 {
      assert BuildLeft(ls[..0], u) == u;
    } else {
      CloseLeft(ls[..n], u);
    }
  }

  lemma {:induction false} CloseRight(rs: seq<Limb<Ival>>, t: Tree<Ival>)
    requires rs != [] && ProperLimbs(rs) && RightSpine(rs)
    requires Linked(rs[|rs| - 1].elem.left, t)
    ensures Linked(rs[0].elem, BuildRight(rs, t))
    decreases |rs|
  {
    var n := |rs| - 1;
    var u := Node(t, rs[n].elem, rs[n].sub);
    assert Linked(rs[n].elem, u);
    if n == 0 {
      assert BuildRight(rs[..0], u) == u;
    } else {
      CloseRight(rs[..n], u);
    }
  }

  lemma {:induction false} BuildLeftProper(ls: seq<Limb<Ival>>, t: Tree<Ival>)
    requires ProperLimbs(ls) && Proper(t) && LimbElems(ls) !! Elems(t)
    ensures Proper(BuildLeft(ls, t)) && Elems(BuildLeft(ls, t)) == LimbElems(ls) + Elems(t)
    decreases |ls|
  {
    if ls != [] {
      var n := |ls| - 1;
      BuildLeftProper(ls[..n], Node(ls[n].sub, ls[n].elem, t));
    }
  }

  lemma {:induction false} BuildRightProper(rs: seq<Limb<Ival>>, t: Tree<Ival>)
    requires ProperLimbs(rs) && Proper(t) && LimbElems(rs) !! Elems(t)
    ensures Proper(BuildRight(rs, t)) && Elems(BuildRight(rs, t)) == LimbElems(rs) + Elems(t)
    decreases |rs|
  {
    if rs != [] {
      var n := |rs| - 1;
      BuildRightProper(rs[..n], Node(t, rs[n].elem, rs[n].sub));
    }
  }

  /** The in-order sequence lists nodes of the tree, */
  lemma {:induction false} InorderElems(t: Tree<Ival>)
    ensures forall i :: 0 <= i < |Inorder(t)| ==> Inorder(t)[i] in Elems(t)
  {
    if t.Node? {
      InorderElems(t.left);
      InorderElems(t.right);
    }
  }

  /** none of them twice. */
  lemma {:induction false} InorderInjective(t: Tree<Ival>)
    requires Proper(t)
    ensures forall i, j :: 0 <= i < j < |Inorder(t)| ==> Inorder(t)[i] != Inorder(t)[j]
  {
    if t.Node? {
      InorderElems(t.left);
      InorderElems(t.right);
      InorderInjective(t.left);
      InorderInjective(t.right);
    }
  }
}
