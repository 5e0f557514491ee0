/** The in-place splay tree of lib/src/tree.h over interval nodes. */
module SplayTree {
  import opened SplayShape
  import opened Nodes
  import opened Ivals

  /** The heap in the middle of a splay: `dummy` is the stack node, `l` and `r`
      the loose ends of the two partial trees. */
  ghost predicate Spread(root: Ival?, dummy: Ival, l: Ival, r: Ival, z: Zipper<Ival>)
    reads dummy`left, dummy`right, ZipElems(z)`left, ZipElems(z)`right
  {
    && ProperZip(z) && dummy !in ZipElems(z)
    && Linked(root, z.mid) && LeftSpine(z.left) && RightSpine(z.right)
    && l == (if z.left == [] then dummy else z.left[|z.left| - 1].elem)
    && r == (if z.right == [] then dummy else z.right[|z.right| - 1].elem)
    && (z.left != [] ==> dummy.right == z.left[0].elem)
    && (z.right != [] ==> dummy.left == z.right[0].elem)
  }

  method LinkLeftStep(root: Ival, dummy: Ival, l: Ival, r: Ival, ghost z: Zipper<Ival>)
    returns (root': Ival?, r': Ival)
    requires z.mid.Node? && Spread(root, dummy, l, r, z)
    modifies r`left
    ensures Spread(root', dummy, l, r', LinkLeft(z))
  {
    LinkLeftProper(z);
    LastLimb(z.right);
    assert r !in Elems(z.mid) && r !in LimbElems(z.left);
    r.left := root;
    r' := root;
    root' := root.left;
    ExtendRight(z.right, Limb(z.mid.elem, z.mid.right));
  }

  method LinkRightStep(root: Ival, dummy: Ival, l: Ival, r: Ival, ghost z: Zipper<Ival>)
    returns (root': Ival?, l': Ival)
    requires z.mid.Node? && Spread(root, dummy, l, r, z)
    modifies l`right
    ensures Spread(root', dummy, l', r, LinkRight(z))
  {
    LinkRightProper(z);
    LastLimb(z.left);
    assert l !in Elems(z.mid) && l !in LimbElems(z.right);
    l.right := root;
    l' := root;
    root' := root.right;
    ExtendLeft(z.left, Limb(z.mid.elem, z.mid.left));
  }

  /** splay_rotate_right */
  method RotateRightNode(root: Ival, tmp: Ival, ghost t: Tree<Ival>)
    requires t.Node? && t.left.Node? && Proper(t) && Linked(root, t) && tmp == root.left
    modifies root`left, tmp`right
    ensures Linked(tmp, RotateRight(t))
  {
    assert Linked(tmp, t.left);
    assert Linked(tmp.left, t.left.left) && Linked(tmp.right, t.left.right) && Linked(root.right, t.right);
    root.left := tmp.right;
    tmp.right := root;
  }

  /** splay_rotate_left */
  method RotateLeftNode(root: Ival, tmp: Ival, ghost t: Tree<Ival>)
    requires t.Node? && t.right.Node? && Proper(t) && Linked(root, t) && tmp == root.right
    modifies root`right, tmp`left
    ensures Linked(tmp, RotateLeft(t))
  {
    assert Linked(tmp, t.right);
    assert Linked(tmp.left, t.right.left) && Linked(tmp.right, t.right.right) && Linked(root.left, t.left);
    root.right := tmp.left;
    tmp.left := root;
  }

  method RotateRightStep(root: Ival, tmp: Ival, dummy: Ival, l: Ival, r: Ival, ghost z: Zipper<Ival>)
    requires z.mid.Node? && z.mid.left.Node? && Spread(root, dummy, l, r, z) && tmp == root.left
    modifies root`left, tmp`right
    ensures Spread(tmp, dummy, l, r, z.(mid := RotateRight(z.mid)))
  {
    assert Linked(tmp, z.mid.left);
    assert root in Elems(z.mid) && tmp in Elems(z.mid);
    assert root !in LimbElems(z.left) && root !in LimbElems(z.right) && root != dummy;
    assert tmp !in LimbElems(z.left) && tmp !in LimbElems(z.right) && tmp != dummy;
    assert LeftSpine(z.left) && RightSpine(z.right);
    assert allocated(LimbElems(z.left)) && allocated(LimbElems(z.right));
    RotateRightZip(z);
    RotateRightNode(root, tmp, z.mid);
  }

  method RotateLeftStep(root: Ival, tmp: Ival, dummy: Ival, l: Ival, r: Ival, ghost z: Zipper<Ival>)
    requires z.mid.Node? && z.mid.right.Node? && Spread(root, dummy, l, r, z) && tmp == root.right
    modifies root`right, tmp`left
    ensures Spread(tmp, dummy, l, r, z.(mid := RotateLeft(z.mid)))
  {
    assert Linked(tmp, z.mid.right);
    assert root in Elems(z.mid) && tmp in Elems(z.mid);
    assert root !in LimbElems(z.left) && root !in LimbElems(z.right) && root != dummy;
    assert tmp !in LimbElems(z.left) && tmp !in LimbElems(z.right) && tmp != dummy;
    assert LeftSpine(z.left) && RightSpine(z.right);
    assert allocated(LimbElems(z.left)) && allocated(LimbElems(z.right));
    RotateLeftZip(z);
    RotateLeftNode(root, tmp, z.mid);
  }

  /** The left partial tree closed with the left child of the root. */
  method HangLeft(root: Ival, dummy: Ival, l: Ival, r: Ival, ghost z: Zipper<Ival>)
    requires z.mid.Node? && Spread(root, dummy, l, r, z)
    modifies l`right
    ensures Linked(dummy.right, BuildLeft(z.left, z.mid.left))
    ensures Linked(root, z.mid) && RightSpine(z.right) && (z.right != [] ==> dummy.left == z.right[0].elem)
  {
    LastLimb(z.left);
    assert l !in Elems(z.mid) && l !in LimbElems(z.right);
    l.right := root.left;
    assert LeftSpine(z.left) && Linked(l.right, z.mid.left);
    if z.left != [] { CloseLeft(z.left, z.mid.left); }
  }

  /** Both partial trees closed with the children of the root. */
  method HangBoth(root: Ival, dummy: Ival, l: Ival, r: Ival, ghost z: Zipper<Ival>)
    requires z.mid.Node? && Spread(root, dummy, l, r, z)
    modifies l`right, r`left
    ensures Linked(dummy.right, Assemble(z).left) && Linked(dummy.left, Assemble(z).right)
    ensures Proper(Assemble(z)) && Elems(Assemble(z)) == ZipElems(z)
  {
    AssembleProper(z);
    LastLimb(z.right);
    assert r !in Elems(z.mid) && r !in LimbElems(z.left);
    HangLeft(root, dummy, l, r, z);
    HangRight(root, dummy, r, z);
  }

  /** The right partial tree closed with the right child of the root, the left one being
      closed already. */
  method HangRight(root: Ival, dummy: Ival, r: Ival, ghost z: Zipper<Ival>)
    requires z.mid.Node? && Linked(root, z.mid) && ProperZip(z) && RightSpine(z.right)
    requires r == (if z.right == [] then dummy else z.right[|z.right| - 1].elem) && dummy !in ZipElems(z)
    requires z.right != [] ==> dummy.left == z.right[0].elem
    requires Linked(dummy.right, BuildLeft(z.left, z.mid.left))
    requires Elems(BuildLeft(z.left, z.mid.left)) == LimbElems(z.left) + Elems(z.mid.left)
    modifies r`left
    ensures Linked(dummy.right, BuildLeft(z.left, z.mid.left)) && Linked(dummy.left, BuildRight(z.right, z.mid.right))
  {
    LastLimb(z.right);
    assert r !in Elems(z.mid) && r !in LimbElems(z.left);
    r.left := root.right;
    assert RightSpine(z.right) && Linked(r.left, z.mid.right);
    if z.right != [] { CloseRight(z.right, z.mid.right); }
  }

  /** splay_assemble */
  method AssembleStep(root: Ival, dummy: Ival, l: Ival, r: Ival, ghost z: Zipper<Ival>)
    requires z.mid.Node? && Spread(root, dummy, l, r, z)
    modifies l`right, r`left, root`left, root`right
    ensures Linked(root, Assemble(z)) && Proper(Assemble(z)) && Elems(Assemble(z)) == ZipElems(z)
  {
    HangBoth(root, dummy, l, r, z);
    root.left := dummy.right;
    root.right := dummy.left;
  }

  /** The comparison of the key [lo..hi] with the nodes of `t`, as a function. */
  ghost function Probe(t: Tree<Ival>, lo: nat, hi: nat): (c: Ival -> int)
    reads Elems(t)`lo, Elems(t)`hi
    ensures Agrees(c, Elems(t), lo, hi)
  {
    var keys := map x | x in Elems(t) :: (x.lo, x.hi);
    (x: Ival) => if x in keys then IvalCmp(lo, hi, keys[x].0, keys[x].1) else 0
  }

  ghost predicate Agrees(c: Ival -> int, nodes: set<Ival>, lo: nat, hi: nat)
    reads nodes`lo, nodes`hi
  {
    forall x :: x in nodes ==> c(x) == IvalCmp(lo, hi, x.lo, x.hi)
  }

  /** The branch of the splay loop for a key below the root. */
  method GoLeft(root: Ival, tmp: Ival, comp: int, dummy: Ival, l: Ival, r: Ival,
                ghost z: Zipper<Ival>, ghost c: Ival -> int)
    returns (stop: bool, root': Ival, r': Ival)
    requires z.mid.Node? && z.mid.left.Node? && Spread(root, dummy, l, r, z) && tmp == root.left
    requires c(tmp) == comp
    modifies root`left, tmp`right, r`left
    ensures stop == TurnLeft(c, z).mid.left.Leaf?
    ensures Spread(root', dummy, l, r', if stop then TurnLeft(c, z) else LinkLeft(TurnLeft(c, z)))
  {
    assert Linked(tmp, z.mid.left);
    root', r' := root, r;
    if comp < 0 {
      RotateRightStep(root, tmp, dummy, l, r, z);
      root' := tmp;
      assert Linked(root'.left, RotateRight(z.mid).left);
      if root'.left == null { return true, root', r'; }
    }
    root', r' := LinkLeftStep(root', dummy, l, r, TurnLeft(c, z));
    stop := false;
  }

  /** The branch of the splay loop for a key above the root. */
  method GoRight(root: Ival, tmp: Ival, comp: int, dummy: Ival, l: Ival, r: Ival,
                 ghost z: Zipper<Ival>, ghost c: Ival -> int)
    returns (stop: bool, root': Ival, l': Ival)
    requires z.mid.Node? && z.mid.right.Node? && Spread(root, dummy, l, r, z) && tmp == root.right
    requires c(tmp) == comp
    modifies root`right, tmp`left, l`right
    ensures stop == TurnRight(c, z).mid.right.Leaf?
    ensures Spread(root', dummy, l', r, if stop then TurnRight(c, z) else LinkRight(TurnRight(c, z)))
  {
    assert Linked(tmp, z.mid.right);
    root', l' := root, l;
    if comp > 0 {
      RotateLeftStep(root, tmp, dummy, l, r, z);
      root' := tmp;
      assert Linked(root'.right, RotateLeft(z.mid).right);
      if root'.right == null { return true, root', l'; }
    }
    root', l' := LinkRightStep(root', dummy, l, r, TurnRight(c, z));
    stop := false;
  }

  lemma LooseEnds(root: Ival, dummy: Ival, l: Ival, r: Ival, z: Zipper<Ival>)
    requires z.mid.Node? && Spread(root, dummy, l, r, z)
    ensures root == z.mid.elem && root in ZipElems(z)
    ensures (l == dummy || l in ZipElems(z)) && (r == dummy || r in ZipElems(z))
    ensures Linked(root.left, z.mid.left) && Linked(root.right, z.mid.right)
    ensures Elems(z.mid.left) <= ZipElems(z) && Elems(z.mid.right) <= ZipElems(z)
  {
    LastLimb(z.left);
    LastLimb(z.right);
  }

  /** One round of the splay loop to the left, with the zipper it reaches. */
  method RoundLeft(root: Ival, tmp: Ival, comp: int, dummy: Ival, l: Ival, r: Ival,
                   ghost z: Zipper<Ival>, ghost c: Ival -> int)
    returns (stop: bool, root': Ival, r': Ival, ghost z': Zipper<Ival>)
    requires z.mid.Node? && z.mid.left.Node? && Spread(root, dummy, l, r, z) && tmp == root.left
    requires c(root) < 0 && c(tmp) == comp
    modifies root`left, tmp`right, r`left
    ensures z'.mid.Node? && Spread(root', dummy, l, r', z') && ZipElems(z') == ZipElems(z)
    ensures Descend(c, z') == Descend(c, z)
    ensures if stop then Descend(c, z') == z' else z'.mid < z.mid
  {
    DescendLeft(c, z);
    TurnLeftProper(c, z);
    stop, root', r' := GoLeft(root, tmp, comp, dummy, l, r, z, c);
    z' := if stop then TurnLeft(c, z) else LinkLeft(TurnLeft(c, z));
  }

  /** One round of the splay loop to the right. */
  method RoundRight(root: Ival, tmp: Ival, comp: int, dummy: Ival, l: Ival, r: Ival,
                    ghost z: Zipper<Ival>, ghost c: Ival -> int)
    returns (stop: bool, root': Ival, l': Ival, ghost z': Zipper<Ival>)
    requires z.mid.Node? && z.mid.right.Node? && Spread(root, dummy, l, r, z) && tmp == root.right
    requires c(root) > 0 && c(tmp) == comp
    modifies root`right, tmp`left, l`right
    ensures z'.mid.Node? && Spread(root', dummy, l', r, z') && ZipElems(z') == ZipElems(z)
    ensures Descend(c, z') == Descend(c, z)
    ensures if stop then Descend(c, z') == z' else z'.mid < z.mid
  {
    DescendRight(c, z);
    TurnRightProper(c, z);
    stop, root', l' := GoRight(root, tmp, comp, dummy, l, r, z, c);
    z' := if stop then TurnRight(c, z) else LinkRight(TurnRight(c, z));
  }

  /** The loop of name##_splay. */
  method SplayLoop(root0: Ival, dummy: Ival, lo: nat, hi: nat, ghost t: Tree<Ival>, ghost c: Ival -> int)
    returns (root: Ival, l: Ival, r: Ival, ghost z: Zipper<Ival>)
    requires t.Node? && Spread(root0, dummy, dummy, dummy, Zipper([], t, []))
    requires Agrees(c, Elems(t), lo, hi)
    modifies dummy`left, dummy`right, Elems(t)`left, Elems(t)`right
    ensures z.mid.Node? && Spread(root, dummy, l, r, z) && ZipElems(z) == Elems(t)
    ensures z == Descend(c, Zipper([], t, []))
  {
    root, l, r, z := root0, dummy, dummy, Zipper([], t, []);
    assert allocated(Elems(t));
    var stop := false;
    while !stop
      invariant z.mid.Node? && Spread(root, dummy, l, r, z)
      invariant ZipElems(z) == Elems(t) && Agrees(c, Elems(t), lo, hi)
      invariant Descend(c, z) == Descend(c, Zipper([], t, []))
      invariant stop ==> Descend(c, z) == z
      decreases !stop, z.mid
    {
      LooseEnds(root, dummy, l, r, z);
      var comp := IvalCmp(lo, hi, root.lo, root.hi);
      assert c(root) == comp;
      var tmp := if comp < 0 then root.left else root.right;
      if comp == 0 || tmp == null { return; }
      assert tmp in Elems(t);
      if comp < 0 {
        stop, root, r, z := RoundLeft(root, tmp, IvalCmp(lo, hi, tmp.lo, tmp.hi), dummy, l, r, z, c);
      } else {
        stop, root, l, z := RoundRight(root, tmp, IvalCmp(lo, hi, tmp.lo, tmp.hi), dummy, l, r, z, c);
      }
    }
  }

  /** name##_splay */
  method Splay(root0: Ival, lo: nat, hi: nat, ghost t: Tree<Ival>) returns (root: Ival, ghost t': Tree<Ival>)
    requires t.Node? && Proper(t) && Linked(root0, t)
    modifies Elems(t)`left, Elems(t)`right
    ensures t' == Splayed(old(Probe(t, lo, hi)), t)
    ensures Proper(t') && Linked(root, t') && Elems(t') == Elems(t)
  {
    ghost var c := Probe(t, lo, hi);
    assert allocated(Elems(t));
    var dummy := new Ival(0, 0);
    var l, r;
    ghost var z;
    root, l, r, z := SplayLoop(root0, dummy, lo, hi, t, c);
    LooseEnds(root, dummy, l, r, z);
    AssembleStep(root, dummy, l, r, z);
    t' := Assemble(z);
  }

  /** The loop of name##_splay_minmax: the same steps with a fixed comparison. */
  method MinMaxLoop(root0: Ival, dummy: Ival, comp: int, ghost t: Tree<Ival>)
    returns (root: Ival, l: Ival, r: Ival, ghost z: Zipper<Ival>)
    requires comp != 0
    requires t.Node? && Spread(root0, dummy, dummy, dummy, Zipper([], t, []))
    modifies dummy`left, dummy`right, Elems(t)`left, Elems(t)`right
    ensures z.mid.Node? && Spread(root, dummy, l, r, z) && ZipElems(z) == Elems(t)
    ensures z == Descend(_ => comp, Zipper([], t, []))
  {
    root, l, r, z := root0, dummy, dummy, Zipper([], t, []);
    ghost var c := (_: Ival) => comp;
    var stop := false;
    while !stop
      invariant z.mid.Node? && Spread(root, dummy, l, r, z)
      invariant ZipElems(z) == Elems(t)
      invariant Descend(c, z) == Descend(c, Zipper([], t, []))
      invariant stop ==> Descend(c, z) == z
      decreases !stop, z.mid
    {
      LooseEnds(root, dummy, l, r, z);
      var tmp := if comp < 0 then root.left else root.right;
      if tmp == null { return; }
      if comp < 0 {
        stop, root, r, z := RoundLeft(root, tmp, comp, dummy, l, r, z, c);
      } else {
        stop, root, l, z := RoundRight(root, tmp, comp, dummy, l, r, z, c);
      }
    }
  }

  /** name##_splay_minmax */
  method SplayMinMax(root0: Ival, comp: int, ghost t: Tree<Ival>) returns (root: Ival, ghost t': Tree<Ival>)
    requires comp != 0
    requires t.Node? && Proper(t) && Linked(root0, t)
    modifies Elems(t)`left, Elems(t)`right
    ensures t' == Splayed(_ => comp, t)
    ensures Proper(t') && Linked(root, t') && Elems(t') == Elems(t)
  {
    assert allocated(Elems(t));
    var dummy := new Ival(0, 0);
    var l, r;
    ghost var z;
    root, l, r, z := MinMaxLoop(root0, dummy, comp, t);
    LooseEnds(root, dummy, l, r, z);
    AssembleStep(root, dummy, l, r, z);
    t' := Assemble(z);
  }

  /** One step down a right spine. */
  lemma WalkRight(n: Ival, z: Zipper<Ival>)
    requires z.mid.Node? && ProperZip(z) && Linked(n, z.mid) && LeftSpine(z.left)
    requires z.left != [] ==> z.left[|z.left| - 1].elem.right == n
    ensures var z' := LinkRight(z);
            && ProperZip(z') && ZipElems(z') == ZipElems(z) && Flat(z') == Flat(z)
            && Linked(n.right, z'.mid) && LeftSpine(z'.left)
  {
    LinkRightProper(z);
    LinkRightFlat(z);
    ExtendLeft(z.left, Limb(z.mid.elem, z.mid.left));
  }

  /** One step down a left spine. */
  lemma WalkLeft(n: Ival, z: Zipper<Ival>)
    requires z.mid.Node? && ProperZip(z) && Linked(n, z.mid) && RightSpine(z.right)
    requires z.right != [] ==> z.right[|z.right| - 1].elem.left == n
    ensures var z' := LinkLeft(z);
            && ProperZip(z') && ZipElems(z') == ZipElems(z) && Flat(z') == Flat(z)
            && Linked(n.left, z'.mid) && RightSpine(z'.right)
  {
    LinkLeftProper(z);
    LinkLeftFlat(z);
    ExtendRight(z.right, Limb(z.mid.elem, z.mid.right));
  }

  /** `ls` is the right spine from `p`, the root of `t`, down to its last node `n`. */
  ghost predicate MaxSpine(n: Ival, ls: seq<Limb<Ival>>, p: Ival?, t: Tree<Ival>)
    reads LimbElems(ls)`left, LimbElems(ls)`right
  {
    && ls != [] && ProperLimbs(ls) && LeftSpine(ls) && LimbElems(ls) == Elems(t)
    && ls[0].elem == p && ls[|ls| - 1].elem == n && FlatLeft(ls) == Inorder(t)
  }

  /** `rs` is the left spine from `p`, the root of `t`, down to its first node `n`. */
  ghost predicate MinSpine(n: Ival, rs: seq<Limb<Ival>>, p: Ival?, t: Tree<Ival>)
    reads LimbElems(rs)`left, LimbElems(rs)`right
  {
    && rs != [] && ProperLimbs(rs) && RightSpine(rs) && LimbElems(rs) == Elems(t)
    && rs[0].elem == p && rs[|rs| - 1].elem == n && FlatRight(rs) == Inorder(t)
  }

  /** The walk along right links from `p`, the root of `t`, has come to `n`. */
  ghost predicate RightWalk(n: Ival, p: Ival, z: Zipper<Ival>, t: Tree<Ival>)
    reads ZipElems(z)`left, ZipElems(z)`right
  {
    && z.mid.Node? && ProperZip(z) && ZipElems(z) == Elems(t) && Flat(z) == Inorder(t) && z.right == []
    && Linked(n, z.mid) && LeftSpine(z.left)
    && if z.left == [] then n == p else z.left[0].elem == p && z.left[|z.left| - 1].elem.right == n
  }

  lemma RightWalkStep(n: Ival, p: Ival, z: Zipper<Ival>, t: Tree<Ival>)
    requires RightWalk(n, p, z, t) && n.right != null
    ensures RightWalk(n.right, p, LinkRight(z), t)
  {
    WalkRight(n, z);
  }

  lemma RightWalkEnd(n: Ival, p: Ival, z: Zipper<Ival>, t: Tree<Ival>)
    requires RightWalk(n, p, z, t) && n.right == null
    ensures MaxSpine(n, LinkRight(z).left, p, t)
  {
    WalkRight(n, z);
    var ls := LinkRight(z).left;
    assert LinkRight(z).mid == Leaf && Flat(LinkRight(z)) == FlatLeft(ls) + [] + [] == FlatLeft(ls);
  }

  /** find_max: walk right links; the spine walked is returned for surgery. */
  method FindMax(p: Ival, ghost t: Tree<Ival>) returns (n: Ival, ghost ls: seq<Limb<Ival>>)
    requires t.Node? && Proper(t) && Linked(p, t)
    ensures MaxSpine(n, ls, p, t) && n.right == null
  {
    n := p;
    ghost var z := Zipper([], t, []);
    assert Flat(z) == [] + Inorder(t) + [] == Inorder(t);
    while n.right != null
      invariant RightWalk(n, p, z, t)
      decreases z.mid
    {
      RightWalkStep(n, p, z, t);
      n, z := n.right, LinkRight(z);
    }
    RightWalkEnd(n, p, z, t);
    ls := LinkRight(z).left;
  }

  /** The walk along left links from `p`, the root of `t`, has come to `n`. */
  ghost predicate LeftWalk(n: Ival, p: Ival, z: Zipper<Ival>, t: Tree<Ival>)
    reads ZipElems(z)`left, ZipElems(z)`right
  {
    && z.mid.Node? && ProperZip(z) && ZipElems(z) == Elems(t) && Flat(z) == Inorder(t) && z.left == []
    && Linked(n, z.mid) && RightSpine(z.right)
    && if z.right == [] then n == p else z.right[0].elem == p && z.right[|z.right| - 1].elem.left == n
  }

  lemma LeftWalkStep(n: Ival, p: Ival, z: Zipper<Ival>, t: Tree<Ival>)
    requires LeftWalk(n, p, z, t) && n.left != null
    ensures LeftWalk(n.left, p, LinkLeft(z), t)
  {
    WalkLeft(n, z);
  }

  lemma LeftWalkEnd(n: Ival, p: Ival, z: Zipper<Ival>, t: Tree<Ival>)
    requires LeftWalk(n, p, z, t) && n.left == null
    ensures MinSpine(n, LinkLeft(z).right, p, t)
  {
    WalkLeft(n, z);
    var rs := LinkLeft(z).right;
    assert LinkLeft(z).mid == Leaf && Flat(LinkLeft(z)) == [] + [] + FlatRight(rs) == FlatRight(rs);
  }

  /** find_min */
  method FindMin(p: Ival, ghost t: Tree<Ival>) returns (n: Ival, ghost rs: seq<Limb<Ival>>)
    requires t.Node? && Proper(t) && Linked(p, t)
    ensures MinSpine(n, rs, p, t) && n.left == null
  {
    n := p;
    ghost var z := Zipper([], t, []);
    assert Flat(z) == [] + Inorder(t) + [] == Inorder(t);
    while n.left != null
      invariant LeftWalk(n, p, z, t)
      decreases z.mid
    {
      LeftWalkStep(n, p, z, t);
      n, z := n.left, LinkLeft(z);
    }
    LeftWalkEnd(n, p, z, t);
    rs := LinkLeft(z).right;
  }

  /** Hang the tree at `p` below the last node of a tree walked by FindMax. */
  method HangBelowMax(max: Ival, p: Ival?, ghost ls: seq<Limb<Ival>>, ghost t: Tree<Ival>)
    requires ls != [] && ProperLimbs(ls) && LeftSpine(ls) && max == ls[|ls| - 1].elem
    requires Proper(t) && Linked(p, t) && LimbElems(ls) !! Elems(t)
    modifies max`right
    ensures Linked(ls[0].elem, BuildLeft(ls, t)) && Proper(BuildLeft(ls, t))
    ensures Elems(BuildLeft(ls, t)) == LimbElems(ls) + Elems(t)
  {
    LastLimb(ls);
    max.right := p;
    CloseLeft(ls, t);
    BuildLeftProper(ls, t);
  }

  /** Hang the tree at `p` below the first node of a tree walked by FindMin. */
  method HangBelowMin(min: Ival, p: Ival?, ghost rs: seq<Limb<Ival>>, ghost t: Tree<Ival>)
    requires rs != [] && ProperLimbs(rs) && RightSpine(rs) && min == rs[|rs| - 1].elem
    requires Proper(t) && Linked(p, t) && LimbElems(rs) !! Elems(t)
    modifies min`left
    ensures Linked(rs[0].elem, BuildRight(rs, t)) && Proper(BuildRight(rs, t))
    ensures Elems(BuildRight(rs, t)) == LimbElems(rs) + Elems(t)
  {
    LastLimb(rs);
    min.left := p;
    CloseRight(rs, t);
    BuildRightProper(rs, t);
  }

  lemma InsertedAt<T>(a: seq<T>, x: T, b: seq<T>, e: T)
    ensures a + [e] + ([x] + b) == (a + [x] + b)[..|a|] + [e] + (a + [x] + b)[|a|..]
    ensures (a + [x]) + [e] + b == (a + [x] + b)[..|a| + 1] + [e] + (a + [x] + b)[|a| + 1..]
  {
    var s := a + [x] + b;
    assert s[..|a|] == a && s[|a|..] == [x] + b;
    assert s[..|a| + 1] == a + [x] && s[|a| + 1..] == b;
  }

  lemma InsertLeftShape(elm: Ival, t: Tree<Ival>)
    requires t.Node?
    ensures Inorder(Node(t.left, elm, Node(Leaf, t.elem, t.right)))
         == Inorder(t)[..|Inorder(t.left)|] + [elm] + Inorder(t)[|Inorder(t.left)|..]
  {
    InsertedAt(Inorder(t.left), t.elem, Inorder(t.right), elm);
    assert Inorder(Node(Leaf, t.elem, t.right)) == [t.elem] + Inorder(t.right);
  }

  lemma InsertRightShape(elm: Ival, t: Tree<Ival>)
    requires t.Node?
    ensures Inorder(Node(Node(t.left, t.elem, Leaf), elm, t.right))
         == Inorder(t)[..|Inorder(t.left)| + 1] + [elm] + Inorder(t)[|Inorder(t.left)| + 1..]
  {
    InsertedAt(Inorder(t.left), t.elem, Inorder(t.right), elm);
    assert Inorder(Node(t.left, t.elem, Leaf)) == Inorder(t.left) + [t.elem];
  }

  /** The relinking of name##_splay_insert below a root that compares greater. */
  method InsertLeft(elm: Ival, root: Ival, ghost t: Tree<Ival>) returns (ghost t': Tree<Ival>)
    requires t.Node? && Proper(t) && Linked(root, t) && elm !in Elems(t)
    modifies elm`left, elm`right, root`left
    ensures Linked(elm, t') && Proper(t') && Elems(t') == Elems(t) + {elm}
    ensures Inorder(t') == Inorder(t)[..|Inorder(t.left)|] + [elm] + Inorder(t)[|Inorder(t.left)|..]
  {
    t' := Node(t.left, elm, Node(Leaf, t.elem, t.right));
    InsertLeftShape(elm, t);
    assert Linked(root.left, t.left) && Linked(root.right, t.right);
    elm.left := root.left;
    elm.right := root;
    root.left := null;
  }

  /** The relinking of name##_splay_insert above a root that compares smaller. */
  method InsertRight(elm: Ival, root: Ival, ghost t: Tree<Ival>) returns (ghost t': Tree<Ival>)
    requires t.Node? && Proper(t) && Linked(root, t) && elm !in Elems(t)
    modifies elm`left, elm`right, root`right
    ensures Linked(elm, t') && Proper(t') && Elems(t') == Elems(t) + {elm}
    ensures Inorder(t') == Inorder(t)[..|Inorder(t.left)| + 1] + [elm] + Inorder(t)[|Inorder(t.left)| + 1..]
  {
    t' := Node(Node(t.left, t.elem, Leaf), elm, t.right);
    InsertRightShape(elm, t);
    assert Linked(root.left, t.left) && Linked(root.right, t.right);
    elm.right := root.right;
    elm.left := root;
    root.right := null;
  }

  /** The part of name##_splay_remove after the node has been brought to the root. */
  method RemoveRoot(x: Ival, lo: nat, hi: nat, ghost t: Tree<Ival>, ghost c: Ival -> int)
    returns (root: Ival?, ghost t': Tree<Ival>)
    requires t.Node? && Proper(t) && Linked(x, t)
    requires c == Probe(t.left, lo, hi)
    requires t.left.Node? ==> Splayed(c, t.left).right == Leaf
    requires t.left.Node? ==> Inorder(Splayed(c, t.left).left) + [Splayed(c, t.left).elem] == Inorder(t.left)
    modifies Elems(t.left)`left, Elems(t.left)`right
    ensures Proper(t') && Linked(root, t') && Elems(t') == Elems(t) - {x}
    ensures Inorder(t') == Inorder(t.left) + Inorder(t.right)
    ensures t.left.Node? ==> t'.Node? && |Inorder(t'.left)| + 1 == |Inorder(t.left)|
  {
    if x.left == null {
      root, t' := x.right, t.right;
    } else {
      var tmp := x.right;
      assert Linked(tmp, t.right) && allocated(Elems(t.right));
      var r;
      ghost var u;
      r, u := Splay(x.left, lo, hi, t.left);
      assert u.right == Leaf && Linked(tmp, t.right);
      r.right := tmp;
      root, t' := r, Node(u.left, u.elem, t.right);
    }
  }
}
