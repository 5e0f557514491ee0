/** The top-down splay of lib/src/tree.h on tree values.

    `Splay` follows the loop of the C macro branch by branch: the middle tree is
    what hangs below `sph_root`, and the two limb lists are the partial trees the
    loop grows from its stack node.  The pointer code in SplayTree.dfy is proved to
    compute exactly this function, so what is proved here holds for it too. */
module SplayShape {

  datatype Tree<T> = Leaf | Node(left: Tree<T>, elem: T, right: Tree<T>)

  function Inorder<T>(t: Tree<T>): (s: seq<T>)
  {
    match t
    case Leaf => []
    case Node(l, x, r) => Inorder(l) + [x] + Inorder(r)
  }

  /** A node that has been cut off with one subtree; its other child pointer
      leads to the next limb. */
  datatype Limb<T> = Limb(elem: T, sub: Tree<T>)

  /** In-order elements of the left partial tree, innermost limb last. */
  function FlatLeft<T>(ls: seq<Limb<T>>): (s: seq<T>)
  {
    if ls == [] then []
    else
      var last := ls[|ls| - 1];
      FlatLeft(ls[..|ls| - 1]) + Inorder(last.sub) + [last.elem]
  }

  /** In-order elements of the right partial tree, innermost limb last. */
  function FlatRight<T>(rs: seq<Limb<T>>): (s: seq<T>)
  {
    if rs == [] then []
    else
      var last := rs[|rs| - 1];
      [last.elem] + Inorder(last.sub) + FlatRight(rs[..|rs| - 1])
  }

  /** Close the left partial tree by hanging `t` at the end of its right spine. */
  function BuildLeft<T>(ls: seq<Limb<T>>, t: Tree<T>): (r: Tree<T>)
  {
    if ls == [] then t
    else
      var last := ls[|ls| - 1];
      BuildLeft(ls[..|ls| - 1], Node(last.sub, last.elem, t))
  }

  /** Close the right partial tree by hanging `t` at the end of its left spine. */
  function BuildRight<T>(rs: seq<Limb<T>>, t: Tree<T>): (r: Tree<T>)
  {
    if rs == [] then t
    else
      var last := rs[|rs| - 1];
      BuildRight(rs[..|rs| - 1], Node(t, last.elem, last.sub))
  }

  /** The state of the splay loop. */
  datatype Zipper<T> = Zipper(left: seq<Limb<T>>, mid: Tree<T>, right: seq<Limb<T>>)

  function Flat<T>(z: Zipper<T>): (s: seq<T>)
  {
    FlatLeft(z.left) + Inorder(z.mid) + FlatRight(z.right)
  }

  /** splay_rotate_right */
  function RotateRight<T>(t: Tree<T>): (r: Tree<T>)
    requires t.Node? && t.left.Node?
  {
    Node(t.left.left, t.left.elem, Node(t.left.right, t.elem, t.right))
  }

  /** splay_rotate_left */
  function RotateLeft<T>(t: Tree<T>): (r: Tree<T>)
    requires t.Node? && t.right.Node?
  {
    Node(Node(t.left, t.elem, t.right.left), t.right.elem, t.right.right)
  }

  /** splay_linkleft */
  function LinkLeft<T>(z: Zipper<T>): (r: Zipper<T>)
    requires z.mid.Node?
  {
    Zipper(z.left, z.mid.left, z.right + [Limb(z.mid.elem, z.mid.right)])
  }

  /** splay_linkright */
  function LinkRight<T>(z: Zipper<T>): (r: Zipper<T>)
    requires z.mid.Node?
  {
    Zipper(z.left + [Limb(z.mid.elem, z.mid.left)], z.mid.right, z.right)
  }

  /** splay_assemble */
  function Assemble<T>(z: Zipper<T>): (r: Tree<T>)
    requires z.mid.Node?
  {
    Node(BuildLeft(z.left, z.mid.left), z.mid.elem, BuildRight(z.right, z.mid.right))
  }

  /** The loop of name##_splay, stopping where the C loop stops.  `c` gives the
      sign of comparing the searched key with each element. */
  ghost function Descend<T>(c: T -> int, z: Zipper<T>): (r: Zipper<T>)
    requires z.mid.Node?
    ensures r.mid.Node?
    decreases z.mid
  {
    var t := z.mid;
    if c(t.elem) == 0 then z
    else if c(t.elem) < 0 then
      if t.left.Leaf? then z
      else if c(t.left.elem) < 0 then
        var z' := z.(mid := RotateRight(t));
        if z'.mid.left.Leaf? then z' else Descend(c, LinkLeft(z'))
      else Descend(c, LinkLeft(z))
    else
      if t.right.Leaf? then z
      else if c(t.right.elem) > 0 then
        var z' := z.(mid := RotateLeft(t));
        if z'.mid.right.Leaf? then z' else Descend(c, LinkRight(z'))
      else Descend(c, LinkRight(z))
  }

  /** The zipper after the optional rotation of a step to the left. */
  ghost function TurnLeft<T>(c: T -> int, z: Zipper<T>): (r: Zipper<T>)
    requires z.mid.Node? && z.mid.left.Node?
  {
    if c(z.mid.left.elem) < 0 then z.(mid := RotateRight(z.mid)) else z
  }

  ghost function TurnRight<T>(c: T -> int, z: Zipper<T>): (r: Zipper<T>)
    requires z.mid.Node? && z.mid.right.Node?
  {
    if c(z.mid.right.elem) > 0 then z.(mid := RotateLeft(z.mid)) else z
  }

  lemma DescendLeft<T>(c: T -> int, z: Zipper<T>)
    requires z.mid.Node? && z.mid.left.Node? && c(z.mid.elem) < 0
    ensures var z' := TurnLeft(c, z);
            if z'.mid.left.Leaf? then Descend(c, z) == z' && Descend(c, z') == z'
            else Descend(c, z) == Descend(c, LinkLeft(z')) && LinkLeft(z').mid < z.mid
  {
  }

  lemma DescendRight<T>(c: T -> int, z: Zipper<T>)
    requires z.mid.Node? && z.mid.right.Node? && c(z.mid.elem) > 0
    ensures var z' := TurnRight(c, z);
            if z'.mid.right.Leaf? then Descend(c, z) == z' && Descend(c, z') == z'
            else Descend(c, z) == Descend(c, LinkRight(z')) && LinkRight(z').mid < z.mid
  {
  }

  /** name##_splay on a non-empty tree. */
  ghost function Splayed<T>(c: T -> int, t: Tree<T>): (r: Tree<T>)
    requires t.Node?
    ensures r.Node?
  {
    Assemble(Descend(c, Zipper([], t, [])))
  }

  // ----- the in-order sequence is kept

  lemma Reassociate<T>(a: seq<T>, x: T, b: seq<T>, y: T, c: seq<T>)
    ensures (a + [x] + b) + [y] + c == a + [x] + (b + [y] + c)
  {
  }

  lemma RotateRightInorder<T>(t: Tree<T>)
    requires t.Node? && t.left.Node?
    ensures Inorder(RotateRight(t)) == Inorder(t)
  {
    Reassociate(Inorder(t.left.left), t.left.elem, Inorder(t.left.right), t.elem, Inorder(t.right));
  }

  lemma RotateLeftInorder<T>(t: Tree<T>)
    requires t.Node? && t.right.Node?
    ensures Inorder(RotateLeft(t)) == Inorder(t)
  {
    Reassociate(Inorder(t.left), t.elem, Inorder(t.right.left), t.right.elem, Inorder(t.right.right));
  }

  lemma LinkLeftFlat<T>(z: Zipper<T>)
    requires z.mid.Node?
    ensures FlatRight(LinkLeft(z).right) == [z.mid.elem] + Inorder(z.mid.right) + FlatRight(z.right)
    ensures Flat(LinkLeft(z)) == Flat(z)
  {
    var rs := LinkLeft(z).right;
    assert rs[..|rs| - 1] == z.right;
    Regroup(FlatLeft(z.left), Inorder(z.mid.left), z.mid.elem, Inorder(z.mid.right), FlatRight(z.right));
  }

  lemma Regroup<T>(a: seq<T>, b: seq<T>, x: T, c: seq<T>, d: seq<T>)
    ensures a + (b + [x] + c) + d == a + b + ([x] + c + d)
    ensures a + (b + [x] + c) + d == (a + b + [x]) + c + d
    ensures a + (b + [x] + c) + d == (a + b) + [x] + (c + d)
  {
    assert b + [x] + c == b + ([x] + c) && [x] + c + d == [x] + (c + d);
    assert a + (b + ([x] + c)) == (a + b) + ([x] + c);
  }

  lemma LinkRightFlat<T>(z: Zipper<T>)
    requires z.mid.Node?
    ensures FlatLeft(LinkRight(z).left) == FlatLeft(z.left) + Inorder(z.mid.left) + [z.mid.elem]
    ensures Flat(LinkRight(z)) == Flat(z)
  {
    var ls := LinkRight(z).left;
    assert ls[..|ls| - 1] == z.left;
    Regroup(FlatLeft(z.left), Inorder(z.mid.left), z.mid.elem, Inorder(z.mid.right), FlatRight(z.right));
  }

  lemma {:induction false} BuildLeftInorder<T>(ls: seq<Limb<T>>, t: Tree<T>)
    ensures Inorder(BuildLeft(ls, t)) == FlatLeft(ls) + Inorder(t)
    decreases |ls|
  {
    if ls != [] {
      var n := |ls| - 1;
      BuildLeftInorder(ls[..n], Node(ls[n].sub, ls[n].elem, t));
    }
  }

  lemma {:induction false} BuildRightInorder<T>(rs: seq<Limb<T>>, t: Tree<T>)
    ensures Inorder(BuildRight(rs, t)) == Inorder(t) + FlatRight(rs)
    decreases |rs|
  {
    if rs != [] {
      var n := |rs| - 1;
      BuildRightInorder(rs[..n], Node(t, rs[n].elem, rs[n].sub));
    }
  }

  // ----- where the key ends up

  /** The comparison never increases along the in-order sequence: the key lies
      above a first stretch of elements, matches a second, lies below the rest. */
  ghost predicate Monotone<T>(c: T -> int, s: seq<T>)
  {
    forall i, j :: 0 <= i < j < |s| ==> c(s[i]) >= c(s[j])
  }

  ghost predicate AllAbove<T>(c: T -> int, s: seq<T>)
  {
    forall i :: 0 <= i < |s| ==> c(s[i]) > 0
  }

  ghost predicate AllBelow<T>(c: T -> int, s: seq<T>)
  {
    forall i :: 0 <= i < |s| ==> c(s[i]) < 0
  }

  lemma MonotoneParts<T>(c: T -> int, a: seq<T>, b: seq<T>)
    requires Monotone(c, a + b)
    ensures Monotone(c, a) && Monotone(c, b)
    ensures forall i, j :: 0 <= i < |a| && 0 <= j < |b| ==> c(a[i]) >= c(b[j])
  {
    var s := a + b;
    forall i, j | 0 <= i < j < |a| ensures c(a[i]) >= c(a[j]) {
      assert s[i] == a[i] && s[j] == a[j];
    }
    forall i, j | 0 <= i < j < |b| ensures c(b[i]) >= c(b[j]) {
      assert s[|a| + i] == b[i] && s[|a| + j] == b[j];
    }
    forall i, j | 0 <= i < |a| && 0 <= j < |b| ensures c(a[i]) >= c(b[j]) {
      assert s[i] == a[i] && s[|a| + j] == b[j];
    }
  }

  /** Everything left of `x` compares at least as high, everything right at most as high. */
  lemma MonotoneNode<T>(c: T -> int, l: seq<T>, x: T, r: seq<T>)
    requires Monotone(c, l + [x] + r)
    ensures Monotone(c, l) && Monotone(c, r)
    ensures forall i :: 0 <= i < |l| ==> c(l[i]) >= c(x)
    ensures forall i :: 0 <= i < |r| ==> c(r[i]) <= c(x)
  {
    MonotoneParts(c, l + [x], r);
    MonotoneParts(c, l, [x]);
    assert [x][0] == x && (l + [x])[|l|] == x;
  }

  /** What the loop keeps about the limbs it has cut off. */
  ghost predicate Severed<T>(c: T -> int, z: Zipper<T>)
  {
    Monotone(c, Flat(z)) && AllAbove(c, FlatLeft(z.left)) && AllBelow(c, FlatRight(z.right))
  }

  lemma MidMonotone<T>(c: T -> int, z: Zipper<T>)
    requires z.mid.Node? && Monotone(c, Flat(z))
    ensures forall i :: 0 <= i < |Inorder(z.mid.left)| ==> c(Inorder(z.mid.left)[i]) >= c(z.mid.elem)
    ensures forall i :: 0 <= i < |Inorder(z.mid.right)| ==> c(Inorder(z.mid.right)[i]) <= c(z.mid.elem)
  {
    MonotoneParts(c, FlatLeft(z.left) + Inorder(z.mid), FlatRight(z.right));
    MonotoneParts(c, FlatLeft(z.left), Inorder(z.mid));
    MonotoneNode(c, Inorder(z.mid.left), z.mid.elem, Inorder(z.mid.right));
  }

  lemma SeveredLinkLeft<T>(c: T -> int, z: Zipper<T>)
    requires z.mid.Node? && Severed(c, z) && c(z.mid.elem) < 0
    ensures Severed(c, LinkLeft(z))
  {
    MidMonotone(c, z);
    LinkLeftFlat(z);
  }

  lemma SeveredLinkRight<T>(c: T -> int, z: Zipper<T>)
    requires z.mid.Node? && Severed(c, z) && c(z.mid.elem) > 0
    ensures Severed(c, LinkRight(z))
  {
    MidMonotone(c, z);
    LinkRightFlat(z);
  }

  /** Where the loop stops: at a match, or at an element with nothing left to
      visit on the key's side. */
  ghost predicate Stopped<T>(c: T -> int, t: Tree<T>)
  {
    t.Node? &&
    (c(t.elem) == 0 || (c(t.elem) < 0 && t.left.Leaf?) || (c(t.elem) > 0 && t.right.Leaf?))
  }

  /** One splay loop keeps the in-order sequence, and with a monotone comparison
      keeps what it cut off on the right sides of the key. */
  lemma {:induction false} DescendKeeps<T>(c: T -> int, z: Zipper<T>)
    requires z.mid.Node?
    ensures Flat(Descend(c, z)) == Flat(z)
    ensures Stopped(c, Descend(c, z).mid)
    ensures Severed(c, z) ==> Severed(c, Descend(c, z))
    decreases z.mid
  {
    var t := z.mid;
    if c(t.elem) < 0 && t.left.Node? {
      DescendLeft(c, z);
      TurnLeftKeeps(c, z);
      if TurnLeft(c, z).mid.left.Node? { DescendKeeps(c, LinkLeft(TurnLeft(c, z))); }
    } else if c(t.elem) > 0 && t.right.Node? {
      DescendRight(c, z);
      TurnRightKeeps(c, z);
      if TurnRight(c, z).mid.right.Node? { DescendKeeps(c, LinkRight(TurnRight(c, z))); }
    }
  }

  /** One round to the left: the rotation, then the link. */
  lemma TurnLeftKeeps<T>(c: T -> int, z: Zipper<T>)
    requires z.mid.Node? && z.mid.left.Node? && c(z.mid.elem) < 0
    ensures var z' := TurnLeft(c, z);
            && Flat(z') == Flat(z) && Flat(LinkLeft(z')) == Flat(z) && c(z'.mid.elem) < 0
            && (Severed(c, z) ==> Severed(c, z') && Severed(c, LinkLeft(z')))
  {
    RotateRightInorder(z.mid);
    var z' := TurnLeft(c, z);
    LinkLeftFlat(z');
    if Severed(c, z) { SeveredLinkLeft(c, z'); }
  }

  lemma TurnRightKeeps<T>(c: T -> int, z: Zipper<T>)
    requires z.mid.Node? && z.mid.right.Node? && c(z.mid.elem) > 0
    ensures var z' := TurnRight(c, z);
            && Flat(z') == Flat(z) && Flat(LinkRight(z')) == Flat(z) && c(z'.mid.elem) > 0
            && (Severed(c, z) ==> Severed(c, z') && Severed(c, LinkRight(z')))
  {
    RotateLeftInorder(z.mid);
    var z' := TurnRight(c, z);
    LinkRightFlat(z');
    if Severed(c, z) { SeveredLinkRight(c, z'); }
  }

  /** After a splay the key matches the root, or lies exactly between the two
      subtrees: strictly above all of the left, strictly below all of the right. */
  ghost predicate Separates<T>(c: T -> int, t: Tree<T>)
  {
    t.Node? &&
    (c(t.elem) == 0 || (AllAbove(c, Inorder(t.left)) && AllBelow(c, Inorder(t.right))))
  }

  lemma AssembleInorder<T>(z: Zipper<T>)
    requires z.mid.Node?
    ensures Inorder(Assemble(z)) == Flat(z)
    ensures Inorder(Assemble(z).left) == FlatLeft(z.left) + Inorder(z.mid.left)
    ensures Inorder(Assemble(z).right) == Inorder(z.mid.right) + FlatRight(z.right)
  {
    BuildLeftInorder(z.left, z.mid.left);
    BuildRightInorder(z.right, z.mid.right);
    Regroup(FlatLeft(z.left), Inorder(z.mid.left), z.mid.elem, Inorder(z.mid.right), FlatRight(z.right));
  }

  lemma StoppedSeparates<T>(c: T -> int, z: Zipper<T>)
    requires Stopped(c, z.mid) && Severed(c, z)
    ensures Separates(c, Assemble(z))
  {
    AssembleInorder(z);
    MidMonotone(c, z);
  }

  lemma SplayInorder<T>(c: T -> int, t: Tree<T>)
    requires t.Node?
    ensures Inorder(Splayed(c, t)) == Inorder(t)
  {
    var z := Zipper([], t, []);
    assert Flat(z) == Inorder(t);
    DescendKeeps(c, z);
    AssembleInorder(Descend(c, z));
  }

  lemma SplaySeparates<T>(c: T -> int, t: Tree<T>)
    requires t.Node? && Monotone(c, Inorder(t))
    ensures Separates(c, Splayed(c, t))
  {
    var z := Zipper([], t, []);
    assert Flat(z) == Inorder(t);
    DescendKeeps(c, z);
    StoppedSeparates(c, Descend(c, z));
  }

  lemma SuffixAbove<T>(c: T -> int, a: seq<T>, b: seq<T>)
    requires AllAbove(c, a + b)
    ensures AllAbove(c, b)
  {
    forall i | 0 <= i < |b| ensures c(b[i]) > 0 {
      assert (a + b)[|a| + i] == b[i];
    }
  }

  lemma OnlyEmpty<T>(c: T -> int, s: seq<T>)
    requires |s| > 0 ==> c(s[0]) > 0
    requires AllBelow(c, s)
    ensures |s| == 0
  {
  }

  /** Splaying with a key above everything brings the last element to the root. */
  lemma SplayAboveAll<T>(c: T -> int, t: Tree<T>)
    requires t.Node? && AllAbove(c, Inorder(t)) && Monotone(c, Inorder(t))
    ensures Splayed(c, t).right == Leaf && Inorder(Splayed(c, t)) == Inorder(t)
    ensures Inorder(Splayed(c, t).left) + [Splayed(c, t).elem] == Inorder(t)
  {
    SplayInorder(c, t);
    var r := Splayed(c, t);
    assert Inorder(r.left) + ([r.elem] + Inorder(r.right)) == Inorder(r);
    SuffixAbove(c, Inorder(r.left), [r.elem] + Inorder(r.right));
    SuffixAbove(c, [r.elem], Inorder(r.right));
    assert ([r.elem] + Inorder(r.right))[0] == r.elem;
    assert |Inorder(r.right)| > 0 ==> c(Inorder(r.right)[0]) > 0;
    SplaySeparates(c, t);
    OnlyEmpty(c, Inorder(r.right));
  }

  /** Splaying with a key below or above everything brings the first or the last
      element to the root. */
  lemma SplayEnds<T>(c: T -> int, t: Tree<T>)
    requires t.Node? && ((forall x :: c(x) < 0) || (forall x :: c(x) > 0))
    ensures var r := Splayed(c, t);
            if c(r.elem) < 0 then r.left == Leaf else r.right == Leaf
  {
    var z := Zipper([], t, []);
    DescendEnds(c, z);
  }

  lemma {:induction false} DescendEnds<T>(c: T -> int, z: Zipper<T>)
    requires z.mid.Node? && ((forall x :: c(x) < 0) || (forall x :: c(x) > 0))
    ensures var r := Descend(c, z);
            if c(r.mid.elem) < 0 then r.left == z.left && r.mid.left == Leaf
            else r.right == z.right && r.mid.right == Leaf
    decreases z.mid
  {
    var t := z.mid;
    if c(t.elem) < 0 {
      if t.left.Node? && t.left.left.Node? { DescendEnds(c, LinkLeft(z.(mid := RotateRight(t)))); }
    } else {
      if t.right.Node? && t.right.right.Node? { DescendEnds(c, LinkRight(z.(mid := RotateLeft(t)))); }
    }
  }

  // ----- splaying again

  /** Once the key is below all that is left to visit, the loop ends there. */
  lemma {:induction false} DescendBelow<T>(c: T -> int, z: Zipper<T>)
    requires z.mid.Node? && AllBelow(c, Inorder(z.mid))
    ensures c(Descend(c, z).mid.elem) < 0
    decreases z.mid
  {
    var t := z.mid;
    TreeParts(t);
    if t.left.Node? {
      TreeParts(t.left);
      assert c(Inorder(t)[|Inorder(t.left.left)|]) < 0;
      if t.left.left.Node? {
        forall i | 0 <= i < |Inorder(t.left.left)| ensures c(Inorder(t.left.left)[i]) < 0 {
          assert Inorder(t.left.left)[i] == Inorder(t)[i];
        }
        DescendBelow(c, LinkLeft(z.(mid := RotateRight(t))));
      }
    }
  }

  lemma {:induction false} DescendAbove<T>(c: T -> int, z: Zipper<T>)
    requires z.mid.Node? && AllAbove(c, Inorder(z.mid))
    ensures c(Descend(c, z).mid.elem) > 0
    decreases z.mid
  {
    var t := z.mid;
    TreeParts(t);
    if t.right.Node? {
      TreeParts(t.right);
      var n := |Inorder(t.left)| + 1;
      assert Inorder(t)[n + |Inorder(t.right.left)|] == t.right.elem;
      if t.right.right.Node? {
        forall i | 0 <= i < |Inorder(t.right.right)| ensures c(Inorder(t.right.right)[i]) > 0 {
          assert Inorder(t.right.right)[i] == Inorder(t)[n + |Inorder(t.right.left)| + 1 + i];
        }
        DescendAbove(c, LinkRight(z.(mid := RotateLeft(t))));
      }
    }
  }

  lemma TreeParts<T>(t: Tree<T>)
    requires t.Node?
    ensures Inorder(t)[|Inorder(t.left)|] == t.elem && Inorder(t)[..|Inorder(t.left)|] == Inorder(t.left)
    ensures Inorder(t)[|Inorder(t.left)| + 1..] == Inorder(t.right)
    ensures |Inorder(t)| == |Inorder(t.left)| + 1 + |Inorder(t.right)|
  {
  }

  /** A root just below the key gives way to one just above it, */
  lemma SplayCrossesUp<T>(c: T -> int, t: Tree<T>)
    requires t.Node? && c(t.elem) > 0 && t.right.Node? && AllBelow(c, Inorder(t.right))
    ensures c(Splayed(c, t).elem) < 0
  {
    TreeParts(t.right);
    assert c(Inorder(t.right)[|Inorder(t.right.left)|]) < 0;
    DescendBelow(c, LinkRight(Zipper([], t, [])));
  }

  /** and the other way round. */
  lemma SplayCrossesDown<T>(c: T -> int, t: Tree<T>)
    requires t.Node? && c(t.elem) < 0 && t.left.Node? && AllAbove(c, Inorder(t.left))
    ensures c(Splayed(c, t).elem) > 0
  {
    TreeParts(t.left);
    assert c(Inorder(t.left)[|Inorder(t.left.left)|]) > 0;
    DescendAbove(c, LinkLeft(Zipper([], t, [])));
  }

  lemma SplayStays<T>(c: T -> int, t: Tree<T>)
    requires t.Node? && c(t.elem) == 0
    ensures Splayed(c, t) == t
  {
  }
}
