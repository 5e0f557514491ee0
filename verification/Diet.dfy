/** The discrete interval encoding tree of lib/src/diet.c. */
module Diet {
  import opened SplayShape
  import opened Nodes
  import opened Ivals
  import opened SplayTree
  import opened RemoveRange
  import opened ExactRange

  /** The nodes of an in-order sequence carry the intervals of a list. */
  ghost predicate Mirrors(s: seq<Ival>, v: seq<Iv>)
    reads s`lo, s`hi, s`t
  {
    |s| == |v| && forall i :: 0 <= i < |s| ==> s[i].lo == v[i].lo && s[i].hi == v[i].hi && s[i].t == v[i].t
  }

  /** `c` compares the key [lo..hi] with the intervals `v` that the nodes `s` carry. */
  ghost predicate Compares(c: Ival -> int, s: seq<Ival>, v: seq<Iv>, lo: nat, hi: nat)
  {
    |s| == |v| && forall i :: 0 <= i < |s| ==> c(s[i]) == IvalCmp(lo, hi, v[i].lo, v[i].hi)
  }

  lemma ProbeCompares(t: Tree<Ival>, v: seq<Iv>, lo: nat, hi: nat)
    requires Mirrors(Inorder(t), v)
    ensures Compares(Probe(t, lo, hi), Inorder(t), v, lo, hi)
  {
    InorderElems(t);
    var s, c := Inorder(t), Probe(t, lo, hi);
    forall i | 0 <= i < |s| ensures c(s[i]) == IvalCmp(lo, hi, v[i].lo, v[i].hi) {
      assert s[i] in Elems(t);
    }
  }

  lemma ComparesMonotone(c: Ival -> int, s: seq<Ival>, v: seq<Iv>, lo: nat, hi: nat)
    requires Compares(c, s, v, lo, hi) && Canonical(v) && lo <= hi
    ensures Monotone(c, s)
  {
    CmpMonotone(v, lo, hi);
  }

  lemma SeparatesAt(c: Ival -> int, t: Tree<Ival>, v: seq<Iv>, lo: nat, hi: nat)
    requires t.Node? && Compares(c, Inorder(t), v, lo, hi) && Separates(c, t)
    ensures Separated(v, |Inorder(t.left)|, lo, hi)
  {
    var k := |Inorder(t.left)|;
    assert Inorder(t)[k] == t.elem;
    if c(t.elem) != 0 {
      forall i | 0 <= i < k ensures IvalCmp(lo, hi, v[i].lo, v[i].hi) > 0 {
        assert Inorder(t)[i] == Inorder(t.left)[i];
      }
      forall i | k < i < |v| ensures IvalCmp(lo, hi, v[i].lo, v[i].hi) < 0 {
        assert Inorder(t)[i] == Inorder(t.right)[i - k - 1];
      }
    }
  }

  lemma ComparesAt(c: Ival -> int, t: Tree<Ival>, v: seq<Iv>, lo: nat, hi: nat)
    requires t.Node? && Compares(c, Inorder(t), v, lo, hi)
    ensures |v| == |Inorder(t.left)| + 1 + |Inorder(t.right)|
    ensures c(t.elem) == Side(v, |Inorder(t.left)|, lo, hi)
    ensures Compares(c, Inorder(t.left), v[..|Inorder(t.left)|], lo, hi)
    ensures Compares(c, Inorder(t.right), v[|Inorder(t.left)| + 1..], lo, hi)
  {
    TreeParts(t);
    var k := |Inorder(t.left)|;
    forall i | 0 <= i < k ensures Inorder(t.left)[i] == Inorder(t)[i] {}
    forall i | 0 <= i < |Inorder(t.right)| ensures Inorder(t.right)[i] == Inorder(t)[k + 1 + i] {}
  }

  lemma ComparesAbove(c: Ival -> int, s: seq<Ival>, v: seq<Iv>, lo: nat, hi: nat)
    requires Compares(c, s, v, lo, hi) && Canonical(v) && lo <= hi
    ensures s != [] && Side(v, |v| - 1, lo, hi) > 0 ==> AllAbove(c, s)
    ensures s != [] && Side(v, 0, lo, hi) < 0 ==> AllBelow(c, s)
  {
    CmpMonotone(v, lo, hi);
  }

  lemma PartsCanonical(v: seq<Iv>, k: nat)
    requires Canonical(v) && k < |v|
    ensures Canonical(v[..k]) && Canonical(v[k + 1..])
  {
  }

  lemma RightIsBelow(c: Ival -> int, t: Tree<Ival>, v: seq<Iv>, kr: nat, lo: nat, hi: nat)
    requires t.Node? && Compares(c, Inorder(t), v, lo, hi) && Canonical(v) && lo <= hi
    requires kr == |Inorder(t.left)| && kr + 1 < |v| && Side(v, kr, lo, hi) > 0 && Side(v, kr + 1, lo, hi) < 0
    ensures c(t.elem) > 0 && t.right.Node? && AllBelow(c, Inorder(t.right))
  {
    ComparesAt(c, t, v, lo, hi);
    PartsCanonical(v, kr);
    assert v[kr + 1..][0] == v[kr + 1];
    ComparesAbove(c, Inorder(t.right), v[kr + 1..], lo, hi);
  }

  lemma LeftIsAbove(c: Ival -> int, t: Tree<Ival>, v: seq<Iv>, kr: nat, lo: nat, hi: nat)
    requires t.Node? && Compares(c, Inorder(t), v, lo, hi) && Canonical(v) && lo <= hi
    requires kr == |Inorder(t.left)| && 0 < kr < |v| && Side(v, kr, lo, hi) < 0 && Side(v, kr - 1, lo, hi) > 0
    ensures c(t.elem) < 0 && t.left.Node? && AllAbove(c, Inorder(t.left))
  {
    ComparesAt(c, t, v, lo, hi);
    PartsCanonical(v, kr);
    assert v[..kr][kr - 1] == v[kr - 1];
    ComparesAbove(c, Inorder(t.left), v[..kr], lo, hi);
  }

  /** The side on which the new root lies. */
  lemma SplayedSide(c: Ival -> int, t: Tree<Ival>, v: seq<Iv>, kr: nat, lo: nat, hi: nat)
    requires t.Node? && Compares(c, Inorder(t), v, lo, hi) && Canonical(v) && lo <= hi && kr == |Inorder(t.left)|
    ensures kr + 1 < |v| && Side(v, kr, lo, hi) > 0 && Side(v, kr + 1, lo, hi) < 0 ==> c(Splayed(c, t).elem) < 0
    ensures 0 < kr < |v| && Side(v, kr, lo, hi) < 0 && Side(v, kr - 1, lo, hi) > 0 ==> c(Splayed(c, t).elem) > 0
  {
    if kr + 1 < |v| && Side(v, kr, lo, hi) > 0 && Side(v, kr + 1, lo, hi) < 0 {
      RightIsBelow(c, t, v, kr, lo, hi);
      SplayCrossesUp(c, t);
    }
    if 0 < kr < |v| && Side(v, kr, lo, hi) < 0 && Side(v, kr - 1, lo, hi) > 0 {
      LeftIsAbove(c, t, v, kr, lo, hi);
      SplayCrossesDown(c, t);
    }
  }

  /** Where the root goes when a tree is splayed. */
  lemma SplayedRoot(c: Ival -> int, t: Tree<Ival>, v: seq<Iv>, lo: nat, hi: nat)
    requires t.Node? && Compares(c, Inorder(t), v, lo, hi) && Canonical(v) && lo <= hi
    ensures NextRoot(v, |Inorder(t.left)|, |Inorder(Splayed(c, t).left)|, lo, hi)
  {
    var u := Splayed(c, t);
    ComparesMonotone(c, Inorder(t), v, lo, hi);
    SplayInorder(c, t);
    SplaySeparates(c, t);
    SeparatesAt(c, u, v, lo, hi);
    SplayedSide(c, t, v, |Inorder(t.left)|, lo, hi);
    if c(t.elem) == 0 { SplayStays(c, t); }
    ComparesAt(c, t, v, lo, hi);
    ComparesAt(c, u, v, lo, hi);
  }

  /** What a splay does to the shape of a tree. */
  lemma SplayTurns(c: Ival -> int, t: Tree<Ival>, v: seq<Iv>, lo: nat, hi: nat)
    requires t.Node? && c == Probe(t, lo, hi) && Mirrors(Inorder(t), v) && Canonical(v) && lo <= hi
    ensures var u := Splayed(c, t);
            && u.Node? && Inorder(u) == Inorder(t) && Separated(v, |Inorder(u.left)|, lo, hi)
            && (c(t.elem) == 0 ==> u == t)
  {
    ProbeCompares(t, v, lo, hi);
    ComparesMonotone(c, Inorder(t), v, lo, hi);
    SplayInorder(c, t);
    SplaySeparates(c, t);
    SeparatesAt(c, Splayed(c, t), v, lo, hi);
  }

  predicate Holds(x: Ival, n: nat)
    reads x
  {
    x.lo <= n <= x.hi
  }

  /** Will the root of `t`, which has been splayed for `n`, contain `n` after diet_insert?
      Not if only the neighbour on the other side of `n` grows; and if the root is folded
      into that neighbour, only if the neighbour is its child. */
  ghost predicate RootHolds<T>(t: Tree<T>, v: seq<Iv>, n: nat)
    requires t.Node?
  {
    var k := |Inorder(t.left)|;
    && k < |v|
    && (k > 0 && v[k - 1].hi + 1 == n < v[k].lo ==> n + 1 == v[k].lo && t.left.Node? && t.left.right.Leaf?)
    && (k + 1 < |v| && v[k].hi < n == v[k + 1].lo - 1 ==> v[k].hi + 1 == n && t.right.Node? && t.right.left.Leaf?)
  }

  lemma NearBelow(v: seq<Iv>, k: nat, n: nat, t: nat, w: Iv)
    requires 0 < k < |v| && v[k - 1].hi + 1 == n && n + 1 == v[k].lo
    requires w == Iv(v[k - 1].lo, v[k].hi, Max(v[k - 1].t, t))
    ensures InsertNear(v, k, n, t) == Some(Replace(v, k - 1, k + 1, [w]))
  {
  }

  lemma NearAbove(v: seq<Iv>, k: nat, n: nat, t: nat, w: Iv)
    requires k + 1 < |v| && v[k].lo <= v[k].hi && n == v[k].hi + 1 && v[k + 1].lo == n + 1
    requires w == Iv(v[k].lo, v[k + 1].hi, Max(v[k + 1].t, t))
    ensures InsertNear(v, k, n, t) == Some(Replace(v, k, k + 2, [w]))
  {
  }

  lemma HoldsBelow<T>(t: Tree<T>, v: seq<Iv>, k: nat, n: nat)
    requires t.Node? && k == |Inorder(t.left)| < |v| && n < v[k].lo <= v[k].hi
    ensures RootHolds(t, v, n) <==>
      (k > 0 && v[k - 1].hi + 1 == n ==> n + 1 == v[k].lo && t.left.Node? && t.left.right.Leaf?)
  {
  }

  lemma HoldsAbove<T>(t: Tree<T>, v: seq<Iv>, k: nat, n: nat)
    requires t.Node? && k == |Inorder(t.left)| < |v| && v[k].lo <= v[k].hi < n
    ensures RootHolds(t, v, n) <==>
      (k + 1 < |v| && v[k + 1].lo == n + 1 ==> v[k].hi + 1 == n && t.right.Node? && t.right.left.Leaf?)
  {
  }

  /** With [1..1] at the root and [5..5] as its right child, inserting 2 brings [5..5] up,
      grows [1..1] and returns [5..5]. */
  lemma ReturnedElsewhereExample<T>(a: T, b: T, c: T -> int)
    requires c(a) == IvalCmp(2, 2, 1, 1) && c(b) == IvalCmp(2, 2, 5, 5)
    ensures !RootHolds(Splayed(c, Node(Leaf, a, Node(Leaf, b, Leaf))), [Iv(1, 1, 0), Iv(5, 5, 0)], 2)
  {
    var t := Node(Leaf, a, Node(Leaf, b, Leaf));
    var z := LinkRight(Zipper([], t, []));
    assert Descend(c, Zipper([], t, [])) == Descend(c, z) == z;
    assert Splayed(c, t) == Node(BuildLeft([Limb(a, Leaf)], Leaf), b, Leaf);
    assert BuildLeft([Limb(a, Leaf)], Leaf) == BuildLeft([], Node(Leaf, a, Leaf)) == Node(Leaf, a, Leaf);
    assert Inorder(Node(Leaf, a, Leaf)) == [a];
  }

  /** The last node of the left subtree is its root if and only if that has no right child. */
  lemma LeftEnd(t: Tree<Ival>, max: Ival)
    requires t.Node? && t.left.Node? && Proper(t)
    requires 0 < |Inorder(t.left)| <= |Inorder(t)| && max == Inorder(t)[|Inorder(t.left)| - 1]
    ensures var j := |Inorder(t.left.left)|;
            && j < |Inorder(t.left)| && Inorder(t)[j] == t.left.elem
            && (t.left.elem == max <==> t.left.right.Leaf?)
            && (t.left.right.Node? ==> j + 1 < |Inorder(t.left)|)
  {
    TreeParts(t);
    TreeParts(t.left);
    InorderInjective(t);
    assert Inorder(t)[|Inorder(t.left.left)|] == Inorder(t.left)[|Inorder(t.left.left)|];
    assert t.left.right.Node? ==> Inorder(t.left.right) != [];
  }

  lemma RightEnd(t: Tree<Ival>, min: Ival)
    requires t.Node? && t.right.Node? && Proper(t)
    requires |Inorder(t.left)| + 1 < |Inorder(t)| && min == Inorder(t)[|Inorder(t.left)| + 1]
    ensures var j := |Inorder(t.left)| + 1 + |Inorder(t.right.left)|;
            && j < |Inorder(t)| && Inorder(t)[j] == t.right.elem
            && (t.right.elem == min <==> t.right.left.Leaf?)
            && (t.right.left.Node? ==> j > |Inorder(t.left)| + 1)
  {
    TreeParts(t);
    TreeParts(t.right);
    InorderInjective(t);
    var k := |Inorder(t.left)| + 1;
    assert Inorder(t)[k + |Inorder(t.right.left)|] == Inorder(t)[k..][|Inorder(t.right.left)|];
    assert t.right.left.Node? ==> Inorder(t.right.left) != [];
  }

  /** struct diet.  `tree` is the shape the links form, `ivals` the interval list
      the tree stands for. */
  class Diet {
    var root: Ival?
    var cnt: nat
    ghost var tree: Tree<Ival>
    ghost var ivals: seq<Iv>

    /** The links form `tree`, and its nodes carry `ivals`. */
    ghost predicate Wired()
      reads this, Elems(tree)
    {
      && Proper(tree) && Linked(root, tree)
      && (InorderElems(tree); Mirrors(Inorder(tree), ivals))
      && cnt == |ivals|
    }

    ghost predicate Valid()
      reads this, Elems(tree)
    {
      Wired() && Canonical(ivals)
    }

    lemma NullIsEmpty()
      requires Wired() && root == null
      ensures tree == Leaf && ivals == []
    {
      assert tree.Node? ==> Linked(root, tree);
    }

    /** diet_init */
    constructor ()
      ensures Valid() && ivals == [] && tree == Leaf
    {
      root, cnt, tree, ivals := null, 0, Leaf, [];
    }

    ghost function RootPos(): (k: nat)
      requires tree.Node?
      reads this
    {
      |Inorder(tree.left)|
    }

    /** The tree that a splay for [lo..hi] will leave. */
    ghost function NextTree(lo: nat, hi: nat): (t: Tree<Ival>)
      requires tree.Node?
      reads this, Elems(tree)
      ensures t.Node?
    {
      Splayed(Probe(tree, lo, hi), tree)
    }

    /** The position of the interval it will bring to the root. */
    ghost function NextPos(lo: nat, hi: nat): (k: nat)
      requires tree.Node?
      reads this, Elems(tree)
    {
      |Inorder(NextTree(lo, hi).left)|
    }

    lemma NextPosFacts(lo: nat, hi: nat)
      requires Valid() && tree.Node? && lo <= hi
      ensures NextRoot(ivals, RootPos(), NextPos(lo, hi), lo, hi)
    {
      ProbeCompares(tree, ivals, lo, hi);
      SplayedRoot(Probe(tree, lo, hi), tree, ivals, lo, hi);
    }

    /** diet_splay: rearranges links only. */
    method SplayTo(lo: nat, hi: nat)
      requires Valid() && root != null && lo <= hi
      modifies this`root, this`tree, Elems(tree)`left, Elems(tree)`right
      ensures Valid() && ivals == old(ivals) && Elems(tree) == old(Elems(tree)) && tree.Node?
      ensures Separated(ivals, RootPos(), lo, hi) && Inorder(tree) == old(Inorder(tree))
      ensures IvalCmp(lo, hi, old(root.lo), old(root.hi)) == 0 ==> tree == old(tree)
      ensures tree == old(NextTree(lo, hi))
    {
      ghost var c := Probe(tree, lo, hi);
      SplayTurns(c, tree, ivals, lo, hi);
      ghost var t0, s, v := tree, Inorder(tree), ivals;
      assert c(t0.elem) == IvalCmp(lo, hi, root.lo, root.hi) by { assert t0.elem in Elems(t0); }
      InorderElems(t0);
      assert allocated(s) && Mirrors(s, v);
      var r;
      ghost var t1;
      r, t1 := Splay(root, lo, hi, t0);
      Retie(r, t1);
    }

    /** Install a rearranged tree that carries the same intervals. */
    method Retie(p: Ival, ghost t: Tree<Ival>)
      requires Proper(t) && Linked(p, t) && Mirrors(Inorder(t), ivals) && cnt == |ivals|
      modifies this`root, this`tree
      ensures Wired() && root == p && tree == t
    {
      InorderElems(t);
      root, tree := p, t;
    }

    /** Give node number `i` new bounds and a new stamp. */
    method Resize(x: Ival, ghost i: nat, lo: nat, hi: nat, t: nat)
      requires Wired() && i < |ivals| && x == Inorder(tree)[i]
      modifies x`lo, x`hi, x`t, this`ivals
      ensures Wired() && ivals == old(ivals)[i := Iv(lo, hi, t)]
    {
      InorderInjective(tree);
      InorderElems(tree);
      x.lo, x.hi, x.t := lo, hi, t;
      ivals := ivals[i := Iv(lo, hi, t)];
    }

    /** diet_splay with a single number as key. */
    method Locate(n: nat)
      requires Valid() && root != null
      modifies this`root, this`tree, Elems(tree)`left, Elems(tree)`right
      ensures Valid() && ivals == old(ivals) && Elems(tree) == old(Elems(tree)) && tree.Node?
      ensures Located(ivals, RootPos(), n) && RootPos() < |ivals|
      ensures root.lo == ivals[RootPos()].lo && root.hi == ivals[RootPos()].hi && tree == old(NextTree(n, n))
    {
      SplayTo(n, n);
      SeparatedLocates(ivals, RootPos(), n);
      RootAt(tree);
    }

    /** diet_find */
    method Find(n: nat) returns (i: Ival?)
      requires Valid()
      modifies this`root, this`tree, Elems(tree)`left, Elems(tree)`right
      ensures Valid() && ivals == old(ivals) && Elems(tree) == old(Elems(tree))
      ensures i != null <==> Has(ivals, n)
      ensures i != null ==> i == root && i.lo <= n <= i.hi
      ensures tree.Node? <==> ivals != []
      ensures tree.Node? ==> root == tree.elem && Located(ivals, RootPos(), n) && tree == old(NextTree(n, n))
    {
      if root == null { return null; }
      Locate(n);
      if n < root.lo || n > root.hi { return null; }
      return root;
    }

    /** Unlink the root by hanging its right subtree below `max`, the last node of
        its left subtree. */
    method UnlinkIntoMax(max: Ival, ghost ls: seq<Limb<Ival>>)
      requires Wired() && tree.Node? && tree.left.Node?
      requires MaxSpine(max, ls, root.left, tree.left)
      modifies this, max`right
      ensures Wired() && tree == BuildLeft(ls, old(tree.right)) && root == ls[0].elem
      ensures Inorder(tree) == Without(old(Inorder(tree)), old(RootPos()))
      ensures ivals == Without(old(ivals), old(RootPos())) && Elems(tree) == old(Elems(tree)) - {old(root)}
    {
      ghost var t0, s, v := tree, Without(Inorder(tree), RootPos()), Without(ivals, RootPos());
      ghost var t1 := BuildLeft(ls, t0.right);
      MirrorsWithout(Inorder(tree), ivals, RootPos());
      BuildLeftInorder(ls, t0.right);
      WithoutRoot(t0);
      RootGone(t0);
      assert allocated(s) && Mirrors(s, v) && Inorder(t1) == s;
      var p := root.left;
      HangBelowMax(max, root.right, ls, t0.right);
      Adopt(p, cnt - 1, t1, v);
    }

    /** The mirror image: hang the left subtree below `min`, the first node of the
        right subtree. */
    method UnlinkIntoMin(min: Ival, ghost rs: seq<Limb<Ival>>)
      requires Wired() && tree.Node? && tree.right.Node?
      requires MinSpine(min, rs, root.right, tree.right)
      modifies this, min`left
      ensures Wired() && tree == BuildRight(rs, old(tree.left)) && root == rs[0].elem
      ensures Inorder(tree) == Without(old(Inorder(tree)), old(RootPos()))
      ensures ivals == Without(old(ivals), old(RootPos())) && Elems(tree) == old(Elems(tree)) - {old(root)}
    {
      ghost var t0, s, v := tree, Without(Inorder(tree), RootPos()), Without(ivals, RootPos());
      ghost var t1 := BuildRight(rs, t0.left);
      MirrorsWithout(Inorder(tree), ivals, RootPos());
      BuildRightInorder(rs, t0.left);
      WithoutRoot(t0);
      RootGone(t0);
      assert allocated(s) && Mirrors(s, v) && Inorder(t1) == s;
      var p := root.right;
      HangBelowMin(min, root.left, rs, t0.left);
      Adopt(p, cnt - 1, t1, v);
    }

    /** Make `elm` the root, directly before or after the present root. */
    method Plant(elm: Ival, before: bool)
      requires Wired() && tree.Node? && elm !in Elems(tree)
      modifies this, elm`left, elm`right, tree.elem`left, tree.elem`right
      ensures Wired() && root == elm && Elems(tree) == old(Elems(tree)) + {elm}
      ensures var p := if before then old(RootPos()) else old(RootPos()) + 1;
              p <= |old(ivals)| && ivals == Replace(old(ivals), p, p, [Iv(elm.lo, elm.hi, elm.t)])
    {
      ghost var s, v, k := Inorder(tree), ivals, RootPos();
      RootAt(tree);
      ghost var p := if before then k else k + 1;
      assert allocated(s);
      ghost var t';
      if before {
        t' := InsertLeft(elm, root, tree);
      } else {
        t' := InsertRight(elm, root, tree);
      }
      MirrorsInsert(s, v, p, elm);
      Adopt(elm, cnt + 1, t', Replace(v, p, p, [Iv(elm.lo, elm.hi, elm.t)]));
    }

    /** splay_insert of a node that overlaps no interval; `p` is its position. */
    method SplayInsert(elm: Ival) returns (ghost p: nat)
      requires Valid() && elm !in Elems(tree) && elm.lo == elm.hi && !Has(ivals, elm.lo)
      modifies this, Elems(tree)`left, Elems(tree)`right, elm`left, elm`right
      ensures Wired() && root == elm && Elems(tree) == old(Elems(tree)) + {elm}
      ensures Gap(old(ivals), p, elm.lo)
      ensures ivals == Replace(old(ivals), p, p, [Iv(elm.lo, elm.lo, elm.t)])
    {
      if root == null {
        elm.left, elm.right := null, null;
        assert tree == Leaf && ivals == [];
        Adopt(elm, 1, Node(Leaf, elm, Leaf), [Iv(elm.lo, elm.lo, elm.t)]);
        return 0;
      }
      Locate(elm.lo);
      var before := IvalCmp(elm.lo, elm.hi, root.lo, root.hi) < 0;
      p := if before then RootPos() else RootPos() + 1;
      assert Gap(ivals, p, elm.lo);
      Plant(elm, before);
    }

    /** splay_remove once the node is at the root. */
    method UnlinkRoot()
      requires Valid() && tree.Node?
      modifies this, Elems(tree)`left, Elems(tree)`right
      ensures Wired() && Elems(tree) == old(Elems(tree)) - {old(root)}
      ensures ivals == Without(old(ivals), old(RootPos()))
      ensures old(RootPos()) > 0 ==> tree.Node? && RootPos() == old(RootPos()) - 1
    {
      var elm := root;
      ghost var t0, s, v := tree, Without(Inorder(tree), RootPos()), Without(ivals, RootPos());
      ghost var c := Probe(t0.left, elm.lo, elm.hi);
      assert t0.left.Node? ==> Splayed(c, t0.left).right == Leaf
                               && Inorder(Splayed(c, t0.left).left) + [Splayed(c, t0.left).elem] == Inorder(t0.left) by {
        RootAboveLeft(t0, ivals, elm.lo, elm.hi);
        if t0.left.Node? { SplayAboveAll(c, t0.left); }
      }
      RootAt(t0);
      MirrorsWithout(Inorder(t0), ivals, RootPos());
      WithoutRoot(t0);
      assert allocated(s) && Mirrors(s, v);
      var r;
      ghost var t';
      r, t' := RemoveRoot(elm, elm.lo, elm.hi, t0, c);
      Adopt(r, cnt - 1, t', v);
    }

    /** splay_remove of the root. */
    method DropRoot()
      requires Valid() && root != null
      modifies this, Elems(tree)`left, Elems(tree)`right
      ensures Valid() && Elems(tree) == old(Elems(tree)) - {old(root)}
      ensures ivals == Without(old(ivals), old(RootPos()))
      ensures old(RootPos()) > 0 ==> tree.Node? && RootPos() == old(RootPos()) - 1
    {
      RootAt(tree);
      SplayTo(root.lo, root.hi);
      WithoutCanonical(ivals, RootPos());
      UnlinkRoot();
    }

    /** split_root */
    method SplitRoot(lo: nat, hi: nat)
      requires Valid() && root != null && root.lo < lo <= hi < root.hi
      modifies this, root
      ensures Wired() && (forall x :: x in Elems(tree) ==> x in old(Elems(tree)) || fresh(x))
      ensures var v, k := old(ivals), old(RootPos());
              k < |v| && ivals == Replace(v, k, k + 1, [Iv(v[k].lo, lo - 1, v[k].t), Iv(hi + 1, v[k].hi, v[k].t)])
    {
      ghost var v, k := ivals, RootPos();
      RootAt(tree);
      assert allocated(Elems(tree)) && allocated(Inorder(tree));
      var i := new Ival(root.lo, root.t);
      i.hi := lo - 1;
      ghost var a, b := Iv(v[k].lo, lo - 1, v[k].t), Iv(hi + 1, v[k].hi, v[k].t);
      Resize(root, k, hi + 1, root.hi, root.t);
      assert ivals == v[k := b] && a == Iv(i.lo, i.hi, i.t);
      Plant(i, true);
      SplitAt(v, k, a, b);
    }

    /** Fold the root into `max`, the last node of its left subtree, which then carries
        `w`. */
    method MergeIntoMax(max: Ival, ghost ls: seq<Limb<Ival>>, t: nat, ghost p: nat, ghost w: Iv)
      requires Wired() && tree.Node? && tree.left.Node? && p + 1 == RootPos() < |ivals|
      requires MaxSpine(max, ls, root.left, tree.left)
      requires w == Iv(ivals[p].lo, ivals[p + 1].hi, Max(ivals[p].t, t))
      modifies this, max
      ensures Wired() && Elems(tree) <= old(Elems(tree)) && root == ls[0].elem && max.lo == w.lo && max.hi == w.hi
      ensures ivals == Replace(old(ivals), p, p + 2, [w])
    {
      ghost var v := ivals;
      LastOfLeft(ls, tree.left);
      RootAt(tree);
      assert Inorder(tree)[p] == max;
      var hi := root.hi;
      UnlinkIntoMax(max, ls);
      assert Iv(max.lo, hi, Max(max.t, t)) == w;
      Resize(max, p, max.lo, hi, Max(max.t, t));
      MergeAt(v, p + 1, w);
    }

    /** Fold the root into `min`, the first node of its right subtree, which then carries
        `w`. */
    method MergeIntoMin(min: Ival, ghost rs: seq<Limb<Ival>>, t: nat, ghost w: Iv)
      requires Wired() && tree.Node? && tree.right.Node? && RootPos() + 1 < |ivals|
      requires MinSpine(min, rs, root.right, tree.right)
      requires w == Iv(ivals[RootPos()].lo, ivals[RootPos() + 1].hi, Max(ivals[RootPos() + 1].t, t))
      modifies this, min
      ensures Wired() && Elems(tree) <= old(Elems(tree)) && root == rs[0].elem && min.lo == w.lo && min.hi == w.hi
      ensures ivals == Replace(old(ivals), old(RootPos()), old(RootPos()) + 2, [w])
    {
      ghost var v, k := ivals, RootPos();
      FirstOfRight(rs, tree.right);
      RootAt(tree);
      assert Inorder(tree)[k + 1] == min;
      var lo := root.lo;
      UnlinkIntoMin(min, rs);
      assert Iv(lo, min.hi, Max(min.t, t)) == w;
      Resize(min, k, lo, min.hi, Max(min.t, t));
      MergeAt(v, k, w);
    }

    /** Grow the root down to `n`, where it touches `max`, and fold it into `max`. */
    method GrowMergeDown(max: Ival, ghost ls: seq<Limb<Ival>>, n: nat, t: nat,
                         ghost p: nat, ghost w: Iv, ghost q: Ival)
      requires Wired() && tree.Node? && tree.left.Node? && n + 1 == root.lo && p + 1 == RootPos() < |ivals|
      requires q == root.left && q in Elems(tree.left) && w.lo <= n <= w.hi && (q != max ==> q.hi < n)
      requires MaxSpine(max, ls, root.left, tree.left)
      requires w == Iv(ivals[p].lo, ivals[p + 1].hi, Max(ivals[p].t, t))
      modifies this, Elems(tree)
      ensures Wired() && Elems(tree) <= old(Elems(tree)) && root == q && (Holds(q, n) <==> q == max)
      ensures ivals == Replace(old(ivals), p, p + 2, [w])
    {
      ghost var v := ivals;
      RootAt(tree);
      LastOfLeft(ls, tree.left);
      assert allocated(LimbElems(ls)) && q != root;
      Resize(root, p + 1, n, root.hi, Max(root.t, t));
      ghost var v1 := ivals;
      assert q != max ==> q.hi < n;
      MergeIntoMax(max, ls, t, p, w);
      ReplaceResized(v, v1, p, p + 1, p + 2, w);
    }

    /** Grow the root up to `n`, where it touches `min`, and fold it into `min`. */
    method GrowMergeUp(min: Ival, ghost rs: seq<Limb<Ival>>, n: nat, t: nat,
                       ghost w: Iv, ghost q: Ival)
      requires Wired() && tree.Node? && tree.right.Node? && n == root.hi + 1 && RootPos() + 1 < |ivals|
      requires q == root.right && q in Elems(tree.right) && w.lo <= n <= w.hi && (q != min ==> n < q.lo)
      requires MinSpine(min, rs, root.right, tree.right)
      requires w == Iv(ivals[RootPos()].lo, ivals[RootPos() + 1].hi, Max(ivals[RootPos() + 1].t, t))
      modifies this, Elems(tree)
      ensures Wired() && Elems(tree) <= old(Elems(tree)) && root == q && (Holds(q, n) <==> q == min)
      ensures ivals == Replace(old(ivals), old(RootPos()), old(RootPos()) + 2, [w])
    {
      ghost var v, k := ivals, RootPos();
      RootAt(tree);
      FirstOfRight(rs, tree.right);
      assert allocated(LimbElems(rs)) && q != root;
      Resize(root, k, root.lo, n, Max(root.t, t));
      ghost var v1 := ivals;
      assert q != min ==> n < q.lo;
      MergeIntoMin(min, rs, t, w);
      ReplaceResized(v, v1, k, k, k + 2, w);
    }

    /** find_max of the root's left subtree; null if that is empty. */
    method MaxBelow() returns (max: Ival?, ghost ls: seq<Limb<Ival>>)
      requires Wired() && tree.Node?
      ensures Wired() && RootPos() < |ivals| && root == Inorder(tree)[RootPos()]
      ensures max == null <==> RootPos() == 0
      ensures max != null ==> tree.left.Node? && MaxSpine(max, ls, root.left, tree.left)
      ensures max != null ==> max in Elems(tree) && max == Inorder(tree)[RootPos() - 1]
    {
      RootAt(tree);
      assert Linked(root.left, tree.left);
      if root.left == null { return null, []; }
      assert allocated(Elems(tree)) && allocated(Inorder(tree));
      max, ls := FindMax(root.left, tree.left);
      LastOfLeft(ls, tree.left);
      LastLimb(ls);
    }

    /** find_min of the root's right subtree; null if that is empty. */
    method MinAbove() returns (min: Ival?, ghost rs: seq<Limb<Ival>>)
      requires Wired() && tree.Node?
      ensures Wired() && RootPos() < |ivals| && root == Inorder(tree)[RootPos()]
      ensures min == null <==> RootPos() + 1 == |ivals|
      ensures min != null ==> tree.right.Node? && MinSpine(min, rs, root.right, tree.right)
      ensures min != null ==> min in Elems(tree) && min == Inorder(tree)[RootPos() + 1]
    {
      RootAt(tree);
      assert Linked(root.right, tree.right);
      if root.right == null { return null, []; }
      assert allocated(Elems(tree)) && allocated(Inorder(tree));
      min, rs := FindMin(root.right, tree.right);
      FirstOfRight(rs, tree.right);
      LastLimb(rs);
    }

    lemma LeftEndHolds(max: Ival, n: nat)
      requires Valid() && tree.Node? && tree.left.Node? && 0 < RootPos() <= |ivals|
      requires max == Inorder(tree)[RootPos() - 1] && max.hi + 1 == n
      ensures var q := tree.left.elem;
              && q == root.left && q in Elems(tree.left) && (q == max <==> tree.left.right.Leaf?)
              && max.lo <= n && (q != max ==> q.hi < n)
    {
      LeftEnd(tree, max);
      assert Linked(root.left, tree.left);
      ghost var v, j, k := ivals, |Inorder(tree.left.left)|, RootPos();
      assert v[k - 1].lo <= v[k - 1].hi && (j < k - 1 ==> v[j].hi + 1 < v[k - 1].lo);
    }

    lemma RightEndHolds(min: Ival, n: nat)
      requires Valid() && tree.Node? && tree.right.Node? && RootPos() + 1 < |ivals|
      requires min == Inorder(tree)[RootPos() + 1] && min.lo == n + 1
      ensures var q := tree.right.elem;
              && q == root.right && q in Elems(tree.right) && (q == min <==> tree.right.left.Leaf?)
              && n <= min.hi && (q != min ==> n < q.lo)
    {
      RightEnd(tree, min);
      assert Linked(root.right, tree.right);
      ghost var v, j, k := ivals, RootPos() + 1 + |Inorder(tree.right.left)|, RootPos();
      assert v[k + 1].lo <= v[k + 1].hi && (k + 1 < j ==> v[k + 1].hi + 1 < v[j].lo);
    }

    /** diet_insert where `n` joins the root and the last interval before it. */
    method MergeBelow(max: Ival, ghost ls: seq<Limb<Ival>>, n: nat, t: nat, ghost k: nat)
      requires Valid() && tree.Node? && tree.left.Node? && 0 < k == RootPos() < |ivals|
      requires MaxSpine(max, ls, root.left, tree.left) && max == Inorder(tree)[k - 1]
      requires max.hi + 1 == n && n + 1 == root.lo
      modifies this, Elems(tree)
      ensures Wired() && Elems(tree) <= old(Elems(tree)) && InsertNear(old(ivals), k, n, t) == Some(ivals)
      ensures root != null && (Holds(root, n) <==> old(tree.left.right.Leaf?))
    {
      RootAt(tree);
      ghost var w := Iv(ivals[k - 1].lo, ivals[k].hi, Max(ivals[k - 1].t, t));
      LeftEndHolds(max, n);
      NearBelow(ivals, k, n, t, w);
      GrowMergeDown(max, ls, n, t, k - 1, w, tree.left.elem);
    }

    /** diet_insert where `n` joins the root and the first interval after it. */
    method MergeAbove(min: Ival, ghost rs: seq<Limb<Ival>>, n: nat, t: nat, ghost k: nat)
      requires Valid() && tree.Node? && tree.right.Node? && k == RootPos() && k + 1 < |ivals|
      requires MinSpine(min, rs, root.right, tree.right) && min == Inorder(tree)[k + 1]
      requires root.lo <= root.hi && n == root.hi + 1 && min.lo == n + 1
      modifies this, Elems(tree)
      ensures Wired() && Elems(tree) <= old(Elems(tree)) && InsertNear(old(ivals), k, n, t) == Some(ivals)
      ensures root != null && (Holds(root, n) <==> old(tree.right.left.Leaf?))
    {
      RootAt(tree);
      ghost var w := Iv(ivals[k].lo, ivals[k + 1].hi, Max(ivals[k + 1].t, t));
      RightEndHolds(min, n);
      NearAbove(ivals, k, n, t, w);
      GrowMergeUp(min, rs, n, t, w, tree.right.elem);
    }

    /** The branch of diet_insert for `n` below the root; false when a new interval is needed. */
    method InsertBelow(n: nat, t: nat) returns (done: bool)
      requires Valid() && tree.Node? && n < root.lo
      modifies this, Elems(tree)
      ensures Wired() && Elems(tree) <= old(Elems(tree)) && old(RootPos()) < |old(ivals)|
      ensures InsertNear(old(ivals), old(RootPos()), n, t) == if done then Some(ivals) else None
      ensures !done ==> ivals == old(ivals)
      ensures RootHolds(old(tree), old(ivals), n) <==> !done || Holds(root, n)
    {
      ghost var v, k := ivals, RootPos();
      var max;
      ghost var ls;
      max, ls := MaxBelow();
      HoldsBelow(tree, v, k, n);
      if n + 1 == root.lo {
        if max != null && max.hi + 1 == n {
          MergeBelow(max, ls, n, t, k);
        } else {
          Resize(root, k, n, root.hi, Max(root.t, t));
        }
        return true;
      } else if max != null && max.hi + 1 == n {
        Resize(max, k - 1, max.lo, n, Max(max.t, t));
        return true;
      }
      return false;
    }

    /** The branch of diet_insert for `n` above the root; false when a new interval is needed. */
    method InsertAbove(n: nat, t: nat) returns (done: bool)
      requires Valid() && tree.Node? && root.lo <= root.hi < n
      modifies this, Elems(tree)
      ensures Wired() && Elems(tree) <= old(Elems(tree)) && old(RootPos()) < |old(ivals)|
      ensures InsertNear(old(ivals), old(RootPos()), n, t) == if done then Some(ivals) else None
      ensures !done ==> ivals == old(ivals)
      ensures RootHolds(old(tree), old(ivals), n) <==> !done || Holds(root, n)
    {
      ghost var v, k := ivals, RootPos();
      var min;
      ghost var rs;
      min, rs := MinAbove();
      HoldsAbove(tree, v, k, n);
      if n == root.hi + 1 {
        if min != null && min.lo == n + 1 {
          MergeAbove(min, rs, n, t, k);
        } else {
          Resize(root, k, root.lo, n, Max(root.t, t));
        }
        return true;
      } else if min != null && min.lo - 1 == n {
        Resize(min, k + 1, n, min.hi, Max(min.t, t));
        return true;
      }
      return false;
    }

    /** The part of diet_insert for an `n` outside the root, which is next to it. */
    method InsertBeside(n: nat, t: nat) returns (done: bool)
      requires Valid() && tree.Node? && !Holds(tree.elem, n) && Located(ivals, RootPos(), n)
      modifies this, Elems(tree)
      ensures Valid() && Elems(tree) <= old(Elems(tree))
      ensures if done then InsertStep(old(ivals), ivals, n, t) else ivals == old(ivals) && Lonely(ivals, n)
      ensures RootHolds(old(tree), old(ivals), n) <==> !done || Holds(root, n)
    {
      RootAt(tree);
      NearInserts(ivals, RootPos(), n, t);
      if n < root.lo {
        done := InsertBelow(n, t);
      } else {
        done := InsertAbove(n, t);
      }
    }

    /** diet_insert of `n` returns an interval that contains `n` from here. */
    ghost predicate WouldHold(n: nat)
      reads this, Elems(tree)
    {
      tree.Node? ==> RootHolds(NextTree(n, n), ivals, n)
    }

    /** diet_insert: the interval returned is the root; it contains `n` if and only if the
        tree has the shape described by `RootHolds`. */
    method Insert(n: nat, t: nat) returns (r: Ival)
      requires Valid()
      modifies this, Elems(tree)
      ensures Valid() && (forall x :: x in Elems(tree) ==> x in old(Elems(tree)) || fresh(x))
      ensures InsertStep(old(ivals), ivals, n, t)
      ensures r == root && (Holds(r, n) <==> old(WouldHold(n)))
    {
      if root != null {
        var done := InsertOld(n, t);
        assert Elems(tree) - old(Elems(tree)) == {};
        if done { return root; }
      } else {
        NullIsEmpty();
      }
      r := InsertNew(n, t);
      assert Elems(tree) - old(Elems(tree)) <= {r};
    }

    /** The part of diet_insert that changes existing intervals; false when a new one is
        needed. */
    method InsertOld(n: nat, t: nat) returns (done: bool)
      requires Valid() && root != null
      modifies this, Elems(tree)
      ensures Valid() && Elems(tree) <= old(Elems(tree))
      ensures if done then InsertStep(old(ivals), ivals, n, t) && root != null && (Holds(root, n) <==> old(WouldHold(n)))
              else ivals == old(ivals) && Lonely(ivals, n) && old(WouldHold(n))
    {
      var f := Find(n);
      done := InsertHere(n, t);
    }

    /** The same once the root has been splayed for `n`. */
    method InsertHere(n: nat, t: nat) returns (done: bool)
      requires Valid() && tree.Node? && Located(ivals, RootPos(), n)
      modifies this, Elems(tree)
      ensures Valid() && Elems(tree) <= old(Elems(tree)) && (done ==> root != null)
      ensures if done then InsertStep(old(ivals), ivals, n, t) else ivals == old(ivals) && Lonely(ivals, n)
      ensures RootHolds(old(tree), old(ivals), n) <==> !done || Holds(root, n)
    {
      ghost var v, k := ivals, RootPos();
      RootAt(tree);
      if root.lo <= n <= root.hi {
        TouchInserts(v, k, n, t, Max(v[k].t, t));
        Resize(root, k, root.lo, root.hi, Max(root.t, t));
        return true;
      }
      done := InsertBeside(n, t);
    }

    /** The new_ival label of diet_insert. */
    method InsertNew(n: nat, t: nat) returns (r: Ival)
      requires Valid() && Lonely(ivals, n)
      modifies this, Elems(tree)
      ensures Valid() && Elems(tree) == old(Elems(tree)) + {r}
      ensures InsertStep(old(ivals), ivals, n, t)
      ensures r == root && fresh(r) && Holds(r, n)
    {
      ghost var v := ivals;
      LonelyGone(v, n);
      assert allocated(Elems(tree)) && allocated(Inorder(tree));
      r := new Ival(n, t);
      ghost var p := SplayInsert(r);
      NewInserts(v, p, n, t);
    }

    /** Take [lo..hi] out of the root interval: free it, trim it or split it. */
    method CutRoot(lo: nat, hi: nat)
      requires Valid() && root != null && lo <= hi && lo <= root.hi && root.lo <= hi
      modifies this, Elems(tree)
      ensures Wired() && (forall x :: x in Elems(tree) ==> x in old(Elems(tree)) || fresh(x))
      ensures old(RootPos()) < |old(ivals)| && ivals == Cut(old(ivals), old(RootPos()), lo, hi)
      ensures tree.Node? ==> CutRootAt(old(ivals), old(RootPos()), lo, hi, RootPos())
    {
      ghost var nodes := Elems(tree);
      RootAt(tree);
      CutForms(ivals, RootPos(), lo, hi);
      if lo <= root.lo && root.hi <= hi {
        DropRoot();
        assert Elems(tree) - nodes == {};
      } else if lo <= root.lo || root.hi <= hi {
        TrimRoot(lo, hi);
      } else {
        SplitRoot(lo, hi);
      }
    }

    /** Cut one end off the root interval. */
    method TrimRoot(lo: nat, hi: nat)
      requires Valid() && root != null && lo <= hi && lo <= root.hi && root.lo <= hi && (lo <= root.lo <==> hi < root.hi)
      modifies this`ivals, root`lo, root`hi, root`t
      ensures Wired() && tree == old(tree) && RootPos() < |old(ivals)| && ivals == Cut(old(ivals), RootPos(), lo, hi)
    {
      RootAt(tree);
      CutForms(ivals, RootPos(), lo, hi);
      if lo <= root.lo {
        Resize(root, RootPos(), hi + 1, root.hi, root.t);
      } else {
        Resize(root, RootPos(), root.lo, lo - 1, root.t);
      }
    }

    /** diet_remove */
    method Remove(n: nat)
      requires Valid()
      modifies this, Elems(tree)
      ensures Valid() && (forall x :: x in Elems(tree) ==> x in old(Elems(tree)) || fresh(x))
      ensures RemoveStep(old(ivals), ivals, n, n) && !Has(ivals, n)
    {
      ghost var v, nodes := ivals, Elems(tree);
      RemoveNothing(v, n, n);
      assert nodes - nodes == {};
      if root == null { return; }
      var f := Find(n);
      if f == null { return; }
      RootAt(tree);
      CutRemoves(v, RootPos(), n, n);
      CutRoot(n, n);
    }

    /** The pointer work of one round of diet_remove_ival: splay for the requested
        range, then cut the range still wanted out of the root if they meet. */
    method SplayAndCut(ilo: nat, ihi: nat, lo: nat, hi: nat)
      returns (hit: bool, rlo: nat, rhi: nat, ghost k: nat)
      requires Valid() && root != null && ilo <= ihi
      requires forall i :: 0 <= i < |ivals| && lo <= ivals[i].hi && ivals[i].lo <= hi ==> lo <= hi
      modifies this, Elems(tree)
      ensures Wired() && (forall x :: x in Elems(tree) ==> x in old(Elems(tree)) || fresh(x))
      ensures k == old(NextPos(ilo, ihi)) && Separated(old(ivals), k, ilo, ihi)
      ensures rlo == old(ivals)[k].lo && rhi == old(ivals)[k].hi
      ensures hit <==> lo <= rhi && rlo <= hi
      ensures ivals == if hit then Cut(old(ivals), k, lo, hi) else old(ivals)
      ensures hit && tree.Node? ==> CutRootAt(old(ivals), k, lo, hi, RootPos())
    {
      SplayTo(ilo, ihi);
      RootAt(tree);
      k, rlo, rhi := RootPos(), root.lo, root.hi;
      hit := !(hi < rlo || lo > rhi);
      if hit { CutRoot(lo, hi); }
    }

    /** diet_remove_ival clears [ilo..ihi] from here. */
    ghost predicate WouldClear(ilo: nat, ihi: nat)
      reads this, Elems(tree)
    {
      tree.Node? ==> NextPos(ilo, ihi) < |ivals| && Spans(ivals, NextPos(ilo, ihi), ilo, ihi)
    }

    /** The loop of diet_remove_ival, with [lo..hi] still wanted, is going to come to `good`. */
    ghost predicate OnCourse(ilo: nat, ihi: nat, lo: nat, hi: nat, good: bool)
      reads this, Elems(tree)
    {
      Course(ivals, if tree.Node? then NextPos(ilo, ihi) else 0, ilo, ihi, lo, hi, good)
    }

    lemma StartsOnCourse(ilo: nat, ihi: nat)
      requires Valid() && ilo <= ihi
      ensures OnCourse(ilo, ihi, ilo, ihi, WouldClear(ilo, ihi))
    {
      FullStarts(ivals, ilo, ihi);
      if tree.Node? { NextPosFacts(ilo, ihi); }
    }

    lemma StaysOnCourse(ilo: nat, ihi: nat, lo: nat, hi: nat, good: bool, kr: nat)
      requires Valid() && ilo <= ihi && (tree.Node? ==> kr == RootPos())
      requires GoesOn(ivals, ilo, ihi, lo, hi, kr, good)
      ensures OnCourse(ilo, ihi, lo, hi, good)
    {
      if tree.Node? {
        NextPosFacts(ilo, ihi);
        CourseGoesOn(ivals, kr, NextPos(ilo, ihi), ilo, ihi, lo, hi, good);
      } else {
        CourseGoesOn(ivals, kr, 0, ilo, ihi, lo, hi, good);
      }
    }

    /** What a round leaves: a return with the outcome `good`, or a range to go on with
        and fewer members than `n`. */
    ghost predicate RoundDone(v0: seq<Iv>, n: nat, ilo: nat, ihi: nat, next: Option<(nat, nat)>, good: bool)
      reads this, Elems(tree)
    {
      match next
      case None => RemoveStep(v0, ivals, ilo, ihi) && (Clear(ivals, ilo, ihi) <==> good)
      case Some((lo, hi)) =>
        LoopInv(v0, ilo, ihi, ivals, lo, hi) && OnCourse(ilo, ihi, lo, hi, good) && MemberCount(ivals) < n
    }

    lemma RoundHit(v0: seq<Iv>, v: seq<Iv>, k: nat, ilo: nat, ihi: nat, lo: nat, hi: nat, good: bool)
      requires Wired() && Canonical(v) && ilo <= ihi && Separated(v, k, ilo, ihi) && Meets(v[k], lo, hi)
      requires LoopInv(v0, ilo, ihi, v, lo, hi) && Course(v, k, ilo, ihi, lo, hi, good)
      requires ivals == Cut(v, k, lo, hi) && (tree.Node? ==> CutRootAt(v, k, lo, hi, RootPos()))
      ensures RoundDone(v0, MemberCount(v), ilo, ihi, NextRange(v[k].lo, v[k].hi, lo, hi), good)
    {
      var next, kr := NextRange(v[k].lo, v[k].hi, lo, hi), if tree.Node? then RootPos() else 0;
      RoundKeeps(v0, ilo, ihi, v, k, lo, hi);
      CourseHit(v, k, ilo, ihi, lo, hi, kr, good);
      if next.Some? { StaysOnCourse(ilo, ihi, next.value.0, next.value.1, good, kr); }
    }

    /** One pass from the `again` label to the next jump or return. */
    method RemoveRound(ilo: nat, ihi: nat, lo: nat, hi: nat, ghost v0: seq<Iv>, ghost good: bool)
      returns (next: Option<(nat, nat)>)
      requires Wired() && root != null && ilo <= ihi && LoopInv(v0, ilo, ihi, ivals, lo, hi)
      requires OnCourse(ilo, ihi, lo, hi, good)
      modifies this, Elems(tree)
      ensures Wired() && (forall x :: x in Elems(tree) ==> x in old(Elems(tree)) || fresh(x))
      ensures RoundDone(v0, old(MemberCount(ivals)), ilo, ihi, next, good)
    {
      ghost var v := ivals;
      LoopFacts(v0, ilo, ihi, v, lo, hi);
      var hit, rlo, rhi;
      ghost var k;
      hit, rlo, rhi, k := SplayAndCut(ilo, ihi, lo, hi);
      if hit {
        RoundHit(v0, v, k, ilo, ihi, lo, hi, good);
        next := NextRange(rlo, rhi, lo, hi);
      } else {
        CourseMissed(v, k, ilo, ihi, lo, hi, good);
        next := None;
      }
    }

    /** diet_remove_ival: removes numbers of the range only, and all of them if and only
        if the condition of ExactRange holds; so in particular if the range is wholly in
        the set.  Each retry removes at least one member. */
    method RemoveIval(ilo: nat, ihi: nat)
      requires Valid() && ilo <= ihi
      modifies this, Elems(tree)
      ensures Valid() && (forall x :: x in Elems(tree) ==> x in old(Elems(tree)) || fresh(x))
      ensures RemoveStep(old(ivals), ivals, ilo, ihi)
      ensures Covered(old(ivals), ilo, ihi) ==> Clear(ivals, ilo, ihi)
      ensures Clear(ivals, ilo, ihi) <==> old(WouldClear(ilo, ihi))
    {
      ghost var v0, good := ivals, WouldClear(ilo, ihi);
      var lo, hi := ilo, ihi;
      LoopStarts(v0, ilo, ihi);
      StartsOnCourse(ilo, ihi);
      assert Covered(ivals, ilo, ihi) ==> good by {
        if tree.Node? && Covered(ivals, ilo, ihi) {
          NextPosFacts(ilo, ihi);
          CoveredSpans(ivals, NextPos(ilo, ihi), ilo, ihi);
        }
      }
      while root != null
        invariant Wired() && (forall x :: x in Elems(tree) ==> x in old(Elems(tree)) || fresh(x))
        invariant LoopInv(v0, ilo, ihi, ivals, lo, hi) && OnCourse(ilo, ihi, lo, hi, good)
        decreases MemberCount(ivals)
      {
        var next := RemoveRound(ilo, ihi, lo, hi, v0, good);
        if next.None? { return; }
        lo, hi := next.value.0, next.value.1;
      }
      NullIsEmpty();
    }

    /** splay_min and splay_max: bring the first or the last interval to the root. */
    method SplayEnd(comp: int)
      requires Valid() && root != null && comp != 0
      modifies this`root, this`tree, Elems(tree)`left, Elems(tree)`right
      ensures Valid() && ivals == old(ivals) && Elems(tree) == old(Elems(tree)) && tree.Node?
      ensures RootPos() == if comp < 0 then 0 else |ivals| - 1
      ensures Inorder(tree) == old(Inorder(tree)) && root == tree.elem == Inorder(tree)[RootPos()]
    {
      ghost var c := (_: Ival) => comp;
      SplayInorder(c, tree);
      SplayEnds(c, tree);
      InorderElems(tree);
      assert allocated(Inorder(tree)) && Mirrors(Inorder(tree), ivals);
      var r;
      ghost var t;
      r, t := SplayMinMax(root, comp, tree);
      Retie(r, t);
      RootAt(tree);
    }

    /** diet_min and diet_max: 0 on an empty set, else its least and greatest member. */
    method Extreme(comp: int) returns (n: nat)
      requires Valid() && comp != 0
      modifies this`root, this`tree, Elems(tree)`left, Elems(tree)`right
      ensures Valid() && ivals == old(ivals) && Elems(tree) == old(Elems(tree))
      ensures ivals == [] ==> n == 0
      ensures ivals != [] ==> Has(ivals, n)
      ensures forall m: int :: Has(ivals, m) ==> if comp < 0 then n <= m else m <= n
    {
      if root == null {
        NullIsEmpty();
        return 0;
      }
      SplayEnd(comp);
      n := if comp < 0 then root.lo else root.hi;
      assert Within(ivals[RootPos()], n);
    }

    /** splay_next and splay_prev from node number `i`. */
    method Step(x: Ival, forward: bool, ghost i: nat) returns (y: Ival?)
      requires Valid() && i < |ivals| && x == Inorder(tree)[i]
      modifies this`root, this`tree, Elems(tree)`left, Elems(tree)`right
      ensures Valid() && ivals == old(ivals) && Elems(tree) == old(Elems(tree))
      ensures Inorder(tree) == old(Inorder(tree))
      ensures var j := if forward then i + 1 else i - 1;
              if 0 <= j < |ivals| then y == Inorder(tree)[j] else y == null
    {
      SplayTo(x.lo, x.hi);
      SeparatedFinds(ivals, RootPos(), i);
      RootAt(tree);
      InorderInjective(tree);
      ghost var spine;
      if forward {
        y, spine := MinAbove();
      } else {
        y, spine := MaxBelow();
      }
    }

    /** A loop that walks the tree from one end like splay_foreach and
        splay_foreach_rev, reshaping it at every step, visits every interval once,
        in order. */
    method Walk(forward: bool) returns (s: seq<(nat, nat)>)
      requires Valid()
      modifies this`root, this`tree, Elems(tree)`left, Elems(tree)`right
      ensures Valid() && ivals == old(ivals) && Elems(tree) == old(Elems(tree))
      ensures |s| == |ivals| && Listed(s, ivals, forward)
    {
      s := [];
      if root == null {
        NullIsEmpty();
        return;
      }
      SplayEnd(if forward then -1 else 1);
      var x: Ival? := root;
      ghost var v := ivals;
      while x != null
        invariant Valid() && ivals == v && Elems(tree) == old(Elems(tree))
        invariant Listed(s, v, forward) && Waits(x, forward, |s|)
        decreases |v| - |s|
      {
        x, s := Visit(x, forward, s);
      }
    }

    /** After `m` steps of a walk, `x` is the node to visit next, if any. */
    ghost predicate Waits(x: Ival?, forward: bool, m: nat)
      requires m <= |ivals|
      reads this
    {
      |ivals| == |Inorder(tree)| &&
      if m < |ivals| then x == Inorder(tree)[Spot(forward, m, |ivals|)] else x == null
    }

    /** One round of such a walk. */
    method Visit(x: Ival, forward: bool, s: seq<(nat, nat)>) returns (y: Ival?, s': seq<(nat, nat)>)
      requires Valid() && Listed(s, ivals, forward) && Waits(x, forward, |s|)
      modifies this`root, this`tree, Elems(tree)`left, Elems(tree)`right
      ensures Valid() && ivals == old(ivals) && Elems(tree) == old(Elems(tree))
      ensures |s'| == |s| + 1 && Listed(s', ivals, forward) && Waits(y, forward, |s'|)
    {
      ghost var i := Spot(forward, |s|, |ivals|);
      ListedMore(s, ivals, forward);
      assert (x.lo, x.hi) == Bounds(ivals, i);
      s' := s + [(x.lo, x.hi)];
      y := Step(x, forward, i);
      SpotNext(forward, |s'|, |ivals|, i);
    }

    /** diet_free */
    method Free()
      requires Valid()
      modifies this, Elems(tree)
      ensures Valid() && root == null && ivals == []
    {
      while root != null
        invariant Valid() && Elems(tree) <= old(Elems(tree))
        decreases |ivals|
      {
        SplayEnd(-1);
        DropRoot();
      }
      NullIsEmpty();
    }

    /** Install a relinked tree. */
    method Adopt(p: Ival?, n: nat, ghost t: Tree<Ival>, ghost v: seq<Iv>)
      requires Proper(t) && Linked(p, t) && Mirrors(Inorder(t), v) && n == |v|
      modifies this
      ensures Wired() && root == p && tree == t && ivals == v && cnt == n
    {
      InorderElems(t);
      root, cnt, tree, ivals := p, n, t, v;
    }
  }

  /** Seen from the root's own interval, everything in the left subtree lies below. */
  lemma RootAboveLeft(t: Tree<Ival>, v: seq<Iv>, lo: nat, hi: nat)
    requires t.Node? && Mirrors(Inorder(t), v) && Canonical(v)
    requires lo == t.elem.lo && hi == t.elem.hi
    ensures var c := Probe(t.left, lo, hi);
            AllAbove(c, Inorder(t.left)) && Monotone(c, Inorder(t.left))
  {
    var c, k := Probe(t.left, lo, hi), |Inorder(t.left)|;
    RootAt(t);
    InorderElems(t.left);
    forall i | 0 <= i < k ensures c(Inorder(t.left)[i]) == 1 {
      assert Inorder(t)[i] == Inorder(t.left)[i];
    }
  }

  lemma RootAt(t: Tree<Ival>)
    requires t.Node?
    ensures |Inorder(t.left)| < |Inorder(t)| && Inorder(t)[|Inorder(t.left)|] == t.elem
  {
  }

  lemma MirrorsInsert(s: seq<Ival>, v: seq<Iv>, p: nat, x: Ival)
    requires Mirrors(s, v) && p <= |s|
    ensures Mirrors(s[..p] + [x] + s[p..], Replace(v, p, p, [Iv(x.lo, x.hi, x.t)]))
  {
  }

  lemma ReplaceResized(v: seq<Iv>, v1: seq<Iv>, a: nat, k: nat, b: nat, w: Iv)
    requires a <= k < b <= |v| == |v1| && v1 == v[k := v1[k]]
    ensures Replace(v1, a, b, [w]) == Replace(v, a, b, [w])
  {
    assert v1[..a] == v[..a] && v1[b..] == v[b..];
  }

  lemma MergeAt(v: seq<Iv>, k: nat, w: Iv)
    requires k < |v|
    ensures k > 0 ==> Without(v, k)[k - 1 := w] == Replace(v, k - 1, k + 1, [w])
    ensures k + 1 < |v| ==> Without(v, k)[k := w] == Replace(v, k, k + 2, [w])
  {
  }

  lemma LonelyGone(v: seq<Iv>, n: nat)
    requires Lonely(v, n)
    ensures !Has(v, n)
  {
  }

  lemma SplitAt(v: seq<Iv>, k: nat, a: Iv, b: Iv)
    requires k < |v|
    ensures Replace(v[k := b], k, k, [a]) == Replace(v, k, k + 1, [a, b])
  {
  }

  lemma WithoutRoot(t: Tree<Ival>)
    requires t.Node?
    ensures Without(Inorder(t), |Inorder(t.left)|) == Inorder(t.left) + Inorder(t.right)
  {
  }

  lemma RootGone(t: Tree<Ival>)
    requires t.Node? && Proper(t)
    ensures Elems(t.left) + Elems(t.right) == Elems(t.right) + Elems(t.left) == Elems(t) - {t.elem}
  {
  }

  lemma MirrorsWithout(s: seq<Ival>, v: seq<Iv>, k: nat)
    requires Mirrors(s, v) && k < |s|
    ensures Mirrors(Without(s, k), Without(v, k))
  {
  }

  lemma LastOfLeft(ls: seq<Limb<Ival>>, t: Tree<Ival>)
    requires ls != [] && FlatLeft(ls) == Inorder(t)
    ensures Inorder(t) != [] && Inorder(t)[|Inorder(t)| - 1] == ls[|ls| - 1].elem
  {
  }

  lemma FirstOfRight(rs: seq<Limb<Ival>>, t: Tree<Ival>)
    requires rs != [] && FlatRight(rs) == Inorder(t)
    ensures Inorder(t) != [] && Inorder(t)[0] == rs[|rs| - 1].elem
  {
  }

  /** The interval at position `k` holds `n`, or `n` lies in the gap right before
      or right after it. */
  ghost predicate Located(v: seq<Iv>, k: nat, n: nat)
  {
    && k < |v|
    && (if n < v[k].lo then Gap(v, k, n) else if n > v[k].hi then Gap(v, k + 1, n) else Within(v[k], n))
    && (Has(v, n) <==> Within(v[k], n))
  }

  /** The position visited after `i` others when walking `n` intervals. */
  function Spot(forward: bool, i: nat, n: nat): (k: nat)
    requires i < n
    ensures k < n
  {
    if forward then i else n - 1 - i
  }

  lemma SpotNext(forward: bool, m: nat, n: nat, i: nat)
    requires 0 < m <= n && i == Spot(forward, m - 1, n)
    ensures var j := if forward then i + 1 else i - 1;
            if m < n then j == Spot(forward, m, n) else j < 0 || j >= n
  {
  }

  function Bounds(v: seq<Iv>, i: nat): (r: (nat, nat))
    requires i < |v|
  {
    (v[i].lo, v[i].hi)
  }

  /** `s` lists the first bounds of `v` in the order of the walk. */
  ghost predicate Listed(s: seq<(nat, nat)>, v: seq<Iv>, forward: bool)
  {
    |s| <= |v| && forall i :: 0 <= i < |s| ==> s[i] == Bounds(v, Spot(forward, i, |v|))
  }

  lemma ListedMore(s: seq<(nat, nat)>, v: seq<Iv>, forward: bool)
    requires Listed(s, v, forward) && |s| < |v|
    ensures Listed(s + [Bounds(v, Spot(forward, |s|, |v|))], v, forward)
  {
  }

  /** Splaying with the bounds of interval `i` as key brings that interval up. */
  lemma SeparatedFinds(v: seq<Iv>, k: nat, i: nat)
    requires Canonical(v) && i < |v| && Separated(v, k, v[i].lo, v[i].hi)
    ensures k == i
  {
  }

  lemma SeparatedLocates(v: seq<Iv>, k: nat, n: nat)
    requires Canonical(v) && Separated(v, k, n, n)
    ensures Located(v, k, n)
  {
    if !Within(v[k], n) {
      forall i | 0 <= i < |v| ensures !Within(v[i], n) {}
    }
  }
}
