/** When diet_remove_ival (lib/src/diet.c) removes the whole range: on interval lists,
    with the position of the root that each splay brings up. */
module ExactRange {
  import opened Ivals
  import opened RemoveRange

  /** The side of the key [ilo..ihi] on which interval `i` lies: positive below, zero
      if one contains the other, negative above. */
  function Side(v: seq<Iv>, i: nat, ilo: nat, ihi: nat): (r: int)
    requires i < |v|
  {
    IvalCmp(ilo, ihi, v[i].lo, v[i].hi)
  }

  predicate Meets(x: Iv, lo: nat, hi: nat)
  {
    lo <= x.hi && x.lo <= hi
  }

  /** Nothing of `v` is in the range. */
  ghost predicate NoneMeets(v: seq<Iv>, lo: nat, hi: nat)
  {
    forall i :: 0 <= i < |v| ==> !Meets(v[i], lo, hi)
  }

  /** The root after a splay, given that the root before was interval `kr`: a match
      stays, and a root next to the key gives way to the interval on the other side. */
  ghost predicate NextRoot(v: seq<Iv>, kr: nat, k: nat, ilo: nat, ihi: nat)
  {
    && Separated(v, k, ilo, ihi) && kr < |v|
    && (Side(v, kr, ilo, ihi) == 0 ==> k == kr)
    && (kr + 1 < |v| && Side(v, kr, ilo, ihi) > 0 && Side(v, kr + 1, ilo, ihi) < 0 ==> k == kr + 1)
    && (kr > 0 && Side(v, kr, ilo, ihi) < 0 && Side(v, kr - 1, ilo, ihi) > 0 ==> k == kr - 1)
  }

  ghost predicate StartsAt(v: seq<Iv>, ilo: nat)
  {
    exists i :: 0 <= i < |v| && v[i].lo == ilo
  }

  ghost predicate CutsBelow(v: seq<Iv>, ilo: nat)
  {
    exists i :: 0 <= i < |v| && v[i].lo < ilo <= v[i].hi
  }

  ghost predicate CutsAbove(v: seq<Iv>, ihi: nat)
  {
    exists i :: 0 <= i < |v| && v[i].lo <= ihi < v[i].hi
  }

  /** The condition: interval `k` is the one that the first splay for [ilo..ihi] brings
      to the root.
      - If it neither contains the range nor lies in it, it must meet the range if any
        interval does.
      - If it contains the range, all is well.
      - If it lies in the range and some interval starts exactly with the range, nothing
        above `k` may meet the range.
      - If it lies in the range and none does, an interval that reaches into the range
        from below needs one that reaches out of it above, or no interval beyond. */
  ghost predicate Spans(v: seq<Iv>, k: nat, ilo: nat, ihi: nat)
    requires k < |v|
  {
    if Side(v, k, ilo, ihi) != 0 then Meets(v[k], ilo, ihi) || NoneMeets(v, ilo, ihi)
    else if v[k].lo <= ilo && ihi <= v[k].hi then true
    else if StartsAt(v, ilo) then forall i :: k < i < |v| ==> !Meets(v[i], ilo, ihi)
    else !CutsBelow(v, ilo) || CutsAbove(v, ihi) || Meets(v[|v| - 1], ilo, ihi)
  }

  /** The range [lo..hi] still wanted covers all that is left in [ilo..ihi]. */
  ghost predicate Full(v: seq<Iv>, ilo: nat, ihi: nat, lo: nat, hi: nat)
  {
    && ilo <= lo && hi <= ihi
    && (forall i :: 0 <= i < |v| && Meets(v[i], ilo, ihi) ==> lo <= Max(v[i].lo, ilo) && Least(v[i].hi, ihi) <= hi)
    && (lo != ilo ==> forall i :: 0 <= i < |v| ==> Side(v, i, ilo, ihi) != 0)
  }

  function Least(a: nat, b: nat): (r: nat)
  {
    if a <= b then a else b
  }

  lemma ClearMeans(v: seq<Iv>, ilo: nat, ihi: nat)
    requires Canonical(v) && ilo <= ihi
    ensures Clear(v, ilo, ihi) <==> NoneMeets(v, ilo, ihi)
  {
    forall i | 0 <= i < |v| && Meets(v[i], ilo, ihi) ensures exists m: int :: ilo <= m <= ihi && Has(v, m) {
      assert Within(v[i], Max(v[i].lo, ilo));
      assert Has(v, Max(v[i].lo, ilo));
    }
    if NoneMeets(v, ilo, ihi) {
      forall m: int | ilo <= m <= ihi ensures !Has(v, m) {
        forall i | 0 <= i < |v| ensures !Within(v[i], m) { assert !Meets(v[i], ilo, ihi); }
      }
    }
  }

  // ----- the three kinds of intervals that meet the range

  /** An interval below the key meets the range only as the last such one, and one above
      only as the first. */
  lemma SideFacts(v: seq<Iv>, i: nat, ilo: nat, ihi: nat)
    requires Canonical(v) && i < |v| && ilo <= ihi
    ensures Side(v, i, ilo, ihi) > 0 <==> v[i].lo < ilo && v[i].hi < ihi
    ensures Side(v, i, ilo, ihi) < 0 <==> v[i].lo > ilo && v[i].hi > ihi
    ensures Side(v, i, ilo, ihi) == 0 ==> Meets(v[i], ilo, ihi)
    ensures Side(v, i, ilo, ihi) > 0 ==> (Meets(v[i], ilo, ihi) <==> v[i].hi >= ilo)
    ensures Side(v, i, ilo, ihi) < 0 ==> (Meets(v[i], ilo, ihi) <==> v[i].lo <= ihi)
  {
  }

  /** The loop leaves with a root that does not meet the wanted range: then the range is
      clear if and only if the condition holds. */
  lemma MissOutcome(v: seq<Iv>, k: nat, ilo: nat, ihi: nat, lo: nat, hi: nat)
    requires Canonical(v) && ilo <= ihi && k < |v| && Full(v, ilo, ihi, lo, hi) && !Meets(v[k], lo, hi)
    ensures NoneMeets(v, ilo, ihi) <==> Spans(v, k, ilo, ihi)
  {
    SideFacts(v, k, ilo, ihi);
    assert !Meets(v[k], ilo, ihi);
  }

  // ----- dropping an interval that lies in the range

  /** Interval `k` lies in the range and does not contain it. */
  ghost predicate Inner(v: seq<Iv>, k: nat, ilo: nat, ihi: nat)
  {
    Canonical(v) && ilo <= ihi && k < |v| && ilo <= v[k].lo && v[k].hi <= ihi && !(v[k].lo == ilo && v[k].hi == ihi)
  }

  /** With an inner interval there is none that contains the range. */
  lemma NoContainer(v: seq<Iv>, k: nat, ilo: nat, ihi: nat, i: nat)
    requires Inner(v, k, ilo, ihi) && i < |v|
    ensures !(v[i].lo <= ilo && ihi <= v[i].hi)
    ensures Side(v, i, ilo, ihi) == 0 ==> Inner(v, i, ilo, ihi)
  {
    if i < k { assert v[i].hi + 1 < v[k].lo; } else if i > k { assert v[k].hi + 1 < v[i].lo; }
  }

  /** What is still wanted after an inner interval that does not start the range has
      been dropped. */
  lemma DropFull(v: seq<Iv>, k: nat, ilo: nat, ihi: nat, lo: nat, hi: nat, hi': nat)
    requires Inner(v, k, ilo, ihi) && Full(v, ilo, ihi, lo, hi) && v[k].lo > lo
    requires hi' == if hi <= v[k].hi then v[k].lo - 1 else hi
    ensures Full(Without(v, k), ilo, ihi, lo, hi')
  {
    var w := Without(v, k);
    assert Meets(v[k], ilo, ihi);
    forall i | 0 <= i < |w| && Meets(w[i], ilo, ihi) ensures lo <= Max(w[i].lo, ilo) && Least(w[i].hi, ihi) <= hi' {
      var j := if i < k then i else i + 1;
      assert w[i] == v[j] && Meets(v[j], ilo, ihi);
      if j < k { assert v[j].hi + 1 < v[k].lo; } else { assert v[k].hi + 1 < v[j].lo; }
    }
    forall i | 0 <= i < |w| && lo != ilo ensures Side(w, i, ilo, ihi) != 0 {
      assert Side(v, if i < k then i else i + 1, ilo, ihi) != 0;
    }
  }

  /** Below an inner interval that does not start the range, the predecessor is inner
      too, if some interval starts the range. */
  lemma InnerBelow(v: seq<Iv>, k: nat, ilo: nat, ihi: nat, f: nat)
    requires Inner(v, k, ilo, ihi) && v[k].lo > ilo && f < |v| && v[f].lo == ilo
    ensures f < k && Inner(v, k - 1, ilo, ihi)
  {
    assert f <= k;
    assert v[k - 1].hi + 1 < v[k].lo;
    if f < k - 1 { assert v[f].hi + 1 < v[k - 1].lo; }
  }

  /** In the third case the condition looks at what is above. */
  lemma SpansAbove(v: seq<Iv>, k: nat, ilo: nat, ihi: nat)
    requires Inner(v, k, ilo, ihi) && StartsAt(v, ilo)
    ensures Spans(v, k, ilo, ihi) <==> forall i :: k < i < |v| ==> !Meets(v[i], ilo, ihi)
  {
  }

  lemma SameAbove(v: seq<Iv>, k: nat, ilo: nat, ihi: nat)
    requires 0 < k < |v|
    ensures (forall i :: k < i < |v| ==> !Meets(v[i], ilo, ihi)) <==>
            (forall i :: k - 1 < i < |v| - 1 ==> !Meets(Without(v, k)[i], ilo, ihi))
  {
    var w := Without(v, k);
    forall i | k - 1 < i < |w| ensures w[i] == v[i + 1] {}
    forall i | k < i < |v| ensures v[i] == w[i - 1] {}
  }

  /** Some interval starts with the range: the chain of predecessors leads down to it. */
  lemma DropChain(v: seq<Iv>, k: nat, ilo: nat, ihi: nat, kr: nat, k': nat, f: nat)
    requires Inner(v, k, ilo, ihi) && v[k].lo > ilo && f < |v| && v[f].lo == ilo
    requires k > 0 ==> kr == k - 1
    requires NextRoot(Without(v, k), kr, k', ilo, ihi)
    ensures Spans(Without(v, k), k', ilo, ihi) == Spans(v, k, ilo, ihi)
  {
    var w := Without(v, k);
    InnerBelow(v, k, ilo, ihi, f);
    WithoutCanonical(v, k);
    assert w[k - 1] == v[k - 1] && Side(w, kr, ilo, ihi) == 0 && k' == k - 1;
    assert w[f].lo == ilo && StartsAt(w, ilo);
    SpansAbove(v, k, ilo, ihi);
    SpansAbove(w, k', ilo, ihi);
    SameAbove(v, k, ilo, ihi);
  }

  lemma DropBelow(v: seq<Iv>, k: nat, ilo: nat, ihi: nat)
    requires Inner(v, k, ilo, ihi)
    ensures CutsBelow(Without(v, k), ilo) <==> CutsBelow(v, ilo)
  {
    var w := Without(v, k);
    if CutsBelow(v, ilo) {
      var i :| 0 <= i < |v| && v[i].lo < ilo <= v[i].hi;
      assert w[if i < k then i else i - 1] == v[i];
    }
    if CutsBelow(w, ilo) {
      var i :| 0 <= i < |w| && w[i].lo < ilo <= w[i].hi;
      assert v[if i < k then i else i + 1] == w[i];
    }
  }

  lemma AboveStays(v: seq<Iv>, w: seq<Iv>, ihi: nat, i: nat, j: nat)
    requires i < |v| && j < |w| && w[j] == v[i] && v[i].lo <= ihi < v[i].hi
    ensures CutsAbove(w, ihi)
  {
  }

  lemma AboveDropped(v: seq<Iv>, k: nat, ihi: nat)
    requires k < |v| && v[k].hi <= ihi && CutsAbove(v, ihi)
    ensures CutsAbove(Without(v, k), ihi)
  {
    var i :| 0 <= i < |v| && v[i].lo <= ihi < v[i].hi;
    AboveStays(v, Without(v, k), ihi, i, if i < k then i else i - 1);
  }

  lemma DroppedAbove(v: seq<Iv>, k: nat, ihi: nat, w: seq<Iv>)
    requires k < |v| && w == Without(v, k) && CutsAbove(w, ihi)
    ensures CutsAbove(v, ihi)
  {
    var i :| 0 <= i < |w| && w[i].lo <= ihi < w[i].hi;
    AboveStays(w, v, ihi, i, if i < k then i else i + 1);
  }

  lemma DropAbove(v: seq<Iv>, k: nat, ilo: nat, ihi: nat)
    requires Inner(v, k, ilo, ihi)
    ensures CutsAbove(Without(v, k), ihi) <==> CutsAbove(v, ihi)
  {
    if CutsAbove(v, ihi) { AboveDropped(v, k, ihi); }
    if CutsAbove(Without(v, k), ihi) { DroppedAbove(v, k, ihi, Without(v, k)); }
  }

  lemma DropStarts(v: seq<Iv>, k: nat, ilo: nat)
    requires k < |v| && !StartsAt(v, ilo)
    ensures !StartsAt(Without(v, k), ilo)
  {
    var w := Without(v, k);
    forall i | 0 <= i < |w| ensures w[i].lo != ilo { assert w[i] == v[if i < k then i else i + 1]; }
  }

  /** The flags of the last case do not change. */
  lemma DropFlags(v: seq<Iv>, k: nat, ilo: nat, ihi: nat)
    requires Inner(v, k, ilo, ihi) && !StartsAt(v, ilo)
    ensures !StartsAt(Without(v, k), ilo)
    ensures CutsBelow(Without(v, k), ilo) <==> CutsBelow(v, ilo)
    ensures CutsAbove(Without(v, k), ihi) <==> CutsAbove(v, ihi)
  {
    DropStarts(v, k, ilo);
    DropBelow(v, k, ilo, ihi);
    DropAbove(v, k, ilo, ihi);
  }

  /** The last interval meets the range both before and after. */
  lemma LastMeets(v: seq<Iv>, ilo: nat, ihi: nat, z: nat)
    requires z < |v| - 1 && Inner(v, |v| - 1, ilo, ihi) && ilo <= v[z].lo
    ensures Meets(v[|v| - 1], ilo, ihi) && Meets(v[|v| - 2], ilo, ihi)
  {
    assert v[|v| - 2].hi + 1 < v[|v| - 1].lo;
    if z < |v| - 2 { assert v[z].hi + 1 < v[|v| - 2].lo; }
  }

  /** The condition in the last case. */
  lemma SpansLast(v: seq<Iv>, k: nat, ilo: nat, ihi: nat)
    requires Inner(v, k, ilo, ihi) && !StartsAt(v, ilo)
    ensures Spans(v, k, ilo, ihi) <==> !CutsBelow(v, ilo) || CutsAbove(v, ihi) || Meets(v[|v| - 1], ilo, ihi)
  {
  }

  lemma DropInner(v: seq<Iv>, k: nat, ilo: nat, ihi: nat, i: nat)
    requires Inner(v, k, ilo, ihi) && i < |v| - 1 && Side(Without(v, k), i, ilo, ihi) == 0
    ensures Inner(Without(v, k), i, ilo, ihi)
  {
    NoContainer(v, k, ilo, ihi, if i < k then i else i + 1);
    WithoutCanonical(v, k);
  }

  /** Other inner intervals remain. */
  lemma DropOneOfMany(v: seq<Iv>, k: nat, ilo: nat, ihi: nat, k': nat, z: nat)
    requires Inner(v, k, ilo, ihi) && !StartsAt(v, ilo)
    requires Separated(Without(v, k), k', ilo, ihi) && z < |v| - 1 && Side(Without(v, k), z, ilo, ihi) == 0
    ensures Spans(Without(v, k), k', ilo, ihi) == Spans(v, k, ilo, ihi)
  {
    var w := Without(v, k);
    DropFlags(v, k, ilo, ihi);
    assert Side(w, k', ilo, ihi) == 0;
    DropInner(v, k, ilo, ihi, k');
    DropInner(v, k, ilo, ihi, z);
    SpansLast(v, k, ilo, ihi);
    SpansLast(w, k', ilo, ihi);
    if k == |v| - 1 {
      LastMeets(v, ilo, ihi, z);
    } else {
      assert w[|w| - 1] == v[|v| - 1];
    }
  }

  /** All other intervals lie below or above the key. */
  ghost predicate Apart(v: seq<Iv>, k: nat, ilo: nat, ihi: nat)
  {
    && (forall i :: 0 <= i < k && i < |v| ==> v[i].lo < ilo && v[i].hi < ihi)
    && (forall i :: k < i < |v| ==> v[i].lo > ilo && v[i].hi > ihi)
  }

  lemma NoZerosApart(v: seq<Iv>, k: nat, ilo: nat, ihi: nat)
    requires Inner(v, k, ilo, ihi) && forall i :: 0 <= i < |v| - 1 ==> Side(Without(v, k), i, ilo, ihi) != 0
    ensures Apart(v, k, ilo, ihi)
  {
    var w := Without(v, k);
    WithoutCanonical(v, k);
    forall i | 0 <= i < |v| && i != k
      ensures if i < k then v[i].lo < ilo && v[i].hi < ihi else v[i].lo > ilo && v[i].hi > ihi
    {
      var j := if i < k then i else i - 1;
      assert w[j] == v[i] && Side(w, j, ilo, ihi) != 0;
      SideFacts(w, j, ilo, ihi);
      if i < k { assert v[i].hi + 1 < v[k].lo; } else { assert v[k].hi + 1 < v[i].lo; }
    }
  }

  /** Only the neighbours can reach into the range. */
  lemma Neighbours(v: seq<Iv>, k: nat, ilo: nat, ihi: nat)
    requires Inner(v, k, ilo, ihi) && Apart(v, k, ilo, ihi)
    ensures CutsBelow(v, ilo) <==> k > 0 && v[k - 1].hi >= ilo
    ensures CutsAbove(v, ihi) <==> k + 1 < |v| && v[k + 1].lo <= ihi
    ensures forall i :: 0 <= i < k - 1 ==> !Meets(v[i], ilo, ihi)
    ensures forall i :: k + 1 < i < |v| ==> !Meets(v[i], ilo, ihi)
  {
    forall i | 0 <= i < k - 1 ensures v[i].hi < ilo { assert v[i].hi + 1 < v[k - 1].lo; }
    forall i | k + 1 < i < |v| ensures v[i].lo > ihi { assert v[k + 1].hi + 1 < v[i].lo; }
    if k > 0 && v[k - 1].hi >= ilo { assert v[k - 1].lo < ilo <= v[k - 1].hi; }
    if k + 1 < |v| && v[k + 1].lo <= ihi { assert v[k + 1].lo <= ihi < v[k + 1].hi; }
  }

  lemma DropNone(v: seq<Iv>, k: nat, ilo: nat, ihi: nat)
    requires Inner(v, k, ilo, ihi) && Apart(v, k, ilo, ihi)
    ensures NoneMeets(Without(v, k), ilo, ihi) <==> !CutsBelow(v, ilo) && !CutsAbove(v, ihi)
  {
    var w := Without(v, k);
    Neighbours(v, k, ilo, ihi);
    if k > 0 { assert w[k - 1] == v[k - 1]; }
    if k + 1 < |v| { assert w[k] == v[k + 1]; }
    forall i | 0 <= i < |w| && i != k - 1 && i != k ensures !Meets(w[i], ilo, ihi) {
      assert w[i] == v[if i < k then i else i + 1];
    }
  }

  /** The last inner interval has been dropped: then the predecessor, if any, is below
      the key, and the next splay brings up what is above it, if anything is. */
  lemma DropLast(v: seq<Iv>, k: nat, ilo: nat, ihi: nat, kr: nat, k': nat)
    requires Inner(v, k, ilo, ihi) && !StartsAt(v, ilo) && Apart(v, k, ilo, ihi)
    requires k > 0 ==> kr == k - 1
    requires NextRoot(Without(v, k), kr, k', ilo, ihi)
    ensures Spans(Without(v, k), k', ilo, ihi) == Spans(v, k, ilo, ihi)
  {
    var w := Without(v, k);
    WithoutCanonical(v, k);
    Neighbours(v, k, ilo, ihi);
    DropNone(v, k, ilo, ihi);
    NextIs(v, k, ilo, ihi, kr, k');
    SideFacts(w, k', ilo, ihi);
    if k + 1 < |v| {
      assert w[k'] == v[k + 1];
      if |v| - 1 > k + 1 { assert !Meets(v[|v| - 1], ilo, ihi); }
    } else {
      assert Meets(v[|v| - 1], ilo, ihi);
    }
  }

  lemma NextIs(v: seq<Iv>, k: nat, ilo: nat, ihi: nat, kr: nat, k': nat)
    requires Inner(v, k, ilo, ihi) && Apart(v, k, ilo, ihi) && (k > 0 ==> kr == k - 1)
    requires NextRoot(Without(v, k), kr, k', ilo, ihi)
    ensures k' == if k + 1 < |v| then k else k - 1
  {
    var w := Without(v, k);
    WithoutCanonical(v, k);
    forall i | 0 <= i < |w| ensures if i < k then Side(w, i, ilo, ihi) > 0 else Side(w, i, ilo, ihi) < 0 {
      assert w[i] == v[if i < k then i else i + 1];
      SideFacts(w, i, ilo, ihi);
    }
    RootBetween(w, k, ilo, ihi, kr, k');
  }

  /** With the key between intervals `k - 1` and `k` and the root at `k - 1`, if there is
      one, the next root is `k`, if there is one. */
  lemma RootBetween(w: seq<Iv>, k: nat, ilo: nat, ihi: nat, kr: nat, k': nat)
    requires k <= |w| && (k > 0 ==> kr == k - 1) && NextRoot(w, kr, k', ilo, ihi)
    requires forall i :: 0 <= i < |w| ==> if i < k then Side(w, i, ilo, ihi) > 0 else Side(w, i, ilo, ihi) < 0
    ensures k' == if k < |w| then k else k - 1
  {
    if k < |w| { RootBeside(w, k', k, ilo, ihi); }
    if k > 0 { RootBeside(w, k', k - 1, ilo, ihi); }
  }

  lemma RootBeside(w: seq<Iv>, k: nat, i: nat, ilo: nat, ihi: nat)
    requires Separated(w, k, ilo, ihi) && Side(w, k, ilo, ihi) != 0 && i < |w|
    ensures (i < k ==> Side(w, i, ilo, ihi) > 0) && (i > k ==> Side(w, i, ilo, ihi) < 0)
  {
  }

  /** Dropping an inner interval that does not start the range keeps the condition. */
  lemma DropKeeps(v: seq<Iv>, k: nat, ilo: nat, ihi: nat, kr: nat, k': nat)
    requires Inner(v, k, ilo, ihi) && v[k].lo > ilo && (k > 0 ==> kr == k - 1)
    requires NextRoot(Without(v, k), kr, k', ilo, ihi)
    ensures Spans(Without(v, k), k', ilo, ihi) == Spans(v, k, ilo, ihi)
  {
    if StartsAt(v, ilo) {
      var f :| 0 <= f < |v| && v[f].lo == ilo;
      DropChain(v, k, ilo, ihi, kr, k', f);
    } else if exists z :: 0 <= z < |v| - 1 && Side(Without(v, k), z, ilo, ihi) == 0 {
      var z :| 0 <= z < |v| - 1 && Side(Without(v, k), z, ilo, ihi) == 0;
      DropOneOfMany(v, k, ilo, ihi, k', z);
    } else {
      NoZerosApart(v, k, ilo, ihi);
      DropLast(v, k, ilo, ihi, kr, k');
    }
  }

  /** Dropping an interval that starts the range moves the wrong end: nothing meets what
      is then wanted, so the loop ends whatever is left. */
  lemma DropFirst(v: seq<Iv>, k: nat, ilo: nat, ihi: nat)
    requires Canonical(v) && ilo <= ihi && k < |v| && v[k].lo == ilo && v[k].hi <= ihi
    ensures NoneMeets(Without(v, k), ilo, Inc(v[k].hi))
    ensures NoneMeets(Without(v, k), ilo, ihi) <==> Spans(v, k, ilo, ihi)
  {
    var w := Without(v, k);
    forall i | 0 <= i < |w|
      ensures if i < k then w[i].hi < ilo else w[i] == v[i + 1] && w[i].lo > v[k].hi + 1
    {
      if i < k { assert v[i].hi + 1 < v[k].lo; } else { assert v[k].hi + 1 < v[i + 1].lo; }
    }
    if v[k].hi == ihi {
      assert NoneMeets(w, ilo, ihi);
    } else {
      assert StartsAt(v, ilo);
      SpansAbove(v, k, ilo, ihi);
      if NoneMeets(w, ilo, ihi) {
        forall i | k < i < |v| ensures !Meets(v[i], ilo, ihi) { assert v[i] == w[i - 1]; }
      }
    }
  }

  // ----- trimming an interval that reaches into the range

  lemma NoZeros(v: seq<Iv>, k: nat, ilo: nat, ihi: nat)
    requires Canonical(v) && ilo <= ihi && Separated(v, k, ilo, ihi) && Side(v, k, ilo, ihi) != 0
    ensures forall i :: 0 <= i < k ==> v[i].lo < ilo && v[i].hi < ihi
    ensures forall i :: k < i < |v| ==> v[i].lo > ilo && v[i].hi > ihi
  {
    forall i | 0 <= i < |v| ensures i < k ==> v[i].lo < ilo && v[i].hi < ihi { SideFacts(v, i, ilo, ihi); }
    forall i | 0 <= i < |v| ensures i > k ==> v[i].lo > ilo && v[i].hi > ihi { SideFacts(v, i, ilo, ihi); }
  }

  /** Trimming from below. */
  lemma TrimBelow(v: seq<Iv>, k: nat, ilo: nat, ihi: nat, lo: nat, hi: nat, w: seq<Iv>)
    requires Canonical(v) && ilo <= ihi && Separated(v, k, ilo, ihi) && Full(v, ilo, ihi, lo, hi)
    requires v[k].lo < ilo <= v[k].hi < ihi && w == v[k := Iv(v[k].lo, ilo - 1, v[k].t)]
    ensures lo == ilo && Spans(v, k, ilo, ihi)
    ensures hi <= v[k].hi ==> NoneMeets(w, ilo, ihi)
    ensures hi > v[k].hi ==> Full(w, ilo, ihi, v[k].hi + 1, hi)
  {
    NoZeros(v, k, ilo, ihi);
    assert Meets(v[k], ilo, ihi);
    forall i | 0 <= i < |w|
      ensures Meets(w[i], ilo, ihi) ==> i == k + 1 && v[k].hi + 1 < w[i].lo && Least(w[i].hi, ihi) == ihi <= hi
    {
      if i < k { assert v[i].hi + 1 < v[k].lo; }
      if i > k + 1 { assert v[k + 1].hi + 1 < v[i].lo; }
      if i > k { assert v[k].hi + 1 < v[i].lo && w[i] == v[i]; }
    }
  }

  /** Then the interval above the key comes up, the only other one that can meet the
      range. */
  lemma TrimBelowNext(v: seq<Iv>, k: nat, ilo: nat, ihi: nat, w: seq<Iv>, k': nat)
    requires Canonical(v) && ilo <= ihi && Separated(v, k, ilo, ihi)
    requires v[k].lo < ilo <= v[k].hi < ihi && w == v[k := Iv(v[k].lo, ilo - 1, v[k].t)]
    requires NextRoot(w, k, k', ilo, ihi)
    ensures Spans(w, k', ilo, ihi)
  {
    NoZeros(v, k, ilo, ihi);
    forall i | 0 <= i < |w| ensures Meets(w[i], ilo, ihi) ==> i == k + 1 {
      if i < k { assert v[i].hi + 1 < v[k].lo; }
      if i > k + 1 { assert v[k + 1].hi + 1 < v[i].lo; }
    }
  }

  /** Trimming from above, likewise. */
  lemma TrimAbove(v: seq<Iv>, k: nat, ilo: nat, ihi: nat, lo: nat, hi: nat, w: seq<Iv>)
    requires Canonical(v) && ilo <= ihi && Separated(v, k, ilo, ihi) && Full(v, ilo, ihi, lo, hi)
    requires ilo < v[k].lo <= ihi < v[k].hi && w == v[k := Iv(ihi + 1, v[k].hi, v[k].t)]
    ensures hi == ihi && lo <= v[k].lo && Spans(v, k, ilo, ihi)
    ensures lo == v[k].lo ==> NoneMeets(w, ilo, ihi)
    ensures lo < v[k].lo ==> Full(w, ilo, ihi, lo, v[k].lo - 1)
  {
    NoZeros(v, k, ilo, ihi);
    assert Meets(v[k], ilo, ihi);
    forall i | 0 <= i < |w| ensures Meets(w[i], ilo, ihi) ==> i + 1 == k && w[i].hi + 1 < v[k].lo && lo == ilo {
      if i > k { assert v[k].hi + 1 < v[i].lo; }
      if i + 1 < k { assert v[i].hi + 1 < v[k - 1].lo; }
      if i < k { assert v[i].hi + 1 < v[k].lo && w[i] == v[i]; }
    }
  }

  lemma TrimAboveNext(v: seq<Iv>, k: nat, ilo: nat, ihi: nat, w: seq<Iv>, k': nat)
    requires Canonical(v) && ilo <= ihi && Separated(v, k, ilo, ihi)
    requires ilo < v[k].lo <= ihi < v[k].hi && w == v[k := Iv(ihi + 1, v[k].hi, v[k].t)]
    requires NextRoot(w, k, k', ilo, ihi)
    ensures Spans(w, k', ilo, ihi)
  {
    NoZeros(v, k, ilo, ihi);
    forall i | 0 <= i < |w| ensures Meets(w[i], ilo, ihi) ==> i + 1 == k {
      if i > k { assert v[k].hi + 1 < v[i].lo; }
      if i + 1 < k { assert v[i].hi + 1 < v[k - 1].lo; }
    }
  }

  // ----- one round

  /** A root that contains the range and more. */
  lemma ContainerOutcome(v: seq<Iv>, k: nat, ilo: nat, ihi: nat)
    requires Canonical(v) && ilo <= ihi && k < |v| && v[k].lo <= ilo && ihi <= v[k].hi
    ensures Clear(Cut(v, k, ilo, ihi), ilo, ihi)
  {
    CutRemoves(v, k, ilo, ihi);
    forall m: int | ilo <= m <= ihi ensures !Has(Cut(v, k, ilo, ihi), m) { assert Within(v[k], m); }
  }

  /** Where the root is once [lo..hi] has been cut out of it, as far as it matters. */
  ghost predicate CutRootAt(v: seq<Iv>, k: nat, lo: nat, hi: nat, kr: nat)
    requires k < |v|
  {
    if lo <= v[k].lo && v[k].hi <= hi then k > 0 ==> kr == k - 1
    else lo <= v[k].lo || v[k].hi <= hi ==> kr == k
  }

  /** How a round may go on with the range [lo'..hi']: nothing is left that meets it, and
      what the range asked for comes to is settled; or it still covers all, and the
      condition holds for the next root as it did for this one. */
  ghost predicate GoesOn(w: seq<Iv>, ilo: nat, ihi: nat, lo': nat, hi': nat, kr: nat, good: bool)
  {
    || (NoneMeets(w, lo', hi') && (Clear(w, ilo, ihi) <==> good))
    || (&& Full(w, ilo, ihi, lo', hi') && (w == [] ==> good)
        && forall k' :: NextRoot(w, kr, k', ilo, ihi) ==> Spans(w, k', ilo, ihi) == good)
  }

  lemma FullMeets(v: seq<Iv>, k: nat, ilo: nat, ihi: nat, lo: nat, hi: nat)
    requires Canonical(v) && ilo <= ihi && k < |v| && Full(v, ilo, ihi, lo, hi) && Meets(v[k], lo, hi) && lo <= hi
    ensures Meets(v[k], ilo, ihi) && lo <= Max(v[k].lo, ilo) && Least(v[k].hi, ihi) <= hi
  {
  }

  lemma InnerGoesOn(v: seq<Iv>, k: nat, ilo: nat, ihi: nat, lo: nat, hi: nat, kr: nat, w: seq<Iv>, hi': nat)
    requires Inner(v, k, ilo, ihi) && Full(v, ilo, ihi, lo, hi) && w == Without(v, k) && (k > 0 ==> kr == k - 1)
    requires v[k].lo > lo && hi' == if hi <= v[k].hi then v[k].lo - 1 else hi
    ensures GoesOn(w, ilo, ihi, lo, hi', kr, Spans(v, k, ilo, ihi))
  {
    DropFull(v, k, ilo, ihi, lo, hi, hi');
    if w == [] { OnlyInner(v, ilo, ihi); }
    forall k' | NextRoot(w, kr, k', ilo, ihi) ensures Spans(w, k', ilo, ihi) == Spans(v, k, ilo, ihi) {
      DropKeeps(v, k, ilo, ihi, kr, k');
    }
  }

  lemma OnlyInner(v: seq<Iv>, ilo: nat, ihi: nat)
    requires |v| == 1 && Inner(v, 0, ilo, ihi)
    ensures Spans(v, 0, ilo, ihi)
  {
    assert Meets(v[0], ilo, ihi);
  }

  lemma FirstGoesOn(v: seq<Iv>, k: nat, ilo: nat, ihi: nat, kr: nat, w: seq<Iv>)
    requires Canonical(v) && ilo <= ihi && k < |v| && v[k].lo == ilo && v[k].hi <= ihi && w == Without(v, k)
    ensures GoesOn(w, ilo, ihi, ilo, Inc(v[k].hi), kr, Spans(v, k, ilo, ihi))
  {
    WithoutCanonical(v, k);
    DropFirst(v, k, ilo, ihi);
    ClearMeans(w, ilo, ihi);
  }

  lemma InnerRound(v: seq<Iv>, k: nat, ilo: nat, ihi: nat, lo: nat, hi: nat, kr: nat)
    requires Inner(v, k, ilo, ihi) && Full(v, ilo, ihi, lo, hi) && Side(v, k, ilo, ihi) == 0
    requires CutRootAt(v, k, lo, hi, kr) && lo <= hi && Meets(v[k], lo, hi)
    ensures var next := NextRange(v[k].lo, v[k].hi, lo, hi);
            next.Some? && GoesOn(Cut(v, k, lo, hi), ilo, ihi, next.value.0, next.value.1, kr, Spans(v, k, ilo, ihi))
  {
    FullMeets(v, k, ilo, ihi, lo, hi);
    CutForms(v, k, lo, hi);
    if v[k].lo > lo {
      InnerGoesOn(v, k, ilo, ihi, lo, hi, kr, Without(v, k), if hi <= v[k].hi then v[k].lo - 1 else hi);
    } else {
      FirstGoesOn(v, k, ilo, ihi, kr, Without(v, k));
    }
  }

  lemma ResizedCanonical(v: seq<Iv>, k: nat, x: Iv)
    requires Canonical(v) && k < |v| && v[k].lo <= x.lo <= x.hi <= v[k].hi
    ensures Canonical(v[k := x])
  {
  }

  lemma BelowRound(v: seq<Iv>, k: nat, ilo: nat, ihi: nat, lo: nat, hi: nat, w: seq<Iv>)
    requires Canonical(v) && ilo <= ihi && Separated(v, k, ilo, ihi) && Full(v, ilo, ihi, lo, hi)
    requires v[k].lo < ilo <= v[k].hi < ihi && w == v[k := Iv(v[k].lo, ilo - 1, v[k].t)]
    ensures lo == ilo && Spans(v, k, ilo, ihi)
    ensures hi <= v[k].hi ==> Clear(w, ilo, ihi)
    ensures hi > v[k].hi ==> GoesOn(w, ilo, ihi, v[k].hi + 1, hi, k, true)
  {
    TrimBelow(v, k, ilo, ihi, lo, hi, w);
    ResizedCanonical(v, k, Iv(v[k].lo, ilo - 1, v[k].t));
    ClearMeans(w, ilo, ihi);
    forall k' | NextRoot(w, k, k', ilo, ihi) ensures Spans(w, k', ilo, ihi) { TrimBelowNext(v, k, ilo, ihi, w, k'); }
  }

  lemma AboveRound(v: seq<Iv>, k: nat, ilo: nat, ihi: nat, lo: nat, hi: nat, w: seq<Iv>)
    requires Canonical(v) && ilo <= ihi && Separated(v, k, ilo, ihi) && Full(v, ilo, ihi, lo, hi)
    requires ilo < v[k].lo <= ihi < v[k].hi && w == v[k := Iv(ihi + 1, v[k].hi, v[k].t)]
    ensures hi == ihi && lo <= v[k].lo && Spans(v, k, ilo, ihi)
    ensures lo == v[k].lo ==> Clear(w, ilo, ihi)
    ensures lo < v[k].lo ==> GoesOn(w, ilo, ihi, lo, v[k].lo - 1, k, true)
  {
    TrimAbove(v, k, ilo, ihi, lo, hi, w);
    ResizedCanonical(v, k, Iv(ihi + 1, v[k].hi, v[k].t));
    ClearMeans(w, ilo, ihi);
    forall k' | NextRoot(w, k, k', ilo, ihi) ensures Spans(w, k', ilo, ihi) { TrimAboveNext(v, k, ilo, ihi, w, k'); }
  }

  lemma ContainerRound(v: seq<Iv>, k: nat, ilo: nat, ihi: nat, lo: nat, hi: nat, kr: nat)
    requires Canonical(v) && ilo <= ihi && k < |v| && Full(v, ilo, ihi, lo, hi) && Side(v, k, ilo, ihi) == 0
    requires v[k].lo <= ilo && ihi <= v[k].hi && lo <= hi && Meets(v[k], lo, hi)
    ensures var w, next := Cut(v, k, lo, hi), NextRange(v[k].lo, v[k].hi, lo, hi);
            && Clear(w, ilo, ihi) && Spans(v, k, ilo, ihi)
            && (next.Some? ==> GoesOn(w, ilo, ihi, next.value.0, next.value.1, kr, true))
  {
    FullMeets(v, k, ilo, ihi, lo, hi);
    assert lo == ilo && hi == ihi;
    ContainerOutcome(v, k, ilo, ihi);
    CutForms(v, k, lo, hi);
    if v[k].lo == ilo && v[k].hi == ihi { DropFirst(v, k, ilo, ihi); }
  }

  /** What a round does to the outcome. */
  ghost predicate RoundOk(v: seq<Iv>, k: nat, ilo: nat, ihi: nat, lo: nat, hi: nat, kr: nat)
    requires k < |v| && Meets(v[k], lo, hi)
  {
    var w, next := Cut(v, k, lo, hi), NextRange(v[k].lo, v[k].hi, lo, hi);
    if next.None? then Clear(w, ilo, ihi) <==> Spans(v, k, ilo, ihi)
    else GoesOn(w, ilo, ihi, next.value.0, next.value.1, kr, Spans(v, k, ilo, ihi))
  }

  lemma BelowOk(v: seq<Iv>, k: nat, ilo: nat, ihi: nat, lo: nat, hi: nat, w: seq<Iv>)
    requires k < |v| && Meets(v[k], lo, hi) && v[k].lo < ilo == lo && w == Cut(v, k, lo, hi) && Spans(v, k, ilo, ihi)
    requires hi <= v[k].hi ==> Clear(w, ilo, ihi)
    requires hi > v[k].hi ==> GoesOn(w, ilo, ihi, v[k].hi + 1, hi, k, true)
    ensures RoundOk(v, k, ilo, ihi, lo, hi, k)
  {
  }

  lemma AboveOk(v: seq<Iv>, k: nat, ilo: nat, ihi: nat, lo: nat, hi: nat, w: seq<Iv>)
    requires k < |v| && Meets(v[k], lo, hi) && lo <= v[k].lo && hi < v[k].hi && w == Cut(v, k, lo, hi) && Spans(v, k, ilo, ihi)
    requires lo == v[k].lo ==> Clear(w, ilo, ihi)
    requires lo < v[k].lo ==> GoesOn(w, ilo, ihi, lo, v[k].lo - 1, k, true)
    ensures RoundOk(v, k, ilo, ihi, lo, hi, k)
  {
  }

  /** One round of the loop, for every root that a splay may have brought up. */
  lemma RoundExact(v: seq<Iv>, k: nat, ilo: nat, ihi: nat, lo: nat, hi: nat, kr: nat)
    requires Canonical(v) && ilo <= ihi && Separated(v, k, ilo, ihi) && Full(v, ilo, ihi, lo, hi)
    requires Meets(v[k], lo, hi) && lo <= hi && CutRootAt(v, k, lo, hi, kr)
    ensures RoundOk(v, k, ilo, ihi, lo, hi, kr)
  {
    SideFacts(v, k, ilo, ihi);
    FullMeets(v, k, ilo, ihi, lo, hi);
    CutForms(v, k, lo, hi);
    if Side(v, k, ilo, ihi) > 0 {
      var w := v[k := Iv(v[k].lo, ilo - 1, v[k].t)];
      BelowRound(v, k, ilo, ihi, lo, hi, w);
      BelowOk(v, k, ilo, ihi, lo, hi, w);
    } else if Side(v, k, ilo, ihi) < 0 {
      var w := v[k := Iv(ihi + 1, v[k].hi, v[k].t)];
      AboveRound(v, k, ilo, ihi, lo, hi, w);
      AboveOk(v, k, ilo, ihi, lo, hi, w);
    } else if v[k].lo <= ilo && ihi <= v[k].hi {
      ContainerRound(v, k, ilo, ihi, lo, hi, kr);
    } else {
      InnerRound(v, k, ilo, ihi, lo, hi, kr);
    }
  }

  /** With [lo..hi] still wanted and interval `k` about to come up, `good` is what the
      loop is going to come to. */
  ghost predicate Course(v: seq<Iv>, k: nat, ilo: nat, ihi: nat, lo: nat, hi: nat, good: bool)
  {
    || (NoneMeets(v, lo, hi) && (Clear(v, ilo, ihi) <==> good))
    || (&& Full(v, ilo, ihi, lo, hi)
        && if k < |v| then Spans(v, k, ilo, ihi) == good else v == [] && good)
  }

  lemma CourseMissed(v: seq<Iv>, k: nat, ilo: nat, ihi: nat, lo: nat, hi: nat, good: bool)
    requires Canonical(v) && ilo <= ihi && k < |v| && Course(v, k, ilo, ihi, lo, hi, good) && !Meets(v[k], lo, hi)
    ensures Clear(v, ilo, ihi) <==> good
  {
    if Full(v, ilo, ihi, lo, hi) && Spans(v, k, ilo, ihi) == good {
      MissOutcome(v, k, ilo, ihi, lo, hi);
      ClearMeans(v, ilo, ihi);
    }
  }

  lemma CourseHit(v: seq<Iv>, k: nat, ilo: nat, ihi: nat, lo: nat, hi: nat, kr: nat, good: bool)
    requires Canonical(v) && ilo <= ihi && Separated(v, k, ilo, ihi) && Course(v, k, ilo, ihi, lo, hi, good)
    requires Meets(v[k], lo, hi) && lo <= hi && CutRootAt(v, k, lo, hi, kr)
    ensures good == Spans(v, k, ilo, ihi) && RoundOk(v, k, ilo, ihi, lo, hi, kr)
  {
    assert !NoneMeets(v, lo, hi);
    RoundExact(v, k, ilo, ihi, lo, hi, kr);
  }

  lemma CourseGoesOn(w: seq<Iv>, kr: nat, k': nat, ilo: nat, ihi: nat, lo: nat, hi: nat, good: bool)
    requires GoesOn(w, ilo, ihi, lo, hi, kr, good) && (if w == [] then k' == 0 else NextRoot(w, kr, k', ilo, ihi))
    ensures Course(w, k', ilo, ihi, lo, hi, good)
  {
  }

  /** The loop starts with all of the range wanted. */
  lemma FullStarts(v: seq<Iv>, ilo: nat, ihi: nat)
    requires Canonical(v) && ilo <= ihi
    ensures Full(v, ilo, ihi, ilo, ihi)
  {
  }

  /** A range wholly in the set meets the condition. */
  lemma CoveredSpans(v: seq<Iv>, k: nat, ilo: nat, ihi: nat)
    requires Canonical(v) && ilo <= ihi && Separated(v, k, ilo, ihi) && Covered(v, ilo, ihi)
    ensures Spans(v, k, ilo, ihi)
  {
    assert Has(v, ilo);
    var j :| 0 <= j < |v| && Within(v[j], ilo);
    OneInterval(v, j, ilo, ihi);
    assert Side(v, j, ilo, ihi) == 0;
  }

  /** It depends on the shape of the tree: of the intervals [1..1] and [3..3], the range
      [1..3] is removed if [3..3] comes up first, and [3..3] stays if [1..1] does. */
  lemma StopsEarlyExample()
    ensures var v := [Iv(1, 1, 0), Iv(3, 3, 0)];
            && Separated(v, 0, 1, 3) && !Spans(v, 0, 1, 3)
            && Separated(v, 1, 1, 3) && Spans(v, 1, 1, 3)
  {
    var v := [Iv(1, 1, 0), Iv(3, 3, 0)];
    assert v[0].lo == 1 && StartsAt(v, 1);
    assert Meets(v[1], 1, 3);
  }

  /** And it can fail for every shape: [1..5] and [7..7] and [20..20] with the range
      [4..10], where [1..5] is left as it is. */
  lemma NeverTrimmedExample(k: nat)
    requires Separated([Iv(1, 5, 0), Iv(7, 7, 0), Iv(20, 20, 0)], k, 4, 10)
    ensures !Spans([Iv(1, 5, 0), Iv(7, 7, 0), Iv(20, 20, 0)], k, 4, 10)
  {
    var v := [Iv(1, 5, 0), Iv(7, 7, 0), Iv(20, 20, 0)];
    assert Side(v, 1, 4, 10) == 0 && k == 1;
    assert v[0].lo < 4 <= v[0].hi && CutsBelow(v, 4);
  }
}
