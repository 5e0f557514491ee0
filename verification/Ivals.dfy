/** Interval values, the comparison of lib/src/diet.h, and the canonical
    interval lists that stand for finite sets of integers. */
module Ivals {

  /** The payload of struct ival. */
  datatype Iv = Iv(lo: nat, hi: nat, t: nat)

  /** ival_cmp of the key [lo..hi] against the interval [blo..bhi]. */
  function IvalCmp(lo: nat, hi: nat, blo: nat, bhi: nat): (r: int)
  {
    if (lo >= blo && hi <= bhi) || (blo >= lo && bhi <= hi) then 0
    else (if lo > blo then 1 else 0) - (if lo < blo then 1 else 0)
  }

  /** Sorted, non-empty, disjoint and not adjacent. */
  ghost predicate Canonical(s: seq<Iv>)
  {
    && (forall i :: 0 <= i < |s| ==> s[i].lo <= s[i].hi)
    && (forall i, j :: 0 <= i < j < |s| ==> s[i].hi + 1 < s[j].lo)
  }

  ghost predicate Within(v: Iv, n: int)
  {
    v.lo <= n <= v.hi
  }

  /** Membership in the set an interval list stands for. */
  ghost predicate Has(s: seq<Iv>, n: int)
  {
    exists i :: 0 <= i < |s| && Within(s[i], n)
  }

  /** On a canonical list the comparison with any key goes + .. + 0 .. 0 - .. -,
      although ival_cmp is not an order (containment compares equal). */
  lemma CmpMonotone(s: seq<Iv>, lo: nat, hi: nat)
    requires Canonical(s) && lo <= hi
    ensures forall i, j :: 0 <= i < j < |s| ==>
      IvalCmp(lo, hi, s[i].lo, s[i].hi) >= IvalCmp(lo, hi, s[j].lo, s[j].hi)
  {
  }

  /** The interval at position `k` matches the key, or the key separates the
      intervals before it from those after it. */
  ghost predicate Separated(v: seq<Iv>, k: nat, lo: nat, hi: nat)
  {
    && k < |v|
    && (IvalCmp(lo, hi, v[k].lo, v[k].hi) == 0 ||
        ((forall i :: 0 <= i < k ==> IvalCmp(lo, hi, v[i].lo, v[i].hi) > 0) &&
         (forall i :: k < i < |v| ==> IvalCmp(lo, hi, v[i].lo, v[i].hi) < 0)))
  }

  /** A canonical list is determined by the bounds its members give it: two
      canonical lists with the same members have the same intervals. */
  lemma {:induction false} CanonicalUnique(a: seq<Iv>, b: seq<Iv>)
    requires Canonical(a) && Canonical(b)
    requires forall n: int :: Has(a, n) <==> Has(b, n)
    ensures |a| == |b|
    ensures forall i :: 0 <= i < |a| ==> a[i].lo == b[i].lo && a[i].hi == b[i].hi
    decreases |a|
  {
    if a == [] || b == [] {
      if a != [] { LastMember(a); }
      if b != [] { LastMember(b); }
    } else {
      var m, n := |a| - 1, |b| - 1;
      LastMember(a); LastMember(b);
      assert a[m].hi == b[n].hi by {
        assert Has(b, a[m].hi) && Has(a, b[n].hi);
      }
      LastStart(a, b);
      LastStart(b, a);
      forall x: int ensures Has(a[..m], x) <==> Has(b[..n], x) {
        DropLast(a, x);
        DropLast(b, x);
      }
      CanonicalUnique(a[..m], b[..n]);
      forall i | 0 <= i < |a| ensures a[i].lo == b[i].lo && a[i].hi == b[i].hi {
        if i < m { assert a[i] == a[..m][i] && b[i] == b[..n][i]; }
      }
    }
  }

  lemma LastMember(s: seq<Iv>)
    requires Canonical(s) && s != []
    ensures Has(s, s[|s| - 1].hi) && forall x: int :: Has(s, x) ==> x <= s[|s| - 1].hi
  {
    assert Within(s[|s| - 1], s[|s| - 1].hi);
  }

  lemma LastStart(a: seq<Iv>, b: seq<Iv>)
    requires Canonical(a) && Canonical(b) && a != [] && b != []
    requires forall n: int :: Has(a, n) <==> Has(b, n)
    requires a[|a| - 1].hi == b[|b| - 1].hi
    ensures a[|a| - 1].lo <= b[|b| - 1].lo
  {
    var v, w := a[|a| - 1], b[|b| - 1];
    if w.lo < v.lo {
      assert Has(b, v.lo - 1) by { assert Within(w, v.lo - 1); }
    }
  }

  lemma DropLast(s: seq<Iv>, x: int)
    requires Canonical(s) && s != []
    ensures Has(s[..|s| - 1], x) <==> Has(s, x) && x < s[|s| - 1].lo
  {
    var n := |s| - 1;
    if Has(s, x) && x < s[n].lo {
      var i :| 0 <= i < |s| && Within(s[i], x);
      assert s[..n][i] == s[i];
    }
    if Has(s[..n], x) {
      var i :| 0 <= i < n && Within(s[..n][i], x);
      assert Within(s[i], x);
    }
  }

  // ----- what the tree operations do to the list

  /** Insertion of `n` at time `t`: the member is added; the interval that holds it
      is new and carries `t`, or it carries the later of `t` and the stamp of an
      interval it absorbed; no other interval changes. */
  ghost predicate InsertStep(a: seq<Iv>, b: seq<Iv>, n: nat, t: nat)
  {
    && Canonical(b)
    && (forall m: int :: Has(b, m) <==> m == n || Has(a, m))
    && (forall i :: 0 <= i < |b| ==> (b[i] in a && !Within(b[i], n)) || FreshStamp(a, b[i], n, t))
  }

  ghost predicate FreshStamp(a: seq<Iv>, v: Iv, n: nat, t: nat)
  {
    && Within(v, n)
    && ((v == Iv(n, n, t) && !Has(a, n)) || exists j :: 0 <= j < |a| && Absorbs(v, a[j], t))
  }

  ghost predicate Absorbs(v: Iv, x: Iv, t: nat)
  {
    v.lo <= x.lo && x.hi <= v.hi && v.t == if x.t > t then x.t else t
  }

  /** Removal of at most the range [lo..hi]; what is left of an interval keeps its stamp. */
  ghost predicate RemoveStep(a: seq<Iv>, b: seq<Iv>, lo: int, hi: int)
  {
    && Canonical(b)
    && (forall m: int :: Has(b, m) ==> Has(a, m))
    && (forall m: int :: Has(a, m) && !(lo <= m <= hi) ==> Has(b, m))
    && (forall i :: 0 <= i < |b| ==> PartOf(a, b[i]))
  }

  ghost predicate PartOf(a: seq<Iv>, v: Iv)
  {
    exists j :: 0 <= j < |a| && a[j].lo <= v.lo && v.hi <= a[j].hi && a[j].t == v.t
  }

  // ----- the four ways an insertion changes the list

  /** `n` lies strictly between the intervals before `p` and those from `p` on. */
  ghost predicate Gap(v: seq<Iv>, p: nat, n: int)
  {
    && p <= |v|
    && (forall i :: 0 <= i < p ==> v[i].hi < n)
    && (forall i :: p <= i < |v| ==> n < v[i].lo)
  }

  /** The list with `w` in place of the `b - a` intervals from `a` up to `b`. */
  function Replace(v: seq<Iv>, a: nat, b: nat, w: seq<Iv>): (r: seq<Iv>)
    requires a <= b <= |v|
  {
    v[..a] + w + v[b..]
  }

  lemma ReplaceHas(v: seq<Iv>, a: nat, b: nat, w: seq<Iv>, m: int)
    requires a <= b <= |v|
    ensures Has(Replace(v, a, b, w), m) <==> Has(v[..a], m) || Has(w, m) || Has(v[b..], m)
    ensures Has(v, m) <==> Has(v[..a], m) || Has(v[a..b], m) || Has(v[b..], m)
  {
    HasConcat(v[..a] + w, v[b..], m);
    HasConcat(v[..a], w, m);
    assert v == v[..a] + v[a..b] + v[b..];
    HasConcat(v[..a] + v[a..b], v[b..], m);
    HasConcat(v[..a], v[a..b], m);
  }

  lemma HasConcat(a: seq<Iv>, b: seq<Iv>, m: int)
    ensures Has(a + b, m) <==> Has(a, m) || Has(b, m)
  {
    var s := a + b;
    if Has(s, m) {
      var i :| 0 <= i < |s| && Within(s[i], m);
      if i < |a| { assert Within(a[i], m); } else { assert Within(b[i - |a|], m); }
    }
    if Has(a, m) {
      var i :| 0 <= i < |a| && Within(a[i], m);
      assert Within(s[i], m);
    }
    if Has(b, m) {
      var i :| 0 <= i < |b| && Within(b[i], m);
      assert Within(s[|a| + i], m);
    }
  }

  lemma HasOne(w: Iv, m: int)
    ensures Has([w], m) <==> Within(w, m)
    ensures Has([], m) <==> false
  {
    if Within(w, m) { assert Within([w][0], m); }
  }

  lemma HasTwo(a: Iv, b: Iv, m: int)
    ensures Has([a, b], m) <==> Within(a, m) || Within(b, m)
  {
    assert [a, b] == [a] + [b];
    HasConcat([a], [b], m);
    HasOne(a, m);
    HasOne(b, m);
  }

  lemma SliceOne(v: seq<Iv>, a: nat)
    requires a < |v|
    ensures forall m: int :: Has(v[a..a + 1], m) <==> Within(v[a], m)
  {
    assert v[a..a + 1] == [v[a]];
    forall m: int ensures Has(v[a..a + 1], m) <==> Within(v[a], m) {
      HasOne(v[a], m);
    }
  }

  lemma SliceTwo(v: seq<Iv>, a: nat)
    requires a + 1 < |v|
    ensures forall m: int :: Has(v[a..a + 2], m) <==> Within(v[a], m) || Within(v[a + 1], m)
  {
    assert v[a..a + 2] == [v[a], v[a + 1]];
    forall m: int ensures Has(v[a..a + 2], m) <==> Within(v[a], m) || Within(v[a + 1], m) {
      HasTwo(v[a], v[a + 1], m);
    }
  }

  lemma ReplaceAt(v: seq<Iv>, a: nat, b: nat, w: Iv)
    requires a <= b <= |v|
    ensures var r := Replace(v, a, b, [w]);
            && |r| == |v| - (b - a) + 1 && r[a] == w
            && (forall i :: 0 <= i < a ==> r[i] == v[i])
            && (forall i :: a < i < |r| ==> r[i] == v[i - 1 + (b - a)])
  {
  }

  lemma ReplaceCanonical(v: seq<Iv>, a: nat, b: nat, w: Iv)
    requires Canonical(v) && a <= b <= |v| && w.lo <= w.hi
    requires a > 0 ==> v[a - 1].hi + 1 < w.lo
    requires b < |v| ==> w.hi + 1 < v[b].lo
    ensures Canonical(Replace(v, a, b, [w]))
    ensures forall i :: 0 <= i < a ==> v[i].hi < w.lo
    ensures forall i :: b <= i < |v| ==> w.hi < v[i].lo
  {
    var r := Replace(v, a, b, [w]);
    ReplaceAt(v, a, b, w);
    forall i | 0 <= i < a ensures v[i].hi + 1 < w.lo { assert i < a - 1 ==> v[i].hi + 1 < v[a - 1].lo; }
    forall i | b <= i < |v| ensures w.hi + 1 < v[i].lo { assert b < i ==> v[b].hi + 1 < v[i].lo; }
    forall i, j | 0 <= i < j < |r| ensures r[i].hi + 1 < r[j].lo {
      assert i != a && j != a ==> v[if i < a then i else i - 1 + (b - a)].hi + 1 < v[if j < a then j else j - 1 + (b - a)].lo;
    }
  }

  /** Replacing the intervals from `a` up to `b` by `w`, where `w` covers exactly
      what they covered and `n`, is an insertion. */
  lemma ReplaceInserts(v: seq<Iv>, a: nat, b: nat, w: Iv, n: nat, t: nat)
    requires Canonical(v) && a <= b <= |v| && w.lo <= w.hi
    requires a > 0 ==> v[a - 1].hi + 1 < w.lo
    requires b < |v| ==> w.hi + 1 < v[b].lo
    requires forall m: int :: Within(w, m) <==> m == n || Has(v[a..b], m)
    requires FreshStamp(v, w, n, t)
    ensures InsertStep(v, Replace(v, a, b, [w]), n, t)
  {
    var r := Replace(v, a, b, [w]);
    ReplaceCanonical(v, a, b, w);
    forall m: int ensures Has(r, m) <==> m == n || Has(v, m) {
      ReplaceHas(v, a, b, [w], m);
      HasOne(w, m);
    }
    ReplaceAt(v, a, b, w);
    forall i | 0 <= i < |r| ensures (r[i] in v && !Within(r[i], n)) || FreshStamp(v, r[i], n, t) {
      if i < a {
        assert r[i] == v[i];
      } else if i > a {
        assert r[i] == v[i - 1 + (b - a)];
      }
    }
  }

  lemma GrowUpInserts(v: seq<Iv>, p: nat, n: nat, t: nat, s: nat)
    requires Canonical(v) && Gap(v, p, n) && p > 0 && v[p - 1].hi + 1 == n
    requires p < |v| ==> n + 1 < v[p].lo
    requires s == Max(v[p - 1].t, t)
    ensures InsertStep(v, v[p - 1 := Iv(v[p - 1].lo, n, s)], n, t)
  {
    var w := Iv(v[p - 1].lo, n, s);
    assert Absorbs(w, v[p - 1], t);
    assert v[p - 1 := w] == Replace(v, p - 1, p, [w]);
    SliceOne(v, p - 1);
    ReplaceInserts(v, p - 1, p, w, n, t);
  }

  lemma GrowDownInserts(v: seq<Iv>, p: nat, n: nat, t: nat, s: nat)
    requires Canonical(v) && Gap(v, p, n) && p < |v| && n + 1 == v[p].lo
    requires p > 0 ==> v[p - 1].hi + 1 < n
    requires s == Max(v[p].t, t)
    ensures InsertStep(v, v[p := Iv(n, v[p].hi, s)], n, t)
  {
    var w := Iv(n, v[p].hi, s);
    assert Absorbs(w, v[p], t);
    assert v[p := w] == Replace(v, p, p + 1, [w]);
    SliceOne(v, p);
    ReplaceInserts(v, p, p + 1, w, n, t);
  }

  lemma MergeInserts(v: seq<Iv>, p: nat, n: nat, t: nat, s: nat)
    requires Canonical(v) && Gap(v, p, n) && 0 < p < |v| && v[p - 1].hi + 1 == n && n + 1 == v[p].lo
    requires s == Max(v[p].t, t) || s == Max(v[p - 1].t, t)
    ensures InsertStep(v, Replace(v, p - 1, p + 1, [Iv(v[p - 1].lo, v[p].hi, s)]), n, t)
  {
    var w := Iv(v[p - 1].lo, v[p].hi, s);
    assert Absorbs(w, v[p - 1], t) || Absorbs(w, v[p], t);
    SliceTwo(v, p - 1);
    forall m: int ensures Within(w, m) <==> m == n || Has(v[p - 1..p + 1], m) {}
    assert p > 1 ==> v[p - 2].hi + 1 < w.lo;
    assert p + 1 < |v| ==> w.hi + 1 < v[p + 1].lo;
    ReplaceInserts(v, p - 1, p + 1, w, n, t);
  }

  lemma NewInserts(v: seq<Iv>, p: nat, n: nat, t: nat)
    requires Canonical(v) && Gap(v, p, n)
    requires p > 0 ==> v[p - 1].hi + 1 < n
    requires p < |v| ==> n + 1 < v[p].lo
    ensures InsertStep(v, Replace(v, p, p, [Iv(n, n, t)]), n, t)
  {
    forall m: int ensures !Has(v[p..p], m) {
      assert v[p..p] == [];
    }
    ReplaceInserts(v, p, p, Iv(n, n, t), n, t);
  }

  lemma TouchInserts(v: seq<Iv>, k: nat, n: nat, t: nat, s: nat)
    requires Canonical(v) && k < |v| && Within(v[k], n)
    requires s == Max(v[k].t, t)
    ensures InsertStep(v, v[k := v[k].(t := s)], n, t)
  {
    var w := v[k].(t := s);
    assert Absorbs(w, v[k], t);
    assert v[k := w] == Replace(v, k, k + 1, [w]);
    SliceOne(v, k);
    ReplaceInserts(v, k, k + 1, w, n, t);
  }

  // ----- diet_insert on the list

  datatype Option<T> = None | Some(value: T)

  function Max(a: nat, b: nat): (r: nat)
  {
    if a > b then a else b
  }

  /** What diet_insert does to the list when `n` is not in the root interval, which
      is number `k`: grow or merge a neighbour, or ask for a new interval.  Which
      neighbour's stamp survives a merge depends on which of them is the root. */
  function InsertNear(v: seq<Iv>, k: nat, n: nat, t: nat): (r: Option<seq<Iv>>)
    requires k < |v|
  {
    if n < v[k].lo then
      if n + 1 == v[k].lo then
        if k > 0 && v[k - 1].hi + 1 == n then
          Some(Replace(v, k - 1, k + 1, [Iv(v[k - 1].lo, v[k].hi, Max(v[k - 1].t, t))]))
        else Some(v[k := Iv(n, v[k].hi, Max(v[k].t, t))])
      else if k > 0 && v[k - 1].hi + 1 == n then
        Some(v[k - 1 := Iv(v[k - 1].lo, n, Max(v[k - 1].t, t))])
      else None
    else
      if n == v[k].hi + 1 then
        if k + 1 < |v| && v[k + 1].lo == n + 1 then
          Some(Replace(v, k, k + 2, [Iv(v[k].lo, v[k + 1].hi, Max(v[k + 1].t, t))]))
        else Some(v[k := Iv(v[k].lo, n, Max(v[k].t, t))])
      else if k + 1 < |v| && v[k + 1].lo == n + 1 then
        Some(v[k + 1 := Iv(n, v[k + 1].hi, Max(v[k + 1].t, t))])
      else None
  }

  /** `n` is not a member and not next to one. */
  ghost predicate Lonely(v: seq<Iv>, n: nat)
  {
    forall i :: 0 <= i < |v| ==> n + 1 < v[i].lo || v[i].hi + 1 < n
  }

  lemma NearInserts(v: seq<Iv>, k: nat, n: nat, t: nat)
    requires Canonical(v) && k < |v|
    requires if n < v[k].lo then Gap(v, k, n) else n > v[k].hi && Gap(v, k + 1, n)
    ensures match InsertNear(v, k, n, t)
            case None => Lonely(v, n)
            case Some(b) => InsertStep(v, b, n, t)
  {
    if n < v[k].lo {
      if n + 1 == v[k].lo {
        if k > 0 && v[k - 1].hi + 1 == n {
          MergeInserts(v, k, n, t, Max(v[k - 1].t, t));
        } else {
          GrowDownInserts(v, k, n, t, Max(v[k].t, t));
        }
      } else if k > 0 && v[k - 1].hi + 1 == n {
        GrowUpInserts(v, k, n, t, Max(v[k - 1].t, t));
      }
    } else {
      if n == v[k].hi + 1 {
        if k + 1 < |v| && v[k + 1].lo == n + 1 {
          MergeInserts(v, k + 1, n, t, Max(v[k + 1].t, t));
        } else {
          GrowUpInserts(v, k + 1, n, t, Max(v[k].t, t));
        }
      } else if k + 1 < |v| && v[k + 1].lo == n + 1 {
        GrowDownInserts(v, k + 1, n, t, Max(v[k + 1].t, t));
      }
    }
  }

  // ----- stamps

  /** Every interval's stamp is at least the time its members were last inserted. */
  ghost predicate Stamped(v: seq<Iv>, when: map<int, nat>)
  {
    forall i, m: int :: 0 <= i < |v| && Within(v[i], m) ==> m in when && when[m] <= v[i].t
  }

  /** If time does not run backwards, an insertion keeps the stamps good, */
  lemma InsertStamps(a: seq<Iv>, b: seq<Iv>, n: nat, t: nat, when: map<int, nat>)
    requires InsertStep(a, b, n, t) && Canonical(a) && Stamped(a, when)
    requires forall m: int :: m in when ==> when[m] <= t
    ensures Stamped(b, when[n := t])
  {
    forall i, m: int | 0 <= i < |b| && Within(b[i], m)
      ensures m in when[n := t] && when[n := t][m] <= b[i].t
    {
      assert Has(b, m);
      if b[i] in a {
        var j :| 0 <= j < |a| && a[j] == b[i];
        assert Within(a[j], m);
      } else if m != n {
        assert Has(a, m);
        var j :| 0 <= j < |a| && Within(a[j], m);
        assert m in when;
      }
    }
  }

  /** and so does any removal. */
  lemma RemoveStamps(a: seq<Iv>, b: seq<Iv>, lo: int, hi: int, when: map<int, nat>)
    requires RemoveStep(a, b, lo, hi) && Stamped(a, when)
    ensures Stamped(b, when)
  {
    forall i, m: int | 0 <= i < |b| && Within(b[i], m) ensures m in when && when[m] <= b[i].t {
      var j :| 0 <= j < |a| && a[j].lo <= b[i].lo && b[i].hi <= a[j].hi && a[j].t == b[i].t;
      assert Within(a[j], m);
    }
  }

  // ----- removals

  /** `w` consists of pieces of `x` with its stamp. */
  ghost predicate Pieces(w: seq<Iv>, x: Iv)
  {
    Canonical(w) && forall i :: 0 <= i < |w| ==> x.lo <= w[i].lo && w[i].hi <= x.hi && w[i].t == x.t
  }

  lemma PiecesCanonical(v: seq<Iv>, k: nat, w: seq<Iv>)
    requires Canonical(v) && k < |v| && Pieces(w, v[k])
    ensures Canonical(Replace(v, k, k + 1, w))
  {
    var r := Replace(v, k, k + 1, w);
    assert forall i :: 0 <= i < k ==> r[i] == v[i];
    assert forall i :: k <= i < k + |w| ==> r[i] == w[i - k];
    assert forall i :: k + |w| <= i < |r| ==> r[i] == v[i - |w| + 1];
  }

  lemma PiecesPart(v: seq<Iv>, k: nat, w: seq<Iv>, i: nat)
    requires k < |v| && Pieces(w, v[k]) && i < |Replace(v, k, k + 1, w)|
    ensures PartOf(v, Replace(v, k, k + 1, w)[i])
  {
    var r := Replace(v, k, k + 1, w);
    if i < k { assert r[i] == v[i]; }
    else if i < k + |w| { assert r[i] == w[i - k]; }
    else { assert r[i] == v[i - |w| + 1]; }
  }

  lemma PiecesHas(v: seq<Iv>, k: nat, w: seq<Iv>, m: int)
    requires Canonical(v) && k < |v| && Pieces(w, v[k])
    ensures Has(Replace(v, k, k + 1, w), m) <==> Has(v, m) && (Within(v[k], m) ==> Has(w, m))
  {
    SliceOne(v, k);
    ReplaceHas(v, k, k + 1, w, m);
    ApartFrom(v, k, m);
    if Has(w, m) {
      var i :| 0 <= i < |w| && Within(w[i], m);
    }
  }

  /** Replacing interval `k` by pieces of itself that leave out only members of [lo..hi]. */
  lemma ReplaceRemoves(v: seq<Iv>, k: nat, w: seq<Iv>, lo: int, hi: int)
    requires Canonical(v) && k < |v| && Pieces(w, v[k])
    requires forall m: int :: Within(v[k], m) && !(lo <= m <= hi) ==> Has(w, m)
    ensures RemoveStep(v, Replace(v, k, k + 1, w), lo, hi)
    ensures forall m: int :: Has(Replace(v, k, k + 1, w), m) <==> Has(v, m) && (Within(v[k], m) ==> Has(w, m))
  {
    var r := Replace(v, k, k + 1, w);
    PiecesCanonical(v, k, w);
    forall m: int ensures Has(r, m) <==> Has(v, m) && (Within(v[k], m) ==> Has(w, m)) {
      PiecesHas(v, k, w, m);
    }
    forall i | 0 <= i < |r| ensures PartOf(v, r[i]) {
      PiecesPart(v, k, w, i);
    }
  }

  lemma ApartFrom(v: seq<Iv>, k: nat, m: int)
    requires Canonical(v) && k < |v|
    ensures Within(v[k], m) ==> !Has(v[..k], m) && !Has(v[k + 1..], m)
  {
  }

  lemma RemoveStepTrans(a: seq<Iv>, b: seq<Iv>, c: seq<Iv>, lo: int, hi: int)
    requires RemoveStep(a, b, lo, hi) && RemoveStep(b, c, lo, hi)
    ensures RemoveStep(a, c, lo, hi)
  {
    forall i | 0 <= i < |c| ensures PartOf(a, c[i]) {
      var j :| 0 <= j < |b| && b[j].lo <= c[i].lo && c[i].hi <= b[j].hi && b[j].t == c[i].t;
      assert PartOf(a, b[j]);
    }
  }

  lemma RemoveNothing(a: seq<Iv>, lo: int, hi: int)
    requires Canonical(a)
    ensures RemoveStep(a, a, lo, hi)
  {
  }

  /** The number of members. */
  function Size(v: seq<Iv>): (r: int)
  {
    if v == [] then 0
    else Size(v[..|v| - 1]) + (v[|v| - 1].hi - v[|v| - 1].lo + 1)
  }

  lemma {:induction false} SizeConcat(a: seq<Iv>, b: seq<Iv>)
    ensures Size(a + b) == Size(a) + Size(b)
    decreases |b|
  {
    if b == [] {
      assert a + b == a;
    } else {
      var n := |b| - 1;
      SizeConcat(a, b[..n]);
      assert (a + b)[..|a| + n] == a + b[..n];
    }
  }

  lemma {:induction false} SizeNat(v: seq<Iv>)
    requires Canonical(v)
    ensures Size(v) >= 0
    decreases |v|
  {
    if v != [] { SizeNat(v[..|v| - 1]); }
  }

  lemma SizeReplace(v: seq<Iv>, k: nat, w: seq<Iv>)
    requires k < |v|
    ensures Size(Replace(v, k, k + 1, w)) == Size(v) - (v[k].hi - v[k].lo + 1) + Size(w)
  {
    assert v == v[..k] + [v[k]] + v[k + 1..];
    SizeConcat(v[..k] + [v[k]], v[k + 1..]);
    SizeConcat(v[..k], [v[k]]);
    SizeConcat(v[..k] + w, v[k + 1..]);
    SizeConcat(v[..k], w);
    assert [v[k]][..0] == [];
  }

  /** The list after the range [lo..hi] is cut out of interval `k` alone. */
  function Cut(v: seq<Iv>, k: nat, lo: nat, hi: nat): (r: seq<Iv>)
    requires k < |v|
  {
    Replace(v, k, k + 1, Rest(v[k], lo, hi))
  }

  /** What is left of `x` without [lo..hi]. */
  function Rest(x: Iv, lo: nat, hi: nat): (r: seq<Iv>)
  {
    (if x.lo < lo then [Iv(x.lo, lo - 1, x.t)] else []) +
    (if hi < x.hi then [Iv(hi + 1, x.hi, x.t)] else [])
  }

  lemma RestPieces(x: Iv, lo: nat, hi: nat)
    requires lo <= hi && lo <= x.hi && x.lo <= hi && x.lo <= x.hi
    ensures Pieces(Rest(x, lo, hi), x)
    ensures forall m: int :: Has(Rest(x, lo, hi), m) <==> Within(x, m) && !(lo <= m <= hi)
    ensures Size(Rest(x, lo, hi)) < x.hi - x.lo + 1
  {
    var a := if x.lo < lo then [Iv(x.lo, lo - 1, x.t)] else [];
    var b := if hi < x.hi then [Iv(hi + 1, x.hi, x.t)] else [];
    forall m: int ensures Has(Rest(x, lo, hi), m) <==> Within(x, m) && !(lo <= m <= hi) {
      HasConcat(a, b, m);
      HasOne(Iv(x.lo, if lo > 0 then lo - 1 else 0, x.t), m);
      HasOne(Iv(hi + 1, x.hi, x.t), m);
    }
    SizeConcat(a, b);
    if x.lo < lo { assert a[..0] == []; }
    if hi < x.hi { assert b[..0] == []; }
  }

  lemma CutRemoves(v: seq<Iv>, k: nat, lo: nat, hi: nat)
    requires Canonical(v) && k < |v| && lo <= hi && lo <= v[k].hi && v[k].lo <= hi
    ensures RemoveStep(v, Cut(v, k, lo, hi), lo, hi)
    ensures forall m: int :: Has(Cut(v, k, lo, hi), m) <==> Has(v, m) && !(Within(v[k], m) && lo <= m <= hi)
    ensures Size(Cut(v, k, lo, hi)) < Size(v)
  {
    RestPieces(v[k], lo, hi);
    ReplaceRemoves(v, k, Rest(v[k], lo, hi), lo, hi);
    SizeReplace(v, k, Rest(v[k], lo, hi));
  }

  lemma RemoveWider(a: seq<Iv>, b: seq<Iv>, lo: int, hi: int, lo': int, hi': int)
    requires RemoveStep(a, b, lo, hi)
    requires forall m: int :: Has(a, m) && lo <= m <= hi ==> lo' <= m <= hi'
    ensures RemoveStep(a, b, lo', hi')
  {
  }

  /** A contiguous range of members lies in one interval. */
  lemma {:induction false} OneInterval(v: seq<Iv>, k: nat, lo: nat, hi: nat)
    requires Canonical(v) && k < |v| && lo <= hi
    requires forall m: int :: lo <= m <= hi ==> Has(v, m)
    requires lo <= v[k].hi && v[k].lo <= hi
    ensures v[k].lo <= lo && hi <= v[k].hi
  {
    NotMember(v, k);
  }

  /** The numbers next to an interval are not members. */
  lemma NotMember(v: seq<Iv>, k: nat)
    requires Canonical(v) && k < |v|
    ensures !Has(v, v[k].lo - 1) && !Has(v, v[k].hi + 1)
  {
  }
}
