/** The retry loop of diet_remove_ival (lib/src/diet.c) on interval lists. */
module RemoveRange {
  import opened Ivals

  const UINT_T_MAX: nat := 0xFFFF_FFFF_FFFF_FFFF

  /** uint_t increment, which wraps at the top. */
  function Inc(x: nat): (r: nat)
    ensures r <= x + 1
  {
    if x == UINT_T_MAX then 0 else x + 1
  }

  /** Every number of the range is a member. */
  ghost predicate Covered(v: seq<Iv>, lo: nat, hi: nat)
  {
    forall m: int :: lo <= m <= hi ==> Has(v, m)
  }

  /** No number of the range is a member. */
  ghost predicate Clear(v: seq<Iv>, lo: nat, hi: nat)
  {
    forall m: int :: lo <= m <= hi ==> !Has(v, m)
  }

  /** The range still to be removed after a root with bounds [rlo..rhi] has been
      dealt with; None when the function returns.  When the range starts exactly
      at the root, the code moves the wrong end. */
  function NextRange(rlo: nat, rhi: nat, lo: nat, hi: nat): (r: Option<(nat, nat)>)
    requires lo <= rhi && rlo <= hi
  {
    if lo > rlo then
      if hi <= rhi then None else Some((rhi + 1, hi))
    else if lo < rlo then
      if hi <= rhi then Some((lo, rlo - 1)) else Some((lo, hi))
    else
      if hi < rhi then None else Some((lo, Inc(rhi)))
  }

  /** What holds whenever the loop is about to splay: `v0` was the list at the
      start, [ilo..ihi] the range asked for, [lo..hi] the range still wanted. */
  ghost predicate LoopInv(v0: seq<Iv>, ilo: nat, ihi: nat, v: seq<Iv>, lo: nat, hi: nat)
  {
    && RemoveStep(v0, v, ilo, ihi)
    && (forall m: int :: Has(v, m) && lo <= m <= hi ==> ilo <= m <= ihi)
    && (lo <= hi || !Has(v, lo))
  }

  /** The number of members of a canonical list; each retry lowers it. */
  ghost function MemberCount(v: seq<Iv>): (r: nat)
  {
    if Size(v) >= 0 then Size(v) else 0
  }

  lemma LoopStarts(v0: seq<Iv>, ilo: nat, ihi: nat)
    requires Canonical(v0) && ilo <= ihi
    ensures LoopInv(v0, ilo, ihi, v0, ilo, ihi)
  {
    RemoveNothing(v0, ilo, ihi);
  }

  lemma LoopFacts(v0: seq<Iv>, ilo: nat, ihi: nat, v: seq<Iv>, lo: nat, hi: nat)
    requires LoopInv(v0, ilo, ihi, v, lo, hi)
    ensures Canonical(v)
    ensures forall i :: 0 <= i < |v| && lo <= v[i].hi && v[i].lo <= hi ==> lo <= hi
  {
    forall i | 0 <= i < |v| && lo <= v[i].hi && v[i].lo <= hi ensures lo <= hi {
      RangeNotEmpty(v0, ilo, ihi, v, i, lo, hi);
    }
  }

  lemma RangeNotEmpty(v0: seq<Iv>, ilo: nat, ihi: nat, v: seq<Iv>, k: nat, lo: nat, hi: nat)
    requires k < |v| && LoopInv(v0, ilo, ihi, v, lo, hi) && lo <= v[k].hi && v[k].lo <= hi
    ensures lo <= hi
  {
    if hi < lo { assert Within(v[k], lo); }
  }

  lemma RoundRemoves(v0: seq<Iv>, ilo: nat, ihi: nat, v: seq<Iv>, k: nat, lo: nat, hi: nat)
    requires Canonical(v) && k < |v| && RemoveStep(v0, v, ilo, ihi)
    requires forall m: int :: Has(v, m) && lo <= m <= hi ==> ilo <= m <= ihi
    requires lo <= hi && lo <= v[k].hi && v[k].lo <= hi
    ensures RemoveStep(v0, Cut(v, k, lo, hi), ilo, ihi)
  {
    CutRemoves(v, k, lo, hi);
    RemoveWider(v, Cut(v, k, lo, hi), lo, hi, ilo, ihi);
    RemoveStepTrans(v0, v, Cut(v, k, lo, hi), ilo, ihi);
  }

  /** The range left to do holds no member outside the range asked for: where the
      code extends it by one number, that number is not a member. */
  lemma RoundWants(v: seq<Iv>, v': seq<Iv>, k: nat, lo: nat, hi: nat, lo': nat, hi': nat)
    requires Canonical(v) && k < |v| && lo <= hi && lo <= v[k].hi && v[k].lo <= hi
    requires v' == Cut(v, k, lo, hi) && NextRange(v[k].lo, v[k].hi, lo, hi) == Some((lo', hi'))
    ensures forall m: int :: Has(v', m) && lo' <= m <= hi' ==> Has(v, m) && lo <= m <= hi
    ensures lo' <= hi' || !Has(v', lo')
  {
    CutRemoves(v, k, lo, hi);
    NotMember(v, k);
    if lo == v[k].lo {
      assert Within(v[k], lo') && !Has(v', lo');
    }
  }

  /** One round of the loop: what it removed was asked for, and the invariant holds
      for what is left to do. */
  lemma RoundKeeps(v0: seq<Iv>, ilo: nat, ihi: nat, v: seq<Iv>, k: nat, lo: nat, hi: nat)
    requires Canonical(v) && ilo <= ihi && k < |v| && LoopInv(v0, ilo, ihi, v, lo, hi)
    requires lo <= v[k].hi && v[k].lo <= hi
    ensures lo <= hi && MemberCount(Cut(v, k, lo, hi)) < MemberCount(v)
    ensures var v' := Cut(v, k, lo, hi);
            match NextRange(v[k].lo, v[k].hi, lo, hi)
            case None => RemoveStep(v0, v', ilo, ihi)
            case Some((lo', hi')) => LoopInv(v0, ilo, ihi, v', lo', hi')
  {
    var v' := Cut(v, k, lo, hi);
    SizeNat(v);
    RangeNotEmpty(v0, ilo, ihi, v, k, lo, hi);
    CutRemoves(v, k, lo, hi);
    RoundRemoves(v0, ilo, ihi, v, k, lo, hi);
    SizeNat(v');
    match NextRange(v[k].lo, v[k].hi, lo, hi)
    case None =>
    case Some((lo', hi')) => RoundWants(v, v', k, lo, hi, lo', hi');
  }

  /** The sequence without its element at `k`. */
  function Without<T>(s: seq<T>, k: nat): (r: seq<T>)
    requires k < |s|
    ensures |r| == |s| - 1
    ensures forall i :: 0 <= i < |r| ==> r[i] == if i < k then s[i] else s[i + 1]
  {
    s[..k] + s[k + 1..]
  }

  lemma WithoutCanonical(v: seq<Iv>, k: nat)
    requires Canonical(v) && k < |v|
    ensures Canonical(Without(v, k))
  {
  }

  lemma CutForms(v: seq<Iv>, k: nat, lo: nat, hi: nat)
    requires k < |v|
    ensures lo <= v[k].lo && v[k].hi <= hi ==> Cut(v, k, lo, hi) == Without(v, k)
    ensures lo <= v[k].lo && hi < v[k].hi ==> Cut(v, k, lo, hi) == v[k := Iv(hi + 1, v[k].hi, v[k].t)]
    ensures v[k].lo < lo && v[k].hi <= hi ==> Cut(v, k, lo, hi) == v[k := Iv(v[k].lo, lo - 1, v[k].t)]
    ensures v[k].lo < lo && hi < v[k].hi ==>
      Cut(v, k, lo, hi) == Replace(v, k, k + 1, [Iv(v[k].lo, lo - 1, v[k].t), Iv(hi + 1, v[k].hi, v[k].t)])
  {
  }
}
