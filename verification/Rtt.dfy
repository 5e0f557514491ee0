/** The round-trip time estimator, update_rtt in lib/src/recovery.c. */
module Rtt {
  import opened Ivals

  const NS_PER_MS: nat := 1_000_000

  /** srtt, rttvar and min_rtt; srtt is 0 before the first sample. */
  datatype Estimate = Estimate(srtt: nat, rttvar: nat, minRtt: nat)

  function Min(a: nat, b: nat): (r: nat)
  {
    if a <= b then a else b
  }

  function Diff(a: nat, b: nat): (r: nat)
  {
    if a >= b then a - b else b - a
  }

  /** The sample without the peer's delay, unless that takes it to the minimum. */
  function Adjusted(latest: nat, minRtt: nat, ackDel: nat): (r: nat)
  {
    if latest > minRtt + ackDel then latest - ackDel else latest
  }

  /** update_rtt for the sample `latest`. */
  function UpdateRtt(e: Estimate, latest: nat, ackDel: nat, maxAckDel: nat): (r: Estimate)
  {
    if e.srtt == 0 then Estimate(latest, latest / 2, latest)
    else
      var minRtt := Min(e.minRtt, latest);
      var adj := Adjusted(latest, minRtt, Min(ackDel, maxAckDel) * NS_PER_MS);
      Estimate(7 * e.srtt / 8 + adj / 8, 3 * e.rttvar / 4 + Diff(e.srtt, adj) / 4, minRtt)
  }

  datatype Sample = Sample(latest: nat, ackDel: nat, maxAckDel: nat)

  function Estimates(samples: seq<Sample>): (r: Estimate)
  {
    if samples == [] then Estimate(0, 0, 0)
    else
      var s := samples[|samples| - 1];
      UpdateRtt(Estimates(samples[..|samples| - 1]), s.latest, s.ackDel, s.maxAckDel)
  }

  function Least(samples: seq<Sample>): (r: nat)
    requires samples != []
  {
    var s := samples[|samples| - 1].latest;
    if |samples| == 1 then s else Min(Least(samples[..|samples| - 1]), s)
  }

  function Greatest(samples: seq<Sample>): (r: nat)
    requires samples != []
  {
    var s := samples[|samples| - 1].latest;
    if |samples| == 1 then s else Max(Greatest(samples[..|samples| - 1]), s)
  }

  lemma AdjustedBounds(latest: nat, minRtt: nat, ackDel: nat)
    requires minRtt <= latest
    ensures minRtt <= Adjusted(latest, minRtt, ackDel) <= latest
  {
  }

  /** One more sample keeps the estimate between the extremes; truncation costs at most
      14 at the low end. */
  lemma UpdateBounds(e: Estimate, lo: nat, hi: nat, s: Sample)
    requires 0 < e.srtt <= hi && e.srtt + 14 >= lo && e.rttvar <= hi && e.minRtt == lo <= hi && lo >= 8 && s.latest >= 8
    ensures var r := UpdateRtt(e, s.latest, s.ackDel, s.maxAckDel);
            && 0 < r.srtt <= Max(hi, s.latest) && r.rttvar <= Max(hi, s.latest)
            && r.minRtt == Min(lo, s.latest) && r.srtt + 14 >= r.minRtt
  {
    var m := Min(lo, s.latest);
    AdjustedBounds(s.latest, m, Min(s.ackDel, s.maxAckDel) * NS_PER_MS);
  }

  /** For every sequence of samples of at least 8, srtt stays positive, min_rtt is the
      least sample, srtt and rttvar are at most the greatest, and srtt is at least
      min_rtt - 14. */
  lemma {:induction false} EstimateBounds(samples: seq<Sample>)
    requires samples != [] && forall i :: 0 <= i < |samples| ==> samples[i].latest >= 8
    ensures var e := Estimates(samples);
            && 0 < e.srtt <= Greatest(samples) && e.rttvar <= Greatest(samples)
            && 8 <= e.minRtt == Least(samples) <= Greatest(samples) && e.srtt + 14 >= e.minRtt
    decreases |samples|
  {
    var n := |samples| - 1;
    if n > 0 {
      EstimateBounds(samples[..n]);
      UpdateBounds(Estimates(samples[..n]), Least(samples[..n]), Greatest(samples[..n]), samples[n]);
    } else {
      assert samples[..0] == [];
    }
  }

  /** The least sample is one of them, and a lower bound. */
  lemma {:induction false} LeastIs(samples: seq<Sample>)
    requires samples != []
    ensures (exists i :: 0 <= i < |samples| && samples[i].latest == Least(samples))
    ensures forall i :: 0 <= i < |samples| ==> Least(samples) <= samples[i].latest <= Greatest(samples)
    decreases |samples|
  {
    var n := |samples| - 1;
    if n > 0 {
      LeastIs(samples[..n]);
      var j :| 0 <= j < n && samples[..n][j].latest == Least(samples[..n]);
      assert samples[j].latest == Least(samples[..n]) && samples[n].latest == samples[|samples| - 1].latest;
      assert samples[if Least(samples[..n]) <= samples[n].latest then j else n].latest == Least(samples);
      forall i | 0 <= i < |samples| ensures Least(samples) <= samples[i].latest <= Greatest(samples) {
        if i < n { assert samples[..n][i] == samples[i]; }
      }
    } else {
      assert samples[0].latest == Least(samples);
    }
  }

  /** Exactly when a running estimate is taken for an unset one: srtt is 1 and the
      adjusted sample below 8. */
  lemma ReturnsToZero(e: Estimate, s: Sample)
    requires e.srtt > 0
    ensures var minRtt := Min(e.minRtt, s.latest);
            var adj := Adjusted(s.latest, minRtt, Min(s.ackDel, s.maxAckDel) * NS_PER_MS);
            UpdateRtt(e, s.latest, s.ackDel, s.maxAckDel).srtt == 0 <==> e.srtt == 1 && adj < 8
  {
  }

  // ----- the weights of the two averages

  /** The sample that counts, for the minimum `m`. */
  ghost predicate Counts(s: Sample, m: nat, adj: nat)
  {
    var d := (if s.ackDel <= s.maxAckDel then s.ackDel else s.maxAckDel) * 1_000_000;
    adj == if s.latest > m + d then s.latest - d else s.latest
  }

  /** `r` follows from a running estimate `e` by the sample `adj`: seven eighths of srtt and
      one of the sample, three quarters of rttvar and one of the deviation, each part
      rounded down. */
  ghost predicate Smoothed(e: Estimate, adj: nat, r: Estimate)
  {
    var dev := if e.srtt >= adj then e.srtt - adj else adj - e.srtt;
    && 8 * r.srtt <= 7 * e.srtt + adj <= 8 * r.srtt + 14
    && 4 * r.rttvar <= 3 * e.rttvar + dev <= 4 * r.rttvar + 6
  }

  /** Every sample: the first sets all three, later ones smooth. */
  lemma SampleSmooths(e: Estimate, s: Sample, m: nat, adj: nat)
    requires m == (if e.minRtt <= s.latest then e.minRtt else s.latest) && Counts(s, m, adj)
    ensures var r := UpdateRtt(e, s.latest, s.ackDel, s.maxAckDel);
            if e.srtt == 0 then r == Estimate(s.latest, s.latest / 2, s.latest)
            else r.minRtt == m && Smoothed(e, adj, r)
  {
  }

  /** The same sample `n` times. */
  function Repeat(e: Estimate, s: Sample, n: nat): (r: Estimate)
    decreases n
  {
    if n == 0 then e else Repeat(UpdateRtt(e, s.latest, s.ackDel, s.maxAckDel), s, n - 1)
  }

  /** srtt has come to the sample `adj`, up to rounding. */
  ghost predicate Near(e: Estimate, adj: nat)
  {
    e.srtt <= adj <= e.srtt + 14
  }

  /** A step towards a constant sample. */
  lemma StepNearer(e: Estimate, s: Sample, m: nat, adj: nat, r: Estimate)
    requires m == Min(e.minRtt, s.latest) && Counts(s, m, adj) && adj >= 8 && e.srtt > 0
    requires r == UpdateRtt(e, s.latest, s.ackDel, s.maxAckDel)
    ensures r.srtt > 0 && r.minRtt == m && Min(r.minRtt, s.latest) == m
    ensures Near(e, adj) ==> Near(r, adj)
    ensures !Near(e, adj) ==> Diff(r.srtt, adj) < Diff(e.srtt, adj)
    ensures Near(e, adj) && e.rttvar <= 12 ==> r.rttvar <= 12
    ensures Near(e, adj) && e.rttvar > 12 ==> r.rttvar < e.rttvar
  {
    SampleSmooths(e, s, m, adj);
  }

  lemma {:induction false} StaysCalm(e: Estimate, s: Sample, m: nat, adj: nat, n: nat)
    requires m == Min(e.minRtt, s.latest) && Counts(s, m, adj) && adj >= 8 && e.srtt > 0
    requires Near(e, adj) && e.rttvar <= 12
    ensures var r := Repeat(e, s, n); Near(r, adj) && r.rttvar <= 12
    decreases n
  {
    if n > 0 {
      var r := UpdateRtt(e, s.latest, s.ackDel, s.maxAckDel);
      StepNearer(e, s, m, adj, r);
      StaysCalm(r, s, m, adj, n - 1);
    }
  }

  lemma {:induction false} Calms(e: Estimate, s: Sample, m: nat, adj: nat) returns (n: nat)
    requires m == Min(e.minRtt, s.latest) && Counts(s, m, adj) && adj >= 8 && e.srtt > 0
    ensures forall k :: k >= n ==> Near(Repeat(e, s, k), adj) && Repeat(e, s, k).rttvar <= 12
    decreases if Near(e, adj) then 0 else Diff(e.srtt, adj), e.rttvar
  {
    if Near(e, adj) && e.rttvar <= 12 {
      n := 0;
      forall k: nat | k >= n ensures Near(Repeat(e, s, k), adj) && Repeat(e, s, k).rttvar <= 12 {
        StaysCalm(e, s, m, adj, k);
      }
    } else {
      var r := UpdateRtt(e, s.latest, s.ackDel, s.maxAckDel);
      StepNearer(e, s, m, adj, r);
      n := Calms(r, s, m, adj);
      n := n + 1;
      forall k: nat | k >= n ensures Near(Repeat(e, s, k), adj) && Repeat(e, s, k).rttvar <= 12 {
        assert Repeat(e, s, k) == Repeat(r, s, k - 1);
      }
    }
  }

  /** A round-trip time that no longer changes is learned: from any running estimate, the
      same sample over and over brings srtt to within 14 of what counts of it and rttvar
      down to 12, for good. */
  lemma Converges(e: Estimate, s: Sample, adj: nat) returns (n: nat)
    requires e.srtt > 0 && adj >= 8 && Counts(s, if e.minRtt <= s.latest then e.minRtt else s.latest, adj)
    ensures forall k :: k >= n ==> Near(Repeat(e, s, k), adj) && Repeat(e, s, k).rttvar <= 12
  {
    n := Calms(e, s, Min(e.minRtt, s.latest), adj);
  }

  // ----- in place

  /** The estimator of a connection; `samples` records what it was given. */
  class Estimator {
    var srtt: nat
    var rttvar: nat
    var minRtt: nat
    ghost var samples: seq<Sample>

    function State(): (e: Estimate)
      reads this
    {
      Estimate(srtt, rttvar, minRtt)
    }

    ghost predicate Valid()
      reads this
    {
      State() == Estimates(samples)
    }

    /** All samples were at least 8. */
    ghost predicate Sensible()
      reads this
    {
      forall i :: 0 <= i < |samples| ==> samples[i].latest >= 8
    }

    constructor ()
      ensures Valid() && samples == []
    {
      srtt, rttvar, minRtt, samples := 0, 0, 0, [];
    }

    /** update_rtt: after any number of calls with sensible samples the estimate lies
        between their extremes. */
    method Update(latest: nat, ackDel: nat, maxAckDel: nat)
      requires Valid()
      modifies this
      ensures Valid() && samples == old(samples) + [Sample(latest, ackDel, maxAckDel)]
      ensures Sensible() ==>
        && 0 < srtt <= Greatest(samples) && rttvar <= Greatest(samples)
        && minRtt == Least(samples) && srtt + 14 >= minRtt
      ensures forall adj :: old(srtt) > 0 && Counts(Sample(latest, ackDel, maxAckDel), minRtt, adj) ==>
        Smoothed(old(State()), adj, State())
    {
      ghost var s := Sample(latest, ackDel, maxAckDel);
      assert (samples + [s])[..|samples|] == samples;
      samples := samples + [s];
      if Sensible() { EstimateBounds(samples); }
      forall adj | Counts(s, Min(minRtt, latest), adj) { SampleSmooths(State(), s, Min(minRtt, latest), adj); }
      Smooth(latest, ackDel, maxAckDel);
    }

    method Smooth(latest: nat, ackDel: nat, maxAckDel: nat)
      modifies this`srtt, this`rttvar, this`minRtt
      ensures State() == UpdateRtt(old(State()), latest, ackDel, maxAckDel)
    {
      if srtt == 0 {
        minRtt, srtt := latest, latest;
        rttvar := latest / 2;
        return;
      }
      minRtt := Min(minRtt, latest);
      var del := Min(ackDel, maxAckDel) * NS_PER_MS;
      var adj := if latest > minRtt + del then latest - del else latest;
      rttvar := 3 * rttvar / 4 + Diff(srtt, adj) / 4;
      srtt := 7 * srtt / 8 + adj / 8;
    }
  }
}
