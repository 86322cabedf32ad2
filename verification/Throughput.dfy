/** The throughput-probed controller of cbp.hpp: every few windows it runs one window at a neighbouring promotion
    chance, one more at the old chance, and adopts the neighbour if that was faster. Counts are reals here. */
module Throughput {

  const MIN_LOG: int := 1
  const MAX_LOG: int := 14
  const ACCEPT_EPS: real := 0.005

  datatype Tpb = Tpb(lcActive: int, lcBase: int, lcProbe: int, probing: bool, windowIdx: nat, basePre: real,
                     probeTps: real,
                     lastDir: int, baseEwma: real, probeEvery: nat, phaseTol: real)

  /** init, with the values the environment may choose. */
  function Init(start: int, probeEvery: nat, phaseTol: real): Tpb {
    Tpb(start, start, start, false, 0, 0.0, 0.0, -1, 0.0, probeEvery, phaseTol)
  }

  function Abs(x: real): real { if x < 0.0 then -x else x }

  /** Window 3 of a probe: the samples before and after agree, and the probe beats their average. */
  predicate Accepts(s: Tpb, basePost: real) {
    && s.basePre > 0.0 && Abs(s.basePre - basePost) / s.basePre < s.phaseTol
    && s.probeTps > 0.5 * (s.basePre + basePost) * (1.0 + ACCEPT_EPS)
  }

  /** The direction of the next probe: the last one, turned around at the ends of the range. */
  function ProbeDir(s: Tpb): int {
    if MIN_LOG <= s.lcBase + s.lastDir <= MAX_LOG then s.lastDir else -s.lastDir
  }

  function AfterWindow(s: Tpb, tps: real): Tpb {
    var windowIdx := s.windowIdx + 1;
    if s.probing then
      if s.probeTps == 0.0 then
        s.(windowIdx := windowIdx, probeTps := tps, lcActive := s.lcBase)
      else
        var adopts := Accepts(s, tps);
        var base := if adopts then s.lcProbe else s.lcBase;
        s.(windowIdx := windowIdx, lcBase := base, lcActive := base, probing := false, probeTps := 0.0,
           lastDir := if !adopts then s.lastDir else if s.lcProbe > s.lcBase then -1 else 1,
           baseEwma := 0.7 * s.baseEwma + 0.3 * (0.5 * (s.basePre + tps)))
    else
      var ewma := 0.7 * s.baseEwma + 0.3 * tps;
      if s.probeEvery != 0 && windowIdx % s.probeEvery == 0 then
        var probe := s.lcBase + ProbeDir(s);
        s.(windowIdx := windowIdx, baseEwma := ewma, basePre := tps, lastDir := ProbeDir(s), lcProbe := probe,
           lcActive := probe, probing := true, probeTps := 0.0)
      else
        s.(windowIdx := windowIdx, baseEwma := ewma, lcActive := s.lcBase)
  }

  class Controller {
    var lcActive: int
    var lcBase: int
    var lcProbe: int
    var probing: bool
    var windowIdx: nat
    var basePre: real
    var probeTps: real
    var lastDir: int
    var baseEwma: real
    const probeEvery: nat
    const phaseTol: real

    ghost function State(): Tpb
      reads this
    {
      Tpb(lcActive, lcBase, lcProbe, probing, windowIdx, basePre, probeTps, lastDir, baseEwma, probeEvery, phaseTol)
    }

    constructor (start: int, probeEvery: nat, phaseTol: real)
      ensures State() == Init(start, probeEvery, phaseTol)
    {
      lcActive, lcBase, lcProbe, probing, windowIdx := start, start, start, false, 0;
      basePre, probeTps, lastDir, baseEwma := 0.0, 0.0, -1, 0.0;
      this.probeEvery, this.phaseTol := probeEvery, phaseTol;
    }

    /** tpbOnWindow: called with the number of transactions of the window that has just ended. */
    method OnWindow(txDelta: nat)
      requires probeEvery >= 2
      modifies this
      ensures State() == AfterWindow(old(State()), txDelta as real)
    {
      var tps := txDelta as real;
      windowIdx := windowIdx + 1;
      if probing {
        if probeTps == 0.0 {
          probeTps := tps;
          lcActive := lcBase;
        } else {
          Finish(tps);
        }
      } else {
        baseEwma := 0.7 * baseEwma + 0.3 * tps;
        if windowIdx % probeEvery == 0 {
          Open(tps);
        } else {
          lcActive := lcBase;
        }
      }
    }

    /** The decision after the third window. */
    method Finish(basePost: real)
      modifies this
      ensures var s := old(State()); var adopts := Accepts(s, basePost);
        var base := if adopts then s.lcProbe else s.lcBase;
        State() == s.(lcBase := base, lcActive := base, probing := false, probeTps := 0.0,
                      lastDir := if !adopts then s.lastDir else if s.lcProbe > s.lcBase then -1 else 1,
                      baseEwma := 0.7 * s.baseEwma + 0.3 * (0.5 * (s.basePre + basePost)))
    {
      var baseAvg := 0.5 * (basePre + basePost);
      var phaseStable := basePre > 0.0 && Abs(basePre - basePost) / basePre < phaseTol;
      if phaseStable && probeTps > baseAvg * (1.0 + ACCEPT_EPS) {
        var acceptedDir := if lcProbe > lcBase then 1 else -1;
        lcBase := lcProbe;
        lastDir := -acceptedDir;
      }
      lcActive := lcBase;
      baseEwma := 0.7 * baseEwma + 0.3 * baseAvg;
      probing := false;
      probeTps := 0.0;
    }

    /** Starts a probe: saves the baseline and switches to a neighbour. */
    method Open(tps: real)
      modifies this
      ensures var s := old(State());
        State() == s.(basePre := tps, lastDir := ProbeDir(s), lcProbe := s.lcBase + ProbeDir(s),
                      lcActive := s.lcBase + ProbeDir(s), probing := true, probeTps := 0.0)
    {
      basePre := tps;
      var newLc := lcBase + lastDir;
      if newLc < MIN_LOG || newLc > MAX_LOG {
        lastDir := -lastDir;
        newLc := lcBase + lastDir;
      }
      lcProbe := newLc;
      lcActive := lcProbe;
      probing := true;
      probeTps := 0.0;
    }
  }

  // ---------------------------------------------------------------------- every run

  /** What holds between windows: the chances stay in range, and outside the first windows of a probe the base runs. */
  predicate Inv(s: Tpb) {
    && MIN_LOG <= s.lcBase <= MAX_LOG && MIN_LOG <= s.lcActive <= MAX_LOG
    && (s.lastDir == 1 || s.lastDir == -1)
    && (!s.probing || s.probeTps != 0.0 ==> s.lcActive == s.lcBase)
    && (s.probing ==>
          && MIN_LOG <= s.lcProbe <= MAX_LOG && (s.lcProbe == s.lcBase + 1 || s.lcProbe == s.lcBase - 1)
          && (s.lcActive == s.lcProbe || s.lcActive == s.lcBase))
  }

  /** A run: counts[i] was measured in a window that ran at states[i].lcActive. */
  ghost predicate Run(states: seq<Tpb>, counts: seq<real>) {
    && |states| == |counts| + 1
    && (exists start, n, tol :: MIN_LOG <= start <= MAX_LOG && n >= 2 && tol > 0.0 && states[0] == Init(start, n, tol))
    && forall i :: 0 <= i < |counts| ==> counts[i] >= 0.0 && states[i + 1] == AfterWindow(states[i], counts[i])
  }

  ghost predicate Positive(counts: seq<real>) {
    forall i :: 0 <= i < |counts| ==> counts[i] > 0.0
  }

  lemma {:induction false} StepInv(s: Tpb, tps: real)
    requires Inv(s)
    ensures Inv(AfterWindow(s, tps))
  {
    hide Accepts;
  }

  /** Base and active chance stay in range, whatever is counted. */
  lemma {:induction false} RunInv(states: seq<Tpb>, counts: seq<real>, i: nat)
    requires Run(states, counts) && i < |states|
    ensures Inv(states[i]) && states[i].probeTps >= 0.0
    decreases i
  {
    if i > 0 {
      RunInv(states, counts, i - 1);
      StepInv(states[i - 1], counts[i - 1]);
      assert states[i - 1 + 1] == AfterWindow(states[i - 1], counts[i - 1]);
      hide Accepts;
    }
  }

  /** Window o, at the base, opened the probe that is still undecided before window k. */
  ghost predicate OpenSince(states: seq<Tpb>, counts: seq<real>, o: nat, k: nat) {
    && o < k < |states| && k <= |counts| && !states[o].probing && states[o].lcActive == states[o].lcBase
    && forall j :: o < j <= k ==>
         states[j].probing && states[j].basePre == counts[o] && states[j].lcBase == states[o].lcBase
             && states[j].lcProbe == states[k].lcProbe
  }

  /** Without a sample so far, every window since the opening was empty, and only the first of them ran at lcProbe. */
  lemma {:induction false} Unsampled(states: seq<Tpb>, counts: seq<real>, k: nat) returns (o: nat)
    requires Run(states, counts) && k < |states| && states[k].probing && states[k].probeTps == 0.0
    ensures OpenSince(states, counts, o, k)
    ensures forall j :: o < j < k ==> counts[j] == 0.0
    ensures states[k].lcActive == if k == o + 1 then states[k].lcProbe else states[k].lcBase
    decreases k
  {
    hide Accepts;
    assert k > 0 && states[k - 1 + 1] == AfterWindow(states[k - 1], counts[k - 1]);
    RunInv(states, counts, k - 1);
    if states[k - 1].probing {
      o := Unsampled(states, counts, k - 1);
    } else {
      o := k - 1;
    }
  }

  /** The samples that decide a probe at the end of window k. The one before comes from the window that opened it, the
      one after from window k, both at the base. What passes for the probe's own sample is the first count since then
      that is not zero; it was measured at lcProbe if and only if the window right after the opening was not empty. */
  lemma {:induction false} ProbeSample(states: seq<Tpb>, counts: seq<real>, k: nat) returns (o: nat)
    requires Run(states, counts) && k < |counts| && states[k].probing && states[k].probeTps != 0.0
    ensures o + 1 < k && OpenSince(states, counts, o, k) && states[k].lcActive == states[k].lcBase
    ensures states[k].probeTps == counts[k - 1] > 0.0 && forall j :: o < j < k - 1 ==> counts[j] == 0.0
    ensures states[k - 1].lcActive == states[k].lcProbe <==> counts[o + 1] > 0.0
    ensures counts[o + 1] > 0.0 <==> k == o + 2
  {
    hide Accepts;
    RunInv(states, counts, k);
    assert k > 0 && states[k - 1 + 1] == AfterWindow(states[k - 1], counts[k - 1]);
    assert states[k - 1].probing && states[k - 1].probeTps == 0.0;
    o := Unsampled(states, counts, k - 1);
  }

  /** What never changes in a run. */
  lemma {:induction false} RunConstants(states: seq<Tpb>, counts: seq<real>, i: nat)
    requires Run(states, counts) && i < |states|
    ensures states[i].windowIdx == i && states[i].probeEvery == states[0].probeEvery >= 2
    ensures states[i].phaseTol == states[0].phaseTol > 0.0
    decreases i
  {
    hide Accepts;
    if i > 0 {
      RunConstants(states, counts, i - 1);
      assert states[i - 1 + 1] == AfterWindow(states[i - 1], counts[i - 1]);
    }
  }

  /** A count beats the average of two others by more than half a percent. */
  predicate Beats(probe: real, pre: real, post: real) { probe > 1.005 * ((pre + post) / 2.0) }

  /** Two counts of the base differ by less than tol of the first one. */
  predicate Agree(pre: real, post: real, tol: real) { pre > 0.0 && -tol * pre < post - pre < tol * pre }

  lemma {:induction false} AcceptsIs(s: Tpb, post: real)
    requires s.phaseTol > 0.0
    ensures Accepts(s, post) <==> Agree(s.basePre, post, s.phaseTol) && Beats(s.probeTps, s.basePre, post)
  {
    if s.basePre > 0.0 { Ratio(Abs(s.basePre - post), s.basePre, s.phaseTol); }
  }

  lemma {:induction false} Ratio(a: real, b: real, c: real)
    requires b > 0.0
    ensures a / b < c <==> a < c * b
  {
    var q := a / b;
    assert q * b == a;
    if q < c { assert (c - q) * b > 0.0; } else { assert (q - c) * b >= 0.0; }
  }

  /** Every decision, by the counts: the base moves to the probed neighbour if and only if the counts before and after
      the probe agree and the sample in between beats their average. */
  lemma {:induction false} Decision(states: seq<Tpb>, counts: seq<real>, k: nat) returns (o: nat)
    requires Run(states, counts) && k < |counts| && states[k].probing && states[k].probeTps != 0.0
    ensures OpenSince(states, counts, o, k) && o + 1 < k && !states[k + 1].probing
    ensures var moves := Agree(counts[o], counts[k], states[0].phaseTol) && Beats(counts[k - 1], counts[o], counts[k]);
      states[k + 1].lcBase == if moves then states[k].lcProbe else states[o].lcBase
  {
    o := ProbeSample(states, counts, k);
    RunConstants(states, counts, k);
    assert states[k + 1] == AfterWindow(states[k], counts[k]);
    AcceptsIs(states[k], counts[k]);
    hide Accepts;
  }

  /** No other window moves the base, and outside of probes every window whose number is a multiple of probeEvery opens
      one. */
  lemma {:induction false} BetweenDecisions(states: seq<Tpb>, counts: seq<real>, k: nat)
    requires Run(states, counts) && k < |counts| && !(states[k].probing && states[k].probeTps != 0.0)
    ensures states[k + 1].lcBase == states[k].lcBase
    ensures states[k + 1].probing <==> states[k].probing || (k + 1) % states[0].probeEvery == 0
  {
    hide Accepts;
    RunConstants(states, counts, k);
    assert states[k + 1] == AfterWindow(states[k], counts[k]);
  }

  /** The only neighbour of the start that is ever probed. */
  function Neighbour(start: int): int { if start > MIN_LOG then start - 1 else start + 1 }

  function Other(start: int, lc: int): int { if lc == start then Neighbour(start) else start }

  /** The base is the start or its neighbour, and the next probe is at the other one of the two. */
  predicate Pair(s: Tpb, start: int) {
    && (s.lcBase == start || s.lcBase == Neighbour(start))
    && s.lcBase + ProbeDir(s) == Other(start, s.lcBase)
    && (s.probing ==> s.lcProbe == Other(start, s.lcBase))
  }

  lemma {:induction false} PairStep(s: Tpb, start: int, tps: real)
    requires Inv(s) && Pair(s, start) && MIN_LOG <= start <= MAX_LOG
    ensures Pair(AfterWindow(s, tps), start)
  {
    hide Accepts;
  }

  /** In every run, whatever is counted, two chances are all there is: the start, and the one neighbour that is probed
      first. A rejected probe is repeated, and after an adoption the next probes go back. */
  lemma {:induction false} TwoChances(states: seq<Tpb>, counts: seq<real>, i: nat)
    requires Run(states, counts) && i < |states|
    ensures Pair(states[i], states[0].lcBase) && MIN_LOG <= states[0].lcBase <= MAX_LOG
    ensures states[i].lcActive == states[0].lcBase || states[i].lcActive == Neighbour(states[0].lcBase)
    decreases i
  {
    hide Accepts;
    RunInv(states, counts, i);
    RunInv(states, counts, 0);
    if i > 0 {
      TwoChances(states, counts, i - 1);
      RunInv(states, counts, i - 1);
      PairStep(states[i - 1], states[0].lcBase, counts[i - 1]);
      assert states[i - 1 + 1] == AfterWindow(states[i - 1], counts[i - 1]);
    }
  }

  /** With positive counts, the three samples of every decision are those of the windows k - 2, k - 1 and k, which
      ran at the base, at a neighbour of the base, and at the base again. */
  lemma {:induction false} DecisionSamples(states: seq<Tpb>, counts: seq<real>, k: nat)
    requires Run(states, counts) && Positive(counts) && k < |counts| && states[k].probing && states[k].probeTps != 0.0
    ensures k >= 2 && states[k].basePre == counts[k - 2] && states[k].probeTps == counts[k - 1]
    ensures states[k - 2].lcActive == states[k - 2].lcBase == states[k].lcBase
    ensures states[k - 1].lcActive == states[k].lcProbe
    ensures (states[k].lcProbe == states[k].lcBase + 1 || states[k].lcProbe == states[k].lcBase - 1)
    ensures states[k].lcActive == states[k].lcBase
  {
    RunInv(states, counts, k);
    var o := ProbeSample(states, counts, k);
  }

  /** The states of a run from s on. */
  function Trace(s: Tpb, counts: seq<real>): (states: seq<Tpb>)
    ensures |states| == |counts| + 1 && states[0] == s
    ensures forall i :: 0 <= i < |counts| ==> states[i + 1] == AfterWindow(states[i], counts[i])
    decreases |counts|
  {
    if counts == [] then [s]
    else
      var rest := Trace(AfterWindow(s, counts[0]), counts[1..]);
      assert forall i :: 0 < i < |counts| ==>
          counts[i] == counts[1..][i - 1] && rest[i] == AfterWindow(rest[i - 1], counts[1..][i - 1]);
      [s] + rest
  }

  /** A run that adopts a chance nobody has measured: after an empty probe window, the next window, which ran at the
      base, passes for the probe. */
  lemma {:induction false} EmptyWindowMisleads(start: int)
    requires MIN_LOG < start <= MAX_LOG
    ensures var counts := [100.0, 100.0, 0.0, 101.0, 100.0]; var states := Trace(Init(start, 2, 0.15), counts);
      && Run(states, counts) && states[5].lcBase == start - 1
      && forall i :: 0 <= i < 5 && counts[i] > 0.0 ==> states[i].lcActive == start
  {
    var counts := [100.0, 100.0, 0.0, 101.0, 100.0];
    var states := Trace(Init(start, 2, 0.15), counts);
    assert states[0 + 1] == AfterWindow(states[0], counts[0]);
    assert states[1 + 1] == AfterWindow(states[1], counts[1]);
    assert states[2 + 1] == AfterWindow(states[2], counts[2]);
    assert states[3 + 1] == AfterWindow(states[3], counts[3]);
    assert states[4 + 1] == AfterWindow(states[4], counts[4]);
  }

  // ---------------------------------------------------------------------- stationary throughput

  /** Every chance has its fixed throughput. */
  ghost predicate Stationary(states: seq<Tpb>, counts: seq<real>, t: int -> real) {
    Run(states, counts) && Positive(counts) && forall i :: 0 <= i < |counts| ==> counts[i] == t(states[i].lcActive)
  }

  /** Samples that are pending are those of the base and of the probe. */
  predicate Sampled(s: Tpb, t: int -> real) {
    s.probing ==>
      s.basePre == t(s.lcBase) && if s.probeTps == 0.0 then s.lcActive == s.lcProbe else s.probeTps == t(s.lcProbe)
  }

  lemma {:induction false} StationaryStep(s: Tpb, t: int -> real)
    requires Inv(s) && Sampled(s, t) && t(s.lcActive) > 0.0
    ensures Sampled(AfterWindow(s, t(s.lcActive)), t)
  {
    hide Accepts;
  }

  lemma {:induction false} StationarySamples(states: seq<Tpb>, counts: seq<real>, t: int -> real, i: nat)
    requires Stationary(states, counts, t) && i < |states|
    ensures Inv(states[i]) && Sampled(states[i], t) && states[i].phaseTol > 0.0
    decreases i
  {
    RunInv(states, counts, i);
    if i > 0 {
      StationarySamples(states, counts, t, i - 1);
      RunInv(states, counts, i - 1);
      assert states[i - 1 + 1] == AfterWindow(states[i - 1], counts[i - 1]);
      StationaryStep(states[i - 1], t);
    }
  }

  /** With pending samples of a stationary throughput, the neighbour is adopted if and only if it is faster by more
      than the margin. */
  lemma {:induction false} AcceptsFaster(s: Tpb, t: int -> real)
    requires Sampled(s, t) && s.probing && s.probeTps != 0.0 && t(s.lcBase) > 0.0 && s.phaseTol > 0.0
    ensures Accepts(s, t(s.lcBase)) <==> t(s.lcProbe) > t(s.lcBase) * (1.0 + ACCEPT_EPS)
  {
    assert s.basePre - t(s.lcBase) == 0.0;
    assert 0.0 / s.basePre == 0.0;
  }

  /** The base's throughput never falls, and each adoption gains more than the margin. */
  lemma {:induction false} NeverWorse(states: seq<Tpb>, counts: seq<real>, t: int -> real, i: nat)
    requires Stationary(states, counts, t) && i < |counts|
    ensures t(states[i + 1].lcBase) >= t(states[i].lcBase)
    ensures states[i + 1].lcBase != states[i].lcBase ==>
              t(states[i + 1].lcBase) > t(states[i].lcBase) * (1.0 + ACCEPT_EPS)
  {
    StationarySamples(states, counts, t, i);
    var s := states[i];
    if s.probing && s.probeTps != 0.0 {
      assert counts[i] == t(s.lcBase) > 0.0;
      AcceptsFaster(s, t);
    }
    hide Accepts;
  }

  // ---------------------------------------------------------------------- where the search ends

  predicate Faster(t: int -> real, lc: int, base: int) { t(lc) > t(base) * (1.0 + ACCEPT_EPS) }

  function Outcome(start: int, t: int -> real): int {
    if Faster(t, Neighbour(start), start) then Neighbour(start) else start
  }

  /** Nothing faster will be probed any more: after an adoption the next probes go back to where it came from, and
      after a rejection they stay with the rejected neighbour. */
  predicate Settled(s: Tpb, start: int, t: int -> real) {
    && s.lcBase == Outcome(start, t)
    && !Faster(t, s.lcBase + ProbeDir(s), s.lcBase)
    && (s.probing ==> !Faster(t, s.lcProbe, s.lcBase))
  }

  /** The first probe, from the window that opens it to the one that decides it. */
  predicate Stage(s: Tpb, start: int, t: int -> real) {
    && s.probeEvery >= 2
    && (s.windowIdx < s.probeEvery ==> !s.probing && s.lcBase == start && s.lastDir == -1)
    && (s.windowIdx == s.probeEvery || s.windowIdx == s.probeEvery + 1 ==>
          && s.probing && s.lcBase == start && s.lcProbe == Neighbour(start) == start + s.lastDir
          && (s.probeTps == 0.0 <==> s.windowIdx == s.probeEvery))
    && (s.windowIdx >= s.probeEvery + 2 ==> Settled(s, start, t))
  }

  lemma {:induction false} FirstDecision(s: Tpb, start: int, t: int -> real)
    requires Inv(s) && Sampled(s, t) && s.phaseTol > 0.0 && t(s.lcActive) > 0.0 && MIN_LOG <= start <= MAX_LOG
    requires Stage(s, start, t) && s.windowIdx == s.probeEvery + 1 && s.probeTps > 0.0
    ensures Settled(AfterWindow(s, t(s.lcActive)), start, t)
  {
    AcceptsFaster(s, t);
    var r := AfterWindow(s, t(s.lcActive));
    hide Accepts;
    if Faster(t, Neighbour(start), start) {
      assert r.lcBase == Neighbour(start) && r.lcBase + ProbeDir(r) == start;
    } else {
      assert r.lcBase == start && r.lcBase + ProbeDir(r) == Neighbour(start);
    }
  }

  lemma {:induction false} SettledStays(s: Tpb, start: int, t: int -> real)
    requires Inv(s) && Sampled(s, t) && s.phaseTol > 0.0 && t(s.lcActive) > 0.0 && Settled(s, start, t)
    ensures Settled(AfterWindow(s, t(s.lcActive)), start, t)
  {
    if s.probing && s.probeTps != 0.0 { AcceptsFaster(s, t); }
    hide Accepts;
  }

  lemma {:induction false} StageStep(s: Tpb, start: int, t: int -> real)
    requires Inv(s) && Sampled(s, t) && s.phaseTol > 0.0 && t(s.lcActive) > 0.0 && MIN_LOG <= start <= MAX_LOG
    requires Stage(s, start, t) && (s.probeTps != 0.0 ==> s.probeTps > 0.0)
    ensures Stage(AfterWindow(s, t(s.lcActive)), start, t)
  {
    hide Accepts, Faster;
    if s.windowIdx >= s.probeEvery + 2 {
      SettledStays(s, start, t);
    } else if s.windowIdx == s.probeEvery + 1 {
      FirstDecision(s, start, t);
    }
  }

  /** Pending samples are positive. */
  lemma {:induction false} PendingPositive(states: seq<Tpb>, counts: seq<real>, i: nat)
    requires Run(states, counts) && i < |states|
    ensures states[i].probeTps == 0.0 || states[i].probeTps > 0.0
    ensures states[i].windowIdx == i && states[i].probeEvery == states[0].probeEvery
    decreases i
  {
    hide Accepts;
    if i > 0 {
      PendingPositive(states, counts, i - 1);
      assert states[i - 1 + 1] == AfterWindow(states[i - 1], counts[i - 1]);
    }
  }

  lemma {:induction false} RunStage(states: seq<Tpb>, counts: seq<real>, t: int -> real, i: nat)
    requires Stationary(states, counts, t) && i < |states|
    ensures Stage(states[i], states[0].lcBase, t)
    decreases i
  {
    if i > 0 {
      RunStage(states, counts, t, i - 1);
      StationarySamples(states, counts, t, i - 1);
      StationarySamples(states, counts, t, 0);
      PendingPositive(states, counts, i - 1);
      assert states[i - 1 + 1] == AfterWindow(states[i - 1], counts[i - 1]);
      hide Run;
      StageStep(states[i - 1], states[0].lcBase, t);
    }
  }

  /** Under a stationary throughput the first probe decides everything: until it ends the base is the start, and from
      then on it is the start or its one probed neighbour, whichever that probe preferred. At most one adoption ever
      happens, and no other chance is ever adopted, however good. */
  lemma {:induction false} OneAdoption(states: seq<Tpb>, counts: seq<real>, t: int -> real, i: nat)
    requires Stationary(states, counts, t) && i < |states|
    ensures states[i].lcBase == if i < states[0].probeEvery + 2 then states[0].lcBase else Outcome(states[0].lcBase, t)
  {
    RunStage(states, counts, t, i);
    PendingPositive(states, counts, i);
    hide Run, Outcome;
  }
}
