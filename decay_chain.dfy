/**
 * The decay-chain resolver of analysis/analyse.py: given one event's flat
 * generator record, find the two status-62 top quarks, split each into a b
 * quark and a W boson, walk past the radiation copies of every particle and
 * return the six partons [b_m, q0, q1, b_p, q2, q3].
 *
 * A particle is named by its index in the event's record; the record itself
 * is a sequence of `Particle` values that nothing changes.
 */
module DecayChain {
  import opened Results

  /** A generator-level particle: PID code, status code and the inclusive daughter range D1..D2. */
  datatype Particle = Particle(pid: int, status: int, d1: int, d2: int)

  /** The exceptions `find_partons` can raise, with the record indices involved. */
  datatype ResolveError =
    | NotTwoTops(found: nat)                    // unpacking the status-62 tops into `t_p, t_m`
    | NotTwoDaughters(parent: nat, found: nat)  // unpacking a top's or a W's daughters into a pair
    | PidMismatch(parent: nat, daughter: nat)   // the `RuntimeError` of `get_last`

  const TopPid: int := 6
  const BottomPid: int := 5
  const TopDecayStatus: int := 62
  const HardOutgoingStatus: int := 23

  function Abs(x: int): nat {
    if x < 0 then -x else x
  }

  /** Python's normalisation of one bound of a slice of a list of length n (negative counts from the end, then clamped). */
  function SliceBound(x: int, n: nat): (r: nat)
    ensures r <= n
  {
    if x < 0 then (if x + n < 0 then 0 else x + n)
    else if x > n then n
    else x
  }

  /**
   * `get_daughters`: the indices selected by `particle_array[D1 : D2 + 1]`,
   * with the slice's negative-index and clamping rules.
   */
  function Daughters(ps: seq<Particle>, i: nat): (ds: seq<nat>)
    requires i < |ps|
    ensures forall m :: 0 <= m < |ds| ==> ds[m] < |ps| && ds[m] == ds[0] + m
    ensures 0 <= ps[i].d1 && -1 <= ps[i].d2 < |ps| ==>
      |ds| == (if ps[i].d1 <= ps[i].d2 then ps[i].d2 - ps[i].d1 + 1 else 0) &&
      forall m :: 0 <= m < |ds| ==> ds[m] == ps[i].d1 + m
    ensures ps[i].d1 == -1 && ps[i].d2 == -1 ==> ds == []
  {
    var lo := SliceBound(ps[i].d1, |ps|);
    var hi := SliceBound(ps[i].d2 + 1, |ps|);
    if lo < hi then seq(hi - lo, m requires 0 <= m < hi - lo => (lo + m) as nat) else []
  }

  /** Every daughter of i that keeps i's PID sits after i in the record. */
  ghost predicate StepsForward(ps: seq<Particle>, i: nat)
    requires i < |ps|
  {
    var ds := Daughters(ps, i);
    forall m :: 0 <= m < |ds| && ps[ds[m]].pid == ps[i].pid ==> i < ds[m]
  }

  /**
   * What the walk of `get_last` needs to end: a daughter that keeps its
   * mother's PID sits after its mother in the record.
   */
  ghost predicate RadiationForward(ps: seq<Particle>) {
    forall i :: 0 <= i < |ps| ==> StepsForward(ps, i)
  }

  /** The default `condition_fn` of `get_last`. */
  function Always(p: Particle): bool {
    true
  }

  /** The `condition_fn` used for b quarks and light quarks: not yet the hard process's outgoing copy. */
  function NotHardOutgoing(p: Particle): bool {
    p.status != HardOutgoingStatus
  }

  /** The walk of `get_last` has nothing more to do at j: the condition fails, or no same-PID daughter can be taken. */
  predicate Settled(ps: seq<Particle>, j: nat, cond: Particle -> bool)
    requires j < |ps|
  {
    var ds := Daughters(ps, j);
    || !cond(ps[j])
    || (|ds| == 2 && ps[ds[0]].pid != ps[j].pid && ps[ds[1]].pid != ps[j].pid)
    || (|ds| != 1 && |ds| != 2)
  }

  /**
   * The particle `get_last` returns from i: while the condition holds, step to
   * the single daughter (an error if its PID differs) or to the first of two
   * daughters with the same PID; stop otherwise.
   */
  function LastOf(ps: seq<Particle>, i: nat, cond: Particle -> bool): (r: Result<nat, ResolveError>)
    requires i < |ps| && RadiationForward(ps)
    ensures r.Ok? ==> i <= r.value < |ps| && ps[r.value].pid == ps[i].pid && Settled(ps, r.value, cond)
    ensures r.Err? ==>
      r.error.PidMismatch? && i <= r.error.parent < |ps| && r.error.daughter < |ps| &&
      cond(ps[r.error.parent]) && ps[r.error.parent].pid == ps[i].pid &&
      Daughters(ps, r.error.parent) == [r.error.daughter] &&
      ps[r.error.daughter].pid != ps[i].pid
    decreases |ps| - i
  {
    if !cond(ps[i]) then Ok(i)
    else
      var ds := Daughters(ps, i);
      assert StepsForward(ps, i);
      if |ds| == 1 then
        if ps[i].pid == ps[ds[0]].pid then LastOf(ps, ds[0], cond) else Err(PidMismatch(i, ds[0]))
      else if |ds| == 2 then
        if ps[i].pid == ps[ds[0]].pid then LastOf(ps, ds[0], cond)
        else if ps[i].pid == ps[ds[1]].pid then LastOf(ps, ds[1], cond)
        else Ok(i)
      else Ok(i)
  }

  /** `get_last`, as the loop the source runs. */
  method GetLast(ps: seq<Particle>, i: nat, cond: Particle -> bool) returns (r: Result<nat, ResolveError>)
    requires i < |ps| && RadiationForward(ps)
    ensures r == LastOf(ps, i, cond)
  {
    var last := i;
    while cond(ps[last])
      invariant last < |ps|
      invariant LastOf(ps, last, cond) == LastOf(ps, i, cond)
      decreases |ps| - last
    {
      var ds := Daughters(ps, last);
      assert StepsForward(ps, last);
      if |ds| == 1 {
        if ps[last].pid == ps[ds[0]].pid {
          last := ds[0];
        } else {
          return Err(PidMismatch(last, ds[0]));
        }
      } else if |ds| == 2 {
        if ps[last].pid == ps[ds[0]].pid {
          last := ds[0];
        } else if ps[last].pid == ps[ds[1]].pid {
          last := ds[1];
        } else {
          break;
        }
      } else {
        break;
      }
    }
    return Ok(last);
  }

  /** A path down the decay graph: each entry is a daughter of the one before. */
  ghost predicate Lineage(ps: seq<Particle>, path: seq<nat>) {
    && |path| > 0
    && (forall k :: 0 <= k < |path| ==> path[k] < |ps|)
    && (forall k :: 0 <= k < |path| - 1 ==> path[k + 1] in Daughters(ps, path[k]))
  }

  /** d is a (not necessarily proper) descendant of a. */
  ghost predicate Descends(ps: seq<Particle>, a: nat, d: nat) {
    exists path :: Lineage(ps, path) && path[0] == a && path[|path| - 1] == d
  }

  /**
   * The walk of `get_last` follows daughter links through particles of one
   * PID, and the condition held at every particle it left.
   */
  lemma {:induction false} LastOfLineage(ps: seq<Particle>, i: nat, cond: Particle -> bool) returns (path: seq<nat>)
    requires i < |ps| && RadiationForward(ps)
    requires LastOf(ps, i, cond).Ok?
    ensures Lineage(ps, path) && path[0] == i && path[|path| - 1] == LastOf(ps, i, cond).value
    ensures forall k :: 0 <= k < |path| ==> ps[path[k]].pid == ps[i].pid
    ensures forall k :: 0 <= k < |path| - 1 ==> cond(ps[path[k]])
    decreases |ps| - i
  {
    var ds := Daughters(ps, i);
    assert StepsForward(ps, i);
    var next: nat;
    if !cond(ps[i]) {
      return [i];
    } else if |ds| == 1 || (|ds| == 2 && ps[i].pid == ps[ds[0]].pid) {
      next := ds[0];
    } else if |ds| == 2 && ps[i].pid == ps[ds[1]].pid {
      next := ds[1];
    } else {
      return [i];
    }
    var rest := LastOfLineage(ps, next, cond);
    path := [i] + rest;
    assert path[1..] == rest;
  }

  /** Joining a path to d with a path from d gives a path. */
  lemma LineageJoin(ps: seq<Particle>, front: seq<nat>, back: seq<nat>)
    requires Lineage(ps, front) && Lineage(ps, back) && front[|front| - 1] == back[0]
    ensures Lineage(ps, front + back[1..])
    ensures (front + back[1..])[0] == front[0]
    ensures (front + back[1..])[|front + back[1..]| - 1] == back[|back| - 1]
  {
    var p := front + back[1..];
    forall k | 0 <= k < |p| - 1
      ensures p[k + 1] in Daughters(ps, p[k])
    {
      if k < |front| - 1 {
      } else {
        assert p[k] == back[k - |front| + 1] && p[k + 1] == back[k - |front| + 2];
      }
    }
  }

  /** One of the tops the source selects: `abs(PID) == 6 and Status == 62`. */
  predicate IsDecayingTop(p: Particle) {
    Abs(p.pid) == TopPid && p.status == TopDecayStatus
  }

  /** The indices `event.Particle[top_mask]` keeps. */
  function TopCandidates(ps: seq<Particle>): (ts: seq<nat>)
    ensures forall k :: 0 <= k < |ts| ==> ts[k] < |ps| && IsDecayingTop(ps[ts[k]])
    ensures forall i :: 0 <= i < |ps| && IsDecayingTop(ps[i]) ==> i in ts
    ensures forall a, b :: 0 <= a < b < |ts| ==> ts[a] < ts[b]
  {
    if ps == [] then []
    else
      var front := TopCandidates(ps[..|ps| - 1]);
      if IsDecayingTop(ps[|ps| - 1]) then front + [|ps| - 1] else front
  }

  /**
   * `t_p, t_m = event.Particle[top_mask]` followed by the swap when the
   * first one is the antitop.
   */
  function SelectTops(ps: seq<Particle>): (r: Result<(nat, nat), ResolveError>)
    ensures r.Err? <==> |TopCandidates(ps)| != 2
    ensures r.Err? ==> r.error == NotTwoTops(|TopCandidates(ps)|)
    ensures r.Ok? ==>
      var (tp, tm) := r.value;
      && tp < |ps| && tm < |ps| && tp != tm
      && IsDecayingTop(ps[tp]) && IsDecayingTop(ps[tm])
      && (forall i :: 0 <= i < |ps| && IsDecayingTop(ps[i]) ==> i == tp || i == tm)
      && (ps[tp].pid != ps[tm].pid ==> ps[tp].pid == TopPid && ps[tm].pid == -TopPid)
      && (ps[tp].pid == ps[tm].pid ==> (tp < tm <==> ps[tp].pid == TopPid))
  {
    var ts := TopCandidates(ps);
    if |ts| != 2 then Err(NotTwoTops(|ts|))
    else if ps[ts[0]].pid == -TopPid then Ok((ts[1], ts[0]))
    else Ok((ts[0], ts[1]))
  }

  /** Unpacking a particle's daughters into a pair. */
  function DaughterPair(ps: seq<Particle>, i: nat): (r: Result<(nat, nat), ResolveError>)
    requires i < |ps|
    ensures r.Err? <==> |Daughters(ps, i)| != 2
    ensures r.Err? ==> r.error == NotTwoDaughters(i, |Daughters(ps, i)|)
    ensures r.Ok? ==> [r.value.0, r.value.1] == Daughters(ps, i)
  {
    var ds := Daughters(ps, i);
    if |ds| == 2 then Ok((ds[0], ds[1])) else Err(NotTwoDaughters(i, |ds|))
  }

  /** `get_top_daughters`: the top's two daughters as (b, W); the first daughter is the b if its |PID| is 5. */
  function GetTopDaughters(ps: seq<Particle>, t: nat): (r: Result<(nat, nat), ResolveError>)
    requires t < |ps|
    ensures r.Err? <==> |Daughters(ps, t)| != 2
    ensures r.Err? ==> r.error == NotTwoDaughters(t, |Daughters(ps, t)|)
    ensures r.Ok? ==>
      var (b, w) := r.value;
      var ds := Daughters(ps, t);
      && multiset{b, w} == multiset(ds) && b != w
      && (Abs(ps[ds[0]].pid) == BottomPid ==> b == ds[0] && w == ds[1])
      && (Abs(ps[ds[0]].pid) != BottomPid ==> b == ds[1] && w == ds[0])
      && (Abs(ps[ds[0]].pid) == BottomPid || Abs(ps[ds[1]].pid) == BottomPid ==> Abs(ps[b].pid) == BottomPid)
  {
    var pair :- DaughterPair(ps, t);
    if Abs(ps[pair.0].pid) == BottomPid then Ok(pair) else Ok((pair.1, pair.0))
  }

  /**
   * The first half of `find_partons`: the two tops, then `get_top_daughters`
   * of `t_p` and of `t_m`, as (b_m, W+, b_p, W-) before any walk.
   */
  function TopDecays(ps: seq<Particle>): (r: Result<(nat, nat, nat, nat), ResolveError>)
    ensures r.Ok? ==> r.value.0 < |ps| && r.value.1 < |ps| && r.value.2 < |ps| && r.value.3 < |ps|
  {
    var tops :- SelectTops(ps);
    var plus :- GetTopDaughters(ps, tops.0);
    var minus :- GetTopDaughters(ps, tops.1);
    Ok((plus.0, plus.1, minus.0, minus.1))
  }

  /** `get_daughters(get_last(w, ...), ...)` unpacked into the W's two quarks. */
  function WDecay(ps: seq<Particle>, w: nat): (r: Result<(nat, nat), ResolveError>)
    requires w < |ps| && RadiationForward(ps)
    ensures r.Ok? ==> r.value.0 < |ps| && r.value.1 < |ps|
  {
    var last :- LastOf(ps, w, Always);
    DaughterPair(ps, last)
  }

  /** The six resolved partons, by record index, in the order `find_partons` lists them. */
  datatype Partons = Partons(bm: nat, q0: nat, q1: nat, bp: nat, q2: nat, q3: nat) {
    predicate Within(n: nat) {
      bm < n && q0 < n && q1 < n && bp < n && q2 < n && q3 < n
    }
  }

  /** Lines 82-85 of `find_partons`: the walks of b_m and then b_p with `Status != 23`. */
  function WalkBottoms(ps: seq<Particle>, bm: nat, bp: nat): (r: Result<(nat, nat), ResolveError>)
    requires bm < |ps| && bp < |ps| && RadiationForward(ps)
    ensures r.Ok? ==> r.value.0 < |ps| && r.value.1 < |ps|
  {
    var bm' :- LastOf(ps, bm, NotHardOutgoing);
    var bp' :- LastOf(ps, bp, NotHardOutgoing);
    Ok((bm', bp'))
  }

  /** Lines 89-90: the decays of W+ and then W-, each into its two quarks. */
  function WDecays(ps: seq<Particle>, wp: nat, wm: nat): (r: Result<((nat, nat), (nat, nat)), ResolveError>)
    requires wp < |ps| && wm < |ps| && RadiationForward(ps)
    ensures r.Ok? ==> r.value.0.0 < |ps| && r.value.0.1 < |ps| && r.value.1.0 < |ps| && r.value.1.1 < |ps|
  {
    var q01 :- WDecay(ps, wp);
    var q23 :- WDecay(ps, wm);
    Ok((q01, q23))
  }

  /** Lines 92-94: the walks of q0, q1, q2 and q3 in that order, with `Status != 23`. */
  function WalkQuarks(ps: seq<Particle>, q01: (nat, nat), q23: (nat, nat)): (r: Result<(nat, nat, nat, nat), ResolveError>)
    requires q01.0 < |ps| && q01.1 < |ps| && q23.0 < |ps| && q23.1 < |ps| && RadiationForward(ps)
    ensures r.Ok? ==> r.value.0 < |ps| && r.value.1 < |ps| && r.value.2 < |ps| && r.value.3 < |ps|
  {
    var q0 :- LastOf(ps, q01.0, NotHardOutgoing);
    var q1 :- LastOf(ps, q01.1, NotHardOutgoing);
    var q2 :- LastOf(ps, q23.0, NotHardOutgoing);
    var q3 :- LastOf(ps, q23.1, NotHardOutgoing);
    Ok((q0, q1, q2, q3))
  }

  /**
   * `find_partons`: the six resolved partons [b_m, q0, q1, b_p, q2, q3], the
   * first three from `t_p` and the last three from `t_m`; the b quarks and
   * the light quarks are walked with `NotHardOutgoing`, the W bosons with
   * `Always`. Errors surface in the order the source evaluates.
   */
  function FindPartons(ps: seq<Particle>): (r: Result<Partons, ResolveError>)
    requires RadiationForward(ps)
    ensures r.Ok? ==> r.value.Within(|ps|)
  {
    var d :- TopDecays(ps);
    var b :- WalkBottoms(ps, d.0, d.2);
    var w :- WDecays(ps, d.1, d.3);
    var q :- WalkQuarks(ps, w.0, w.1);
    Ok(Partons(b.0, q.0, q.1, b.1, q.2, q.3))
  }

  /** `find_partons` fails at its first unpacking unless exactly two particles are status-62 tops. */
  lemma FindPartonsNeedsTwoTops(ps: seq<Particle>)
    requires RadiationForward(ps) && |TopCandidates(ps)| != 2
    ensures FindPartons(ps) == Err(NotTwoTops(|TopCandidates(ps)|))
  {
  }

  /** A daughter descends from its mother. */
  lemma ChildDescends(ps: seq<Particle>, a: nat, d: nat)
    requires a < |ps| && d in Daughters(ps, a)
    ensures Descends(ps, a, d)
  {
    assert Lineage(ps, [a, d]);
  }

  /** Descent is transitive. */
  lemma DescendsTrans(ps: seq<Particle>, a: nat, m: nat, d: nat)
    requires Descends(ps, a, m) && Descends(ps, m, d)
    ensures Descends(ps, a, d)
  {
    var front :| Lineage(ps, front) && front[0] == a && front[|front| - 1] == m;
    var back :| Lineage(ps, back) && back[0] == m && back[|back| - 1] == d;
    LineageJoin(ps, front, back);
  }

  /**
   * The stopping rules of `get_last`: it returns its start unchanged exactly
   * when the condition fails there, or there are two daughters and neither
   * keeps the PID, or the number of daughters is neither 1 nor 2.
   */
  lemma LastOfStaysIff(ps: seq<Particle>, i: nat, cond: Particle -> bool)
    requires i < |ps| && RadiationForward(ps)
    ensures LastOf(ps, i, cond) == Ok(i) <==> Settled(ps, i, cond)
  {
    assert StepsForward(ps, i);
  }

  /** With two daughters that both keep the PID, the walk continues from the first. */
  lemma LastOfPrefersFirst(ps: seq<Particle>, i: nat, cond: Particle -> bool)
    requires i < |ps| && RadiationForward(ps) && cond(ps[i])
    requires |Daughters(ps, i)| == 2
    requires ps[Daughters(ps, i)[0]].pid == ps[i].pid && ps[Daughters(ps, i)[1]].pid == ps[i].pid
    ensures LastOf(ps, i, cond) == LastOf(ps, Daughters(ps, i)[0], cond)
  {
  }

  /** The particle `get_last` returns descends from the one it started from. */
  lemma LastOfDescends(ps: seq<Particle>, i: nat, cond: Particle -> bool)
    requires i < |ps| && RadiationForward(ps) && LastOf(ps, i, cond).Ok?
    ensures Descends(ps, i, LastOf(ps, i, cond).value)
  {
    var path := LastOfLineage(ps, i, cond);
  }

  /** Some daughter of t is a b quark. */
  predicate HasBottomDaughter(ps: seq<Particle>, t: nat)
    requires t < |ps|
  {
    exists k :: k in Daughters(ps, t) && Abs(ps[k].pid) == BottomPid
  }

  /**
   * What `find_partons` promises on success: b_m, q0 and q1 descend from
   * `t_p` and b_p, q2 and q3 from `t_m`; each b is a b quark whenever its top
   * has one among its daughters; every resolved parton is where the walk
   * with `Status != 23` stops.
   */
  lemma {:induction false} FindPartonsLineage(ps: seq<Particle>)
    requires RadiationForward(ps) && FindPartons(ps).Ok?
    ensures SelectTops(ps).Ok?
    ensures
      var r := FindPartons(ps).value;
      var (tp, tm) := SelectTops(ps).value;
      && Descends(ps, tp, r.bm) && Descends(ps, tp, r.q0) && Descends(ps, tp, r.q1)
      && Descends(ps, tm, r.bp) && Descends(ps, tm, r.q2) && Descends(ps, tm, r.q3)
    ensures
      var r := FindPartons(ps).value;
      var (tp, tm) := SelectTops(ps).value;
      && (HasBottomDaughter(ps, tp) ==> Abs(ps[r.bm].pid) == BottomPid)
      && (HasBottomDaughter(ps, tm) ==> Abs(ps[r.bp].pid) == BottomPid)
    ensures
      var r := FindPartons(ps).value;
      && Settled(ps, r.bm, NotHardOutgoing) && Settled(ps, r.q0, NotHardOutgoing)
      && Settled(ps, r.q1, NotHardOutgoing) && Settled(ps, r.bp, NotHardOutgoing)
      && Settled(ps, r.q2, NotHardOutgoing) && Settled(ps, r.q3, NotHardOutgoing)
  {
    var r := FindPartons(ps).value;
    var d, b, w, q := FindPartonsStages(ps);
    var tops, plus, minus := TopDecaysSteps(ps);
    WalkBottomsSteps(ps, d.0, d.2);
    WalkQuarksSteps(ps, w.0, w.1);
    WDecaysSteps(ps, d.1, d.3);
    TopHalf(ps, tops.0, plus, r.bm);
    TopHalf(ps, tops.1, minus, r.bp);
    WHalf(ps, tops.0, plus.1, w.0, r.q0, r.q1);
    WHalf(ps, tops.1, minus.1, w.1, r.q2, r.q3);
  }

  /** The results of the four stages of a successful `find_partons`. */
  lemma FindPartonsStages(ps: seq<Particle>)
    returns (d: (nat, nat, nat, nat), b: (nat, nat), w: ((nat, nat), (nat, nat)), q: (nat, nat, nat, nat))
    requires RadiationForward(ps) && FindPartons(ps).Ok?
    ensures TopDecays(ps) == Ok(d) && d.0 < |ps| && d.1 < |ps| && d.2 < |ps| && d.3 < |ps|
    ensures WalkBottoms(ps, d.0, d.2) == Ok(b)
    ensures WDecays(ps, d.1, d.3) == Ok(w) && w.0.0 < |ps| && w.0.1 < |ps| && w.1.0 < |ps| && w.1.1 < |ps|
    ensures WalkQuarks(ps, w.0, w.1) == Ok(q)
    ensures FindPartons(ps).value == Partons(b.0, q.0, q.1, b.1, q.2, q.3)
  {
    d := TopDecays(ps).value;
    b := WalkBottoms(ps, d.0, d.2).value;
    w := WDecays(ps, d.1, d.3).value;
    q := WalkQuarks(ps, w.0, w.1).value;
  }

  lemma WalkBottomsSteps(ps: seq<Particle>, bm: nat, bp: nat)
    requires bm < |ps| && bp < |ps| && RadiationForward(ps) && WalkBottoms(ps, bm, bp).Ok?
    ensures LastOf(ps, bm, NotHardOutgoing) == Ok(WalkBottoms(ps, bm, bp).value.0)
    ensures LastOf(ps, bp, NotHardOutgoing) == Ok(WalkBottoms(ps, bm, bp).value.1)
  {
  }

  lemma WDecaysSteps(ps: seq<Particle>, wp: nat, wm: nat)
    requires wp < |ps| && wm < |ps| && RadiationForward(ps) && WDecays(ps, wp, wm).Ok?
    ensures WDecay(ps, wp) == Ok(WDecays(ps, wp, wm).value.0)
    ensures WDecay(ps, wm) == Ok(WDecays(ps, wp, wm).value.1)
  {
  }

  lemma WalkQuarksSteps(ps: seq<Particle>, q01: (nat, nat), q23: (nat, nat))
    requires q01.0 < |ps| && q01.1 < |ps| && q23.0 < |ps| && q23.1 < |ps| && RadiationForward(ps)
    requires WalkQuarks(ps, q01, q23).Ok?
    ensures LastOf(ps, q01.0, NotHardOutgoing) == Ok(WalkQuarks(ps, q01, q23).value.0)
    ensures LastOf(ps, q01.1, NotHardOutgoing) == Ok(WalkQuarks(ps, q01, q23).value.1)
    ensures LastOf(ps, q23.0, NotHardOutgoing) == Ok(WalkQuarks(ps, q01, q23).value.2)
    ensures LastOf(ps, q23.1, NotHardOutgoing) == Ok(WalkQuarks(ps, q01, q23).value.3)
  {
  }

  /** The tops and their daughters behind a successful `TopDecays`. */
  lemma TopDecaysSteps(ps: seq<Particle>) returns (tops: (nat, nat), plus: (nat, nat), minus: (nat, nat))
    requires TopDecays(ps).Ok?
    ensures SelectTops(ps) == Ok(tops) && tops.0 < |ps| && tops.1 < |ps|
    ensures GetTopDaughters(ps, tops.0) == Ok(plus) && GetTopDaughters(ps, tops.1) == Ok(minus)
    ensures TopDecays(ps).value == (plus.0, plus.1, minus.0, minus.1)
    ensures plus.1 in Daughters(ps, tops.0) && minus.1 in Daughters(ps, tops.1)
  {
    tops := SelectTops(ps).value;
    plus := GetTopDaughters(ps, tops.0).value;
    minus := GetTopDaughters(ps, tops.1).value;
    assert plus.1 in multiset(Daughters(ps, tops.0));
    assert minus.1 in multiset(Daughters(ps, tops.1));
  }

  /** The b side of one top: the resolved b descends from the top and is a b quark if the top has one. */
  lemma TopHalf(ps: seq<Particle>, t: nat, bw: (nat, nat), b: nat)
    requires RadiationForward(ps) && t < |ps| && GetTopDaughters(ps, t) == Ok(bw)
    requires bw.0 < |ps| && LastOf(ps, bw.0, NotHardOutgoing) == Ok(b)
    ensures Descends(ps, t, b) && Settled(ps, b, NotHardOutgoing)
    ensures HasBottomDaughter(ps, t) ==> Abs(ps[b].pid) == BottomPid
  {
    var ds := Daughters(ps, t);
    assert |ds| == 2 && (bw.0 == ds[0] || bw.0 == ds[1]);
    ChildDescends(ps, t, bw.0);
    LastOfDescends(ps, bw.0, NotHardOutgoing);
    DescendsTrans(ps, t, bw.0, b);
    if HasBottomDaughter(ps, t) {
      var k :| k in ds && Abs(ps[k].pid) == BottomPid;
      var m :| 0 <= m < |ds| && ds[m] == k;
      assert m == 0 || m == 1;
    }
  }

  /** The W side of one top: both resolved quarks descend from the top. */
  lemma WHalf(ps: seq<Particle>, t: nat, w: nat, qs: (nat, nat), qa: nat, qb: nat)
    requires RadiationForward(ps) && t < |ps| && w < |ps| && w in Daughters(ps, t)
    requires WDecay(ps, w) == Ok(qs)
    requires LastOf(ps, qs.0, NotHardOutgoing) == Ok(qa) && LastOf(ps, qs.1, NotHardOutgoing) == Ok(qb)
    ensures Descends(ps, t, qa) && Descends(ps, t, qb)
    ensures Settled(ps, qa, NotHardOutgoing) && Settled(ps, qb, NotHardOutgoing)
  {
    var last := LastOf(ps, w, Always).value;
    assert [qs.0, qs.1] == Daughters(ps, last);
    ChildDescends(ps, t, w);
    LastOfDescends(ps, w, Always);
    DescendsTrans(ps, t, w, last);
    ChildDescends(ps, last, qs.0);
    ChildDescends(ps, last, qs.1);
    DescendsTrans(ps, t, last, qs.0);
    DescendsTrans(ps, t, last, qs.1);
    LastOfDescends(ps, qs.0, NotHardOutgoing);
    LastOfDescends(ps, qs.1, NotHardOutgoing);
    DescendsTrans(ps, t, qs.0, qa);
    DescendsTrans(ps, t, qs.1, qb);
  }
}
