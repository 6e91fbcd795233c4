/**
 * What the greedy jet-parton matcher guarantees: every parton gets exactly
 * one entry, no jet is given to two partons, every matched pair is within
 * `max_distance`, each assignment takes the smallest triple still free, and
 * once a parton is left unmatched every later one is too. Whether the
 * candidate list runs out is decided by the number of jets.
 */
module MatchingProperties {
  import opened CandidateOrder
  import opened JetPartonMatching

  /** Neither c's parton nor c's jet has been consumed by the entries m. */
  predicate Free(c: Candidate, m: seq<Entry>) {
    c.parton !in Keys(m) && c.jet !in Jets(m)
  }

  /**
   * Entry k was the greedy choice when it was made: its parton had no entry
   * yet; if it got a jet, that (distance, parton, jet) triple was free, within
   * `max_distance` and not after any other free triple; if it got -1, every
   * free triple was beyond `max_distance`.
   */
  ghost predicate GreedyChoice(m: seq<Entry>, k: nat, dist: seq<seq<real>>, numJets: nat, maxDistance: real)
    requires Rectangular(dist, numJets) && k < |m|
  {
    var e := m[k];
    && e.parton < |dist|
    && e.parton !in Keys(m[..k])
    && (e.jet == -1 ==>
          forall c :: IsCandidate(c, dist, numJets) && Free(c, m[..k]) ==> c.distance > maxDistance)
    && (e.jet != -1 ==>
          && 0 <= e.jet < numJets
          && dist[e.parton][e.jet] <= maxDistance
          && Free(Candidate(dist[e.parton][e.jet], e.parton, e.jet), m[..k])
          && forall c :: IsCandidate(c, dist, numJets) && Free(c, m[..k]) ==>
               NotAfter(Candidate(dist[e.parton][e.jet], e.parton, e.jet), c))
  }

  /** Every entry of m was a greedy choice. */
  ghost predicate History(m: seq<Entry>, dist: seq<seq<real>>, numJets: nat, maxDistance: real)
    requires Rectangular(dist, numJets)
  {
    forall k :: 0 <= k < |m| ==> GreedyChoice(m, k, dist, numJets, maxDistance)
  }

  /** The loop invariant: the list is sorted and holds exactly the free triples, and the dict is a greedy history. */
  ghost predicate Consistent(cands: seq<Candidate>, m: seq<Entry>, dist: seq<seq<real>>, numJets: nat, maxDistance: real)
    requires Rectangular(dist, numJets)
  {
    && Sorted(cands)
    && (forall c :: c in cands <==> IsCandidate(c, dist, numJets) && Free(c, m))
    && History(m, dist, numJets, maxDistance)
  }

  lemma KeysJetsAppend(m: seq<Entry>, e: Entry)
    ensures Keys(m + [e]) == Keys(m) + {e.parton}
    ensures Jets(m + [e]) == Jets(m) + {e.jet}
  {
    assert forall x :: x in m + [e] <==> x in m || x == e;
  }

  /** A -1 entry consumes only its parton: every jet stays available to the triples of the other partons. */
  lemma UnmatchedFreesEveryJet(m: seq<Entry>, e: Entry, c: Candidate)
    requires e.jet == -1
    ensures Free(c, m + [e]) <==> Free(c, m) && c.parton != e.parton
  {
    KeysJetsAppend(m, e);
  }

  /** The sorted list and the empty dict the loop starts from satisfy the invariant. */
  lemma InitiallyConsistent(dist: seq<seq<real>>, numJets: nat, maxDistance: real)
    requires Rectangular(dist, numJets)
    ensures Consistent(Sort(CandidateRows(dist, numJets, |dist|)), [], dist, numJets, maxDistance)
  {
    var cs := CandidateRows(dist, numJets, |dist|);
    CandidateRowsComplete(dist, numJets, |dist|);
    SortMembers(cs);
    assert Keys([]) == {} && Jets([]) == {};
  }

  /** One iteration of the outer loop keeps the invariant, and `match[p] = j` appends a new entry. */
  lemma Step(cands: seq<Candidate>, m: seq<Entry>, dist: seq<seq<real>>, numJets: nat, maxDistance: real)
    requires Rectangular(dist, numJets) && Consistent(cands, m, dist, numJets, maxDistance) && cands != []
    ensures
      var c := cands[0];
      var j := Target(c, maxDistance);
      && Put(m, c.parton, j) == m + [Entry(c.parton, j)]
      && Consistent(Remove(cands, c.parton, j), m + [Entry(c.parton, j)], dist, numJets, maxDistance)
      && |Remove(cands, c.parton, j)| < |cands|
  {
    var c := cands[0];
    var j := Target(c, maxDistance);
    var e := Entry(c.parton, j);
    RemoveSpec(cands, c.parton, j);
    var m' := m + [e];
    assert c in cands;
    KeysJetsAppend(m, e);
    assert forall x :: 0 <= x < |cands| ==> NotAfter(c, cands[x]);
    forall k | 0 <= k < |m'|
      ensures GreedyChoice(m', k, dist, numJets, maxDistance)
    {
      if k < |m| {
        assert m'[..k] == m[..k] && m'[k] == m[k];
        assert GreedyChoice(m, k, dist, numJets, maxDistance);
      } else {
        assert m'[..k] == m && m'[k] == e;
        forall x | IsCandidate(x, dist, numJets) && Free(x, m)
          ensures NotAfter(c, x)
        {
          assert x in cands;
        }
      }
    }
  }

  /** Every entry the loop adds to the dict is a greedy choice, and the loop stops with one entry per parton. */
  lemma {:induction false} GreedyHistory(cands: seq<Candidate>, m: seq<Entry>, dist: seq<seq<real>>, numJets: nat, maxDistance: real)
    requires Rectangular(dist, numJets) && Consistent(cands, m, dist, numJets, maxDistance) && |m| <= |dist|
    requires Greedy(cands, m, |dist|, maxDistance).Ok?
    ensures |Greedy(cands, m, |dist|, maxDistance).value| == |dist|
    ensures History(Greedy(cands, m, |dist|, maxDistance).value, dist, numJets, maxDistance)
    decreases |cands|
  {
    if |m| < |dist| {
      var c := cands[0];
      var j := Target(c, maxDistance);
      Step(cands, m, dist, numJets, maxDistance);
      GreedyHistory(Remove(cands, c.parton, j), m + [Entry(c.parton, j)], dist, numJets, maxDistance);
    }
  }

  /** The result of `_perform_jet_parton_matching` is a greedy history with one entry per parton. */
  lemma MatchingHistory(dist: seq<seq<real>>, numJets: nat, maxDistance: real)
    requires Rectangular(dist, numJets) && Matching(dist, numJets, maxDistance).Ok?
    ensures |Matching(dist, numJets, maxDistance).value| == |dist|
    ensures History(Matching(dist, numJets, maxDistance).value, dist, numJets, maxDistance)
  {
    InitiallyConsistent(dist, numJets, maxDistance);
    GreedyHistory(Sort(CandidateRows(dist, numJets, |dist|)), [], dist, numJets, maxDistance);
  }

  /** The numbers 0..n-1. */
  function Range(n: nat): (r: set<int>)
    ensures forall x :: x in r <==> 0 <= x < n
    ensures |r| == n
  {
    if n == 0 then {} else Range(n - 1) + {n - 1}
  }

  lemma SubsetCard(a: set<int>, b: set<int>)
    requires a <= b
    ensures |a| <= |b|
  {
    assert b == a + (b - a);
    assert a * (b - a) == {};
  }

  /** Fewer than n values leave some number below n unused. */
  lemma Unused(s: set<int>, n: nat) returns (x: int)
    requires |s| < n
    ensures 0 <= x < n && x !in s
  {
    if Range(n) <= s {
      SubsetCard(Range(n), s);
      assert false;
    }
    x :| x in Range(n) && x !in s;
  }

  /** A dict with k entries has at most k keys and at most k values. */
  lemma {:induction false} KeysJetsCard(m: seq<Entry>)
    ensures |Keys(m)| <= |m| && |Jets(m)| <= |m|
  {
    if m != [] {
      var front := m[..|m| - 1];
      assert m == front + [m[|m| - 1]];
      KeysJetsAppend(front, m[|m| - 1]);
      KeysJetsCard(front);
    }
  }

  /** Entry k of a greedy history has a parton, and a jet other than -1, that no earlier entry has. */
  lemma ChoiceFresh(m: seq<Entry>, k: nat, dist: seq<seq<real>>, numJets: nat, maxDistance: real)
    requires Rectangular(dist, numJets) && History(m, dist, numJets, maxDistance) && k < |m|
    ensures m[k].parton !in Keys(m[..k])
    ensures m[k].jet != -1 ==> m[k].jet !in Jets(m[..k])
  {
    assert GreedyChoice(m, k, dist, numJets, maxDistance);
  }

  /** No entry repeats the parton of an earlier one. */
  predicate FreshPartons(m: seq<Entry>) {
    forall k :: 0 <= k < |m| ==> m[k].parton !in Keys(m[..k])
  }

  /** No entry repeats the value of an earlier one. */
  predicate FreshJets(m: seq<Entry>) {
    forall k :: 0 <= k < |m| ==> m[k].jet !in Jets(m[..k])
  }

  lemma {:induction false} FreshPartonsCard(m: seq<Entry>)
    requires FreshPartons(m)
    ensures |Keys(m)| == |m|
  {
    if m != [] {
      var front := m[..|m| - 1];
      var last := m[|m| - 1];
      forall k | 0 <= k < |front| ensures front[k].parton !in Keys(front[..k]) {
        assert front[..k] == m[..k];
      }
      FreshPartonsCard(front);
      assert m == front + [last];
      KeysJetsAppend(front, last);
      assert last.parton !in Keys(front);
    }
  }

  lemma {:induction false} FreshJetsCard(m: seq<Entry>)
    requires FreshJets(m)
    ensures |Jets(m)| == |m|
  {
    if m != [] {
      var front := m[..|m| - 1];
      var last := m[|m| - 1];
      forall k | 0 <= k < |front| ensures front[k].jet !in Jets(front[..k]) {
        assert front[..k] == m[..k];
      }
      FreshJetsCard(front);
      assert m == front + [last];
      KeysJetsAppend(front, last);
      assert last.jet !in Jets(front);
    }
  }

  /** In a greedy history the keys are distinct, and so are the jets when none is -1. */
  lemma HistoryCard(m: seq<Entry>, dist: seq<seq<real>>, numJets: nat, maxDistance: real)
    requires Rectangular(dist, numJets) && History(m, dist, numJets, maxDistance)
    ensures |Keys(m)| == |m|
    ensures (forall k :: 0 <= k < |m| ==> m[k].jet != -1) ==> |Jets(m)| == |m|
  {
    forall k | 0 <= k < |m| ensures m[k].parton !in Keys(m[..k]) && (m[k].jet != -1 ==> m[k].jet !in Jets(m[..k])) {
      ChoiceFresh(m, k, dist, numJets, maxDistance);
    }
    FreshPartonsCard(m);
    if forall k :: 0 <= k < |m| ==> m[k].jet != -1 {
      FreshJetsCard(m);
    }
  }

  /** The keys of a dict with n distinct partons, all below n, are exactly 0..n-1. */
  lemma KeysExactly(m: seq<Entry>, n: nat)
    requires |Keys(m)| == n && forall k :: 0 <= k < |m| ==> m[k].parton < n
    ensures forall p :: p in Keys(m) <==> 0 <= p < n
  {
    assert Keys(m) <= Range(n);
    if Keys(m) != Range(n) {
      var p :| p in Range(n) && p !in Keys(m);
      SubsetCard(Keys(m), Range(n) - {p});
    }
  }

  /** Complete domain: the keys of the result are exactly the parton indices 0..len(parton_list)-1, each once. */
  lemma MatchingComplete(dist: seq<seq<real>>, numJets: nat, maxDistance: real)
    requires Rectangular(dist, numJets) && Matching(dist, numJets, maxDistance).Ok?
    ensures var m := Matching(dist, numJets, maxDistance).value;
      && |m| == |dist|
      && (forall p :: p in Keys(m) <==> 0 <= p < |dist|)
      && (forall a, b :: 0 <= a < b < |m| ==> m[a].parton != m[b].parton)
  {
    var m := Matching(dist, numJets, maxDistance).value;
    MatchingHistory(dist, numJets, maxDistance);
    HistoryCard(m, dist, numJets, maxDistance);
    HistoryInRange(m, dist, numJets, maxDistance);
    KeysExactly(m, |dist|);
    forall a, b | 0 <= a < b < |m| ensures m[a].parton != m[b].parton {
      ChoiceFresh(m, b, dist, numJets, maxDistance);
      assert m[a] in m[..b];
    }
  }

  /** Injectivity: no jet index other than -1 is the value of two entries. */
  lemma MatchingInjective(dist: seq<seq<real>>, numJets: nat, maxDistance: real)
    requires Rectangular(dist, numJets) && Matching(dist, numJets, maxDistance).Ok?
    ensures var m := Matching(dist, numJets, maxDistance).value;
      forall a, b :: 0 <= a < |m| && 0 <= b < |m| && a != b && m[a].jet != -1 ==> m[a].jet != m[b].jet
  {
    var m := Matching(dist, numJets, maxDistance).value;
    MatchingHistory(dist, numJets, maxDistance);
    forall a, b | 0 <= a < |m| && 0 <= b < |m| && a != b && m[a].jet != -1
      ensures m[a].jet != m[b].jet
    {
      if a < b {
        ChoiceFresh(m, b, dist, numJets, maxDistance);
        assert m[a] in m[..b];
      } else {
        ChoiceFresh(m, a, dist, numJets, maxDistance);
        assert m[b] in m[..a];
      }
    }
  }

  /** Every entry names a parton of the list, and every value other than -1 a jet of the list. */
  predicate EntriesInRange(m: seq<Entry>, dist: seq<seq<real>>, numJets: nat)
    requires Rectangular(dist, numJets)
  {
    forall k :: 0 <= k < |m| ==> m[k].parton < |dist| && (m[k].jet != -1 ==> 0 <= m[k].jet < numJets)
  }

  lemma HistoryInRange(m: seq<Entry>, dist: seq<seq<real>>, numJets: nat, maxDistance: real)
    requires Rectangular(dist, numJets) && History(m, dist, numJets, maxDistance)
    ensures EntriesInRange(m, dist, numJets)
  {
    forall k | 0 <= k < |m| ensures m[k].parton < |dist| && (m[k].jet != -1 ==> 0 <= m[k].jet < numJets) {
      assert GreedyChoice(m, k, dist, numJets, maxDistance);
    }
  }

  /** Distance bound: every value other than -1 is a jet of the list within `max_distance` of its parton. */
  lemma MatchingWithinDistance(dist: seq<seq<real>>, numJets: nat, maxDistance: real)
    requires Rectangular(dist, numJets) && Matching(dist, numJets, maxDistance).Ok?
    ensures EntriesInRange(Matching(dist, numJets, maxDistance).value, dist, numJets)
    ensures var m := Matching(dist, numJets, maxDistance).value;
      forall k :: 0 <= k < |m| && m[k].jet != -1 ==> dist[m[k].parton][m[k].jet] <= maxDistance
  {
    var m := Matching(dist, numJets, maxDistance).value;
    MatchingHistory(dist, numJets, maxDistance);
    HistoryInRange(m, dist, numJets, maxDistance);
    forall k | 0 <= k < |m| && m[k].jet != -1
      ensures dist[m[k].parton][m[k].jet] <= maxDistance
    {
      assert GreedyChoice(m, k, dist, numJets, maxDistance);
    }
  }

  /** The triple an entry with a jet was taken from. */
  function TakenTriple(e: Entry, dist: seq<seq<real>>, numJets: nat): Candidate
    requires Rectangular(dist, numJets) && e.parton < |dist| && 0 <= e.jet < numJets
  {
    Candidate(dist[e.parton][e.jet], e.parton, e.jet)
  }

  /**
   * Greedy order: entries are made in ascending (distance, parton, jet)
   * order, and once a parton gets -1 every later parton gets -1 too.
   */
  lemma MatchingAscending(dist: seq<seq<real>>, numJets: nat, maxDistance: real)
    requires Rectangular(dist, numJets) && Matching(dist, numJets, maxDistance).Ok?
    ensures EntriesInRange(Matching(dist, numJets, maxDistance).value, dist, numJets)
    ensures var m := Matching(dist, numJets, maxDistance).value;
      forall a, b :: 0 <= a < b < |m| && m[a].jet == -1 ==> m[b].jet == -1
    ensures var m := Matching(dist, numJets, maxDistance).value;
      forall a, b :: 0 <= a < b < |m| && m[a].jet != -1 && m[b].jet != -1 ==>
        NotAfter(TakenTriple(m[a], dist, numJets), TakenTriple(m[b], dist, numJets))
  {
    var m := Matching(dist, numJets, maxDistance).value;
    MatchingHistory(dist, numJets, maxDistance);
    HistoryInRange(m, dist, numJets, maxDistance);
    forall a, b | 0 <= a < b < |m| && m[b].jet != -1
      ensures m[a].jet != -1
      ensures NotAfter(TakenTriple(m[a], dist, numJets), TakenTriple(m[b], dist, numJets))
    {
      ChoiceBefore(m, a, b, dist, numJets, maxDistance);
    }
  }

  /**
   * The triple taken at b was already free when entry a was made, so entry a
   * took a triple not after it (or that triple was beyond `max_distance`,
   * which the taken one at b is not).
   */
  lemma ChoiceBefore(m: seq<Entry>, a: nat, b: nat, dist: seq<seq<real>>, numJets: nat, maxDistance: real)
    requires Rectangular(dist, numJets) && History(m, dist, numJets, maxDistance) && EntriesInRange(m, dist, numJets)
    requires a < b < |m| && m[b].jet != -1
    ensures m[a].jet != -1
    ensures NotAfter(TakenTriple(m[a], dist, numJets), TakenTriple(m[b], dist, numJets))
  {
    assert GreedyChoice(m, a, dist, numJets, maxDistance);
    assert GreedyChoice(m, b, dist, numJets, maxDistance);
    var later := TakenTriple(m[b], dist, numJets);
    assert m[..b] == m[..a] + m[a..b];
    KeysJetsConcat(m[..a], m[a..b]);
    assert Free(later, m[..a]);
    assert IsCandidate(later, dist, numJets);
  }

  lemma KeysJetsConcat(m: seq<Entry>, n: seq<Entry>)
    ensures Keys(m) <= Keys(m + n) && Jets(m) <= Jets(m + n)
  {
    assert forall e :: e in m ==> e in m + n;
  }

  /** Greedy minimality: each entry took the smallest triple whose parton and jet were both still free. */
  lemma MatchingGreedy(dist: seq<seq<real>>, numJets: nat, maxDistance: real)
    requires Rectangular(dist, numJets) && Matching(dist, numJets, maxDistance).Ok?
    ensures EntriesInRange(Matching(dist, numJets, maxDistance).value, dist, numJets)
    ensures var m := Matching(dist, numJets, maxDistance).value;
      forall k, c :: 0 <= k < |m| && m[k].jet != -1 && IsCandidate(c, dist, numJets) && Free(c, m[..k]) ==>
        NotAfter(TakenTriple(m[k], dist, numJets), c)
    ensures var m := Matching(dist, numJets, maxDistance).value;
      forall k, c :: 0 <= k < |m| && m[k].jet == -1 && IsCandidate(c, dist, numJets) && Free(c, m[..k]) ==>
        c.distance > maxDistance
  {
    var m := Matching(dist, numJets, maxDistance).value;
    MatchingHistory(dist, numJets, maxDistance);
    HistoryInRange(m, dist, numJets, maxDistance);
    forall k, c | 0 <= k < |m| && IsCandidate(c, dist, numJets) && Free(c, m[..k])
      ensures m[k].jet != -1 ==> NotAfter(TakenTriple(m[k], dist, numJets), c)
      ensures m[k].jet == -1 ==> c.distance > maxDistance
    {
      assert GreedyChoice(m, k, dist, numJets, maxDistance);
    }
  }

  /** With at least as many jets as partons the candidate list never runs out. */
  lemma {:induction false} GreedyOkWhenJetsSuffice(cands: seq<Candidate>, m: seq<Entry>, dist: seq<seq<real>>, numJets: nat, maxDistance: real)
    requires Rectangular(dist, numJets) && Consistent(cands, m, dist, numJets, maxDistance)
    requires |m| <= |dist| <= numJets
    ensures Greedy(cands, m, |dist|, maxDistance).Ok?
    decreases |cands|
  {
    if |m| < |dist| {
      KeysJetsCard(m);
      var p := Unused(Keys(m), |dist|);
      var j := Unused(Jets(m), numJets);
      assert Candidate(dist[p][j], p, j) in cands;
      var c := cands[0];
      Step(cands, m, dist, numJets, maxDistance);
      GreedyOkWhenJetsSuffice(Remove(cands, c.parton, Target(c, maxDistance)), m + [Entry(c.parton, Target(c, maxDistance))], dist, numJets, maxDistance);
    }
  }

  lemma MatchingOkWhenJetsSuffice(dist: seq<seq<real>>, numJets: nat, maxDistance: real)
    requires Rectangular(dist, numJets) && |dist| <= numJets
    ensures Matching(dist, numJets, maxDistance).Ok?
  {
    InitiallyConsistent(dist, numJets, maxDistance);
    GreedyOkWhenJetsSuffice(Sort(CandidateRows(dist, numJets, |dist|)), [], dist, numJets, maxDistance);
  }

  /** A greedy history without -1 entries has at most as many entries as there are jets. */
  lemma MatchedAtMostJets(m: seq<Entry>, dist: seq<seq<real>>, numJets: nat, maxDistance: real)
    requires Rectangular(dist, numJets) && History(m, dist, numJets, maxDistance)
    requires forall k :: 0 <= k < |m| ==> m[k].jet != -1
    ensures |m| <= numJets
  {
    HistoryCard(m, dist, numJets, maxDistance);
    HistoryInRange(m, dist, numJets, maxDistance);
    JetsBelow(m, dist, numJets);
    SubsetCard(Jets(m), Range(numJets));
  }

  /** When no entry is -1, the values of an in-range dict are jets of the list. */
  lemma JetsBelow(m: seq<Entry>, dist: seq<seq<real>>, numJets: nat)
    requires Rectangular(dist, numJets) && EntriesInRange(m, dist, numJets)
    requires forall k :: 0 <= k < |m| ==> m[k].jet != -1
    ensures Jets(m) <= Range(numJets)
  {
    forall x | x in Jets(m) ensures x in Range(numJets) {
      var k :| 0 <= k < |m| && m[k].jet == x;
    }
  }

  /** Every parton-jet distance is within `max_distance`. */
  predicate AllWithin(dist: seq<seq<real>>, maxDistance: real) {
    forall p, j :: 0 <= p < |dist| && 0 <= j < |dist[p]| ==> dist[p][j] <= maxDistance
  }

  /**
   * When every distance is within `max_distance`, every step consumes a jet,
   * so with fewer jets than partons `distance_idx_list[0]` eventually fails.
   */
  lemma {:induction false} GreedyErrWhenJetsRunOut(cands: seq<Candidate>, m: seq<Entry>, dist: seq<seq<real>>, numJets: nat, maxDistance: real)
    requires Rectangular(dist, numJets) && Consistent(cands, m, dist, numJets, maxDistance)
    requires AllWithin(dist, maxDistance) && numJets < |dist| && |m| <= |dist|
    requires forall k :: 0 <= k < |m| ==> m[k].jet != -1
    ensures Greedy(cands, m, |dist|, maxDistance).Err?
    decreases |cands|
  {
    MatchedAtMostJets(m, dist, numJets, maxDistance);
    if cands != [] {
      var c := cands[0];
      assert c in cands;
      var e := Entry(c.parton, Target(c, maxDistance));
      Step(cands, m, dist, numJets, maxDistance);
      assert forall k :: 0 <= k < |m + [e]| ==> (m + [e])[k].jet != -1;
      GreedyErrWhenJetsRunOut(Remove(cands, c.parton, e.jet), m + [e], dist, numJets, maxDistance);
    }
  }

  /** With fewer jets than partons, all of them close enough to match, the source raises `IndexError`; no jets at all is one such case. */
  lemma MatchingErrWhenJetsRunOut(dist: seq<seq<real>>, numJets: nat, maxDistance: real)
    requires Rectangular(dist, numJets) && AllWithin(dist, maxDistance) && numJets < |dist|
    ensures Matching(dist, numJets, maxDistance).Err?
  {
    InitiallyConsistent(dist, numJets, maxDistance);
    GreedyErrWhenJetsRunOut(Sort(CandidateRows(dist, numJets, |dist|)), [], dist, numJets, maxDistance);
  }
}
