/**
 * The per-event output of `perform_jet_parton_matching` in
 * analysis/analyse.py: the parton-to-jet dict is inverted into a jet-to-parton
 * dict, read out as one label per jet (the parton index, or -1 for a jet no
 * parton took), and the event is flagged as fully matched when no parton got
 * -1.
 */
module JetLabels {
  import opened Results
  import opened JetPartonMatching
  import opened MatchingProperties

  /**
   * `{jet: parton for parton, jet in match.items()}`: the items in insertion
   * order, a later item overwriting an earlier one with the same jet.
   */
  function JetToParton(m: seq<Entry>): (inv: map<int, nat>)
    ensures inv.Keys == Jets(m)
    ensures forall j :: j in inv ==> Entry(inv[j], j) in m
    ensures m != [] ==> inv[m[|m| - 1].jet] == m[|m| - 1].parton
  {
    if m == [] then map[]
    else
      var front := m[..|m| - 1];
      var last := m[|m| - 1];
      assert m == front + [last];
      KeysJetsAppend(front, last);
      JetToParton(front)[last.jet := last.parton]
  }

  /** `[jet2parton.get(jet, -1) for jet in range(len(jet_list))]`. */
  function Labels(m: seq<Entry>, numJets: nat): (labels: seq<int>)
    ensures |labels| == numJets
    ensures forall j :: 0 <= j < numJets ==> (labels[j] == -1 <==> j !in Jets(m))
    ensures forall j :: 0 <= j < numJets && labels[j] != -1 ==> labels[j] >= 0 && Entry(labels[j], j) in m
  {
    var inv := JetToParton(m);
    seq(numJets, j => if j in inv then inv[j] as int else -1)
  }

  /** `-1 not in match.values()`. */
  function FullyMatched(m: seq<Entry>): (r: bool)
    ensures r <==> forall k :: 0 <= k < |m| ==> m[k].jet != -1
  {
    assert forall k :: 0 <= k < |m| ==> m[k] in m;
    -1 !in Jets(m)
  }

  /**
   * On the matcher's result the labels are the inverse of the dict: jet j is
   * labelled p exactly when parton p was given j, and -1 exactly when no
   * parton was given j; no parton labels two jets.
   */
  lemma MatchingLabels(dist: seq<seq<real>>, numJets: nat, maxDistance: real)
    requires Rectangular(dist, numJets) && Matching(dist, numJets, maxDistance).Ok?
    ensures var labels := Labels(Matching(dist, numJets, maxDistance).value, numJets);
      forall j, p: nat :: 0 <= j < numJets ==>
        (labels[j] == p <==> Entry(p, j) in Matching(dist, numJets, maxDistance).value)
    ensures var m := Matching(dist, numJets, maxDistance).value;
      var labels := Labels(m, numJets);
      forall j :: 0 <= j < numJets ==> (labels[j] == -1 <==> forall k :: 0 <= k < |m| ==> m[k].jet != j)
    ensures var labels := Labels(Matching(dist, numJets, maxDistance).value, numJets);
      forall a, b :: 0 <= a < b < numJets && labels[a] != -1 ==> labels[a] != labels[b]
  {
    var m := Matching(dist, numJets, maxDistance).value;
    var labels := Labels(m, numJets);
    MatchingComplete(dist, numJets, maxDistance);
    forall j, p: nat | 0 <= j < numJets && Entry(p, j) in m
      ensures labels[j] == p
    {
      assert j in Jets(m);
      SameJetSameParton(dist, numJets, maxDistance, labels[j], p, j);
    }
    forall j | 0 <= j < numJets
      ensures labels[j] == -1 <==> forall k :: 0 <= k < |m| ==> m[k].jet != j
    {
      if labels[j] == -1 {
        forall k | 0 <= k < |m| ensures m[k].jet != j {
          assert m[k] in m;
        }
      } else {
        assert Entry(labels[j], j) in m;
      }
    }
    forall a, b | 0 <= a < b < numJets && labels[a] != -1
      ensures labels[a] != labels[b]
    {
      if labels[b] == labels[a] {
        SameParton(dist, numJets, maxDistance, labels[a], a, b);
      }
    }
  }

  /** Only one entry of the matcher's result holds a given jet. */
  lemma SameJetSameParton(dist: seq<seq<real>>, numJets: nat, maxDistance: real, p: nat, q: nat, j: int)
    requires Rectangular(dist, numJets) && Matching(dist, numJets, maxDistance).Ok?
    requires j != -1
    requires Entry(p, j) in Matching(dist, numJets, maxDistance).value
    requires Entry(q, j) in Matching(dist, numJets, maxDistance).value
    ensures p == q
  {
    var m := Matching(dist, numJets, maxDistance).value;
    MatchingInjective(dist, numJets, maxDistance);
    var a :| 0 <= a < |m| && m[a] == Entry(p, j);
    var b :| 0 <= b < |m| && m[b] == Entry(q, j);
  }

  /** Only one entry of the matcher's result holds a given parton. */
  lemma SameParton(dist: seq<seq<real>>, numJets: nat, maxDistance: real, p: nat, i: int, j: int)
    requires Rectangular(dist, numJets) && Matching(dist, numJets, maxDistance).Ok?
    requires Entry(p, i) in Matching(dist, numJets, maxDistance).value
    requires Entry(p, j) in Matching(dist, numJets, maxDistance).value
    ensures i == j
  {
    var m := Matching(dist, numJets, maxDistance).value;
    MatchingComplete(dist, numJets, maxDistance);
    var a :| 0 <= a < |m| && m[a] == Entry(p, i);
    var b :| 0 <= b < |m| && m[b] == Entry(p, j);
    assert a == b;
  }

  /**
   * The mask of an event is set exactly when every parton index labels some
   * jet.
   */
  lemma MatchingMask(dist: seq<seq<real>>, numJets: nat, maxDistance: real)
    requires Rectangular(dist, numJets) && Matching(dist, numJets, maxDistance).Ok?
    ensures var m := Matching(dist, numJets, maxDistance).value;
      FullyMatched(m) <==> forall p :: 0 <= p < |dist| ==> p in Labels(m, numJets)
  {
    var m := Matching(dist, numJets, maxDistance).value;
    if FullyMatched(m) {
      FullyMatchedLabelsAll(dist, numJets, maxDistance);
    } else {
      var k :| 0 <= k < |m| && m[k].jet == -1;
      UnmatchedNotLabelled(dist, numJets, maxDistance, k);
      HistoryInRangeOf(dist, numJets, maxDistance);
      assert m[k].parton < |dist|;
    }
  }

  lemma FullyMatchedLabelsAll(dist: seq<seq<real>>, numJets: nat, maxDistance: real)
    requires Rectangular(dist, numJets) && Matching(dist, numJets, maxDistance).Ok?
    requires FullyMatched(Matching(dist, numJets, maxDistance).value)
    ensures var m := Matching(dist, numJets, maxDistance).value;
      forall p :: 0 <= p < |dist| ==> p in Labels(m, numJets)
  {
    var m := Matching(dist, numJets, maxDistance).value;
    var labels := Labels(m, numJets);
    MatchingComplete(dist, numJets, maxDistance);
    MatchingLabels(dist, numJets, maxDistance);
    HistoryInRangeOf(dist, numJets, maxDistance);
    forall p | 0 <= p < |dist| ensures p in labels {
      assert p in Keys(m);
      var k :| 0 <= k < |m| && m[k].parton == p;
      assert m[k] in m;
      assert labels[m[k].jet] == p;
    }
  }

  /** A parton the dict gives -1 labels no jet. */
  lemma UnmatchedNotLabelled(dist: seq<seq<real>>, numJets: nat, maxDistance: real, k: nat)
    requires Rectangular(dist, numJets) && Matching(dist, numJets, maxDistance).Ok?
    requires k < |Matching(dist, numJets, maxDistance).value|
    requires Matching(dist, numJets, maxDistance).value[k].jet == -1
    ensures var m := Matching(dist, numJets, maxDistance).value;
      m[k].parton !in Labels(m, numJets)
  {
    var m := Matching(dist, numJets, maxDistance).value;
    var labels := Labels(m, numJets);
    var p := m[k].parton;
    assert m[k] in m;
    if p in labels {
      var j :| 0 <= j < numJets && labels[j] == p;
      assert Entry(p, j) in m;
      SameParton(dist, numJets, maxDistance, p, -1, j);
    }
  }

  lemma HistoryInRangeOf(dist: seq<seq<real>>, numJets: nat, maxDistance: real)
    requires Rectangular(dist, numJets) && Matching(dist, numJets, maxDistance).Ok?
    ensures EntriesInRange(Matching(dist, numJets, maxDistance).value, dist, numJets)
  {
    MatchingHistory(dist, numJets, maxDistance);
    HistoryInRange(Matching(dist, numJets, maxDistance).value, dist, numJets, maxDistance);
  }

  /**
   * One event of `perform_jet_parton_matching`: the matcher with its default
   * `max_distance`, then the event's per-jet labels and its mask. The batch
   * fails when the event's matcher does.
   */
  function EventOutput(dist: seq<seq<real>>, numJets: nat): (r: Result<(seq<int>, bool), MatchError>)
    requires Rectangular(dist, numJets)
    ensures r.Ok? <==> Matching(dist, numJets, DefaultMaxDistance).Ok?
    ensures |dist| <= numJets ==> r.Ok?
    ensures r.Ok? ==> |r.value.0| == numJets
    ensures r.Ok? ==> (r.value.1 <==> forall p :: 0 <= p < |dist| ==> p in r.value.0)
    ensures r.Ok? ==> var m := Matching(dist, numJets, DefaultMaxDistance).value;
      forall j, p: nat :: 0 <= j < numJets ==> (r.value.0[j] == p <==> Entry(p, j) in m)
    ensures r.Ok? ==> var m := Matching(dist, numJets, DefaultMaxDistance).value;
      forall j :: 0 <= j < numJets ==> (r.value.0[j] == -1 <==> forall k :: 0 <= k < |m| ==> m[k].jet != j)
    ensures r.Ok? ==> var m := Matching(dist, numJets, DefaultMaxDistance).value;
      (r.value.1 <==> forall k :: 0 <= k < |m| ==> m[k].jet != -1)
  {
    assert |dist| <= numJets ==> Matching(dist, numJets, DefaultMaxDistance).Ok? by {
      if |dist| <= numJets {
        MatchingOkWhenJetsSuffice(dist, numJets, DefaultMaxDistance);
      }
    }
    var m :- Matching(dist, numJets, DefaultMaxDistance);
    MatchingMask(dist, numJets, DefaultMaxDistance);
    MatchingLabels(dist, numJets, DefaultMaxDistance);
    Ok((Labels(m, numJets), FullyMatched(m)))
  }
}
