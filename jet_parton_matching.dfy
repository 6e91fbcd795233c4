/**
 * `_perform_jet_parton_matching` of analysis/analyse.py: build every
 * (distance, parton, jet) triple, sort them, then repeatedly take the first
 * triple, record the parton's jet (or -1 when the distance exceeds the
 * threshold) and delete, in place, every remaining triple that shares that
 * parton or that jet.
 *
 * The distance of parton p to jet j is the input `dist[p][j]`.
 */
module JetPartonMatching {
  import opened Results
  import opened CandidateOrder

  /** The default `max_distance`. */
  const DefaultMaxDistance: real := 0.3

  /** `distance_idx_list[0]` on an empty list, before every parton has an entry. */
  datatype MatchError = CandidatesExhausted

  /** One item `match[parton] = jet` of the result dict; `jet` is -1 for an unmatched parton. */
  datatype Entry = Entry(parton: nat, jet: int)

  /** One distance per jet for every parton. */
  predicate Rectangular(dist: seq<seq<real>>, numJets: nat) {
    forall p :: 0 <= p < |dist| ==> |dist[p]| == numJets
  }

  /** The partons that have an entry. */
  function Keys(m: seq<Entry>): set<nat> {
    set e | e in m :: e.parton
  }

  /** The values of the entries, -1 included. */
  function Jets(m: seq<Entry>): set<int> {
    set e | e in m :: e.jet
  }

  /**
   * `match[p] = j` on Python's insertion-ordered dict: the entry for p is
   * replaced where it stands, or appended when p has none.
   */
  function Put(m: seq<Entry>, p: nat, j: int): (r: seq<Entry>)
    ensures p !in Keys(m) ==> r == m + [Entry(p, j)]
    ensures p in Keys(m) ==> |r| == |m|
    ensures Keys(r) == Keys(m) + {p}
    ensures Entry(p, j) in r
    ensures forall e :: e in m && e.parton != p ==> e in r
    ensures forall e :: e in r && e.parton != p ==> e in m
  {
    if m == [] then [Entry(p, j)]
    else if m[0].parton == p then [Entry(p, j)] + m[1..]
    else
      assert m == [m[0]] + m[1..];
      [m[0]] + Put(m[1..], p, j)
  }

  /** The triples `Candidate(dist[p][j], p, j)` of partons 0..rows-1, in the order the double loop appends them. */
  function CandidateRows(dist: seq<seq<real>>, numJets: nat, rows: nat): seq<Candidate>
    requires Rectangular(dist, numJets) && rows <= |dist|
  {
    if rows == 0 then [] else CandidateRows(dist, numJets, rows - 1) + CandidateRow(dist, numJets, rows - 1, numJets)
  }

  /** The triples of parton p for jets 0..cols-1. */
  function CandidateRow(dist: seq<seq<real>>, numJets: nat, p: nat, cols: nat): seq<Candidate>
    requires Rectangular(dist, numJets) && p < |dist| && cols <= numJets
  {
    if cols == 0 then [] else CandidateRow(dist, numJets, p, cols - 1) + [Candidate(dist[p][cols - 1], p, cols - 1)]
  }

  /** A triple the double loop builds: a parton, a jet and their distance. */
  predicate IsCandidate(c: Candidate, dist: seq<seq<real>>, numJets: nat)
    requires Rectangular(dist, numJets)
  {
    c.parton < |dist| && c.jet < numJets && c.distance == dist[c.parton][c.jet]
  }

  /** The double loop appends every parton-jet pair once. */
  lemma CandidateRowsComplete(dist: seq<seq<real>>, numJets: nat, rows: nat)
    requires Rectangular(dist, numJets) && rows <= |dist|
    ensures forall c :: c in CandidateRows(dist, numJets, rows) <==> IsCandidate(c, dist, numJets) && c.parton < rows
  {
    forall c ensures c in CandidateRows(dist, numJets, rows) <==> IsCandidate(c, dist, numJets) && c.parton < rows {
      CandidateRowsMember(dist, numJets, rows, c);
    }
  }

  lemma {:induction false} CandidateRowsMember(dist: seq<seq<real>>, numJets: nat, rows: nat, c: Candidate)
    requires Rectangular(dist, numJets) && rows <= |dist|
    ensures c in CandidateRows(dist, numJets, rows) <==> IsCandidate(c, dist, numJets) && c.parton < rows
  {
    if rows > 0 {
      CandidateRowsMember(dist, numJets, rows - 1, c);
      CandidateRowMember(dist, numJets, rows - 1, numJets, c);
      var front := CandidateRows(dist, numJets, rows - 1);
      var row := CandidateRow(dist, numJets, rows - 1, numJets);
      assert CandidateRows(dist, numJets, rows) == front + row;
      assert c in front + row <==> c in front || c in row;
    }
  }

  /** The inner loop appends one triple per jet, those of parton p. */
  lemma {:induction false} CandidateRowComplete(dist: seq<seq<real>>, numJets: nat, p: nat, cols: nat)
    requires Rectangular(dist, numJets) && p < |dist| && cols <= numJets
    ensures |CandidateRow(dist, numJets, p, cols)| == cols
    ensures forall c :: c in CandidateRow(dist, numJets, p, cols) <==> IsCandidate(c, dist, numJets) && c.parton == p && c.jet < cols
  {
    if cols > 0 {
      CandidateRowComplete(dist, numJets, p, cols - 1);
    }
    forall c ensures c in CandidateRow(dist, numJets, p, cols) <==> IsCandidate(c, dist, numJets) && c.parton == p && c.jet < cols {
      CandidateRowMember(dist, numJets, p, cols, c);
    }
  }

  lemma {:induction false} CandidateRowMember(dist: seq<seq<real>>, numJets: nat, p: nat, cols: nat, c: Candidate)
    requires Rectangular(dist, numJets) && p < |dist| && cols <= numJets
    ensures c in CandidateRow(dist, numJets, p, cols) <==> IsCandidate(c, dist, numJets) && c.parton == p && c.jet < cols
  {
    if cols > 0 {
      CandidateRowMember(dist, numJets, p, cols - 1, c);
      var front := CandidateRow(dist, numJets, p, cols - 1);
      assert c in front + [Candidate(dist[p][cols - 1], p, cols - 1)] <==> c in front || c == Candidate(dist[p][cols - 1], p, cols - 1);
    }
  }

  /** The assigned value for a taken triple: its jet, or -1 beyond `max_distance`. */
  function Target(c: Candidate, maxDistance: real): int {
    if c.distance > maxDistance then -1 else c.jet
  }

  /** The remaining triple c shares the parton p or the jet j just consumed. */
  predicate Shares(c: Candidate, p: nat, j: int) {
    c.parton == p || c.jet == j
  }

  /** The list the deletion loop leaves: the triples that share neither p nor j, in their order. */
  function Remove(s: seq<Candidate>, p: nat, j: int): seq<Candidate> {
    if s == [] then []
    else
      var kept := Remove(s[..|s| - 1], p, j);
      if Shares(s[|s| - 1], p, j) then kept else kept + [s[|s| - 1]]
  }

  /**
   * The deletion pass keeps exactly the triples sharing neither p nor j,
   * drops the head when it shares, and keeps an ascending list ascending.
   */
  lemma {:induction false} RemoveSpec(s: seq<Candidate>, p: nat, j: int)
    ensures forall c :: c in Remove(s, p, j) <==> c in s && !Shares(c, p, j)
    ensures |Remove(s, p, j)| <= |s|
    ensures s != [] && Shares(s[0], p, j) ==> |Remove(s, p, j)| < |s|
    ensures Sorted(s) ==> Sorted(Remove(s, p, j))
  {
    if s != [] {
      var front := s[..|s| - 1];
      var last := s[|s| - 1];
      assert s == front + [last];
      RemoveSpec(front, p, j);
      var kept := Remove(front, p, j);
      if |s| > 1 {
        assert front[0] == s[0];
      }
      if !Shares(last, p, j) && Sorted(s) {
        assert Sorted(front) by {
          forall a, b | 0 <= a < b < |front| ensures NotAfter(front[a], front[b]) {
            assert front[a] == s[a] && front[b] == s[b];
          }
        }
        forall a, b | 0 <= a < b < |kept| + 1
          ensures NotAfter((kept + [last])[a], (kept + [last])[b])
        {
          if b == |kept| {
            var x := kept[a];
            assert x in kept;
            var k :| 0 <= k < |front| && front[k] == x;
            assert s[k] == x && s[|s| - 1] == last;
          } else {
            assert (kept + [last])[a] == kept[a] && (kept + [last])[b] == kept[b];
          }
        }
      }
    }
  }

  /**
   * The outer `while` loop from a given list and dict: stop once every parton
   * has an entry; fail when the list is empty before that; otherwise take
   * the head triple, record it, and delete what it shares.
   */
  function Greedy(cands: seq<Candidate>, m: seq<Entry>, numPartons: nat, maxDistance: real): Result<seq<Entry>, MatchError>
    decreases |cands|
  {
    if |m| >= numPartons then Ok(m)
    else if cands == [] then Err(CandidatesExhausted)
    else
      var c := cands[0];
      var j := Target(c, maxDistance);
      RemoveSpec(cands, c.parton, j);
      Greedy(Remove(cands, c.parton, j), Put(m, c.parton, j), numPartons, maxDistance)
  }

  /** What `_perform_jet_parton_matching` returns for the distance matrix `dist`. */
  function Matching(dist: seq<seq<real>>, numJets: nat, maxDistance: real): Result<seq<Entry>, MatchError>
    requires Rectangular(dist, numJets)
  {
    Greedy(Sort(CandidateRows(dist, numJets, |dist|)), [], |dist|, maxDistance)
  }

  /** The double loop that appends every triple. */
  method BuildCandidates(dist: seq<seq<real>>, numJets: nat) returns (cs: seq<Candidate>)
    requires Rectangular(dist, numJets)
    ensures cs == CandidateRows(dist, numJets, |dist|)
  {
    cs := [];
    for p := 0 to |dist|
      invariant cs == CandidateRows(dist, numJets, p)
    {
      for j := 0 to numJets
        invariant cs == CandidateRows(dist, numJets, p) + CandidateRow(dist, numJets, p, j)
      {
        cs := cs + [Candidate(dist[p][j], p, j)];
      }
    }
  }

  /** The deletion pass over one more triple. */
  lemma RemoveSnoc(s: seq<Candidate>, x: Candidate, p: nat, j: int)
    ensures Remove(s + [x], p, j) == if Shares(x, p, j) then Remove(s, p, j) else Remove(s, p, j) + [x]
  {
    assert (s + [x])[..|s|] == s;
    assert (s + [x])[|s|] == x;
  }

  /** The list `kept + s[i..]` seen at its element i: the facts one step of the deletion loop uses. */
  lemma SplitAt(kept: seq<Candidate>, s: seq<Candidate>, i: nat)
    requires i < |s|
    ensures s[..i + 1] == s[..i] + [s[i]]
    ensures (kept + s[i..])[|kept|] == s[i]
    ensures (kept + s[i..])[..|kept|] + (kept + s[i..])[|kept| + 1..] == kept + s[i + 1..]
    ensures kept + s[i..] == (kept + [s[i]]) + s[i + 1..]
  {
    assert s[i..] == [s[i]] + s[i + 1..];
  }

  /** The deletion loop: `pop(idx)` every triple sharing p or j, advance `idx` past the others. */
  method RemoveSharing(cands: seq<Candidate>, p: nat, j: int) returns (rest: seq<Candidate>)
    ensures rest == Remove(cands, p, j)
  {
    rest := cands;
    var idx := 0;
    ghost var seen := 0;
    ghost var kept: seq<Candidate> := [];
    while idx < |rest|
      invariant 0 <= seen <= |cands|
      invariant kept == Remove(cands[..seen], p, j)
      invariant rest == kept + cands[seen..]
      invariant idx == |kept|
      decreases |cands| - seen
    {
      RemoveSnoc(cands[..seen], cands[seen], p, j);
      SplitAt(kept, cands, seen);
      if p == rest[idx].parton || j == rest[idx].jet {
        rest := rest[..idx] + rest[idx + 1..];
      } else {
        kept := kept + [cands[seen]];
        idx := idx + 1;
      }
      seen := seen + 1;
    }
    assert cands[..|cands|] == cands;
  }

  /** `_perform_jet_parton_matching`, with `dist[p][j]` standing for `parton.delta_r(jet)`. */
  method PerformJetPartonMatching(dist: seq<seq<real>>, numJets: nat, maxDistance: real) returns (r: Result<seq<Entry>, MatchError>)
    requires Rectangular(dist, numJets)
    ensures r == Matching(dist, numJets, maxDistance)
  {
    var cands := BuildCandidates(dist, numJets);
    cands := Sort(cands);
    var m: seq<Entry> := [];
    while |m| < |dist|
      invariant Greedy(cands, m, |dist|, maxDistance) == Matching(dist, numJets, maxDistance)
      decreases |cands|
    {
      if cands == [] {
        return Err(CandidatesExhausted);
      }
      var c := cands[0];
      var jet: int := c.jet;
      if c.distance > maxDistance {
        jet := -1;
      }
      m := Put(m, c.parton, jet);
      RemoveSpec(cands, c.parton, jet);
      cands := RemoveSharing(cands, c.parton, jet);
    }
    return Ok(m);
  }
}
