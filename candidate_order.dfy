/**
 * The `(distance, parton_idx, jet_idx)` triples of the jet-parton matcher and
 * the order `sorted` puts them in: Python compares tuples lexicographically.
 */
module CandidateOrder {

  /** One triple of `distance_idx_list`. */
  datatype Candidate = Candidate(distance: real, parton: nat, jet: nat)

  /** Python's `a <= b` on two triples. */
  predicate NotAfter(a: Candidate, b: Candidate) {
    || a.distance < b.distance
    || (a.distance == b.distance && a.parton < b.parton)
    || (a.distance == b.distance && a.parton == b.parton && a.jet <= b.jet)
  }

  lemma NotAfterTotal(a: Candidate, b: Candidate)
    ensures NotAfter(a, b) || NotAfter(b, a)
  {
  }

  lemma NotAfterAntisymmetric(a: Candidate, b: Candidate)
    requires NotAfter(a, b) && NotAfter(b, a)
    ensures a == b
  {
  }

  predicate Sorted(s: seq<Candidate>) {
    forall a, b :: 0 <= a < b < |s| ==> NotAfter(s[a], s[b])
  }

  /** A sorted list stays sorted under a head that is not after any of its elements. */
  lemma PrependSorted(h: Candidate, t: seq<Candidate>)
    requires Sorted(t)
    requires forall c :: c in t ==> NotAfter(h, c)
    ensures Sorted([h] + t)
  {
    var s := [h] + t;
    forall a, b | 0 <= a < b < |s|
      ensures NotAfter(s[a], s[b])
    {
      if a > 0 {
        assert s[a] == t[a - 1] && s[b] == t[b - 1];
      } else {
        assert s[b] == t[b - 1] && s[b] in t;
      }
    }
  }

  /** Inserting x into a sorted list keeps it sorted and adds exactly x. */
  function Insert(x: Candidate, s: seq<Candidate>): (r: seq<Candidate>)
    requires Sorted(s)
    ensures Sorted(r)
    ensures multiset(r) == multiset(s) + multiset{x}
  {
    if s == [] then [x]
    else if NotAfter(x, s[0]) then
      PrependSorted(x, s);
      [x] + s
    else
      var rest := Insert(x, s[1..]);
      assert forall c :: c in rest ==> c == x || c in s[1..] by {
        forall c | c in rest ensures c == x || c in s[1..] {
          assert c in multiset(rest);
        }
      }
      assert forall c :: c in s[1..] ==> NotAfter(s[0], c) by {
        forall c | c in s[1..] ensures NotAfter(s[0], c) {
          var k :| 1 <= k < |s| && s[k] == c;
        }
      }
      PrependSorted(s[0], rest);
      assert s == [s[0]] + s[1..];
      [s[0]] + rest
  }

  /** `sorted(distance_idx_list)`: the same triples in ascending order. */
  function Sort(s: seq<Candidate>): (r: seq<Candidate>)
    ensures Sorted(r)
    ensures multiset(r) == multiset(s)
  {
    if s == [] then []
    else
      assert s == [s[0]] + s[1..];
      Insert(s[0], Sort(s[1..]))
  }

  /** Sorting keeps exactly the triples it was given. */
  lemma SortMembers(s: seq<Candidate>)
    ensures forall c :: c in Sort(s) <==> c in s
  {
    forall c ensures c in Sort(s) <==> c in s {
      assert c in Sort(s) <==> c in multiset(Sort(s));
      assert c in s <==> c in multiset(s);
    }
  }

  /**
   * Two ascending orderings of the same triples are the same list, so any
   * correct sort, Python's among them, gives what `Sort` gives.
   */
  lemma {:induction false} SortedUnique(s: seq<Candidate>, t: seq<Candidate>)
    requires Sorted(s) && Sorted(t) && multiset(s) == multiset(t)
    ensures s == t
  {
    if s != [] {
      assert s[0] in multiset(t) && t[0] in multiset(s);
      HeadLeast(s, t[0]);
      HeadLeast(t, s[0]);
      NotAfterAntisymmetric(s[0], t[0]);
      SortedTail(s);
      SortedTail(t);
      MultisetTail(s);
      MultisetTail(t);
      SortedUnique(s[1..], t[1..]);
      assert s == [s[0]] + s[1..] && t == [t[0]] + t[1..];
    } else {
      assert |multiset(t)| == 0;
    }
  }

  /** The head of an ascending list is not after any of its elements. */
  lemma HeadLeast(s: seq<Candidate>, x: Candidate)
    requires Sorted(s) && x in s
    ensures NotAfter(s[0], x)
  {
    var k :| 0 <= k < |s| && s[k] == x;
    if k > 0 {
      assert NotAfter(s[0], s[k]);
    }
  }

  lemma SortedTail(s: seq<Candidate>)
    requires Sorted(s) && s != []
    ensures Sorted(s[1..])
  {
    forall a, b | 0 <= a < b < |s| - 1 ensures NotAfter(s[1..][a], s[1..][b]) {
      assert s[1..][a] == s[a + 1] && s[1..][b] == s[b + 1];
    }
  }

  lemma MultisetTail(s: seq<Candidate>)
    requires s != []
    ensures multiset(s[1..]) == multiset(s) - multiset{s[0]}
  {
    assert s == [s[0]] + s[1..];
  }
}
