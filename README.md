# Truth matching of a four-top analysis, in Dafny

This project models the truth-matching logic of `analysis/analyse.py`. The logic has two parts.

- **Decay-chain resolver** (`get_daughters`, `get_last`, `get_top_daughters`, `find_partons`).
  - An event's generator record is a flat list of particles. Each particle has a PID code, a status code and an inclusive daughter index range `D1..D2`.
  - The resolver picks the two status-62 top quarks, puts the +6 one first, and splits each top into a b quark and a W boson.
  - It walks every particle past its radiation copies: `get_last` keeps stepping to a daughter with the same PID while a condition holds.
  - It returns six partons in the order `[b_m, q0, q1, b_p, q2, q3]`.
- **Greedy jet–parton matcher** (`_perform_jet_parton_matching`, plus the per-event inversion, per-jet labels and mask of `perform_jet_parton_matching`).
  - It builds every `(distance, parton, jet)` triple, sorts the triples, then repeatedly takes the head triple.
  - Each step records the head's parton with its jet, or with -1 when the distance exceeds `max_distance` (default 0.3). It then deletes in place every remaining triple that shares that parton or that jet.
  - Inverting the resulting dict gives one label per jet: the parton index, or -1. The event mask says that no parton got -1.

Modules:

- `Results` (`results.dfy`): the success-or-error value that stands for the exceptions the code raises.
- `DecayChain` (`decay_chain.dfy`): the resolver.
  - A particle is its index into a `seq<Particle>`.
  - `Daughters` reproduces Python's slice rules, including negative indices and clamping.
  - `LastOf` is the walk as a function. `GetLast` is the source's loop, proved equal to it.
  - `FindPartons` chains the steps with `:-` in the source's evaluation order, so the first failing step decides the error.
- `CandidateOrder` (`candidate_order.dfy`): the triples, Python's lexicographic tuple order, and `sorted`.
- `JetPartonMatching` (`jet_parton_matching.dfy`): the matcher.
  - `Greedy`/`Matching` are the specification functions.
  - `BuildCandidates`, `RemoveSharing` and `PerformJetPartonMatching` are the source's loops, each proved equal to its specification function.
  - The dict `match` is an insertion-ordered `seq<Entry>`; `Put` is `match[p] = j`.
- `MatchingProperties` (`matching_properties.dfy`): what the matcher guarantees.
  - It rests on the loop invariant `Consistent`: the list is sorted, it holds exactly the triples whose parton and jet are both still free, and every entry made so far was the greedy choice.
- `JetLabels` (`jet_labels.dfy`): the jet-to-parton inversion, the per-jet label list and the mask.

The source's `find_partons` checks only that exactly two particles have `|PID| == 6` and status 62. It does not check that one is +6 and the other −6. With two +6 tops, no swap happens and both are used as they come. The comment `# t and tbar` at analysis/analyse.py:71 and the names `t_p, t_m` show that one top and one antitop are expected, but the model follows the code. `SelectTops` promises the +6 top first when the two PIDs differ. When they are equal, two +6 tops stay in record order, and two −6 tops are swapped, because the first one has PID −6.

## Model

| member | source | states |
|---|---|---|
| DecayChain.Daughters | analysis/analyse.py:13-18 | The daughter slice `D1 : D2 + 1` gives consecutive in-range indices. With `0 <= D1` and `-1 <= D2 < len`, these are exactly `D1..D2`. The Delphes "no daughters" marker `D1 = D2 = -1` gives none. |
| DecayChain.LastOf | analysis/analyse.py:21-49 | On success, `get_last` returns a particle at or after its start with the same PID, at which the walk is settled. The only error is a single daughter whose PID differs, while the condition holds on its parent. |
| DecayChain.GetLast | analysis/analyse.py:21-49 | The `while` loop that reassigns `last` returns exactly what `LastOf` specifies, the `RuntimeError` included. |
| DecayChain.LastOfStaysIff | analysis/analyse.py:26-47 | The walk returns its start unchanged if and only if one of these holds there: the condition fails; there are two daughters and neither keeps the PID; the daughter count is neither 1 nor 2. |
| DecayChain.LastOfPrefersFirst | analysis/analyse.py:36-40 | When both of two daughters keep the PID, the walk continues from the first. |
| DecayChain.LastOfLineage | analysis/analyse.py:25-49 | The walk follows a chain of daughter links through particles of one PID, and the condition held at every particle it left. |
| DecayChain.LastOfDescends | analysis/analyse.py:25-49 | The particle `get_last` returns descends from the one it started at. |
| DecayChain.TopCandidates | analysis/analyse.py:70-72 | `event.Particle[top_mask]` keeps, in record order, exactly the particles with `abs(PID) == 6` and `Status == 62`. |
| DecayChain.SelectTops | analysis/analyse.py:70-74 | Unpacking into `t_p, t_m` fails exactly when the mask does not select two particles. On success, the pair is both selected tops, the only ones, and +6 comes first whenever the PIDs differ. With equal PIDs, the record order is kept for two +6 tops and reversed for two −6 tops. |
| DecayChain.DaughterPair | analysis/analyse.py:89-90 | Unpacking daughters into a pair fails exactly when there are not two. Otherwise the pair is the daughter list. |
| DecayChain.GetTopDaughters | analysis/analyse.py:61-67 | Fails exactly when the top does not have two daughters. Otherwise it returns both daughters as (b, W), the first daughter as b and the second as W if the first's abs(PID) is 5, the second as b and the first as W otherwise, and a b quark as b whenever either daughter is one. |
| DecayChain.TopDecays | analysis/analyse.py:72-80 | The two tops' daughters (b_m, W+, b_p, W−) are record indices. |
| DecayChain.WDecay | analysis/analyse.py:89-90 | The two quarks of a walked W are record indices. |
| DecayChain.WalkBottoms | analysis/analyse.py:82-85 | The walked b_m and b_p are record indices. |
| DecayChain.WDecays | analysis/analyse.py:89-90 | The unpacked quarks of W+ and then W− are record indices. |
| DecayChain.WalkQuarks | analysis/analyse.py:92-94 | The walked q0, q1, q2 and q3 are record indices. |
| DecayChain.FindPartons | analysis/analyse.py:69-96 | The six resolved partons are record indices. |
| DecayChain.FindPartonsNeedsTwoTops | analysis/analyse.py:70-72 | `find_partons` fails at the top unpacking, with the count found, unless exactly two particles are status-62 tops. |
| DecayChain.FindPartonsLineage | analysis/analyse.py:69-96 | On success: b_m, q0, q1 descend from `t_p` and b_p, q2, q3 from `t_m`. Each b is a b quark when its top has one among its daughters. All six are where the `Status != 23` walk stops. |
| DecayChain.TopHalf | analysis/analyse.py:77-85 | A top's walked b descends from the top, is settled, and is a b quark when the top has a b daughter. |
| DecayChain.WHalf | analysis/analyse.py:87-94 | Both walked quarks of a top's W descend from the top and are settled. |
| CandidateOrder.NotAfterTotal | analysis/analyse.py:110 | Python's tuple order on the triples is total. |
| CandidateOrder.NotAfterAntisymmetric | analysis/analyse.py:110 | Two triples that are each not after the other are equal. |
| CandidateOrder.Insert | analysis/analyse.py:110 | Inserting into an ascending list keeps it ascending and adds exactly the one triple. |
| CandidateOrder.Sort | analysis/analyse.py:110 | `sorted` returns an ascending permutation of its input. |
| CandidateOrder.SortMembers | analysis/analyse.py:110 | `sorted` keeps exactly the triples it was given. |
| CandidateOrder.SortedUnique | analysis/analyse.py:110 | Two ascending permutations of the same triples are the same list, so every correct sort gives `Sort`'s result. |
| JetPartonMatching.Put | analysis/analyse.py:117 | Dict assignment: a new key is appended at the end; the key set gains exactly `p`; `p` maps to `j`; every other parton's entry is kept, and nothing else is added. Reassigning an existing key keeps the dict's length. |
| JetPartonMatching.CandidateRowsComplete | analysis/analyse.py:102-108 | The double loop appends a triple if and only if it is a parton, a jet and their distance. |
| JetPartonMatching.CandidateRowsMember | analysis/analyse.py:102-108 | One triple is among those the double loop appends if and only if it is a parton, a jet and their distance. |
| JetPartonMatching.CandidateRowComplete | analysis/analyse.py:104-108 | The inner loop appends one triple per jet, exactly that parton's triples. |
| JetPartonMatching.CandidateRowMember | analysis/analyse.py:104-108 | One triple is among those the inner loop appends for a parton if and only if it belongs to that parton and a jet of the list. |
| JetPartonMatching.BuildCandidates | analysis/analyse.py:102-108 | The nested loops build the parton-major list of all triples. |
| JetPartonMatching.RemoveSpec | analysis/analyse.py:119-126 | The deletion pass (`Remove`) keeps exactly the triples that share neither the parton nor the assigned value, in order. It shrinks the list whenever the head shares and keeps an ascending list ascending. |
| JetPartonMatching.RemoveSnoc | analysis/analyse.py:121-126 | One more triple through the deletion pass is dropped if it shares the parton or the value, and kept at the end otherwise. |
| JetPartonMatching.RemoveSharing | analysis/analyse.py:119-126 | The in-place `pop(idx)` loop leaves exactly `Remove`'s list. |
| JetPartonMatching.PerformJetPartonMatching | analysis/analyse.py:98-127 | The method returns exactly `Matching` of the distance matrix: the dict, or the failure of `distance_idx_list[0]` on an empty list. |
| MatchingProperties.UnmatchedFreesEveryJet | analysis/analyse.py:115-126 | A -1 assignment takes only its parton: a triple is still free afterwards if and only if it was free before and has another parton. |
| MatchingProperties.InitiallyConsistent | analysis/analyse.py:102-112 | The sorted list of all triples and the empty dict satisfy the loop invariant. |
| MatchingProperties.Step | analysis/analyse.py:113-126 | One iteration keeps the loop invariant. The new entry's parton had no entry, and the entry is the greedy choice. |
| MatchingProperties.GreedyHistory | analysis/analyse.py:112-126 | From any state meeting the invariant, a successful run ends with one entry per parton, each the greedy choice when made. |
| MatchingProperties.MatchingHistory | analysis/analyse.py:98-127 | The matcher's result has `len(parton_list)` entries, each the greedy choice when made. |
| MatchingProperties.ChoiceFresh | analysis/analyse.py:113-126 | Each entry's parton, and its jet unless -1, appears in no earlier entry, because every triple sharing them was deleted. |
| MatchingProperties.FreshPartonsCard | analysis/analyse.py:117 | A dict whose entries never repeat an earlier parton has as many keys as entries. |
| MatchingProperties.FreshJetsCard | analysis/analyse.py:117 | A dict whose entries never repeat an earlier value has as many values as entries. |
| MatchingProperties.HistoryCard | analysis/analyse.py:113-117 | A greedy history assigns distinct partons, and distinct jets when none is -1. |
| MatchingProperties.MatchingComplete | analysis/analyse.py:112-117 | The result's keys are exactly the parton indices `0..len(parton_list)-1`, each once. |
| MatchingProperties.KeysExactly | analysis/analyse.py:113 | A dict with n distinct keys, all below n, has exactly the keys 0..n-1. |
| MatchingProperties.MatchingInjective | analysis/analyse.py:115-126 | No jet index other than -1 is given to two partons. |
| MatchingProperties.HistoryInRange | analysis/analyse.py:114-117 | Every entry of a greedy history names a parton of the list, and every value other than -1 names a jet of the list. |
| MatchingProperties.MatchingWithinDistance | analysis/analyse.py:114-117 | Every matched pair has distance at most `max_distance`. |
| MatchingProperties.MatchingAscending | analysis/analyse.py:110-117 | Entries are made in ascending (distance, parton, jet) order. Once a parton gets -1, every later parton gets -1. |
| MatchingProperties.ChoiceBefore | analysis/analyse.py:110-117 | The triple taken later was already free at an earlier step, so the earlier step matched a jet and took a triple not after it. |
| MatchingProperties.MatchingGreedy | analysis/analyse.py:110-126 | Each matched entry took the smallest triple whose parton and jet were both free. A -1 entry was made only when every free triple was beyond `max_distance`. |
| MatchingProperties.GreedyOkWhenJetsSuffice | analysis/analyse.py:112-114 | From the invariant, with at least as many jets as partons, the candidate list never runs out. |
| MatchingProperties.MatchingOkWhenJetsSuffice | analysis/analyse.py:112-114 | With at least as many jets as partons the matcher succeeds. |
| MatchingProperties.MatchedAtMostJets | analysis/analyse.py:113-117 | A greedy history with no -1 entry has no more entries than there are jets. |
| MatchingProperties.GreedyErrWhenJetsRunOut | analysis/analyse.py:113-117 | From the invariant, if every distance is within the threshold and jets are fewer than partons, the list runs out. |
| MatchingProperties.MatchingErrWhenJetsRunOut | analysis/analyse.py:113-117 | With fewer jets than partons, all close enough to match, `distance_idx_list[0]` fails. This includes the case of no jets. |
| JetLabels.JetToParton | analysis/analyse.py:144-147 | The inverted dict's keys are exactly the dict's values. Each maps to a parton that was given it. The last item wins. |
| JetLabels.Labels | analysis/analyse.py:149-152 | One label per jet. A label is -1 exactly when no parton was given that jet; otherwise it is a parton that was given it. |
| JetLabels.FullyMatched | analysis/analyse.py:154-155 | The mask is true exactly when no entry's value is -1. |
| JetLabels.MatchingLabels | analysis/analyse.py:144-152 | On the matcher's result: jet j is labelled p if and only if parton p was given j; j is labelled -1 if and only if no parton was given j; no parton labels two jets. |
| JetLabels.SameJetSameParton | analysis/analyse.py:144-147 | In the matcher's result, two entries holding the same jet have the same parton. |
| JetLabels.SameParton | analysis/analyse.py:144-147 | In the matcher's result, two entries for the same parton hold the same value. |
| JetLabels.MatchingMask | analysis/analyse.py:149-155 | The mask is true if and only if every parton index labels some jet. |
| JetLabels.EventOutput | analysis/analyse.py:134-155 | One event with the default `max_distance` of 0.3 (line 100). It succeeds exactly when the matcher does, and always when there are at least as many jets as partons. On success, there is one label per jet. Jet j is labelled p exactly when the matcher gave parton p jet j, and −1 exactly when no parton got j. The mask is true exactly when no parton got −1, which is the same as every parton labelling some jet. |
| JetLabels.FullyMatchedLabelsAll | analysis/analyse.py:149-155 | When no parton got -1, every parton index appears among the labels. |
| JetLabels.UnmatchedNotLabelled | analysis/analyse.py:149-155 | A parton given -1 labels no jet. |

## Left out

- `run` and `main`: file reading and writing, selection cuts on floating-point quantities, progress printing and argument parsing. This is I/O over libraries outside the model.
- `convert_particle_list_to_array`: unused record-to-array conversion through reflection on field names.
- `parton.delta_r(jet)`: a floating-point method of an external library. The distance of parton p to jet j is the input `dist[p][j]`.
- Distances are `real`. Floating-point rounding and NaN are not modelled. With NaN, Python's tuple order is not total, and both the sort and the threshold test behave differently.
- The `tqdm` progress wrappers.
- The batch level of `perform_jet_parton_matching`: the comprehensions and `zip` over all events, and the assembly of awkward and numpy arrays. Each event's labels and mask are modelled as a `seq<int>` and a `bool`.
- The generation job configuration under `generation/`: framework parameters only, with no algorithm.
- Particles carry only PID, status, D1 and D2. The other record fields play no part in the logic.
- LastOf: requires that a daughter keeping its mother's PID sits after its mother (`RadiationForward`), so that the walk ends. The requirement covers the whole record. It also excludes records with a backward same-PID link but no cycle, and records whose backward link is one the walk never reaches. On those records the source's walk ends: it returns, or raises at a single daughter with another PID. Only on a cycle does its loop never return. All such records are outside the model, and so is every member that walks.
- GetTopDaughters: an empty daughter list fails at `daughters[0]` with an index error, and a list of another length fails at the unpacking. Both are the one error `NotTwoDaughters`.
- Sort: Python's `sorted` is represented by an insertion sort. `SortedUnique` shows that every sort producing an ascending permutation gives the same list.
- CandidateRowsComplete: states which triples the loop appends, not the total count `len(parton_list) * len(jet_list)`. Each row's count is stated by `CandidateRowComplete`.
- MatchingErrWhenJetsRunOut: covers fewer jets than partons only when every distance is within `max_distance`. When some distances exceed it, -1 entries consume no jet, and whether the list runs out depends on the distances.
- Python's dict is an insertion-ordered sequence of entries. `Put` keeps Python's order rules, which decide which item wins when the dict is inverted.
