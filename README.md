# Lexically constrained beam search: constraint tracking and bank allocation

This project models the core of Sockeye's lexically constrained decoding
(`sockeye/lexical_constraints.py`). It covers three parts, each in its own
module.

- **Hypotheses** (`hypotheses.dfy`). A `ConstrainedHypothesis` holds the
  flattened constraint tokens, one sequential-link flag per token, the met
  flags, the index of the last met token and the end-of-sentence id.
  - It is a datatype `Hypothesis`. Its variant `Null` is the `NullHypothesis`
    padding state.
  - The constructor is the method `New`, with its error path.
  - The queries are `Size`, `NumMet`, `NumNeeded`, `Finished`, `IsValid` and
    `Allowed`.
  - `advance` is the specification function `Advanced`, plus the method
    `Advance` that runs the source's back-out loop.
  - The invariant `Consistent` ties the met flags to the phrase structure, and
    every `Advanced` step keeps it.
- **Banks** (`banks.dfy`). `get_bank_sizes` is the method `GetBankSizes`:
  - it splits the beam evenly over `numConstraints + 1` banks;
  - it then moves slots away from a bank that has too few candidates, to the
    nearest banks that have spare candidates.
- **TopK** (`topk.dfy`). `topk` builds the candidate set from its three
  sources, sorts it by score and pads it to the beam. It then counts the
  candidates in each bank, sizes the banks with `GetBankSizes` and keeps that
  many of each bank, best first. The method `TopK` chains these steps.
  - Building the set is a chain of methods proved equal to `Collected` of the
    proposals.
  - The sort is the function `SortByScore`. `SortAndPad` returns exactly
    `Padded(SortByScore(cands), beamSize)`.
  - Counting, sizing and pruning are methods proved equal to `BankCounts`,
    `BankSizes` and `Kept`.
  - `SelectBeam` returns exactly `Beam`, and `TopK` returns `Beam` of the
    collected proposals, column by column.

Scores are integers rather than floats. The padding score `np.inf` is the
`Infinity` variant of `Score`.

## Model

| member | source | states |
|---|---|---|
| Hypotheses.Initial | sockeye/lexical_constraints.py:38-53 | The fresh hypothesis is well formed and consistent. It has no met constraints and `lastMet == -1`, and its size is the total number of phrase tokens. |
| Hypotheses.New | sockeye/lexical_constraints.py:38-53 | The constructor raises IndexError exactly when the first phrase is empty. Otherwise it returns `Initial`: tokens concatenated, links set inside each phrase, nothing met. |
| Hypotheses.FlattenLayout | sockeye/lexical_constraints.py:44-47 | Token k of phrase p sits at offset(p)+k of the flattened list. Its link flag is set exactly when it is not the last token of its phrase. |
| Hypotheses.NumMet | sockeye/lexical_constraints.py:74-78 | The met count is at most the size, and it equals the size exactly when every flag is met. |
| Hypotheses.NumNeeded | sockeye/lexical_constraints.py:80-84 | The unmet count is at most the size. It is zero exactly when every constraint is met, or when the hypothesis is the Null one. |
| Hypotheses.Finished | sockeye/lexical_constraints.py:108-114 | A hypothesis is finished exactly when nothing is needed, that is, when every constraint is met (Null: always). |
| Hypotheses.Size | sockeye/lexical_constraints.py:68-72 | The size is the number of constraint tokens: one met flag and one link flag per token, and 0 for the Null hypothesis. |
| Hypotheses.IsValid | sockeye/lexical_constraints.py:116-123 | EOS is valid exactly when all constraints are met, and every other word is valid. The Null hypothesis accepts no word (lines 178-179). |
| Hypotheses.UnmetStarts | sockeye/lexical_constraints.py:100-104 | The candidate positions are the unmet positions that start a phrase or follow a non-sequential token: all of them, in increasing order. |
| Hypotheses.Allowed | sockeye/lexical_constraints.py:86-106 | In the middle of a phrase, the result is exactly the next token of that phrase. Otherwise a word is allowed iff it is the token of some unmet, startable position. |
| Hypotheses.AllowedEmptyIffFinished | sockeye/lexical_constraints.py:86-114 | On a consistent hypothesis, the allowed list is empty exactly when the hypothesis is finished. |
| Hypotheses.PhraseStart | sockeye/lexical_constraints.py:148-151 | The back-out walks down to the first token of the phrase that holds the given position. Every token it passes carries a link. |
| Hypotheses.FirstStartFrom | sockeye/lexical_constraints.py:156-163 | The search finds the first unmet startable position holding the word. It returns None exactly when there is no such position. |
| Hypotheses.Advanced | sockeye/lexical_constraints.py:125-167 | Advancing keeps the hypothesis well formed and keeps its tokens, links and EOS id. A Null hypothesis stays Null and a constrained one stays constrained. |
| Hypotheses.Advance | sockeye/lexical_constraints.py:138-167 | The method, including its back-out loop, returns exactly `Advanced(h, w)`. |
| Hypotheses.AdvancePreservesConsistency | sockeye/lexical_constraints.py:138-167 | Every advance of a consistent hypothesis is consistent. The met flags of each phrase stay a met prefix that ends at `lastMet`, or are all equal. |
| Hypotheses.ContinuePhrase | sockeye/lexical_constraints.py:141-145 | Mid-phrase, the expected next token marks exactly that position met and moves `lastMet` on by one. The met count rises by one. |
| Hypotheses.AbandonPhrase | sockeye/lexical_constraints.py:146-152 | Mid-phrase, any other word unmarks exactly the started part of the phrase and resets `lastMet`. The met count falls by that length, and the phrase can be started again. |
| Hypotheses.StartOrKeep | sockeye/lexical_constraints.py:154-165 | Outside a phrase, a word that starts no unmet constraint leaves the hypothesis unchanged. Otherwise the first matching position becomes met and becomes `lastMet`. |
| Hypotheses.AllowedProgress | sockeye/lexical_constraints.py:86-167 | Advancing on any allowed word raises the met count by exactly one. |
| Hypotheses.CompletingWords | sockeye/lexical_constraints.py:86-167 | Every consistent hypothesis has a sequence of `numNeeded` words, each allowed in the state the earlier ones lead to, that finishes it. |
| Hypotheses.AllowedWordsProgress | sockeye/lexical_constraints.py:86-167 | Along any sequence of words each allowed at its step, every word meets one more token. The state stays consistent and keeps its size. |
| Hypotheses.AllowedWordsFinish | sockeye/lexical_constraints.py:86-167 | Every such sequence of `numNeeded` allowed words finishes the hypothesis. |
| Hypotheses.AllowedStepsPrepend | sockeye/lexical_constraints.py:86-167 | A word allowed now, followed by words allowed from the state it leads to, is an allowed sequence. |
| Hypotheses.CountTrueExtremes | sockeye/lexical_constraints.py:78 | The number of met flags equals the length exactly when all flags are set, and is zero exactly when none is. |
| Hypotheses.NullHypothesis | sockeye/lexical_constraints.py:170-182 | The padding state has size 0 and is finished. It accepts no word, allows nothing and is unchanged by every advance. |
| Hypotheses.NullHypothesisAsWritten | sockeye/lexical_constraints.py:175-176 | The constructor call as written ends in IndexError. |
| Hypotheses.PhraseScenario | sockeye/lexical_constraints.py:86-167 | For the phrase [1 2] with EOS 3: 1 then 2 meets both tokens, EOS becomes valid only then, and 1 then 5 returns to the start. |
| Banks.InitialShares | sockeye/lexical_constraints.py:193-198 | The even split has one non-negative share per bank, and the shares sum to the beam size. |
| Banks.NearestOrder | sockeye/lexical_constraints.py:203 | The visiting order holds every other bank exactly once, nearer banks first. Of two equidistant banks the lower index comes first, as the stable sort leaves them. |
| Banks.OrderFromBanks | sockeye/lexical_constraints.py:203 | The banks at distance d or more, listed distance by distance, are exactly the other banks that far away, in nearest-first order. |
| Banks.TransferKeepsBounds | sockeye/lexical_constraints.py:205-209 | A transfer within the receiving bank's spare candidates keeps the total. It changes only banks i and j, and keeps every bank other than i within its bounds. |
| Banks.VisitBank | sockeye/lexical_constraints.py:206-211 | Visiting bank j moves min(|deficit|, capacity) slots from bank i to j when j has spare candidates, and nothing otherwise. The total is kept and bank i never drops below its candidates. |
| Banks.RedistributePass | sockeye/lexical_constraints.py:203-211 | One pass visits the other banks nearest first, lower index first on ties, and its result is exactly that fold of visits. It keeps the total and never takes bank i below its candidates. If bank i still has too many slots after the pass, every other bank is full. |
| Banks.PassSettles | sockeye/lexical_constraints.py:200-209 | If the total fits the candidates, a pass that leaves every other bank full has brought bank i within its candidates. So the while loop needs at most one pass. |
| Banks.SettleBank | sockeye/lexical_constraints.py:200-211 | The while loop for bank i gives exactly `Settle`: no pass when the bank is within its candidates, else one nearest-first pass. Bank i is then settled and later banks are still pending. The total stays the beam size. |
| Banks.GetBankSizes | sockeye/lexical_constraints.py:185-213 | The result is exactly `BankSizes`: the even split, then banks settled in index order. The sizes sum to the beam size and no bank gets more than its candidates. A bank with fewer candidates than its share gets exactly its candidates; the others keep at least their share. Sizes are non-negative for non-negative counts. |
| Banks.NearestBankFirst | sockeye/lexical_constraints.py:200-211 | Two constraints, beam 3, counts [0, 5, 5]: bank 0's slot goes to the nearer bank 1, giving [0, 2, 1]. |
| Banks.LowerBankOnTies | sockeye/lexical_constraints.py:203-205 | Two constraints, beam 3, counts [5, 0, 5]: banks 0 and 2 are equally near bank 1, and the slot goes to the lower one, giving [2, 0, 1]. |
| Banks.ShortSupplyNeverFits | sockeye/lexical_constraints.py:200-211 | With fewer candidates than beam slots, every allotment that sums to the beam size leaves some bank above its candidates. No result can then meet the bounds GetBankSizes ensures, which is why it requires enough candidates. |
| Banks.BankSizesExample | sockeye/lexical_constraints.py:185-213 | One constraint, beam 4, counts [1, 5]: the sizes are [1, 3]. |
| TopK.SameKeyEquivalence | sockeye/lexical_constraints.py:224-228 | Candidate equality is an equivalence on (row, col): reflexive, symmetric and transitive, and blind to score and state. |
| TopK.Padding | sockeye/lexical_constraints.py:300 | The padding candidate is row 0, word 0, with an infinite score. Its state is in bank 0 and accepts no word. |
| TopK.Add | sockeye/lexical_constraints.py:270 | `set.add` keeps what the set holds, adds at most one entry, and leaves the key present. A new key is appended as given. |
| TopK.AddAll | sockeye/lexical_constraints.py:259-294 | Adding a list of candidates keeps what the set held and adds at most one entry per candidate. |
| TopK.Collected | sockeye/lexical_constraints.py:259-294 | The set holds at most as many entries as there were proposals. |
| TopK.StaysAdded | sockeye/lexical_constraints.py:270 | An entry of the set is still there after any add. |
| TopK.CollectedIsSet | sockeye/lexical_constraints.py:224-228 | The candidate set has no two entries with the same (row, col), and holds only proposed candidates. |
| TopK.CollectedHasEveryKey | sockeye/lexical_constraints.py:224-228 | Every proposed (row, col) is represented in the set. |
| TopK.CollectedFirstWins | sockeye/lexical_constraints.py:224-228 | A proposal whose key was not proposed before is in the set as is. Later duplicates do not replace it. |
| TopK.AddAllConcat | sockeye/lexical_constraints.py:261-294 | Adding the proposals of the first loop and then those of the second gives the set of all proposals in order. |
| TopK.ArgMin | sockeye/lexical_constraints.py:274 | The best word of a row has the minimal score there, and no earlier column has that score. |
| TopK.AllowedInVocab | sockeye/lexical_constraints.py:282 | Every allowed word is a constraint token, so it is a column of the row when the constraints are in the vocabulary. |
| TopK.NextWordsInRow | sockeye/lexical_constraints.py:282-287 | Every word a row proposes indexes its score row. |
| TopK.BestProposalShape | sockeye/lexical_constraints.py:261-270 | Every candidate from source (1) comes from a best item whose word its row's hypothesis accepts. Its state is that hypothesis advanced on the word. |
| TopK.RowProposalShape | sockeye/lexical_constraints.py:272-294 | Every candidate from sources (2, 3) belongs to an active row. Its word is allowed there or is the row's valid best word, its score is the row's score for that word, and its state is the advanced hypothesis. |
| TopK.ProposalsBanked | sockeye/lexical_constraints.py:303-305 | Every proposal has a finite score and a constrained state. Its met count is at most the first hypothesis's size, so the bank index stays in range. |
| TopK.AddBest | sockeye/lexical_constraints.py:261-270 | The first loop adds exactly the source (1) proposals to the set, in order. |
| TopK.AddWords | sockeye/lexical_constraints.py:290-294 | The inner loop adds one candidate per proposed word, in order. |
| TopK.AddRow | sockeye/lexical_constraints.py:276-294 | An inactive row adds nothing. An active row adds its allowed words, then its best word if valid. |
| TopK.AddRows | sockeye/lexical_constraints.py:275-294 | The row loop adds exactly the source (2, 3) proposals, row by row. |
| TopK.BuildCandidates | sockeye/lexical_constraints.py:261-294 | The set built is the collection of all proposals in order. |
| TopK.Insert | sockeye/lexical_constraints.py:296 | Insertion adds exactly one element, as a multiset. |
| TopK.SortByScore | sockeye/lexical_constraints.py:296 | The sort is a permutation of the set. |
| TopK.SortSorted | sockeye/lexical_constraints.py:296 | The sorted list is in non-decreasing score order. |
| TopK.SortKeepsKeysDistinct | sockeye/lexical_constraints.py:296 | Sorting keeps the keys distinct. |
| TopK.Padded | sockeye/lexical_constraints.py:298-300 | Padding gives a list of at least the beam size that starts with the input and continues with the padding candidate only. |
| TopK.PaddedSorted | sockeye/lexical_constraints.py:298-300 | Padding a sorted list keeps it sorted, because the padding scores above everything. |
| TopK.PaddedDistinct | sockeye/lexical_constraints.py:298-300 | Padding a list of distinct keys leaves its real candidates' keys distinct. |
| TopK.PadToBeam | sockeye/lexical_constraints.py:298-300 | The padding loop returns exactly `Padded`. It keeps the order and the distinct keys of its real candidates. |
| TopK.RankedFrom | sockeye/lexical_constraints.py:296-300 | The sorted, padded list starts with exactly |cands| set members and contains every member of the set. |
| TopK.RankedBanked | sockeye/lexical_constraints.py:296-305 | Every entry of the sorted, padded list falls in a bank, the padding in bank 0. |
| TopK.CountBanks | sockeye/lexical_constraints.py:302-305 | The counts are the number of candidates with each met count. |
| TopK.BankCountsSum | sockeye/lexical_constraints.py:302-305 | The bank counts sum to the list length. |
| TopK.Prune | sockeye/lexical_constraints.py:315-322 | The pruning loop keeps exactly the candidates that still have room in their bank. |
| TopK.KeptPerBank | sockeye/lexical_constraints.py:315-322 | From each bank, pruning keeps min(size, count) candidates. |
| TopK.KeptLength | sockeye/lexical_constraints.py:315-327 | When every size is within its count, exactly the sum of the sizes survives. So the re-padding at lines 325-327 never runs. |
| TopK.KeptAreBest | sockeye/lexical_constraints.py:315-322 | Within a bank, a kept candidate comes before a dropped one and scores no worse. |
| TopK.KeptSorted | sockeye/lexical_constraints.py:315-322 | Pruning keeps the score order. |
| TopK.KeptDistinct | sockeye/lexical_constraints.py:315-322 | Pruning keeps the real candidates' keys distinct. |
| TopK.KeptBeam | sockeye/lexical_constraints.py:315-322 | With sizes within the counts, pruning a sorted list keeps exactly `bank_sizes[b]` candidates of each bank, sum-of-sizes in all, sorted and with distinct keys. |
| TopK.KeptFrom | sockeye/lexical_constraints.py:315-322 | Every pruned candidate was kept at some position of the list, where its bank still had room. |
| TopK.KeepsKept | sockeye/lexical_constraints.py:315-322 | A candidate whose bank still has room at its position is in the pruned list. |
| TopK.Slots | sockeye/lexical_constraints.py:302-310 | The bank sizes have one entry per bank. |
| TopK.Beam | sockeye/lexical_constraints.py:296-322 | Every entry of the pruned beam is a set member or the padding candidate. |
| TopK.BeamKeepsBest | sockeye/lexical_constraints.py:315-322 | Within a bank, every candidate in the beam scores no worse than every candidate of the set that the beam leaves out. |
| TopK.CandidateSetBanked | sockeye/lexical_constraints.py:257-305 | The collected set is keyed by (row, col), drawn from the proposals, and every entry falls in a bank. |
| TopK.SortAndPad | sockeye/lexical_constraints.py:296-300 | The result is exactly the set sorted by score and padded to the beam: a sorted, banked list of at least the beam size. With at least `beam_size` members, no padding is added. |
| TopK.SelectBeam | sockeye/lexical_constraints.py:296-327 | The result is exactly `Beam`, of the beam size. Bank b holds exactly its `bank_sizes[b]`, sorted by score. Each slot is a set member or a placeholder, only set members when the set fills the beam, and no two real slots share a key. |
| TopK.ProposedBeam | sockeye/lexical_constraints.py:257-327 | The beam built from the inputs is exactly `Beam` of the collected proposals, with each bank at its allotted size. It is sorted, holds only proposals and padding, and holds no padding when there are at least `beam_size` distinct proposals. |
| TopK.Columns | sockeye/lexical_constraints.py:329-333 | Slot k of the four returned columns is the k-th candidate of the beam. |
| TopK.TopK | sockeye/lexical_constraints.py:234-333 | The returned columns are the pruned beam, slot by slot, and each bank holds exactly the size get_bank_sizes allots it. The beam is full and sorted by score, and `inactive` is returned unchanged. Every slot holds the padding candidate or a proposed candidate with its advanced state; once there are at least `beam_size` distinct proposals, no padding survives. No (row, col) appears twice among real candidates. |

## Left out

- `main` and `__str__` (both classes) are not modelled. They only do I/O and formatting.
- The timing and logging calls in `topk` are left out. They have no effect on the result.
- The MXNet and NumPy conversions (`asscalar`, `np.array`, the device context) are left out. Score rows are `seq<int>`, the result columns are sequences, and `zip(best_ids, best_word_ids, sequence_scores)` is a list of `Best(row, col, score)` records.
- Floating-point scores are modelled as integers. `np.inf` is the `Infinity` variant, which compares above every finite score.
- TopK.ArgMin: on ties, `mx.ndarray.argmin` is taken to return the lowest index. MXNet's own kernel is not part of this model.
- Python's set iteration order is unspecified, and CPython iterates in hash order. The model keeps the candidate set in insertion order, with the first entry of a (row, col) kept, and `sorted` is a stable insertion sort. Among candidates with equal scores, the model's order can therefore differ from CPython's. So can the choice of which ones a bank keeps when its cut falls between them.
- TopK: the final re-padding loop (lines 325-327) is not in the method body. KeptLength proves that exactly `beam_size` candidates survive, so the loop never runs.
- Banks.Settle: the while loop of lines 202-211 is modelled as at most one pass. PassSettles shows one pass always suffices when the candidates cover the beam, which GetBankSizes requires.
- Banks.GetBankSizes: requires at least `beam_size` candidates in total. With fewer, the source's while loop never ends (ShortSupplyNeverFits). `topk` always passes at least `beam_size`, because it pads before counting.
- TopK.TopK: the source fails on several inputs. As written, `NullHypothesis()` raises IndexError whenever the beam is padded (line 300); the model uses the intended sentinel (see Findings). With fewer than `beam_size` rows it fails at `inactive[row]`, `hypotheses[row]` or `best_next[row]` (lines 276, 279, 285). It also fails on a best item that names a missing row (line 267), a proposed column outside its score row (line 292), and a candidate whose met count exceeds `hypotheses[0].size()` (line 305).
- TopK.TopK: the model's requires go beyond those failure points in three ways. Every hypothesis must have at most as many constraints as the first. Every constraint token of an active row must be a column of that row, already-met tokens included. Every row, inactive ones included, must hold a well-formed hypothesis and a non-empty score row.
- TopK.TopK: these requires hold when every row's hypothesis is built from the same constraint list, with the Null padding at size 0. Inputs outside them on which the source still runs are not modelled, for example a row with more constraints than row 0 whose candidates stay in low banks.
- `__len__` and `size` are one function, `Size`.
- `copy.deepcopy` in `advance` is implicit, because hypotheses are values.

## Findings

| source | as written | input that shows it | evidently intended | confidence | as-written member | corrected member |
|---|---|---|---|---|---|---|
| sockeye/lexical_constraints.py:175-176 | `NullHypothesis()` passes the phrase list `([], [])`. The first empty phrase reaches `self.is_sequence[-1] = 0` (line 47) on an empty list. | `NullHypothesis()`, as called for every padding slot at line 300 | A state with no constraints that is always finished and never valid | high; not executed | Hypotheses.NullHypothesisAsWritten | Hypotheses.NullHypothesis |

An empty phrase list gives zero constraints. A list whose first phrase is
empty raises IndexError at line 47. An empty phrase after a non-empty one
passes silently, because it rewrites a flag that is already clear.
`Hypotheses.New` follows the code.
