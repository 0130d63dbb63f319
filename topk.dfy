/**
 * One step of lexically constrained beam search (Candidate and topk in
 * sockeye/lexical_constraints.py): gather candidate extensions of the beam
 * from three sources, deduplicate them on (row, col), sort them by score, pad
 * to the beam size, and keep in each bank (number of constraint tokens met)
 * its best candidates, as many as get_bank_sizes allots.
 */
module TopK {
  import opened Hypotheses
  import opened Banks

  // ---------------------------------------------------------------------------
  // Scores and candidates
  // ---------------------------------------------------------------------------

  /** Only comparisons of scores matter; the padding score is +infinity. */
  datatype Score = Finite(value: int) | Infinity

  predicate ScoreLe(a: Score, b: Score)
  {
    b.Infinity? || (a.Finite? && a.value <= b.value)
  }

  /** A proposed extension: beam row, next word, its score, and the constraint state after it. */
  datatype Candidate = Candidate(row: int, col: int, score: Score, state: Hypothesis)

  /** One entry of the zipped (best_ids, best_word_ids, sequence_scores) lists. */
  datatype Best = Best(row: int, col: int, score: int)

  /** Candidate equality (and hash): two candidates are the same when row and column agree. */
  predicate SameKey(a: Candidate, b: Candidate)
  {
    a.row == b.row && a.col == b.col
  }

  /**
   * Candidate equality is an equivalence on (row, col) alone: the score and
   * the hypothesis state play no part.
   */
  lemma SameKeyEquivalence(a: Candidate, b: Candidate, c: Candidate, score: Score, state: Hypothesis)
    ensures SameKey(a, Candidate(a.row, a.col, score, state))
    ensures SameKey(a, b) <==> SameKey(b, a)
    ensures SameKey(a, b) && SameKey(b, c) ==> SameKey(a, c)
  {
  }

  /**
   * The candidate appended to fill the beam: row 0, word 0, an infinite
   * score, and the null hypothesis, which sits in bank 0 and accepts no word.
   */
  function Padding(): (c: Candidate)
    ensures c.row == 0 && c.col == 0 && c.score == Infinity
    ensures WellFormed(c.state) && NumMet(c.state) == 0 && forall w :: !IsValid(c.state, w)
  {
    Candidate(0, 0, Infinity, NullHypothesis())
  }

  predicate Sorted(cs: seq<Candidate>)
  {
    forall k, l :: 0 <= k < l < |cs| ==> ScoreLe(cs[k].score, cs[l].score)
  }

  predicate DistinctKeys(cs: seq<Candidate>)
  {
    forall k, l :: 0 <= k < l < |cs| ==> !SameKey(cs[k], cs[l])
  }

  /** No two candidates other than padding share a (row, col). */
  predicate DistinctReal(cs: seq<Candidate>)
  {
    forall k, l :: 0 <= k < l < |cs| && cs[k] != Padding() && cs[l] != Padding() ==> !SameKey(cs[k], cs[l])
  }

  // ---------------------------------------------------------------------------
  // The candidate set
  // ---------------------------------------------------------------------------

  predicate HasKey(s: seq<Candidate>, c: Candidate)
  {
    exists k :: 0 <= k < |s| && SameKey(s[k], c)
  }

  /** set.add: a candidate whose (row, col) is already present leaves the set as it is. */
  function Add(s: seq<Candidate>, c: Candidate): (r: seq<Candidate>)
    ensures |s| <= |r| <= |s| + 1 && r[..|s|] == s
    ensures HasKey(r, c)
    ensures HasKey(s, c) ==> r == s
    ensures !HasKey(s, c) ==> r[|s|] == c
  {
    if HasKey(s, c) then s
    else
      assert SameKey((s + [c])[|s|], c);
      s + [c]
  }

  /** The set s after adding the candidates of ps in turn. */
  function AddAll(s: seq<Candidate>, ps: seq<Candidate>): (r: seq<Candidate>)
    ensures |s| <= |r| <= |s| + |ps| && r[..|s|] == s
  {
    if ps == [] then s
    else
      var prev := AddAll(s, ps[..|ps| - 1]);
      var r := Add(prev, ps[|ps| - 1]);
      assert r[..|s|] == r[..|prev|][..|s|];
      r
  }

  /** The set built from empty by adding the candidates of ps in turn, kept in insertion order. */
  function Collected(ps: seq<Candidate>): (r: seq<Candidate>)
    ensures |r| <= |ps|
  {
    AddAll([], ps)
  }

  /** Adding a + b is adding a, then b. */
  lemma {:induction false} AddAllConcat(s: seq<Candidate>, a: seq<Candidate>, b: seq<Candidate>)
    ensures AddAll(s, a + b) == AddAll(AddAll(s, a), b)
  {
    if b == [] {
      assert a + b == a;
    } else {
      var init := b[..|b| - 1];
      assert (a + b)[..|a + b| - 1] == a + init;
      AddAllConcat(s, a, init);
    }
  }

  lemma AddAllSnoc(s: seq<Candidate>, ps: seq<Candidate>, c: Candidate)
    ensures AddAll(s, ps + [c]) == Add(AddAll(s, ps), c)
  {
    assert (ps + [c])[..|ps|] == ps;
  }

  /** The set holds no two candidates with one key, and only candidates that were added. */
  lemma {:induction false} CollectedIsSet(ps: seq<Candidate>)
    ensures DistinctKeys(Collected(ps))
    ensures forall k :: 0 <= k < |Collected(ps)| ==> Collected(ps)[k] in ps
  {
    if ps != [] {
      var init := ps[..|ps| - 1];
      CollectedIsSet(init);
      var c := ps[|ps| - 1];
      if !HasKey(Collected(init), c) {
        var r := Collected(init) + [c];
        forall k, l | 0 <= k < l < |r|
          ensures !SameKey(r[k], r[l])
        {
          if l == |r| - 1 {
            assert r[k] == Collected(init)[k];
          }
        }
      }
    }
  }

  /** Every key that was added is in the set. */
  lemma {:induction false} CollectedHasEveryKey(ps: seq<Candidate>)
    ensures forall j :: 0 <= j < |ps| ==> HasKey(Collected(ps), ps[j])
  {
    if ps != [] {
      var init := ps[..|ps| - 1];
      CollectedHasEveryKey(init);
      var c := ps[|ps| - 1];
      var r := Collected(ps);
      forall j | 0 <= j < |ps|
        ensures HasKey(r, ps[j])
      {
        if j < |ps| - 1 {
          assert ps[j] == init[j];
          var k :| 0 <= k < |Collected(init)| && SameKey(Collected(init)[k], ps[j]);
          assert r[k] == Collected(init)[k];
        } else if !HasKey(Collected(init), c) {
          assert r[|r| - 1] == c;
        }
      }
    }
  }

  /**
   * First one wins: a candidate whose key no earlier candidate had is in the
   * set, so the candidate the set holds for a key is the first one added with
   * it.
   */
  lemma {:induction false} CollectedFirstWins(ps: seq<Candidate>)
    ensures forall j :: 0 <= j < |ps| && FirstOfKey(ps, j) ==> ps[j] in Collected(ps)
  {
    if ps != [] {
      var init := ps[..|ps| - 1];
      CollectedFirstWins(init);
      var c := ps[|ps| - 1];
      forall j | 0 <= j < |ps| && FirstOfKey(ps, j)
        ensures ps[j] in Collected(ps)
      {
        if j < |ps| - 1 {
          FirstOfKeyPrefix(ps, j);
          StaysAdded(Collected(init), c, ps[j]);
        } else {
          assert forall i :: 0 <= i < |init| ==> init[i] == ps[i];
          NoEarlierKey(init, c);
        }
      }
    }
  }

  /** No candidate before position j has the key of ps[j]. */
  predicate FirstOfKey(ps: seq<Candidate>, j: nat)
    requires j < |ps|
  {
    forall i :: 0 <= i < j ==> !SameKey(ps[i], ps[j])
  }

  lemma FirstOfKeyPrefix(ps: seq<Candidate>, j: nat)
    requires j < |ps| - 1 && FirstOfKey(ps, j)
    ensures ps[..|ps| - 1][j] == ps[j] && FirstOfKey(ps[..|ps| - 1], j)
  {
    assert forall i :: 0 <= i <= j ==> ps[..|ps| - 1][i] == ps[i];
  }

  /** What the set holds stays in it. */
  lemma StaysAdded(s: seq<Candidate>, c: Candidate, x: Candidate)
    requires x in s
    ensures x in Add(s, c)
  {
    var k :| 0 <= k < |s| && s[k] == x;
    assert Add(s, c)[..|s|][k] == x;
  }

  /** A key none of ps had is not in their set. */
  lemma NoEarlierKey(ps: seq<Candidate>, c: Candidate)
    requires forall i :: 0 <= i < |ps| ==> !SameKey(ps[i], c)
    ensures !HasKey(Collected(ps), c)
  {
    CollectedIsSet(ps);
  }

  // ---------------------------------------------------------------------------
  // The three sources
  // ---------------------------------------------------------------------------

  /** argmin over a score row: a minimal column, the lowest one among equal minima. */
  function ArgMin(row: seq<int>): (j: nat)
    requires |row| > 0
    ensures j < |row|
    ensures forall k :: 0 <= k < |row| ==> row[j] <= row[k]
    ensures forall k :: 0 <= k < j ==> row[k] > row[j]
  {
    if |row| == 1 then 0
    else
      var j := ArgMin(row[..|row| - 1]);
      assert forall k :: 0 <= k < |row| - 1 ==> row[..|row| - 1][k] == row[k];
      if row[|row| - 1] < row[j] then |row| - 1 else j
  }

  predicate AllWellFormed(hyps: seq<Hypothesis>)
  {
    forall r :: 0 <= r < |hyps| ==> WellFormed(hyps[r])
  }

  /** Every constraint token is a column of a score row of the given width. */
  predicate InVocab(h: Hypothesis, width: nat)
  {
    h.Constrained? ==> forall i :: 0 <= i < |h.constraints| ==> 0 <= h.constraints[i] < width
  }

  /** Row r exists, has a non-empty score row, and, when active, its constraints lie within it. */
  predicate RowInput(r: nat, inactive: seq<bool>, scores: seq<seq<int>>, hyps: seq<Hypothesis>)
  {
    r < |hyps| && r < |inactive| && r < |scores| && WellFormed(hyps[r]) && |scores[r]| > 0 &&
    (!inactive[r] ==> InVocab(hyps[r], |scores[r]|))
  }

  predicate RowInputs(n: nat, inactive: seq<bool>, scores: seq<seq<int>>, hyps: seq<Hypothesis>)
  {
    forall r :: 0 <= r < n ==> RowInput(r, inactive, scores, hyps)
  }

  /** The best items point at existing rows. */
  predicate BestInputs(hyps: seq<Hypothesis>, best: seq<Best>)
  {
    AllWellFormed(hyps) && forall k :: 0 <= k < |best| ==> 0 <= best[k].row < |hyps|
  }

  /** Source (1): the overall best items whose word the row's hypothesis accepts. */
  function BestProposals(hyps: seq<Hypothesis>, best: seq<Best>): seq<Candidate>
    requires BestInputs(hyps, best)
  {
    if best == [] then []
    else
      var b := best[|best| - 1];
      var h := hyps[b.row];
      BestProposals(hyps, best[..|best| - 1]) +
      (if IsValid(h, b.col) then [Candidate(b.row, b.col, Finite(b.score), Advanced(h, b.col))] else [])
  }

  /** What topk relies on from its caller. */
  predicate Inputs(beamSize: nat, inactive: seq<bool>, scores: seq<seq<int>>, hyps: seq<Hypothesis>, best: seq<Best>)
  {
    0 < |hyps| && (forall r :: 0 <= r < |hyps| ==> Size(hyps[r]) <= Size(hyps[0])) &&
    RowInputs(beamSize, inactive, scores, hyps) && BestInputs(hyps, best)
  }

  /** The words a row proposes: (2) its allowed constraint words, then (3) its best word if valid. */
  function NextWords(h: Hypothesis, row: seq<int>): seq<int>
    requires WellFormed(h) && |row| > 0
  {
    Allowed(h) + (if IsValid(h, ArgMin(row)) then [ArgMin(row)] else [])
  }

  /** Every word allowed() offers is a constraint token, hence a column of the row. */
  lemma AllowedInVocab(h: Hypothesis, width: nat)
    requires WellFormed(h) && InVocab(h, width)
    ensures forall w :: w in Allowed(h) ==> 0 <= w < width
  {
    if !MidPhrase(h) {
      forall w | w in Allowed(h)
        ensures 0 <= w < width
      {
        var i :| h.Constrained? && 0 <= i < |h.constraints| && Startable(h, i) && h.constraints[i] == w;
      }
    }
  }

  lemma NextWordsInRow(h: Hypothesis, row: seq<int>)
    requires WellFormed(h) && |row| > 0 && InVocab(h, |row|)
    ensures forall k :: 0 <= k < |NextWords(h, row)| ==> 0 <= NextWords(h, row)[k] < |row|
  {
    var allowed := Allowed(h);
    var ws := NextWords(h, row);
    AllowedInVocab(h, |row|);
    forall k | 0 <= k < |ws|
      ensures 0 <= ws[k] < |row|
    {
      if k < |allowed| {
        assert ws[k] == allowed[k];
        assert allowed[k] in allowed;
      }
    }
  }

  function Extensions(r: nat, h: Hypothesis, row: seq<int>, ws: seq<int>): seq<Candidate>
    requires WellFormed(h)
    requires forall k :: 0 <= k < |ws| ==> 0 <= ws[k] < |row|
  {
    seq(|ws|, k requires 0 <= k < |ws| => Candidate(r, ws[k], Finite(row[ws[k]]), Advanced(h, ws[k])))
  }

  /** Sources (2) and (3) for row r: nothing if the row is inactive, else a candidate per proposed word. */
  function RowCandidates(r: nat, inactive: seq<bool>, scores: seq<seq<int>>, hyps: seq<Hypothesis>): seq<Candidate>
    requires RowInput(r, inactive, scores, hyps)
  {
    if inactive[r] then []
    else
      NextWordsInRow(hyps[r], scores[r]);
      Extensions(r, hyps[r], scores[r], NextWords(hyps[r], scores[r]))
  }

  /** Sources (2) and (3) for the rows below n, row by row. */
  function RowProposals(n: nat, inactive: seq<bool>, scores: seq<seq<int>>, hyps: seq<Hypothesis>): seq<Candidate>
    requires RowInputs(n, inactive, scores, hyps)
  {
    if n == 0 then []
    else RowProposals(n - 1, inactive, scores, hyps) + RowCandidates(n - 1, inactive, scores, hyps)
  }

  /** Everything topk adds to its candidate set, in the order it adds them. */
  function Proposals(beamSize: nat, inactive: seq<bool>, scores: seq<seq<int>>, hyps: seq<Hypothesis>, best: seq<Best>): seq<Candidate>
    requires Inputs(beamSize, inactive, scores, hyps, best)
  {
    BestProposals(hyps, best) + RowProposals(beamSize, inactive, scores, hyps)
  }

  /**
   * What a source (1) candidate is: an overall best item of an existing row
   * whose word that row's hypothesis accepts, with the state after the word.
   */
  lemma {:induction false} BestProposalShape(hyps: seq<Hypothesis>, best: seq<Best>)
    requires BestInputs(hyps, best)
    ensures forall c :: c in BestProposals(hyps, best) ==>
      0 <= c.row < |hyps| && IsValid(hyps[c.row], c.col) && c.state == Advanced(hyps[c.row], c.col) &&
      c.score.Finite? && Best(c.row, c.col, c.score.value) in best
  {
    if best != [] {
      BestProposalShape(hyps, best[..|best| - 1]);
    }
  }

  /**
   * What a source (2) or (3) candidate is: an active row below n, a word that
   * is either allowed by the row's hypothesis or the row's best word and
   * valid, the row's score for that word, and the state after the word.
   */
  predicate RowProposal(c: Candidate, n: nat, inactive: seq<bool>, scores: seq<seq<int>>, hyps: seq<Hypothesis>)
  {
    0 <= c.row < n && RowInput(c.row, inactive, scores, hyps) && !inactive[c.row] &&
    0 <= c.col < |scores[c.row]| && c.score == Finite(scores[c.row][c.col]) &&
    c.state == Advanced(hyps[c.row], c.col) &&
    (c.col in Allowed(hyps[c.row]) || (c.col == ArgMin(scores[c.row]) && IsValid(hyps[c.row], c.col)))
  }

  lemma RowCandidatesShape(r: nat, inactive: seq<bool>, scores: seq<seq<int>>, hyps: seq<Hypothesis>)
    requires RowInput(r, inactive, scores, hyps)
    ensures forall c :: c in RowCandidates(r, inactive, scores, hyps) ==> RowProposal(c, r + 1, inactive, scores, hyps)
  {
    if !inactive[r] {
      NextWordsInRow(hyps[r], scores[r]);
      var ws := NextWords(hyps[r], scores[r]);
      var ext := Extensions(r, hyps[r], scores[r], ws);
      forall c | c in ext
        ensures RowProposal(c, r + 1, inactive, scores, hyps)
      {
        var k :| 0 <= k < |ext| && ext[k] == c;
        if k >= |Allowed(hyps[r])| {
          assert ws[k] == ArgMin(scores[r]);
        } else {
          assert ws[k] == Allowed(hyps[r])[k];
        }
      }
    }
  }

  lemma {:induction false} RowProposalShape(n: nat, inactive: seq<bool>, scores: seq<seq<int>>, hyps: seq<Hypothesis>)
    requires RowInputs(n, inactive, scores, hyps)
    ensures forall c :: c in RowProposals(n, inactive, scores, hyps) ==> RowProposal(c, n, inactive, scores, hyps)
  {
    if n > 0 {
      var r := n - 1;
      assert RowInput(r, inactive, scores, hyps);
      RowProposalShape(r, inactive, scores, hyps);
      RowCandidatesShape(r, inactive, scores, hyps);
      forall c | c in RowProposals(n, inactive, scores, hyps)
        ensures RowProposal(c, n, inactive, scores, hyps)
      {
        if c in RowProposals(r, inactive, scores, hyps) {
          assert RowProposal(c, r, inactive, scores, hyps);
        } else {
          assert RowProposal(c, r + 1, inactive, scores, hyps);
        }
      }
    }
  }

  /** A row's next state keeps its constraints, so its bank index stays within the constraint count. */
  lemma ProposalsBanked(beamSize: nat, inactive: seq<bool>, scores: seq<seq<int>>, hyps: seq<Hypothesis>, best: seq<Best>)
    requires Inputs(beamSize, inactive, scores, hyps, best)
    ensures forall c :: c in Proposals(beamSize, inactive, scores, hyps, best) ==>
      c.score.Finite? && c.state.Constrained? && WellFormed(c.state) && NumMet(c.state) <= Size(hyps[0])
  {
    BestProposalShape(hyps, best);
    RowProposalShape(beamSize, inactive, scores, hyps);
    forall c | c in Proposals(beamSize, inactive, scores, hyps, best)
      ensures c.score.Finite? && c.state.Constrained? && WellFormed(c.state) && NumMet(c.state) <= Size(hyps[0])
    {
      if c in RowProposals(beamSize, inactive, scores, hyps) {
        assert RowProposal(c, beamSize, inactive, scores, hyps);
        var h := hyps[c.row];
        if !IsValid(h, c.col) {
          assert c.col in Allowed(h);
        }
      } else {
        assert c in BestProposals(hyps, best);
      }
    }
  }

  /** Source (1): add each best item whose word its row's hypothesis accepts. */
  method AddBest(cands: seq<Candidate>, hyps: seq<Hypothesis>, best: seq<Best>) returns (r: seq<Candidate>)
    requires BestInputs(hyps, best)
    ensures r == AddAll(cands, BestProposals(hyps, best))
  {
    r := cands;
    for k := 0 to |best|
      invariant r == AddAll(cands, BestProposals(hyps, best[..k]))
    {
      var b := best[k];
      assert best[..k + 1][..k] == best[..k];
      if IsValid(hyps[b.row], b.col) {
        var next := Advance(hyps[b.row], b.col);
        var cand := Candidate(b.row, b.col, Finite(b.score), next);
        AddAllSnoc(cands, BestProposals(hyps, best[..k]), cand);
        r := Add(r, cand);
      } else {
        assert BestProposals(hyps, best[..k + 1]) == BestProposals(hyps, best[..k]);
      }
    }
    assert best[..|best|] == best;
  }

  /** Sources (2) and (3) of one row: add a candidate for each proposed word. */
  method AddWords(cands: seq<Candidate>, row: nat, h: Hypothesis, scoreRow: seq<int>, ws: seq<int>)
    returns (r: seq<Candidate>)
    requires WellFormed(h)
    requires forall k :: 0 <= k < |ws| ==> 0 <= ws[k] < |scoreRow|
    ensures r == AddAll(cands, Extensions(row, h, scoreRow, ws))
  {
    r := cands;
    assert Extensions(row, h, scoreRow, ws[..0]) == [];
    for j := 0 to |ws|
      invariant r == AddAll(cands, Extensions(row, h, scoreRow, ws[..j]))
    {
      var w := ws[j];
      var next := Advance(h, w);
      var cand := Candidate(row, w, Finite(scoreRow[w]), next);
      assert Extensions(row, h, scoreRow, ws[..j + 1]) == Extensions(row, h, scoreRow, ws[..j]) + [cand];
      AddAllSnoc(cands, Extensions(row, h, scoreRow, ws[..j]), cand);
      r := Add(r, cand);
    }
    assert ws[..|ws|] == ws;
  }

  /** Sources (2) and (3): for each active row, its allowed words and then its best word if valid. */
  method AddRows(cands: seq<Candidate>, beamSize: nat, inactive: seq<bool>, scores: seq<seq<int>>, hyps: seq<Hypothesis>)
    returns (r: seq<Candidate>)
    requires RowInputs(beamSize, inactive, scores, hyps)
    ensures r == AddAll(cands, RowProposals(beamSize, inactive, scores, hyps))
  {
    r := cands;
    for row := 0 to beamSize
      invariant RowInputs(row, inactive, scores, hyps)
      invariant r == AddAll(cands, RowProposals(row, inactive, scores, hyps))
    {
      r := AddRowAfter(cands, r, row, beamSize, inactive, scores, hyps);
    }
  }

  /** One turn of the row loop: the rows before row are in, then row is added. */
  method AddRowAfter(cands: seq<Candidate>, r0: seq<Candidate>, row: nat, beamSize: nat,
                     inactive: seq<bool>, scores: seq<seq<int>>, hyps: seq<Hypothesis>)
    returns (r: seq<Candidate>)
    requires row < beamSize && RowInputs(beamSize, inactive, scores, hyps)
    requires RowInputs(row, inactive, scores, hyps)
    requires r0 == AddAll(cands, RowProposals(row, inactive, scores, hyps))
    ensures RowInputs(row + 1, inactive, scores, hyps)
    ensures r == AddAll(cands, RowProposals(row + 1, inactive, scores, hyps))
  {
    assert RowInput(row, inactive, scores, hyps);
    r := AddRow(r0, row, inactive, scores, hyps);
    AddAllConcat(cands, RowProposals(row, inactive, scores, hyps), RowCandidates(row, inactive, scores, hyps));
  }

  /** The body of the row loop: nothing for an inactive row, else its proposed words in turn. */
  method AddRow(cands: seq<Candidate>, row: nat, inactive: seq<bool>, scores: seq<seq<int>>, hyps: seq<Hypothesis>)
    returns (r: seq<Candidate>)
    requires RowInput(row, inactive, scores, hyps)
    ensures r == AddAll(cands, RowCandidates(row, inactive, scores, hyps))
  {
    if inactive[row] {
      return cands;
    }
    var hyp := hyps[row];
    var nextones := Allowed(hyp);
    var col := ArgMin(scores[row]);
    if IsValid(hyp, col) {
      nextones := nextones + [col];
    }
    assert nextones == NextWords(hyp, scores[row]);
    NextWordsInRow(hyp, scores[row]);
    r := AddWords(cands, row, hyp, scores[row], nextones);
  }

  /**
   * Building the candidate set: source (1) over the best items, then for each
   * active row sources (2) and (3), adding each candidate to the set.
   */
  method BuildCandidates(beamSize: nat, inactive: seq<bool>, scores: seq<seq<int>>, hyps: seq<Hypothesis>, best: seq<Best>)
    returns (cands: seq<Candidate>)
    requires Inputs(beamSize, inactive, scores, hyps, best)
    ensures cands == Collected(Proposals(beamSize, inactive, scores, hyps, best))
  {
    cands := AddBest([], hyps, best);
    cands := AddRows(cands, beamSize, inactive, scores, hyps);
    AddAllConcat([], BestProposals(hyps, best), RowProposals(beamSize, inactive, scores, hyps));
  }

  // ---------------------------------------------------------------------------
  // Sorting and padding
  // ---------------------------------------------------------------------------

  /** Place c before the first element it does not score above. */
  function Insert(c: Candidate, s: seq<Candidate>): (r: seq<Candidate>)
    ensures multiset(r) == multiset(s) + multiset{c}
  {
    if s == [] || ScoreLe(c.score, s[0].score) then [c] + s
    else
      assert s == [s[0]] + s[1..];
      [s[0]] + Insert(c, s[1..])
  }

  lemma {:induction false} InsertSorted(c: Candidate, s: seq<Candidate>)
    requires Sorted(s)
    ensures Sorted(Insert(c, s))
  {
    if s != [] && !ScoreLe(c.score, s[0].score) {
      InsertSorted(c, s[1..]);
      var rest := Insert(c, s[1..]);
      forall x | x in rest
        ensures ScoreLe(s[0].score, x.score)
      {
        assert x in multiset(rest);
        if x != c {
          assert x in multiset(s[1..]);
          var l :| 0 <= l < |s[1..]| && s[1..][l] == x;
          assert s[l + 1] == x;
        }
      }
      var r := Insert(c, s);
      forall k, l | 0 <= k < l < |r|
        ensures ScoreLe(r[k].score, r[l].score)
      {
        if k == 0 {
          assert r[l] == rest[l - 1];
        } else {
          assert r[k] == rest[k - 1] && r[l] == rest[l - 1];
        }
      }
    }
  }

  /**
   * sorted(candidates, key=score): ascending by score, a permutation of its
   * input; among equal scores the earlier candidate stays first.
   */
  function SortByScore(s: seq<Candidate>): (r: seq<Candidate>)
    ensures multiset(r) == multiset(s)
  {
    if s == [] then []
    else
      assert s == [s[0]] + s[1..];
      Insert(s[0], SortByScore(s[1..]))
  }

  lemma {:induction false} SortSorted(s: seq<Candidate>)
    ensures Sorted(SortByScore(s))
  {
    if s != [] {
      SortSorted(s[1..]);
      InsertSorted(s[0], SortByScore(s[1..]));
    }
  }

  lemma {:induction false} InsertKeepsKeysDistinct(c: Candidate, s: seq<Candidate>)
    requires DistinctKeys(s)
    requires forall x :: x in s ==> !SameKey(c, x)
    ensures DistinctKeys(Insert(c, s))
  {
    if s != [] && !ScoreLe(c.score, s[0].score) {
      InsertKeepsKeysDistinct(c, s[1..]);
      var rest := Insert(c, s[1..]);
      forall x | x in rest
        ensures !SameKey(s[0], x)
      {
        assert x in multiset(rest);
        if x != c {
          assert x in multiset(s[1..]);
          var l :| 0 <= l < |s[1..]| && s[1..][l] == x;
          assert s[l + 1] == x;
        } else {
          assert s[0] in s;
        }
      }
      var r := Insert(c, s);
      forall k, l | 0 <= k < l < |r|
        ensures !SameKey(r[k], r[l])
      {
        if k == 0 {
          assert r[l] == rest[l - 1];
        } else {
          assert r[k] == rest[k - 1] && r[l] == rest[l - 1];
        }
      }
    }
  }

  /** Sorting keeps the keys distinct. */
  lemma {:induction false} SortKeepsKeysDistinct(s: seq<Candidate>)
    requires DistinctKeys(s)
    ensures DistinctKeys(SortByScore(s))
  {
    if s != [] {
      SortKeepsKeysDistinct(s[1..]);
      var sorted := SortByScore(s[1..]);
      forall x | x in sorted
        ensures !SameKey(s[0], x)
      {
        assert x in multiset(sorted);
        var l :| 0 <= l < |s[1..]| && s[1..][l] == x;
        assert s[l + 1] == x;
      }
      InsertKeepsKeysDistinct(s[0], sorted);
    }
  }

  /** The list followed by as many padding candidates as it takes to hold beamSize entries. */
  function Padded(s: seq<Candidate>, beamSize: nat): (r: seq<Candidate>)
    ensures |r| == if |s| < beamSize then beamSize else |s|
    ensures r[..|s|] == s
    ensures forall k :: |s| <= k < |r| ==> r[k] == Padding()
  {
    if |s| < beamSize then s + seq(beamSize - |s|, _ => Padding()) else s
  }

  /** The padding scores +infinity, so padding a sorted list keeps it sorted. */
  lemma PaddedSorted(s: seq<Candidate>, beamSize: nat)
    requires Sorted(s)
    ensures Sorted(Padded(s, beamSize))
  {
    var r := Padded(s, beamSize);
    forall k, l | 0 <= k < l < |r|
      ensures ScoreLe(r[k].score, r[l].score)
    {
      if l < |s| {
        assert r[k] == s[k] && r[l] == s[l];
      }
    }
  }

  /** Padding a list of distinct keys leaves the non-padding entries distinct. */
  lemma PaddedDistinct(s: seq<Candidate>, beamSize: nat)
    requires DistinctKeys(s)
    ensures DistinctReal(Padded(s, beamSize))
  {
    var r := Padded(s, beamSize);
    forall k, l | 0 <= k < l < |r| && r[k] != Padding() && r[l] != Padding()
      ensures !SameKey(r[k], r[l])
    {
      assert r[k] == s[k] && r[l] == s[l];
    }
  }

  /**
   * Padding the sorted list with the padding candidate until it holds at
   * least beamSize entries; the padding scores +infinity, so the list stays
   * sorted.
   */
  method PadToBeam(kbest: seq<Candidate>, beamSize: nat) returns (padded: seq<Candidate>)
    ensures padded == Padded(kbest, beamSize)
    ensures Sorted(kbest) ==> Sorted(padded)
    ensures DistinctKeys(kbest) ==> DistinctReal(padded)
  {
    padded := kbest;
    while |padded| < beamSize
      invariant |kbest| <= |padded| && (|kbest| < beamSize ==> |padded| <= beamSize)
      invariant |kbest| >= beamSize ==> padded == kbest
      invariant padded[..|kbest|] == kbest
      invariant forall k :: |kbest| <= k < |padded| ==> padded[k] == Padding()
      decreases beamSize - |padded|
    {
      padded := padded + [Padding()];
    }
    assert forall k :: 0 <= k < |padded| ==> padded[k] == Padded(kbest, beamSize)[k] by {
      forall k | 0 <= k < |padded|
        ensures padded[k] == Padded(kbest, beamSize)[k]
      {
        if k < |kbest| {
          assert padded[k] == padded[..|kbest|][k];
          assert Padded(kbest, beamSize)[k] == Padded(kbest, beamSize)[..|kbest|][k];
        }
      }
    }
    if Sorted(kbest) {
      PaddedSorted(kbest, beamSize);
    }
    if DistinctKeys(kbest) {
      PaddedDistinct(kbest, beamSize);
    }
  }

  /**
   * The sorted candidate list holds every candidate once: its first |cands|
   * entries are candidates, and the padding follows.
   */
  lemma RankedFrom(cands: seq<Candidate>, beamSize: nat)
    ensures |SortByScore(cands)| == |cands|
    ensures forall k :: 0 <= k < |cands| ==> Padded(SortByScore(cands), beamSize)[k] in cands
    ensures forall c :: c in cands ==> c in Padded(SortByScore(cands), beamSize)
  {
    var sorted := SortByScore(cands);
    var r := Padded(sorted, beamSize);
    assert |sorted| == |multiset(sorted)| == |cands|;
    forall k | 0 <= k < |cands|
      ensures r[k] in cands
    {
      assert r[k] == r[..|sorted|][k] == sorted[k];
      assert sorted[k] in multiset(cands);
    }
    forall c | c in cands
      ensures c in r
    {
      assert c in multiset(sorted);
      var k :| 0 <= k < |sorted| && sorted[k] == c;
      assert r[..|sorted|][k] == c;
    }
  }

  /** The padded sorted list puts every candidate, and the padding, in a bank below n + 1. */
  lemma RankedBanked(cands: seq<Candidate>, beamSize: nat, n: nat)
    requires Banked(cands, n + 1)
    ensures Banked(Padded(SortByScore(cands), beamSize), n + 1)
  {
    var r := Padded(SortByScore(cands), beamSize);
    RankedFrom(cands, beamSize);
    forall k | 0 <= k < |r|
      ensures WellFormed(r[k].state) && NumMet(r[k].state) < n + 1
    {
      if k < |cands| {
        var i :| 0 <= i < |cands| && cands[i] == r[k];
      }
    }
  }

  // ---------------------------------------------------------------------------
  // Banks
  // ---------------------------------------------------------------------------

  /** Every candidate's bank (constraint tokens met) is below n. */
  predicate Banked(cs: seq<Candidate>, n: nat)
  {
    forall k :: 0 <= k < |cs| ==> WellFormed(cs[k].state) && NumMet(cs[k].state) < n
  }

  /** How many candidates of cs sit in bank b. */
  function BankCount(cs: seq<Candidate>, b: nat): nat
  {
    if cs == [] then 0
    else
      var c := cs[|cs| - 1];
      BankCount(cs[..|cs| - 1], b) + (if WellFormed(c.state) && NumMet(c.state) == b then 1 else 0)
  }

  function BankCounts(cs: seq<Candidate>, n: nat): (counts: seq<int>)
    ensures |counts| == n
  {
    seq(n, b requires 0 <= b < n => BankCount(cs, b))
  }

  /** When every candidate has a bank, the bank counts add up to the number of candidates. */
  lemma {:induction false} BankCountsSum(cs: seq<Candidate>, n: nat)
    requires Banked(cs, n)
    ensures Sum(BankCounts(cs, n)) == |cs|
  {
    if cs == [] {
      assert BankCounts(cs, n) == seq(n, _ => 0);
      SumConstant(n, 0);
    } else {
      var init := cs[..|cs| - 1];
      var c := cs[|cs| - 1];
      assert Banked(init, n) by {
        assert forall k :: 0 <= k < |init| ==> init[k] == cs[k];
      }
      BankCountsSum(init, n);
      var b := NumMet(c.state);
      assert BankCounts(cs, n) == BankCounts(init, n)[b := BankCounts(init, n)[b] + 1];
      SumUpdate(BankCounts(init, n), b, BankCounts(init, n)[b] + 1);
    }
  }

  /** Counting the candidates of each bank. */
  method CountBanks(kbest: seq<Candidate>, numConstraints: nat) returns (counts: seq<int>)
    requires Banked(kbest, numConstraints + 1)
    ensures counts == BankCounts(kbest, numConstraints + 1)
  {
    counts := seq(numConstraints + 1, _ => 0);
    for k := 0 to |kbest|
      invariant counts == BankCounts(kbest[..k], numConstraints + 1)
    {
      var bank := NumMet(kbest[k].state);
      assert kbest[..k + 1][..k] == kbest[..k];
      counts := counts[bank := counts[bank] + 1];
    }
    assert kbest[..|kbest|] == kbest;
  }

  /** Whether the candidate at position k is kept: its bank still has room after the ones before it. */
  predicate Keeps(cs: seq<Candidate>, bs: seq<int>, k: nat)
    requires Banked(cs, |bs|) && k < |cs|
  {
    var b := NumMet(cs[k].state);
    BankCount(cs[..k], b) < bs[b]
  }

  /** The candidates kept by pruning, in their original order. */
  function Kept(cs: seq<Candidate>, bs: seq<int>): (r: seq<Candidate>)
    requires Banked(cs, |bs|)
    ensures forall k :: 0 <= k < |r| ==> r[k] in cs
  {
    if cs == [] then []
    else
      var init := cs[..|cs| - 1];
      assert forall k :: 0 <= k < |init| ==> init[k] == cs[k];
      Kept(init, bs) + (if Keeps(cs, bs, |cs| - 1) then [cs[|cs| - 1]] else [])
  }

  /** Pruning: each candidate takes a slot of its bank while the bank has slots left. */
  method Prune(kbest: seq<Candidate>, bankSizes: seq<int>) returns (pruned: seq<Candidate>)
    requires Banked(kbest, |bankSizes|)
    ensures pruned == Kept(kbest, bankSizes)
  {
    var counts := bankSizes;
    pruned := [];
    for k := 0 to |kbest|
      invariant |counts| == |bankSizes|
      invariant forall b :: 0 <= b < |counts| ==> counts[b] == bankSizes[b] - BankCount(kbest[..k], b)
      invariant pruned == Kept(kbest[..k], bankSizes)
    {
      var bank := NumMet(kbest[k].state);
      assert kbest[..k + 1][..k] == kbest[..k];
      assert Keeps(kbest[..k + 1], bankSizes, k) <==> BankCount(kbest[..k], bank) < bankSizes[bank];
      counts := counts[bank := counts[bank] - 1];
      if counts[bank] >= 0 {
        pruned := pruned + [kbest[k]];
      }
    }
    assert kbest[..|kbest|] == kbest;
  }

  lemma BankCountSnoc(cs: seq<Candidate>, c: Candidate, b: nat)
    ensures BankCount(cs + [c], b) == BankCount(cs, b) + (if WellFormed(c.state) && NumMet(c.state) == b then 1 else 0)
  {
    assert (cs + [c])[..|cs|] == cs;
  }

  lemma BankedPrefix(cs: seq<Candidate>, n: nat, m: nat)
    requires Banked(cs, n) && m <= |cs|
    ensures Banked(cs[..m], n)
  {
    assert forall k :: 0 <= k < m ==> cs[..m][k] == cs[k];
  }

  /** Each bank keeps as many of its candidates as it has slots, or all of them if fewer. */
  lemma {:induction false} KeptPerBank(cs: seq<Candidate>, bs: seq<int>, b: nat)
    requires Banked(cs, |bs|) && b < |bs| && bs[b] >= 0
    ensures BankCount(Kept(cs, bs), b) == Min(bs[b], BankCount(cs, b))
  {
    if cs != [] {
      var n := |cs| - 1;
      var init := cs[..n];
      var c := cs[n];
      BankedPrefix(cs, |bs|, n);
      KeptPerBank(init, bs, b);
      var before := BankCount(init, b);
      assert BankCount(cs, b) == before + (if NumMet(c.state) == b then 1 else 0);
      if Keeps(cs, bs, n) {
        assert Kept(cs, bs) == Kept(init, bs) + [c];
        BankCountSnoc(Kept(init, bs), c, b);
      } else {
        assert Kept(cs, bs) == Kept(init, bs);
      }
    }
  }

  /** With slots within each bank's count, exactly as many candidates are kept as there are slots. */
  lemma KeptLength(cs: seq<Candidate>, bs: seq<int>)
    requires Banked(cs, |bs|)
    requires forall b :: 0 <= b < |bs| ==> 0 <= bs[b] <= BankCount(cs, b)
    ensures |Kept(cs, bs)| == Sum(bs)
  {
    var kept := Kept(cs, bs);
    BankCountsSum(kept, |bs|);
    forall b | 0 <= b < |bs|
      ensures BankCounts(kept, |bs|)[b] == bs[b]
    {
      KeptPerBank(cs, bs, b);
    }
    assert BankCounts(kept, |bs|) == bs;
  }

  lemma BankCountPrefix(cs: seq<Candidate>, l: nat, b: nat)
    requires l < |cs|
    ensures BankCount(cs[..l + 1], b) ==
      BankCount(cs[..l], b) + (if WellFormed(cs[l].state) && NumMet(cs[l].state) == b then 1 else 0)
  {
    assert cs[..l + 1][..l] == cs[..l];
  }

  lemma BankCountMonotone(cs: seq<Candidate>, k: nat, l: nat, b: nat)
    requires k <= l <= |cs|
    ensures BankCount(cs[..k], b) <= BankCount(cs[..l], b)
    decreases l
  {
    if k < l {
      assert cs[..l][..l - 1] == cs[..l - 1];
      BankCountMonotone(cs, k, l - 1, b);
    }
  }

  /**
   * Pruning keeps the best of each bank: of two candidates in one bank, a
   * kept one comes before, and so scores no worse than, a dropped one.
   */
  lemma {:induction false} KeptAreBest(cs: seq<Candidate>, bs: seq<int>, k: nat, l: nat)
    requires Banked(cs, |bs|) && Sorted(cs) && k < |cs| && l < |cs|
    requires NumMet(cs[k].state) == NumMet(cs[l].state)
    requires Keeps(cs, bs, k) && !Keeps(cs, bs, l)
    ensures k < l && ScoreLe(cs[k].score, cs[l].score)
  {
    var b := NumMet(cs[k].state);
    if l < k {
      BankCountPrefix(cs, l, b);
      BankCountMonotone(cs, l + 1, k, b);
      assert false;
    }
  }

  lemma {:induction false} KeptSorted(cs: seq<Candidate>, bs: seq<int>)
    requires Banked(cs, |bs|) && Sorted(cs)
    ensures Sorted(Kept(cs, bs))
  {
    if cs != [] {
      var init := cs[..|cs| - 1];
      assert forall k :: 0 <= k < |init| ==> init[k] == cs[k];
      KeptSorted(init, bs);
      var r := Kept(cs, bs);
      forall k, l | 0 <= k < l < |r|
        ensures ScoreLe(r[k].score, r[l].score)
      {
        if l == |r| - 1 && Keeps(cs, bs, |cs| - 1) {
          assert r[k] in init;
        } else {
          assert r[k] == Kept(init, bs)[k] && r[l] == Kept(init, bs)[l];
        }
      }
    }
  }

  lemma {:induction false} KeptDistinct(cs: seq<Candidate>, bs: seq<int>)
    requires Banked(cs, |bs|) && DistinctReal(cs)
    ensures DistinctReal(Kept(cs, bs))
  {
    if cs != [] {
      var init := cs[..|cs| - 1];
      assert forall k :: 0 <= k < |init| ==> init[k] == cs[k];
      KeptDistinct(init, bs);
      var r := Kept(cs, bs);
      forall k, l | 0 <= k < l < |r| && r[k] != Padding() && r[l] != Padding()
        ensures !SameKey(r[k], r[l])
      {
        if l == |r| - 1 && Keeps(cs, bs, |cs| - 1) {
          assert r[k] in init;
          var i :| 0 <= i < |init| && init[i] == r[k];
        } else {
          assert r[k] == Kept(init, bs)[k] && r[l] == Kept(init, bs)[l];
        }
      }
    }
  }

  /**
   * With bank sizes within the bank counts, pruning a sorted list gives a
   * sorted list with exactly the allotted number of candidates in each bank.
   */
  lemma KeptBeam(cs: seq<Candidate>, bs: seq<int>)
    requires Banked(cs, |bs|) && Sorted(cs) && DistinctReal(cs)
    requires forall b :: 0 <= b < |bs| ==> 0 <= bs[b] <= BankCount(cs, b)
    ensures |Kept(cs, bs)| == Sum(bs)
    ensures forall b :: 0 <= b < |bs| ==> BankCount(Kept(cs, bs), b) == bs[b]
    ensures Sorted(Kept(cs, bs)) && DistinctReal(Kept(cs, bs))
  {
    KeptLength(cs, bs);
    KeptSorted(cs, bs);
    KeptDistinct(cs, bs);
    forall b | 0 <= b < |bs|
      ensures BankCount(Kept(cs, bs), b) == bs[b]
    {
      KeptPerBank(cs, bs, b);
    }
  }

  /** A kept candidate is one the pruning loop kept at some position. */
  lemma {:induction false} KeptFrom(cs: seq<Candidate>, bs: seq<int>, c: Candidate)
    requires Banked(cs, |bs|) && c in Kept(cs, bs)
    ensures exists i :: 0 <= i < |cs| && cs[i] == c && Keeps(cs, bs, i)
  {
    var n := |cs| - 1;
    var init := cs[..n];
    BankedPrefix(cs, |bs|, n);
    if !(Keeps(cs, bs, n) && c == cs[n]) {
      assert c in Kept(init, bs);
      KeptFrom(init, bs, c);
      var i :| 0 <= i < |init| && init[i] == c && Keeps(init, bs, i);
      assert init[..i] == cs[..i];
      assert Keeps(cs, bs, i);
    }
  }

  /** A candidate the pruning loop keeps is in the pruned list. */
  lemma {:induction false} KeepsKept(cs: seq<Candidate>, bs: seq<int>, j: nat)
    requires Banked(cs, |bs|) && j < |cs| && Keeps(cs, bs, j)
    ensures cs[j] in Kept(cs, bs)
  {
    var n := |cs| - 1;
    if j < n {
      var init := cs[..n];
      BankedPrefix(cs, |bs|, n);
      assert init[..j] == cs[..j] && init[j] == cs[j];
      assert Keeps(init, bs, j);
      KeepsKept(init, bs, j);
      assert Kept(init, bs) <= Kept(cs, bs);
    }
  }

  // ---------------------------------------------------------------------------
  // The beam
  // ---------------------------------------------------------------------------

  /** bank_sizes: the sizes get_bank_sizes allots given the bank counts of the padded sorted list. */
  function Slots(cands: seq<Candidate>, beamSize: nat, n: nat): (bs: seq<int>)
    ensures |bs| == n + 1
  {
    BankSizes(n, beamSize, BankCounts(Padded(SortByScore(cands), beamSize), n + 1))
  }

  /**
   * The pruned beam: the candidates sorted by score and padded to the beam,
   * of which each bank keeps its first Slots entries.
   */
  function Beam(cands: seq<Candidate>, beamSize: nat, n: nat): (r: seq<Candidate>)
    requires Banked(cands, n + 1)
    ensures forall k :: 0 <= k < |r| ==> r[k] == Padding() || r[k] in cands
  {
    RankedBanked(cands, beamSize, n);
    RankedFrom(cands, beamSize);
    Kept(Padded(SortByScore(cands), beamSize), Slots(cands, beamSize, n))
  }

  /**
   * The beam keeps the best of each bank: a candidate in the beam scores no
   * worse than any candidate of its bank that the beam leaves out.
   */
  lemma BeamKeepsBest(cands: seq<Candidate>, beamSize: nat, n: nat, c: Candidate, d: Candidate)
    requires Banked(cands, n + 1)
    requires c in Beam(cands, beamSize, n) && d in cands && d !in Beam(cands, beamSize, n)
    requires WellFormed(c.state) && WellFormed(d.state) && NumMet(c.state) == NumMet(d.state)
    ensures ScoreLe(c.score, d.score)
  {
    var cs := Padded(SortByScore(cands), beamSize);
    var bs := Slots(cands, beamSize, n);
    RankedBanked(cands, beamSize, n);
    RankedFrom(cands, beamSize);
    assert Beam(cands, beamSize, n) == Kept(cs, bs);
    KeptFrom(cs, bs, c);
    var i :| 0 <= i < |cs| && cs[i] == c && Keeps(cs, bs, i);
    var j :| 0 <= j < |cs| && cs[j] == d;
    if Keeps(cs, bs, j) {
      KeepsKept(cs, bs, j);
      assert false;
    }
    SortSorted(cands);
    PaddedSorted(SortByScore(cands), beamSize);
    KeptAreBest(cs, bs, i, j);
  }

  // ---------------------------------------------------------------------------
  // topk
  // ---------------------------------------------------------------------------

  /** The beam topk returns for its inputs. */
  function TopKBeam(beamSize: nat, inactive: seq<bool>, scores: seq<seq<int>>, hyps: seq<Hypothesis>, best: seq<Best>): seq<Candidate>
    requires Inputs(beamSize, inactive, scores, hyps, best)
  {
    CandidateSetBanked(beamSize, inactive, scores, hyps, best);
    Beam(Collected(Proposals(beamSize, inactive, scores, hyps, best)), beamSize, Size(hyps[0]))
  }

  /**
   * topk. The beam comes back full: slot k is the k-th entry of the pruned
   * beam, in which each bank holds as many candidates as get_bank_sizes
   * allots it. The beam is sorted by score; every slot holds the padding
   * candidate or a proposed candidate (with the state its row reaches by its
   * word), and only proposed candidates once there are at least beamSize of
   * them; no (row, col) appears twice; `inactive` is returned as is.
   */
  method TopK(beamSize: nat, inactive: seq<bool>, scores: seq<seq<int>>, hyps: seq<Hypothesis>, best: seq<Best>)
    returns (rows: seq<int>, cols: seq<int>, outScores: seq<Score>, states: seq<Hypothesis>, inactiveOut: seq<bool>)
    requires Inputs(beamSize, inactive, scores, hyps, best)
    ensures |rows| == beamSize && |cols| == beamSize && |outScores| == beamSize && |states| == beamSize
    ensures inactiveOut == inactive
    ensures var beam := TopKBeam(beamSize, inactive, scores, hyps, best);
      |beam| == beamSize &&
      (forall k :: 0 <= k < beamSize ==> Candidate(rows[k], cols[k], outScores[k], states[k]) == beam[k]) &&
      forall b :: 0 <= b <= Size(hyps[0]) ==>
        BankCount(beam, b) == Slots(Collected(Proposals(beamSize, inactive, scores, hyps, best)), beamSize, Size(hyps[0]))[b]
    ensures forall k, l :: 0 <= k < l < beamSize ==> ScoreLe(outScores[k], outScores[l])
    ensures forall k :: 0 <= k < beamSize ==>
      var c := Candidate(rows[k], cols[k], outScores[k], states[k]);
      c == Padding() || c in Proposals(beamSize, inactive, scores, hyps, best)
    ensures |Collected(Proposals(beamSize, inactive, scores, hyps, best))| >= beamSize ==>
      forall k :: 0 <= k < beamSize ==>
        Candidate(rows[k], cols[k], outScores[k], states[k]) in Proposals(beamSize, inactive, scores, hyps, best)
    ensures forall k, l :: 0 <= k < l < beamSize && outScores[k].Finite? && outScores[l].Finite? ==>
      !(rows[k] == rows[l] && cols[k] == cols[l])
  {
    var pruned := ProposedBeam(beamSize, inactive, scores, hyps, best);
    rows, cols, outScores, states := Columns(pruned);
    inactiveOut := inactive;
  }

  /** The beam topk builds, as a list of candidates: collect the proposals, then select. */
  method ProposedBeam(beamSize: nat, inactive: seq<bool>, scores: seq<seq<int>>, hyps: seq<Hypothesis>, best: seq<Best>)
    returns (pruned: seq<Candidate>)
    requires Inputs(beamSize, inactive, scores, hyps, best)
    ensures pruned == TopKBeam(beamSize, inactive, scores, hyps, best) && |pruned| == beamSize
    ensures forall b :: 0 <= b <= Size(hyps[0]) ==>
      BankCount(pruned, b) == Slots(Collected(Proposals(beamSize, inactive, scores, hyps, best)), beamSize, Size(hyps[0]))[b]
    ensures Sorted(pruned) && DistinctReal(pruned)
    ensures forall k :: 0 <= k < |pruned| ==>
      pruned[k] == Padding() || pruned[k] in Proposals(beamSize, inactive, scores, hyps, best)
    ensures |Collected(Proposals(beamSize, inactive, scores, hyps, best))| >= beamSize ==>
      forall k :: 0 <= k < |pruned| ==> pruned[k] in Proposals(beamSize, inactive, scores, hyps, best)
  {
    var cands := BuildCandidates(beamSize, inactive, scores, hyps, best);
    CandidateSetBanked(beamSize, inactive, scores, hyps, best);
    pruned := SelectBeam(cands, beamSize, Size(hyps[0]));
    forall k | 0 <= k < |pruned| && pruned[k] in cands
      ensures pruned[k] in Proposals(beamSize, inactive, scores, hyps, best)
    {
      var i :| 0 <= i < |cands| && cands[i] == pruned[k];
    }
  }

  /** The beam as the four returned columns: rows, words, scores and states. */
  method Columns(pruned: seq<Candidate>) returns (rows: seq<int>, cols: seq<int>, outScores: seq<Score>, states: seq<Hypothesis>)
    ensures |rows| == |pruned| && |cols| == |pruned| && |outScores| == |pruned| && |states| == |pruned|
    ensures forall k :: 0 <= k < |pruned| ==> Candidate(rows[k], cols[k], outScores[k], states[k]) == pruned[k]
  {
    rows := seq(|pruned|, k requires 0 <= k < |pruned| => pruned[k].row);
    cols := seq(|pruned|, k requires 0 <= k < |pruned| => pruned[k].col);
    outScores := seq(|pruned|, k requires 0 <= k < |pruned| => pruned[k].score);
    states := seq(|pruned|, k requires 0 <= k < |pruned| => pruned[k].state);
  }

  /** The collected candidates are distinct proposals, each in a bank of the beam. */
  lemma CandidateSetBanked(beamSize: nat, inactive: seq<bool>, scores: seq<seq<int>>, hyps: seq<Hypothesis>, best: seq<Best>)
    requires Inputs(beamSize, inactive, scores, hyps, best)
    ensures var cands := Collected(Proposals(beamSize, inactive, scores, hyps, best));
      Banked(cands, Size(hyps[0]) + 1) && DistinctKeys(cands) &&
      forall k :: 0 <= k < |cands| ==> cands[k] in Proposals(beamSize, inactive, scores, hyps, best)
  {
    var proposals := Proposals(beamSize, inactive, scores, hyps, best);
    CollectedIsSet(proposals);
    ProposalsBanked(beamSize, inactive, scores, hyps, best);
  }

  /**
   * Sort the candidate set by score, pad it to the beam with infinite-score
   * placeholders, count the candidates of each bank, size the banks and
   * keep that many of each bank, best first.
   */
  method SelectBeam(cands: seq<Candidate>, beamSize: nat, numConstraints: nat) returns (pruned: seq<Candidate>)
    requires Banked(cands, numConstraints + 1) && DistinctKeys(cands)
    ensures pruned == Beam(cands, beamSize, numConstraints)
    ensures |pruned| == beamSize
    ensures forall b :: 0 <= b <= numConstraints ==> BankCount(pruned, b) == Slots(cands, beamSize, numConstraints)[b]
    ensures Sorted(pruned) && DistinctReal(pruned)
    ensures forall k :: 0 <= k < |pruned| ==> pruned[k] == Padding() || pruned[k] in cands
    ensures |cands| >= beamSize ==> forall k :: 0 <= k < |pruned| ==> pruned[k] in cands
  {
    var kbest := SortAndPad(cands, beamSize, numConstraints);
    var counts := CountBanks(kbest, numConstraints);
    BankCountsSum(kbest, numConstraints + 1);
    var bankSizes := GetBankSizes(numConstraints, beamSize, counts);
    assert bankSizes == Slots(cands, beamSize, numConstraints);
    pruned := Prune(kbest, bankSizes);
    KeptBeam(kbest, bankSizes);
    if |cands| >= beamSize {
      forall k | 0 <= k < |pruned|
        ensures pruned[k] in cands
      {
        var i :| 0 <= i < |kbest| && kbest[i] == pruned[k];
      }
    }
    // Exactly beamSize candidates survive, so the re-padding loop never runs.
  }

  /** Sort the candidate set by score and pad it with placeholders up to the beam size. */
  method SortAndPad(cands: seq<Candidate>, beamSize: nat, numConstraints: nat) returns (kbest: seq<Candidate>)
    requires Banked(cands, numConstraints + 1) && DistinctKeys(cands)
    ensures kbest == Padded(SortByScore(cands), beamSize)
    ensures |kbest| >= beamSize && |kbest| >= |cands|
    ensures Sorted(kbest) && DistinctReal(kbest) && Banked(kbest, numConstraints + 1)
    ensures forall k :: 0 <= k < |kbest| ==> kbest[k] == Padding() || kbest[k] in cands
    ensures |cands| >= beamSize ==> forall k :: 0 <= k < |kbest| ==> kbest[k] in cands
  {
    var sorted := SortByScore(cands);
    SortSorted(cands);
    SortKeepsKeysDistinct(cands);
    kbest := PadToBeam(sorted, beamSize);
    RankedFrom(cands, beamSize);
    RankedBanked(cands, beamSize, numConstraints);
  }
}
