/**
 * The per-hypothesis constraint tracker of lexically constrained beam search
 * (ConstrainedHypothesis and NullHypothesis in sockeye/lexical_constraints.py).
 *
 * A hypothesis holds the constraint phrases flattened into one token list,
 * a parallel flag per token telling whether the token must be followed by the
 * next one (it is not the last token of its phrase), which tokens have been
 * met so far, and the index of the token met most recently (-1 for none).
 */
module Hypotheses {

  datatype Option<T> = None | Some(value: T)

  /** The only exception the constructor can raise. */
  datatype Failure = IndexError

  datatype Result<T> = Ok(value: T) | Err(error: Failure)

  /**
   * `Constrained` is a ConstrainedHypothesis; `Null` is the padding sentinel
   * (NullHypothesis): no constraints, always finished, never valid.
   */
  datatype Hypothesis =
    | Constrained(constraints: seq<int>, isSequence: seq<bool>, met: seq<bool>, lastMet: int, eosId: int)
    | Null

  /** The shape every constructed hypothesis has. */
  predicate WellFormed(h: Hypothesis)
  {
    h.Null? ||
    (|h.isSequence| == |h.constraints| && |h.met| == |h.constraints| &&
     -1 <= h.lastMet < |h.constraints| &&
     (|h.constraints| > 0 ==> !h.isSequence[|h.constraints| - 1]))
  }

  /**
   * The invariant `advance` keeps: inside a phrase, neighbouring tokens are met
   * alike, except across `lastMet` when it is mid-phrase, where the met prefix
   * ends. So every phrase is fully met, fully unmet, or met on the prefix that
   * ends at `lastMet`.
   */
  predicate Consistent(h: Hypothesis)
    requires WellFormed(h)
  {
    h.Null? ||
    ((h.lastMet != -1 ==> h.met[h.lastMet]) &&
     forall i :: 0 <= i < |h.constraints| - 1 && h.isSequence[i] ==>
       if i == h.lastMet then h.met[i] && !h.met[i + 1] else h.met[i] == h.met[i + 1])
  }

  // ---------------------------------------------------------------------------
  // Construction
  // ---------------------------------------------------------------------------

  function Flatten(phrases: seq<seq<int>>): seq<int>
  {
    if phrases == [] then [] else Flatten(phrases[..|phrases| - 1]) + phrases[|phrases| - 1]
  }

  /** The flags of one phrase of n tokens: all sequential but the last. */
  function PhraseFlags(n: nat): seq<bool>
  {
    if n == 0 then [] else seq(n - 1, _ => true) + [false]
  }

  function Flags(phrases: seq<seq<int>>): seq<bool>
  {
    if phrases == [] then [] else Flags(phrases[..|phrases| - 1]) + PhraseFlags(|phrases[|phrases| - 1]|)
  }

  /** Where phrase p begins in the flattened token list. */
  function Offset(phrases: seq<seq<int>>, p: nat): nat
    requires p <= |phrases|
  {
    |Flatten(phrases[..p])|
  }

  /** The flattened lists are parallel and the last flag is false. */
  lemma {:induction false} FlagsMatchTokens(phrases: seq<seq<int>>)
    ensures |Flags(phrases)| == |Flatten(phrases)|
    ensures |Flatten(phrases)| > 0 ==> !Flags(phrases)[|Flatten(phrases)| - 1]
  {
    if phrases != [] {
      FlagsMatchTokens(phrases[..|phrases| - 1]);
    }
  }

  /**
   * Token k of phrase p sits at Offset(p) + k of the flattened list, and its
   * flag is false exactly when it is the phrase's last token.
   */
  lemma {:induction false} FlattenLayout(phrases: seq<seq<int>>, p: nat, k: nat)
    requires p < |phrases| && k < |phrases[p]|
    ensures Offset(phrases, p) + k < |Flatten(phrases)| == |Flags(phrases)|
    ensures Flatten(phrases)[Offset(phrases, p) + k] == phrases[p][k]
    ensures Flags(phrases)[Offset(phrases, p) + k] == (k + 1 < |phrases[p]|)
  {
    var n := |phrases|;
    var init, last := phrases[..n - 1], phrases[n - 1];
    var flat, flags := Flatten(init), Flags(init);
    var i := Offset(phrases, p) + k;
    FlattenAppend(phrases);
    if p < n - 1 {
      assert phrases[..p] == init[..p];
      FlattenLayout(init, p, k);
      IndexBefore(flat, last, i);
      IndexBefore(flags, PhraseFlags(|last|), i);
    } else {
      assert phrases[..p] == init;
      assert i == |flat| + k;
      PhraseFlagsAt(|last|, k);
      IndexAfter(flat, last, k);
      IndexAfter(flags, PhraseFlags(|last|), k);
    }
  }

  lemma IndexBefore<T>(a: seq<T>, b: seq<T>, i: nat)
    requires i < |a|
    ensures i < |a + b| && (a + b)[i] == a[i]
  {
  }

  lemma IndexAfter<T>(a: seq<T>, b: seq<T>, k: nat)
    requires k < |b|
    ensures |a| + k < |a + b| && (a + b)[|a| + k] == b[k]
  {
  }

  /** Flatten and Flags of a non-empty list extend those of its prefix. */
  lemma FlattenAppend(phrases: seq<seq<int>>)
    requires phrases != []
    ensures var init := phrases[..|phrases| - 1];
      Flatten(phrases) == Flatten(init) + phrases[|phrases| - 1] &&
      Flags(phrases) == Flags(init) + PhraseFlags(|phrases[|phrases| - 1]|) &&
      |Flags(init)| == |Flatten(init)| && |PhraseFlags(|phrases[|phrases| - 1]|)| == |phrases[|phrases| - 1]|
  {
    FlagsMatchTokens(phrases[..|phrases| - 1]);
  }

  lemma PhraseFlagsAt(n: nat, k: nat)
    requires k < n
    ensures |PhraseFlags(n)| == n && PhraseFlags(n)[k] == (k + 1 < n)
  {
  }

  /** The first phrase is empty: flattening it writes the last flag of an empty list. */
  predicate LeadingEmptyPhrase(phrases: seq<seq<int>>)
  {
    |phrases| > 0 && |phrases[0]| == 0
  }

  /** The state a hypothesis starts from: nothing met, no phrase in progress. */
  function Initial(phrases: seq<seq<int>>, eosId: int): (h: Hypothesis)
    ensures WellFormed(h) && Consistent(h)
    ensures h.Constrained? && h.lastMet == -1 && NumMet(h) == 0
    ensures Size(h) == |Flatten(phrases)|
  {
    FlagsMatchTokens(phrases);
    var met := seq(|Flatten(phrases)|, _ => false);
    CountTrueExtremes(met);
    Constrained(Flatten(phrases), Flags(phrases), met, -1, eosId)
  }

  /**
   * The constructor: concatenates the phrases, marks every token sequential,
   * then clears the flag of the list's last element. An empty first phrase
   * makes that last-element write fail; a later empty phrase rewrites the
   * previous phrase's final flag, which is already false.
   */
  method New(phrases: seq<seq<int>>, eosId: int) returns (r: Result<Hypothesis>)
    ensures LeadingEmptyPhrase(phrases) ==> r == Err(IndexError)
    ensures !LeadingEmptyPhrase(phrases) ==> r == Ok(Initial(phrases, eosId))
  {
    var constraints: seq<int> := [];
    var isSequence: seq<bool> := [];
    for p := 0 to |phrases|
      invariant constraints == Flatten(phrases[..p])
      invariant isSequence == Flags(phrases[..p])
      invariant p > 0 ==> !LeadingEmptyPhrase(phrases) && |isSequence| > 0
    {
      var phrase := phrases[p];
      assert phrases[..p + 1][..p] == phrases[..p];
      constraints := constraints + phrase;
      ghost var before := isSequence;
      isSequence := isSequence + seq(|phrase|, _ => true);
      if |isSequence| == 0 {
        return Err(IndexError);
      }
      isSequence := isSequence[|isSequence| - 1 := false];
      if |phrase| == 0 {
        FlagsMatchTokens(phrases[..p]);
        assert isSequence == before;
      } else {
        assert isSequence == before + PhraseFlags(|phrase|);
      }
    }
    assert phrases[..|phrases|] == phrases;
    r := Ok(Constrained(constraints, isSequence, seq(|constraints|, _ => false), -1, eosId));
  }

  // ---------------------------------------------------------------------------
  // Queries
  // ---------------------------------------------------------------------------

  function CountTrue(s: seq<bool>): (n: nat)
    ensures n <= |s|
  {
    if s == [] then 0 else (if s[0] then 1 else 0) + CountTrue(s[1..])
  }

  /** The count is the length exactly when every flag is set, and zero exactly when none is. */
  lemma {:induction false} CountTrueExtremes(s: seq<bool>)
    ensures CountTrue(s) == |s| <==> forall i :: 0 <= i < |s| ==> s[i]
    ensures CountTrue(s) == 0 <==> forall i :: 0 <= i < |s| ==> !s[i]
  {
    if s != [] {
      CountTrueExtremes(s[1..]);
      assert forall i :: 1 <= i < |s| ==> s[i] == s[1..][i - 1];
    }
  }

  lemma {:induction false} CountTrueConcat(a: seq<bool>, b: seq<bool>)
    ensures CountTrue(a + b) == CountTrue(a) + CountTrue(b)
  {
    if a != [] {
      assert (a + b)[1..] == a[1..] + b;
      CountTrueConcat(a[1..], b);
    } else {
      assert a + b == b;
    }
  }

  /** Setting an unset flag raises the count by one. */
  lemma CountTrueMark(s: seq<bool>, i: nat)
    requires i < |s| && !s[i]
    ensures CountTrue(s[i := true]) == CountTrue(s) + 1
  {
    assert s == s[..i] + [s[i]] + s[i + 1..];
    assert s[i := true] == s[..i] + [true] + s[i + 1..];
    CountTrueConcat(s[..i] + [s[i]], s[i + 1..]);
    CountTrueConcat(s[..i], [s[i]]);
    CountTrueConcat(s[..i] + [true], s[i + 1..]);
    CountTrueConcat(s[..i], [true]);
  }

  /** size / __len__: one per constraint token, each with its own met and sequence flag. */
  function Size(h: Hypothesis): (n: nat)
    ensures h.Null? ==> n == 0
    ensures WellFormed(h) && h.Constrained? ==> n == |h.met| == |h.isSequence|
  {
    if h.Null? then 0 else |h.constraints|
  }

  /** numMet: how many constraint tokens have been met. */
  function NumMet(h: Hypothesis): (n: nat)
    requires WellFormed(h)
    ensures n <= Size(h)
    ensures h.Constrained? ==> (n == Size(h) <==> forall i :: 0 <= i < |h.met| ==> h.met[i])
  {
    if h.Null? then 0 else CountTrueExtremes(h.met); CountTrue(h.met)
  }

  /** numNeeded: how many constraint tokens are still unmet. */
  function NumNeeded(h: Hypothesis): (n: nat)
    requires WellFormed(h)
    ensures n <= Size(h)
    ensures n == 0 <==> h.Null? || forall i :: 0 <= i < |h.met| ==> h.met[i]
  {
    Size(h) - NumMet(h)
  }

  /** finished: every constraint is met; the sentinel always reports finished. */
  function Finished(h: Hypothesis): (b: bool)
    requires WellFormed(h)
    ensures b <==> NumNeeded(h) == 0
    ensures b <==> h.Null? || forall i :: 0 <= i < |h.met| ==> h.met[i]
  {
    if h.Null? then true else NumNeeded(h) == 0
  }

  /** isValid: end-of-sentence is only legal once finished; the sentinel accepts nothing. */
  function IsValid(h: Hypothesis, w: int): (b: bool)
    requires WellFormed(h)
    ensures h.Null? ==> !b
    ensures h.Constrained? && w == h.eosId ==> (b <==> NumNeeded(h) == 0)
    ensures h.Constrained? && w != h.eosId ==> b
  {
    if h.Null? then false else Finished(h) || w != h.eosId
  }

  /** Not yet met, and the first token of its phrase (so it may be met on its own). */
  predicate Startable(h: Hypothesis, i: int)
    requires WellFormed(h) && h.Constrained? && 0 <= i < |h.constraints|
  {
    !h.met[i] && (i == 0 || !h.isSequence[i - 1])
  }

  /** A phrase has been started and not completed: lastMet is a non-final phrase token. */
  predicate MidPhrase(h: Hypothesis)
    requires WellFormed(h)
  {
    h.Constrained? && h.lastMet != -1 && h.isSequence[h.lastMet]
  }

  /** The unmet phrase-start positions below n, in increasing order. */
  function UnmetStarts(h: Hypothesis, n: nat): (idx: seq<nat>)
    requires WellFormed(h) && h.Constrained? && n <= |h.constraints|
    ensures forall k :: 0 <= k < |idx| ==> idx[k] < n && Startable(h, idx[k])
    ensures forall k, l :: 0 <= k < l < |idx| ==> idx[k] < idx[l]
    ensures forall i :: 0 <= i < n && Startable(h, i) ==> i in idx
  {
    if n == 0 then [] else UnmetStarts(h, n - 1) + (if Startable(h, n - 1) then [n - 1] else [])
  }

  function TokensAt(tokens: seq<int>, idx: seq<nat>): (ws: seq<int>)
    requires forall k :: 0 <= k < |idx| ==> idx[k] < |tokens|
    ensures |ws| == |idx| && forall k :: 0 <= k < |idx| ==> ws[k] == tokens[idx[k]]
  {
    if idx == [] then [] else [tokens[idx[0]]] + TokensAt(tokens, idx[1..])
  }

  /**
   * allowed: the constraint tokens that may come next. Mid-phrase, only the
   * phrase's next token; otherwise the tokens of the unmet phrase starts, in
   * index order.
   */
  function Allowed(h: Hypothesis): (ws: seq<int>)
    requires WellFormed(h)
    ensures MidPhrase(h) ==> ws == [h.constraints[h.lastMet + 1]]
    ensures !MidPhrase(h) && h.Constrained? ==> ws == TokensAt(h.constraints, UnmetStarts(h, |h.constraints|))
    ensures !MidPhrase(h) ==> forall w :: w in ws <==>
      exists i :: h.Constrained? && 0 <= i < |h.constraints| && Startable(h, i) && h.constraints[i] == w
  {
    if h.Null? then []
    else if MidPhrase(h) then [h.constraints[h.lastMet + 1]]
    else
      var idx := UnmetStarts(h, |h.constraints|);
      var ws := TokensAt(h.constraints, idx);
      assert forall i :: 0 <= i < |h.constraints| && Startable(h, i) ==> h.constraints[i] in ws by {
        forall i | 0 <= i < |h.constraints| && Startable(h, i) ensures h.constraints[i] in ws {
          var k :| 0 <= k < |idx| && idx[k] == i;
          assert ws[k] == h.constraints[i];
        }
      }
      ws
  }

  // ---------------------------------------------------------------------------
  // advance
  // ---------------------------------------------------------------------------

  /** The first token of the phrase containing position i. */
  function PhraseStart(isSequence: seq<bool>, i: nat): (s: nat)
    requires i < |isSequence|
    ensures s <= i
    ensures s == 0 || !isSequence[s - 1]
    ensures forall k :: s <= k < i ==> isSequence[k]
  {
    if i == 0 || !isSequence[i - 1] then i else PhraseStart(isSequence, i - 1)
  }

  /** The lowest startable position at or after `from` that holds w (list.index). */
  function FirstStartFrom(h: Hypothesis, w: int, from: nat): (pos: Option<nat>)
    requires WellFormed(h) && h.Constrained? && from <= |h.constraints|
    ensures pos.Some? ==> from <= pos.value < |h.constraints| && Startable(h, pos.value) && h.constraints[pos.value] == w
    ensures pos.Some? ==> forall j :: from <= j < pos.value ==> !(Startable(h, j) && h.constraints[j] == w)
    ensures pos.None? ==> forall j :: from <= j < |h.constraints| ==> !(Startable(h, j) && h.constraints[j] == w)
    decreases |h.constraints| - from
  {
    if from == |h.constraints| then None
    else if Startable(h, from) && h.constraints[from] == w then Some(from)
    else FirstStartFrom(h, w, from + 1)
  }

  /** `met` with positions lo..hi (inclusive) cleared. */
  function Unmarked(met: seq<bool>, lo: int, hi: int): (r: seq<bool>)
    ensures |r| == |met|
    ensures forall i :: 0 <= i < |met| ==> r[i] == (met[i] && !(lo <= i <= hi))
  {
    seq(|met|, i requires 0 <= i < |met| => if lo <= i <= hi then false else met[i])
  }

  /**
   * The state after emitting w. Mid-phrase, the phrase either continues or is
   * abandoned (its met prefix is cleared and the word is not tried against
   * other constraints). Otherwise the lowest startable position holding w is
   * marked, if there is one.
   */
  function Advanced(h: Hypothesis, w: int): (r: Hypothesis)
    requires WellFormed(h)
    ensures WellFormed(r)
    ensures r.Null? <==> h.Null?
    ensures r.Constrained? ==> r.constraints == h.constraints && r.isSequence == h.isSequence && r.eosId == h.eosId
  {
    if h.Null? then h
    else if MidPhrase(h) then
      if w == h.constraints[h.lastMet + 1] then
        h.(met := h.met[h.lastMet + 1 := true], lastMet := h.lastMet + 1)
      else
        h.(met := Unmarked(h.met, PhraseStart(h.isSequence, h.lastMet), h.lastMet), lastMet := -1)
    else
      match FirstStartFrom(h, w, 0)
      case None => h
      case Some(i) => h.(met := h.met[i := true], lastMet := i)
  }

  /**
   * advance: copy the state, then update the copy. The phrase rollback walks
   * back from lastMet while the flag says "sequential"; before position 0 the
   * source reads the list's last flag, which is always false, so the walk
   * stops there too.
   */
  method Advance(h: Hypothesis, w: int) returns (r: Hypothesis)
    requires WellFormed(h)
    ensures r == Advanced(h, w)
  {
    if h.Null? {
      return h;
    }
    var met := h.met;
    var lastMet := h.lastMet;
    if lastMet != -1 && h.isSequence[lastMet] {
      if w == h.constraints[lastMet + 1] {
        met := met[lastMet + 1 := true];
        lastMet := lastMet + 1;
      } else {
        ghost var start := PhraseStart(h.isSequence, lastMet);
        var index := lastMet;
        while index >= 0 && h.isSequence[index]
          invariant start - 1 <= index <= lastMet
          invariant met == Unmarked(h.met, index + 1, lastMet)
          decreases index
        {
          met := met[index := false];
          index := index - 1;
        }
        assert index == start - 1;
        lastMet := -1;
      }
    } else {
      var pos := FirstStartFrom(h, w, 0);
      if pos.Some? {
        met := met[pos.value := true];
        lastMet := pos.value;
      }
    }
    r := h.(met := met, lastMet := lastMet);
  }

  /** Phrase view of Consistent: between two positions of one phrase, met agrees unless lastMet separates them. */
  lemma {:induction false} PhraseShape(h: Hypothesis, i: nat, j: nat)
    requires WellFormed(h) && Consistent(h) && h.Constrained?
    requires i <= j < |h.constraints|
    requires forall k :: i <= k < j ==> h.isSequence[k]
    ensures if i <= h.lastMet < j then h.met[i] && !h.met[j] else h.met[i] == h.met[j]
  {
    if i < j {
      PhraseShape(h, i, j - 1);
      assert h.isSequence[j - 1];
    }
  }

  /** Every reachable state is Consistent: advance keeps the invariant. */
  lemma AdvancePreservesConsistency(h: Hypothesis, w: int)
    requires WellFormed(h) && Consistent(h)
    ensures Consistent(Advanced(h, w))
  {
    var r := Advanced(h, w);
    if h.Constrained? {
      var n := |h.constraints|;
      if MidPhrase(h) {
        var last := h.lastMet;
        if w != h.constraints[last + 1] {
          var s := PhraseStart(h.isSequence, last);
          forall i | 0 <= i < n - 1 && h.isSequence[i]
            ensures r.met[i] == r.met[i + 1]
          {
            if s <= i < last {
            } else if i == last {
            } else if i == s - 1 {
            } else {
              assert h.met[i] == h.met[i + 1];
            }
          }
        }
      } else {
        match FirstStartFrom(h, w, 0)
        case None =>
        case Some(p) =>
          forall i | 0 <= i < n - 1 && h.isSequence[i]
            ensures if i == p then r.met[i] && !r.met[i + 1] else r.met[i] == r.met[i + 1]
          {
            if i == p {
              assert h.met[i] == h.met[i + 1];
            } else if i + 1 == p {
            } else {
              assert i != h.lastMet;
            }
          }
      }
    }
  }

  /** Mid-phrase, the expected word marks the next phrase token and nothing else. */
  lemma ContinuePhrase(h: Hypothesis, w: int)
    requires WellFormed(h) && Consistent(h) && MidPhrase(h)
    requires w == h.constraints[h.lastMet + 1]
    ensures !h.met[h.lastMet + 1]
    ensures Advanced(h, w).met == h.met[h.lastMet + 1 := true]
    ensures Advanced(h, w).lastMet == h.lastMet + 1
    ensures NumMet(Advanced(h, w)) == NumMet(h) + 1
  {
    CountTrueMark(h.met, h.lastMet + 1);
  }

  /** Clearing a set flag lowers the count by one. */
  lemma CountTrueUnmark(s: seq<bool>, i: nat)
    requires i < |s| && s[i]
    ensures CountTrue(s[i := false]) == CountTrue(s) - 1
  {
    CountTrueMark(s[i := false], i);
    assert s[i := false][i := true] == s;
  }

  lemma UnmarkedStep(s: seq<bool>, lo: nat, hi: nat)
    requires lo < hi < |s|
    ensures Unmarked(s, lo, hi) == Unmarked(s, lo, hi - 1)[hi := false]
  {
  }

  /** Clearing a block of set flags lowers the count by the block's length. */
  lemma {:induction false} CountTrueClear(s: seq<bool>, lo: nat, hi: nat)
    requires lo <= hi < |s|
    requires forall i :: lo <= i <= hi ==> s[i]
    ensures CountTrue(Unmarked(s, lo, hi)) == CountTrue(s) - (hi - lo + 1)
    decreases hi - lo
  {
    if lo == hi {
      assert Unmarked(s, lo, hi) == s[hi := false];
      CountTrueUnmark(s, hi);
    } else {
      CountTrueClear(s, lo, hi - 1);
      UnmarkedStep(s, lo, hi);
      CountTrueUnmark(Unmarked(s, lo, hi - 1), hi);
    }
  }

  /** Mid-phrase, the met part of the current phrase is exactly its start up to lastMet. */
  lemma MetPrefix(h: Hypothesis)
    requires WellFormed(h) && Consistent(h) && MidPhrase(h)
    ensures var s := PhraseStart(h.isSequence, h.lastMet);
      (forall i :: s <= i <= h.lastMet ==> h.met[i]) &&
      (forall i :: h.lastMet < i < |h.met| && (forall k :: s <= k < i ==> h.isSequence[k]) ==> !h.met[i])
  {
    var s := PhraseStart(h.isSequence, h.lastMet);
    forall i | s <= i <= h.lastMet
      ensures h.met[i]
    {
      PhraseShape(h, s, i);
      PhraseShape(h, s, h.lastMet);
    }
    forall i | h.lastMet < i < |h.met| && (forall k :: s <= k < i ==> h.isSequence[k])
      ensures !h.met[i]
    {
      PhraseShape(h, s, i);
    }
  }

  /**
   * Mid-phrase, any other word abandons the phrase: the positions from its
   * start to lastMet are unmarked, nothing else changes, the whole phrase is
   * unmet afterwards and can be started again from its first token.
   */
  lemma AbandonPhrase(h: Hypothesis, w: int)
    requires WellFormed(h) && Consistent(h) && MidPhrase(h)
    requires w != h.constraints[h.lastMet + 1]
    ensures var r := Advanced(h, w); var s := PhraseStart(h.isSequence, h.lastMet);
      r.lastMet == -1 &&
      (forall i :: 0 <= i < |h.met| ==> r.met[i] == (h.met[i] && !(s <= i <= h.lastMet))) &&
      (forall i :: s <= i < |h.met| && (forall k :: s <= k < i ==> h.isSequence[k]) ==> !r.met[i]) &&
      NumMet(r) == NumMet(h) - (h.lastMet - s + 1) &&
      FirstStartFrom(r, h.constraints[s], 0).Some?
  {
    var r := Advanced(h, w);
    var s := PhraseStart(h.isSequence, h.lastMet);
    MetPrefix(h);
    CountTrueClear(h.met, s, h.lastMet);
    assert Startable(r, s);
  }

  /**
   * Outside a phrase, the word marks the lowest unmet phrase start holding it
   * and makes it lastMet; when there is none, nothing changes.
   */
  lemma StartOrKeep(h: Hypothesis, w: int)
    requires WellFormed(h) && h.Constrained? && !MidPhrase(h)
    ensures var r := Advanced(h, w);
      (forall i :: 0 <= i < |h.constraints| ==> !(Startable(h, i) && h.constraints[i] == w)) ==> r == h
    ensures var r := Advanced(h, w);
      (exists i :: 0 <= i < |h.constraints| && Startable(h, i) && h.constraints[i] == w) ==>
        NumMet(r) == NumMet(h) + 1 &&
        0 <= r.lastMet < |h.constraints| && Startable(h, r.lastMet) && h.constraints[r.lastMet] == w &&
        (forall j :: 0 <= j < r.lastMet ==> !(Startable(h, j) && h.constraints[j] == w)) &&
        r.met == h.met[r.lastMet := true]
  {
    match FirstStartFrom(h, w, 0)
    case None =>
    case Some(p) => CountTrueMark(h.met, p);
  }

  /** Every constraint-sourced word makes progress: one more token is met. */
  lemma AllowedProgress(h: Hypothesis, w: int)
    requires WellFormed(h) && Consistent(h)
    requires w in Allowed(h)
    ensures NumMet(Advanced(h, w)) == NumMet(h) + 1
  {
    if MidPhrase(h) {
      ContinuePhrase(h, w);
    } else {
      StartOrKeep(h, w);
    }
  }

  /** allowed() is empty exactly when the hypothesis is finished. */
  lemma AllowedEmptyIffFinished(h: Hypothesis)
    requires WellFormed(h) && Consistent(h)
    ensures Allowed(h) == [] <==> Finished(h)
  {
    if MidPhrase(h) {
      MidPhraseAllows(h);
    } else if h.Constrained? && !Finished(h) {
      UnfinishedAllows(h);
    }
  }

  /** In the middle of a phrase, the next token of the phrase is unmet, so not finished. */
  lemma MidPhraseAllows(h: Hypothesis)
    requires WellFormed(h) && Consistent(h) && MidPhrase(h)
    ensures Allowed(h) != [] && !Finished(h)
  {
    assert !h.met[h.lastMet + 1];
  }

  /** Outside a phrase, an unfinished hypothesis allows the first token of a phrase with an unmet token. */
  lemma UnfinishedAllows(h: Hypothesis)
    requires WellFormed(h) && Consistent(h) && !MidPhrase(h)
    requires h.Constrained? && !Finished(h)
    ensures Allowed(h) != []
  {
    var j :| 0 <= j < |h.met| && !h.met[j];
    var s := PhraseStart(h.isSequence, j);
    PhraseShape(h, s, j);
    assert Startable(h, s);
    assert h.constraints[s] in Allowed(h);
  }

  /** The state after emitting the words of ws in turn. */
  function AdvanceAll(h: Hypothesis, ws: seq<int>): (r: Hypothesis)
    requires WellFormed(h)
    ensures WellFormed(r)
    decreases ws
  {
    if ws == [] then h else AdvanceAll(Advanced(h, ws[0]), ws[1..])
  }

  /** Emitting w then ws is emitting ws from the state after w. */
  lemma AdvanceAllCons(h: Hypothesis, w: int, ws: seq<int>)
    requires WellFormed(h)
    ensures AdvanceAll(h, [w] + ws) == AdvanceAll(Advanced(h, w), ws)
  {
    assert ([w] + ws)[1..] == ws;
  }

  /** Each word of ws is allowed in the state the words before it lead to. */
  predicate AllowedSteps(h: Hypothesis, ws: seq<int>)
    requires WellFormed(h)
  {
    forall k :: 0 <= k < |ws| ==> ws[k] in Allowed(AdvanceAll(h, ws[..k]))
  }

  /** A word allowed now, followed by words allowed at each later step. */
  lemma AllowedStepsPrepend(h: Hypothesis, w: int, rest: seq<int>)
    requires WellFormed(h) && w in Allowed(h) && AllowedSteps(Advanced(h, w), rest)
    ensures AllowedSteps(h, [w] + rest)
  {
    var ws := [w] + rest;
    assert ws[..0] == [] && ws[0] == w && ws[1..] == rest;
    forall k | 0 <= k < |ws|
      ensures ws[k] in Allowed(AdvanceAll(h, ws[..k]))
    {
      if k > 0 {
        TailStep(h, ws, k - 1);
      }
    }
  }

  /**
   * Following allowed() to the end meets every constraint: emitting the first
   * allowed word, NumNeeded times, leaves the hypothesis finished.
   */
  function CompletingWords(h: Hypothesis): (ws: seq<int>)
    requires WellFormed(h) && Consistent(h)
    ensures |ws| == NumNeeded(h)
    ensures AllowedSteps(h, ws)
    ensures Finished(AdvanceAll(h, ws))
    decreases NumNeeded(h)
  {
    if Finished(h) then []
    else
      AllowedEmptyIffFinished(h);
      var w := Allowed(h)[0];
      AllowedProgress(h, w);
      AdvancePreservesConsistency(h, w);
      var rest := CompletingWords(Advanced(h, w));
      AdvanceAllCons(h, w, rest);
      AllowedStepsPrepend(h, w, rest);
      [w] + rest
  }

  /**
   * Every sequence of words each allowed at its step raises the met count by
   * one per word and keeps the hypothesis consistent.
   */
  lemma {:induction false} AllowedWordsProgress(h: Hypothesis, ws: seq<int>)
    requires WellFormed(h) && Consistent(h) && AllowedSteps(h, ws)
    ensures Consistent(AdvanceAll(h, ws))
    ensures Size(AdvanceAll(h, ws)) == Size(h)
    ensures NumMet(AdvanceAll(h, ws)) == NumMet(h) + |ws|
    decreases |ws|
  {
    if ws != [] {
      var w, rest := ws[0], ws[1..];
      AllowedStepsTail(h, ws);
      AllowedStep(h, w);
      AllowedWordsProgress(Advanced(h, w), rest);
    }
  }

  lemma AllowedStepsTail(h: Hypothesis, ws: seq<int>)
    requires WellFormed(h) && ws != [] && AllowedSteps(h, ws)
    ensures ws[0] in Allowed(h)
    ensures AllowedSteps(Advanced(h, ws[0]), ws[1..])
    ensures AdvanceAll(h, ws) == AdvanceAll(Advanced(h, ws[0]), ws[1..])
  {
    assert ws[..0] == [];
    forall k | 0 <= k < |ws| - 1
      ensures ws[1..][k] in Allowed(AdvanceAll(Advanced(h, ws[0]), ws[1..][..k]))
    {
      TailStep(h, ws, k);
    }
  }

  lemma TailStep(h: Hypothesis, ws: seq<int>, k: nat)
    requires WellFormed(h) && k + 1 < |ws|
    ensures ws[1..][k] == ws[k + 1]
    ensures AdvanceAll(Advanced(h, ws[0]), ws[1..][..k]) == AdvanceAll(h, ws[..k + 1])
  {
    var prefix := ws[..k + 1];
    assert prefix[1..] == ws[1..][..k];
  }

  /** One allowed word: consistency and size kept, one more constraint met. */
  lemma AllowedStep(h: Hypothesis, w: int)
    requires WellFormed(h) && Consistent(h) && w in Allowed(h)
    ensures Consistent(Advanced(h, w))
    ensures Size(Advanced(h, w)) == Size(h)
    ensures NumMet(Advanced(h, w)) == NumMet(h) + 1
  {
    AllowedProgress(h, w);
    AdvancePreservesConsistency(h, w);
  }

  /** Any numNeeded words, each allowed at its step, finish the hypothesis. */
  lemma AllowedWordsFinish(h: Hypothesis, ws: seq<int>)
    requires WellFormed(h) && Consistent(h)
    requires |ws| == NumNeeded(h) && AllowedSteps(h, ws)
    ensures Finished(AdvanceAll(h, ws))
  {
    AllowedWordsProgress(h, ws);
  }

  // ---------------------------------------------------------------------------
  // NullHypothesis
  // ---------------------------------------------------------------------------

  /** The padding sentinel: no constraints, finished, and it rejects every word. */
  function NullHypothesis(): (h: Hypothesis)
    ensures WellFormed(h) && Size(h) == 0 && NumMet(h) == 0 && Finished(h)
    ensures forall w :: !IsValid(h, w)
    ensures Allowed(h) == [] && forall w :: Advanced(h, w) == h
  {
    Null
  }

  /**
   * NullHypothesis as written: it calls the constructor with two empty
   * phrases, and the first one makes the constructor fail.
   */
  method NullHypothesisAsWritten() returns (r: Result<Hypothesis>)
    ensures r == Err(IndexError)
  {
    r := New([[], []], 0);
  }

  // ---------------------------------------------------------------------------
  // Worked scenarios
  // ---------------------------------------------------------------------------

  /** One phrase [1, 2] with end-of-sentence 3: meeting it word by word, and abandoning it. */
  lemma PhraseScenario()
    ensures var h0 := Initial([[1, 2]], 3);
      var h1 := Advanced(h0, 1);
      var h2 := Advanced(h1, 2);
      h0.met == [false, false] && h1.met == [true, false] && h1.lastMet == 0 &&
      Allowed(h1) == [2] && h2.met == [true, true] && Finished(h2) && IsValid(h2, 3) &&
      !IsValid(h1, 3) && Advanced(h1, 5) == h0
  {
    var phrases := [[1, 2]];
    assert phrases[..0] == [];
    assert Flatten(phrases) == [1, 2];
    assert Flags(phrases) == [true, false];
    var h0 := Initial(phrases, 3);
    assert h0.met == [false, false];
    assert Startable(h0, 0);
    var h1 := Advanced(h0, 1);
    assert h1.met == [true, false];
    var h2 := Advanced(h1, 2);
    assert h2.met == [true, true];
    assert Advanced(h1, 5).met == [false, false];
  }
}
