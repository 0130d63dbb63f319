/**
 * Beam-slot allocation over banks (get_bank_sizes in
 * sockeye/lexical_constraints.py). Bank b groups the candidates that have met
 * b constraints; the beam is first split evenly over the banks, then every
 * bank that has fewer candidates than slots hands its surplus to the nearest
 * banks that have candidates to spare.
 */
module Banks {

  function Sum(s: seq<int>): int
  {
    if s == [] then 0 else s[0] + Sum(s[1..])
  }

  lemma {:induction false} SumUpdate(s: seq<int>, i: nat, v: int)
    requires i < |s|
    ensures Sum(s[i := v]) == Sum(s) - s[i] + v
  {
    if i > 0 {
      assert s[i := v][1..] == s[1..][i - 1 := v];
      SumUpdate(s[1..], i - 1, v);
    } else {
      assert s[i := v][1..] == s[1..];
    }
  }

  lemma {:induction false} SumConstant(n: nat, c: int)
    ensures Sum(seq(n, _ => c)) == n * c
  {
    if n > 0 {
      assert seq(n, _ => c)[1..] == seq(n - 1, _ => c);
      SumConstant(n - 1, c);
    }
  }

  /** Pointwise at least as large, and larger somewhere: the sum is larger. */
  lemma {:induction false} SumStrictlyAbove(a: seq<int>, c: seq<int>, i: nat)
    requires |a| == |c| && i < |a|
    requires forall j :: 0 <= j < |a| ==> a[j] >= c[j]
    requires a[i] > c[i]
    ensures Sum(a) > Sum(c)
  {
    if i == 0 {
      SumAbove(a[1..], c[1..]);
    } else {
      SumStrictlyAbove(a[1..], c[1..], i - 1);
    }
  }

  lemma {:induction false} SumAbove(a: seq<int>, c: seq<int>)
    requires |a| == |c|
    requires forall j :: 0 <= j < |a| ==> a[j] >= c[j]
    ensures Sum(a) >= Sum(c)
  {
    if a != [] {
      SumAbove(a[1..], c[1..]);
    }
  }

  /**
   * With fewer candidates than slots no allocation can fit inside the
   * candidate counts, so the redistribution loop would search forever; this is
   * why GetBankSizes requires enough candidates.
   */
  lemma ShortSupplyNeverFits(allotted: seq<int>, candidates: seq<int>, beamSize: int)
    requires |allotted| == |candidates|
    requires Sum(allotted) == beamSize && Sum(candidates) < beamSize
    ensures exists b :: 0 <= b < |allotted| && allotted[b] > candidates[b]
  {
    if forall b :: 0 <= b < |allotted| ==> allotted[b] <= candidates[b] {
      SumAbove(candidates, allotted);
    }
  }

  /** The even split: beamSize / numBanks per bank, the remainder to the last bank. */
  function InitialShares(numBanks: nat, beamSize: nat): (shares: seq<int>)
    requires numBanks > 0
    ensures |shares| == numBanks
    ensures Sum(shares) == beamSize
    ensures forall b :: 0 <= b < numBanks ==> shares[b] >= 0
  {
    var bankSize := beamSize / numBanks;
    var remainder := beamSize - bankSize * numBanks;
    EvenSplit(numBanks, beamSize);
    var even := seq(numBanks, _ => bankSize);
    SumConstant(numBanks, bankSize);
    SumUpdate(even, numBanks - 1, bankSize + remainder);
    even[numBanks - 1 := bankSize + remainder]
  }

  /** Floor division leaves a remainder that is not negative. */
  lemma EvenSplit(numBanks: nat, beamSize: nat)
    requires numBanks > 0
    ensures beamSize / numBanks >= 0
    ensures beamSize - (beamSize / numBanks) * numBanks == beamSize % numBanks >= 0
  {
  }

  function Distance(j: nat, i: nat): nat
  {
    if j < i then i - j else j - i
  }

  /** The banks at distance d from bank i, the lower one first. */
  function AtDistance(i: nat, n: nat, d: nat): seq<nat>
  {
    (if 0 < d <= i then [i - d] else []) + (if 0 < d && i + d < n then [i + d] else [])
  }

  lemma AtDistanceBanks(i: nat, n: nat, d: nat)
    requires i < n && 0 < d
    ensures forall k :: 0 <= k < |AtDistance(i, n, d)| ==>
      AtDistance(i, n, d)[k] < n && AtDistance(i, n, d)[k] != i && Distance(AtDistance(i, n, d)[k], i) == d
    ensures forall j :: 0 <= j < n && Distance(j, i) == d ==> j in AtDistance(i, n, d)
    ensures |AtDistance(i, n, d)| <= 2
    ensures |AtDistance(i, n, d)| == 2 ==> AtDistance(i, n, d)[0] < AtDistance(i, n, d)[1]
  {
  }

  /**
   * The banks other than i at distance d or more, nearest first and, at equal
   * distance, lower index first.
   */
  function OrderFrom(i: nat, n: nat, d: nat): (o: seq<nat>)
    requires i < n && 0 < d
    decreases n - d
  {
    if d >= n then [] else AtDistance(i, n, d) + OrderFrom(i, n, d + 1)
  }

  predicate NearestFirst(o: seq<nat>, i: nat)
  {
    forall k, l :: 0 <= k < l < |o| ==>
      Distance(o[k], i) < Distance(o[l], i) || (Distance(o[k], i) == Distance(o[l], i) && o[k] < o[l])
  }

  lemma {:induction false} OrderFromBanks(i: nat, n: nat, d: nat)
    requires i < n && 0 < d
    ensures forall k :: 0 <= k < |OrderFrom(i, n, d)| ==>
      OrderFrom(i, n, d)[k] < n && OrderFrom(i, n, d)[k] != i && Distance(OrderFrom(i, n, d)[k], i) >= d
    ensures forall j :: 0 <= j < n && j != i && Distance(j, i) >= d ==> j in OrderFrom(i, n, d)
    ensures NearestFirst(OrderFrom(i, n, d), i)
    decreases n - d
  {
    if d < n {
      var a, r := AtDistance(i, n, d), OrderFrom(i, n, d + 1);
      var o := OrderFrom(i, n, d);
      assert o == a + r;
      AtDistanceBanks(i, n, d);
      OrderFromBanks(i, n, d + 1);
      NearerThenFarther(a, r, i, d);
      forall j | 0 <= j < n && j != i && Distance(j, i) >= d
        ensures j in o
      {
        if Distance(j, i) == d {
          assert j in a;
        } else {
          assert j in r;
        }
      }
    }
  }

  /**
   * The visiting order of the redistribution: the stable sort, by distance
   * from i, of the banks i-1 down to 0 followed by i+1 up to n-1. Every other
   * bank appears once, nearer banks first, and of two equidistant banks the
   * lower one first (it comes first in the unsorted list).
   */
  function NearestOrder(i: nat, n: nat): (o: seq<nat>)
    requires i < n
    ensures forall k :: 0 <= k < |o| ==> o[k] < n && o[k] != i
    ensures forall j :: 0 <= j < n && j != i ==> j in o
    ensures forall k, l :: 0 <= k < l < |o| ==>
      Distance(o[k], i) < Distance(o[l], i) || (Distance(o[k], i) == Distance(o[l], i) && o[k] < o[l])
    ensures forall k, l :: 0 <= k < l < |o| ==> o[k] != o[l]
  {
    OrderFromBanks(i, n, 1);
    NearestFirstDistinct(OrderFrom(i, n, 1), i);
    OrderFrom(i, n, 1)
  }

  /** Banks at distance d, in order, followed by banks farther away in nearest-first order, are in nearest-first order. */
  lemma NearerThenFarther(a: seq<nat>, r: seq<nat>, i: nat, d: nat)
    requires forall k :: 0 <= k < |a| ==> Distance(a[k], i) == d
    requires |a| == 2 ==> a[0] < a[1]
    requires |a| <= 2
    requires forall k :: 0 <= k < |r| ==> Distance(r[k], i) >= d + 1
    requires NearestFirst(r, i)
    ensures NearestFirst(a + r, i)
  {
    var o := a + r;
    forall k, l | 0 <= k < l < |o|
      ensures Distance(o[k], i) < Distance(o[l], i) || (Distance(o[k], i) == Distance(o[l], i) && o[k] < o[l])
    {
      if l < |a| {
        assert o[k] == a[k] && o[l] == a[l];
      } else if k < |a| {
        assert o[k] == a[k] && o[l] == r[l - |a|];
      } else {
        assert o[k] == r[k - |a|] && o[l] == r[l - |a|];
      }
    }
  }

  lemma NearestFirstDistinct(o: seq<nat>, i: nat)
    requires NearestFirst(o, i)
    ensures forall k, l :: 0 <= k < l < |o| ==> o[k] != o[l]
  {
  }

  function Abs(x: int): nat
  {
    if x < 0 then -x else x
  }

  function Min(x: int, y: int): int
  {
    if x <= y then x else y
  }

  /**
   * Processing bank i leaves it within its candidates, and touches the other
   * banks only within theirs: a bank short of candidates ends with exactly
   * its candidates; any other bank keeps at least its even share.
   */
  predicate Settled(allotted: seq<int>, candidates: seq<int>, init: seq<int>, b: nat)
    requires b < |allotted| == |candidates| == |init|
  {
    if candidates[b] < init[b] then allotted[b] == candidates[b]
    else init[b] <= allotted[b] <= candidates[b]
  }

  /** Not processed yet: a short bank still holds its even share. */
  predicate Pending(allotted: seq<int>, candidates: seq<int>, init: seq<int>, b: nat)
    requires b < |allotted| == |candidates| == |init|
  {
    if candidates[b] < init[b] then allotted[b] == init[b]
    else init[b] <= allotted[b] <= candidates[b]
  }

  /** While bank i is processed: the banks before it settled, the banks after it pending. */
  predicate AroundBank(a: seq<int>, c: seq<int>, init: seq<int>, i: nat)
    requires |a| == |c| == |init| && i < |a|
  {
    (forall b :: 0 <= b < i ==> Settled(a, c, init, b)) &&
    (forall b :: i < b < |a| ==> Pending(a, c, init, b))
  }

  /**
   * Moving t slots from bank i to a bank j that has room for them keeps the
   * total and every other bank's bound.
   */
  lemma TransferKeepsBounds(a: seq<int>, c: seq<int>, init: seq<int>, i: nat, j: nat, t: int)
    requires |a| == |c| == |init| && i < |a| && j < |a| && i != j
    requires 0 <= t <= c[j] - a[j]
    requires AroundBank(a, c, init, i)
    ensures var a' := a[i := a[i] - t][j := a[j] + t];
      Sum(a') == Sum(a) &&
      (forall b :: 0 <= b < |a| && b != i && b != j ==> a'[b] == a[b]) &&
      AroundBank(a', c, init, i)
  {
    var a1 := a[i := a[i] - t];
    var a2 := a1[j := a[j] + t];
    SumUpdate(a, i, a[i] - t);
    SumUpdate(a1, j, a[j] + t);
    forall b | 0 <= b < i
      ensures Settled(a2, c, init, b)
    {
      assert Settled(a, c, init, b);
    }
    forall b | i < b < |a|
      ensures Pending(a2, c, init, b)
    {
      assert Pending(a, c, init, b);
    }
  }

  /** After a full pass with a deficit left, every other bank would be full: impossible with enough candidates. */
  lemma PassSettles(allotted: seq<int>, candidates: seq<int>, i: nat, beamSize: int)
    requires |allotted| == |candidates| && i < |allotted|
    requires Sum(allotted) == beamSize <= Sum(candidates)
    requires allotted[i] > candidates[i] ==>
      forall j :: 0 <= j < |allotted| && j != i ==> allotted[j] >= candidates[j]
    ensures allotted[i] <= candidates[i]
  {
    if allotted[i] > candidates[i] {
      SumStrictlyAbove(allotted, candidates, i);
    }
  }

  /** Every bank in js holds at least its candidates. */
  predicate AllFull(a: seq<int>, c: seq<int>, js: seq<nat>)
    requires |a| == |c|
  {
    forall m :: 0 <= m < |js| ==> js[m] < |a| && a[js[m]] >= c[js[m]]
  }

  /** A pass that visited every other bank and found each full leaves them all full. */
  lemma VisitedCoverAll(a: seq<int>, c: seq<int>, order: seq<nat>, i: nat)
    requires |a| == |c| && i < |a|
    requires forall j :: 0 <= j < |a| && j != i ==> j in order
    requires AllFull(a, c, order)
    ensures forall j :: 0 <= j < |a| && j != i ==> a[j] >= c[j]
  {
    forall j | 0 <= j < |a| && j != i
      ensures a[j] >= c[j]
    {
      assert j in order;
      var m :| 0 <= m < |order| && order[m] == j;
    }
  }

  /**
   * Visiting bank order[k] keeps the banks visited before full when it is
   * full itself afterwards and only bank i and bank order[k] changed.
   */
  lemma VisitNext(before: seq<int>, after: seq<int>, c: seq<int>, order: seq<nat>, i: nat, k: nat)
    requires |before| == |after| == |c| && k < |order|
    requires forall m :: 0 <= m < |order| ==> order[m] < |before| && order[m] != i
    requires forall m, l :: 0 <= m < l < |order| ==> order[m] != order[l]
    requires forall b :: 0 <= b < |before| && b != i && b != order[k] ==> after[b] == before[b]
    requires AllFull(before, c, order[..k])
    requires after[order[k]] >= c[order[k]]
    ensures AllFull(after, c, order[..k + 1])
  {
    forall m | 0 <= m < k
      ensures after[order[m]] == before[order[m]]
    {
      assert order[m] != order[k];
    }
    assert forall m :: 0 <= m < k ==> order[..k][m] == order[m];
  }

  /**
   * One visit of the pass: moving t slots from bank i to bank order[k], where
   * t is the smaller of the deficit and the spare candidates of order[k],
   * keeps the bounds and the total, and if a deficit remains then order[k]
   * is now full like every bank visited before it.
   */
  lemma VisitStep(a: seq<int>, c: seq<int>, init: seq<int>, order: seq<nat>, i: nat, k: nat, t: int)
    requires |a| == |c| == |init| && i < |a| && k < |order|
    requires forall m :: 0 <= m < |order| ==> order[m] < |a| && order[m] != i
    requires forall m, l :: 0 <= m < l < |order| ==> order[m] != order[l]
    requires a[i] >= c[i] && c[order[k]] > a[order[k]]
    requires t == Min(a[i] - c[i], c[order[k]] - a[order[k]])
    requires AroundBank(a, c, init, i)
    requires a[i] > c[i] ==> AllFull(a, c, order[..k])
    ensures var a' := a[i := a[i] - t][order[k] := a[order[k]] + t];
      Sum(a') == Sum(a) &&
      AroundBank(a', c, init, i) &&
      (a'[i] > c[i] ==> AllFull(a', c, order[..k + 1]))
  {
    TransferKeepsBounds(a, c, init, i, order[k], t);
    var a' := a[i := a[i] - t][order[k] := a[order[k]] + t];
    if a'[i] > c[i] {
      VisitNext(a, a', c, order, i, k);
    }
  }

  /**
   * One visit of the inner loop of get_bank_sizes: a bank j with spare
   * candidates takes as much of bank i's surplus as it has room for.
   */
  function Visit(a: seq<int>, c: seq<int>, i: nat, j: nat): (r: seq<int>)
    requires |a| == |c| && i < |a| && j < |a|
    ensures |r| == |a|
  {
    var capacity := c[j] - a[j];
    if capacity > 0 then
      var transfer := Min(Abs(c[i] - a[i]), capacity);
      a[i := a[i] - transfer][j := a[j] + transfer]
    else a
  }

  /** One pass of the inner loop: the banks of order visited in turn. */
  function Pass(a: seq<int>, c: seq<int>, i: nat, order: seq<nat>): (r: seq<int>)
    requires |a| == |c| && i < |a|
    requires forall k :: 0 <= k < |order| ==> order[k] < |a|
    ensures |r| == |a|
  {
    if order == [] then a
    else Visit(Pass(a, c, i, order[..|order| - 1]), c, i, order[|order| - 1])
  }

  lemma VisitTransfers(a: seq<int>, c: seq<int>, i: nat, j: nat, t: int)
    requires |a| == |c| && i < |a| && j < |a|
    requires c[j] - a[j] > 0 && t == Min(Abs(c[i] - a[i]), c[j] - a[j])
    ensures Visit(a, c, i, j) == a[i := a[i] - t][j := a[j] + t]
  {
  }

  lemma PassSnoc(a: seq<int>, c: seq<int>, i: nat, order: seq<nat>, k: nat)
    requires |a| == |c| && i < |a| && k < |order|
    requires forall m :: 0 <= m < |order| ==> order[m] < |a|
    ensures Pass(a, c, i, order[..k + 1]) == Visit(Pass(a, c, i, order[..k]), c, i, order[k])
  {
    assert order[..k + 1][..k] == order[..k];
  }

  /**
   * The while loop for bank i: a pass over the nearest banks while bank i
   * holds more slots than it has candidates. When the candidates cover the
   * beam, one pass clears the surplus (PassSettles), so the loop is this one
   * pass.
   */
  function Settle(a: seq<int>, c: seq<int>, i: nat): (r: seq<int>)
    requires |a| == |c| && i < |a|
    ensures |r| == |a|
  {
    if c[i] - a[i] < 0 then Pass(a, c, i, NearestOrder(i, |a|)) else a
  }

  /** The outer loop: banks 0 .. n-1 settled in turn. */
  function SettleBelow(a: seq<int>, c: seq<int>, n: nat): (r: seq<int>)
    requires |a| == |c| && n <= |a|
    ensures |r| == |a|
  {
    if n == 0 then a else Settle(SettleBelow(a, c, n - 1), c, n - 1)
  }

  /** get_bank_sizes as a function: the even split, then every bank settled in index order. */
  function BankSizes(numConstraints: nat, beamSize: nat, candidates: seq<int>): (r: seq<int>)
    requires |candidates| == numConstraints + 1
    ensures |r| == numConstraints + 1
  {
    SettleBelow(InitialShares(numConstraints + 1, beamSize), candidates, numConstraints + 1)
  }

  /**
   * One pass of the redistribution for bank i: visit the other banks nearest
   * first and move to each one as many slots as it has spare candidates, up
   * to the remaining deficit. If a deficit is left, every other bank is full.
   */
  method RedistributePass(allotted: seq<int>, candidates: seq<int>, ghost init: seq<int>, i: nat)
    returns (after: seq<int>)
    requires |allotted| == |candidates| == |init| && i < |allotted|
    requires allotted[i] >= candidates[i]
    requires AroundBank(allotted, candidates, init, i)
    ensures |after| == |allotted| && Sum(after) == Sum(allotted)
    ensures candidates[i] <= after[i] <= allotted[i]
    ensures AroundBank(after, candidates, init, i)
    ensures after[i] > candidates[i] ==>
      forall j :: 0 <= j < |after| && j != i ==> after[j] >= candidates[j]
    ensures after == Pass(allotted, candidates, i, NearestOrder(i, |allotted|))
  {
    var n := |allotted|;
    after := allotted;
    var deficit := candidates[i] - after[i];
    var order := NearestOrder(i, n);
    for k := 0 to |order|
      invariant |after| == n
      invariant Sum(after) == Sum(allotted)
      invariant deficit == candidates[i] - after[i]
      invariant deficit <= 0 && after[i] <= allotted[i]
      invariant AroundBank(after, candidates, init, i)
      invariant after[i] > candidates[i] ==> AllFull(after, candidates, order[..k])
      invariant after == Pass(allotted, candidates, i, order[..k])
    {
      PassSnoc(allotted, candidates, i, order, k);
      after, deficit := VisitBank(after, deficit, candidates, init, order, i, k);
    }
    assert order[..|order|] == order;
    if deficit < 0 {
      VisitedCoverAll(after, candidates, order, i);
    }
  }

  /**
   * The body of the inner loop: bank order[k], if it has spare candidates,
   * takes as much of bank i's surplus as it has room for.
   */
  method VisitBank(before: seq<int>, deficit: int, candidates: seq<int>, ghost init: seq<int>,
                   order: seq<nat>, i: nat, k: nat)
    returns (after: seq<int>, deficit': int)
    requires |before| == |candidates| == |init| && i < |before| && k < |order|
    requires forall m :: 0 <= m < |order| ==> order[m] < |before| && order[m] != i
    requires forall m, l :: 0 <= m < l < |order| ==> order[m] != order[l]
    requires deficit == candidates[i] - before[i] && deficit <= 0
    requires AroundBank(before, candidates, init, i)
    requires before[i] > candidates[i] ==> AllFull(before, candidates, order[..k])
    ensures after == Visit(before, candidates, i, order[k])
    ensures Sum(after) == Sum(before)
    ensures deficit' == candidates[i] - after[i] && deficit' <= 0 && after[i] <= before[i]
    ensures AroundBank(after, candidates, init, i)
    ensures after[i] > candidates[i] ==> AllFull(after, candidates, order[..k + 1])
  {
    var j := order[k];
    var capacity := candidates[j] - before[j];
    after, deficit' := before, deficit;
    if capacity > 0 {
      var transfer := Min(Abs(deficit), capacity);
      VisitStep(before, candidates, init, order, i, k, transfer);
      VisitTransfers(before, candidates, i, j, transfer);
      deficit' := deficit + transfer;
      after := before[i := before[i] - transfer][j := before[j] + transfer];
    } else if deficit < 0 {
      VisitNext(before, before, candidates, order, i, k);
    }
  }

  /**
   * The redistribution for one bank i: passes repeat while bank i holds more
   * slots than it has candidates. With enough candidates overall the first
   * pass clears the deficit.
   */
  method SettleBank(allotted: seq<int>, candidates: seq<int>, ghost init: seq<int>, i: nat, ghost beamSize: int)
    returns (settled: seq<int>)
    requires |allotted| == |candidates| == |init| && i < |allotted|
    requires Sum(allotted) == beamSize <= Sum(candidates)
    requires forall b :: 0 <= b < i ==> Settled(allotted, candidates, init, b)
    requires forall b :: i <= b < |allotted| ==> Pending(allotted, candidates, init, b)
    ensures |settled| == |allotted| && Sum(settled) == beamSize
    ensures forall b :: 0 <= b <= i ==> Settled(settled, candidates, init, b)
    ensures forall b :: i < b < |settled| ==> Pending(settled, candidates, init, b)
    ensures settled == Settle(allotted, candidates, i)
  {
    settled := allotted;
    var deficit := candidates[i] - settled[i];
    assert Pending(settled, candidates, init, i);
    while deficit < 0
      invariant |settled| == |allotted|
      invariant Sum(settled) == beamSize
      invariant deficit == candidates[i] - settled[i]
      invariant deficit < 0 ==> settled[i] == init[i]
      invariant deficit >= 0 ==> Settled(settled, candidates, init, i)
      invariant AroundBank(settled, candidates, init, i)
      invariant deficit < 0 ==> settled == allotted
      invariant settled == allotted || settled == Settle(allotted, candidates, i)
      decreases -deficit
    {
      settled := RedistributePass(settled, candidates, init, i);
      PassSettles(settled, candidates, i, beamSize);
      deficit := candidates[i] - settled[i];
    }
  }

  /**
   * get_bank_sizes. Every bank gets at most as many slots as it has
   * candidates, the slots still add up to the beam size, a bank with fewer
   * candidates than its even share keeps exactly its candidates, and every
   * other bank keeps at least its even share.
   */
  method GetBankSizes(numConstraints: nat, beamSize: nat, candidates: seq<int>) returns (allotted: seq<int>)
    requires |candidates| == numConstraints + 1
    requires Sum(candidates) >= beamSize
    ensures |allotted| == numConstraints + 1
    ensures Sum(allotted) == beamSize
    ensures forall b :: 0 <= b < |allotted| ==> allotted[b] <= candidates[b]
    ensures var init := InitialShares(numConstraints + 1, beamSize);
      forall b :: 0 <= b < |allotted| ==> Settled(allotted, candidates, init, b)
    ensures (forall b :: 0 <= b < |candidates| ==> candidates[b] >= 0) ==>
      forall b :: 0 <= b < |allotted| ==> allotted[b] >= 0
    ensures allotted == BankSizes(numConstraints, beamSize, candidates)
  {
    var numBanks := numConstraints + 1;
    var bankSize := beamSize / numBanks;
    var remainder := beamSize - bankSize * numBanks;
    allotted := seq(numBanks, _ => bankSize);
    allotted := allotted[numBanks - 1 := allotted[numBanks - 1] + remainder];
    ghost var init := InitialShares(numBanks, beamSize);
    assert allotted == init;

    for i := 0 to numBanks
      invariant |allotted| == numBanks
      invariant Sum(allotted) == beamSize
      invariant forall b :: 0 <= b < i ==> Settled(allotted, candidates, init, b)
      invariant forall b :: i <= b < numBanks ==> Pending(allotted, candidates, init, b)
      invariant allotted == SettleBelow(init, candidates, i)
    {
      allotted := SettleBank(allotted, candidates, init, i, beamSize);
    }
    forall b | 0 <= b < numBanks
      ensures allotted[b] <= candidates[b]
      ensures candidates[b] >= 0 ==> allotted[b] >= 0
    {
      assert Settled(allotted, candidates, init, b);
    }
  }

  /** The worked example: one constraint, beam 4, counts [1, 5] give [1, 3]. */
  method BankSizesExample() returns (sizes: seq<int>)
    ensures sizes == [1, 3]
  {
    assert Sum([1, 5]) == 6;
    sizes := GetBankSizes(1, 4, [1, 5]);
    assert InitialShares(2, 4) == [2, 2];
    assert Settled(sizes, [1, 5], [2, 2], 0);
    assert sizes[1..][1..] == [];
    assert Sum(sizes) == sizes[0] + sizes[1];
    assert sizes == [sizes[0], sizes[1]];
  }

  /**
   * Where a short bank's surplus goes: to the nearest bank with spare
   * candidates, and of two equally near banks to the lower one.
   */
  lemma NearestBankFirst()
    ensures BankSizes(2, 3, [0, 5, 5]) == [0, 2, 1]
  {
    var c := [0, 5, 5];
    assert InitialShares(3, 3) == [1, 1, 1];
    assert NearestOrder(0, 3) == [1, 2] by {
      assert AtDistance(0, 3, 1) == [1] && AtDistance(0, 3, 2) == [2];
      assert OrderFrom(0, 3, 3) == [];
    }
    assert Pass([1, 1, 1], c, 0, [1]) == [0, 2, 1] by {
      assert [1][..0] == [];
      assert Visit([1, 1, 1], c, 0, 1) == [0, 2, 1];
    }
    assert Pass([1, 1, 1], c, 0, [1, 2]) == [0, 2, 1] by {
      assert [1, 2][..1] == [1];
      assert Visit([0, 2, 1], c, 0, 2) == [0, 2, 1];
    }
    assert SettleBelow([1, 1, 1], c, 1) == [0, 2, 1];
    assert SettleBelow([1, 1, 1], c, 2) == [0, 2, 1];
  }

  /** Of two banks equally near a short bank, the lower one takes its surplus. */
  lemma LowerBankOnTies()
    ensures BankSizes(2, 3, [5, 0, 5]) == [2, 0, 1]
  {
    var c := [5, 0, 5];
    assert InitialShares(3, 3) == [1, 1, 1];
    assert NearestOrder(1, 3) == [0, 2] by {
      assert AtDistance(1, 3, 1) == [0, 2] && AtDistance(1, 3, 2) == [];
      assert OrderFrom(1, 3, 3) == [];
    }
    assert Pass([1, 1, 1], c, 1, [0]) == [2, 0, 1] by {
      assert [0][..0] == [];
      assert Visit([1, 1, 1], c, 1, 0) == [2, 0, 1];
    }
    assert Pass([1, 1, 1], c, 1, [0, 2]) == [2, 0, 1] by {
      assert [0, 2][..1] == [0];
      assert Visit([2, 0, 1], c, 1, 2) == [2, 0, 1];
    }
    assert SettleBelow([1, 1, 1], c, 1) == [1, 1, 1];
    assert SettleBelow([1, 1, 1], c, 2) == [2, 0, 1];
  }
}
