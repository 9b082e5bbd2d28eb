/** Round generation on the fixed 3×3 board: three distinct solution cells are
    chosen first, their values fix the target, and the other six cells are
    filled at random. Randomness is a finite sequence of draws supplied by the
    caller: the k-th call of `randInt` returns `draws[k]`. */
module Rounds {
  import opened Wrappers
  import opened Strings

  const RngMin := 0
  const RngMax := 9
  const CellCount := 9
  const PickCount := 3

  /** The k-th draw, provided it exists and honours the requested range [lo, hi];
      `None` when the draws are used up or the source broke its range promise. */
  function RandInt(draws: seq<int>, k: nat, lo: int, hi: int): (r: Option<int>)
    ensures r.Some? <==> k < |draws| && lo <= draws[k] <= hi
    ensures r.Some? ==> r.value == draws[k] && lo <= r.value <= hi
  {
    if k < |draws| && lo <= draws[k] <= hi then Some(draws[k]) else None
  }

  /** One puzzle: cell values in row-major order, the sum to reach, and the
      cells the generator built that sum from. */
  datatype Round = Round(numbers: seq<int>, target: int, solutionIdxs: seq<int>)

  predicate Distinct(s: seq<int>) {
    forall i, j :: 0 <= i < j < |s| ==> s[i] != s[j]
  }

  predicate InRange(s: seq<int>, lo: int, hi: int) {
    forall i :: 0 <= i < |s| ==> lo <= s[i] <= hi
  }

  /** Some three distinct cells sum to the target. */
  ghost predicate HasSolution(numbers: seq<int>, target: int) {
    exists i, j, l :: 0 <= i < |numbers| && 0 <= j < |numbers| && 0 <= l < |numbers|
      && i != j && j != l && i != l && numbers[i] + numbers[j] + numbers[l] == target
  }

  /** What every generated round satisfies. */
  ghost predicate ValidRound(r: Round) {
    && |r.numbers| == CellCount && InRange(r.numbers, RngMin, RngMax)
    && |r.solutionIdxs| == PickCount && Distinct(r.solutionIdxs)
    && InRange(r.solutionIdxs, 0, CellCount - 1)
    && r.target == r.numbers[r.solutionIdxs[0]] + r.numbers[r.solutionIdxs[1]]
                   + r.numbers[r.solutionIdxs[2]]
    && 0 <= r.target <= 27
  }

  /** Adding to an insertion-ordered set: a value already present changes nothing. */
  function AddIfNew(idxs: seq<int>, x: int): (r: seq<int>)
    ensures forall y :: y in r <==> y in idxs || y == x
    ensures idxs <= r && |r| <= |idxs| + 1
    ensures Distinct(idxs) ==> Distinct(r)
    ensures InRange(idxs, 0, CellCount - 1) && 0 <= x < CellCount ==> InRange(r, 0, CellCount - 1)
  {
    if x in idxs then idxs else idxs + [x]
  }

  datatype Picked = Picked(idxs: seq<int>, next: nat)

  /** The rejection loop of `pick3DistinctIdx`, started from `idxs` at draw `k`. */
  function PickFrom(draws: seq<int>, idxs: seq<int>, k: nat): (r: Option<Picked>)
    requires k <= |draws|
    requires |idxs| <= PickCount && Distinct(idxs) && InRange(idxs, 0, CellCount - 1)
    ensures r.Some? ==>
      && |r.value.idxs| == PickCount && Distinct(r.value.idxs)
      && InRange(r.value.idxs, 0, CellCount - 1)
      && k <= r.value.next <= |draws| && idxs <= r.value.idxs
    decreases |draws| - k
  {
    if |idxs| >= PickCount then Some(Picked(idxs, k))
    else
      match RandInt(draws, k, 0, CellCount - 1)
      case None => None
      case Some(x) =>
        PickFrom(draws, AddIfNew(idxs, x), k + 1)
  }

  /** `idxs` holds exactly the values occurring in `s`. */
  ghost predicate SameMembers(idxs: seq<int>, s: seq<int>) {
    forall y :: y in idxs <==> y in s
  }

  /** The picked indices are the starting ones together with every index drawn
      (set semantics: a repeated draw adds nothing). */
  lemma {:induction false} PickFromMembers(draws: seq<int>, idxs: seq<int>, k: nat)
    requires k <= |draws|
    requires |idxs| <= PickCount && Distinct(idxs) && InRange(idxs, 0, CellCount - 1)
    ensures var r := PickFrom(draws, idxs, k);
      r.Some? ==> SameMembers(r.value.idxs, idxs + draws[k..r.value.next])
    decreases |draws| - k
  {
    var r := PickFrom(draws, idxs, k);
    if |idxs| >= PickCount {
      assert idxs + draws[k..k] == idxs;
    } else if r.Some? {
      var added := AddIfNew(idxs, draws[k]);
      assert r == PickFrom(draws, added, k + 1);
      PickFromMembers(draws, added, k + 1);
      var d := draws[k..r.value.next];
      assert d[1..] == draws[k + 1..r.value.next];
      MembersStep(idxs, added, d, r.value.idxs);
    }
  }

  /** The first draw `d[0]` taken before the rest: the members gathered are
      the starting ones and those of all of `d`. */
  lemma MembersStep(idxs: seq<int>, added: seq<int>, d: seq<int>, result: seq<int>)
    requires |d| >= 1
    requires forall y :: y in added <==> y in idxs || y == d[0]
    requires SameMembers(result, added + d[1..])
    ensures SameMembers(result, idxs + d)
  {
    assert d == [d[0]] + d[1..];
  }

  /** `idxs` lists values of `s` in the order of their first occurrence in `s`. */
  predicate FirstSeenOrder(s: seq<int>, idxs: seq<int>) {
    forall j, l :: 0 <= j < l < |idxs| ==>
      idxs[j] in s && idxs[l] in s && IndexOf(s, idxs[j]) < IndexOf(s, idxs[l])
  }

  /** Adding the next draw keeps the listing in first-occurrence order. */
  lemma FirstSeenOrderExtend(s: seq<int>, idxs: seq<int>, x: int)
    requires forall y :: y in idxs <==> y in s
    requires FirstSeenOrder(s, idxs)
    ensures FirstSeenOrder(s + [x], AddIfNew(idxs, x))
  {
    var t := s + [x];
    var added := AddIfNew(idxs, x);
    assert t[..|s|] == s;
    forall y | y in s ensures y in t && IndexOf(t, y) == IndexOf(s, y) {
      var p := IndexOf(s, y);
      assert t[..p] == s[..p];
      IndexOfUnique(t, y, p);
    }
    if x !in idxs {
      IndexOfUnique(t, x, |s|);
      forall j, l | 0 <= j < l < |added|
        ensures added[j] in t && added[l] in t && IndexOf(t, added[j]) < IndexOf(t, added[l])
      {
        assert added[j] == idxs[j] && added[j] in s;
        if l < |idxs| {
          assert added[l] == idxs[l];
        }
      }
    }
  }

  /** Draw `n - 1` brought a value not drawn before it. */
  predicate NewAt(draws: seq<int>, n: nat) {
    1 <= n <= |draws| && draws[n - 1] !in draws[..n - 1]
  }

  /** One pass of the loop body keeps both facts about the listing. */
  lemma PickStep(draws: seq<int>, idxs: seq<int>, k: nat)
    requires k < |draws|
    requires SameMembers(idxs, draws[..k]) && FirstSeenOrder(draws[..k], idxs)
    ensures SameMembers(AddIfNew(idxs, draws[k]), draws[..k + 1])
    ensures FirstSeenOrder(draws[..k + 1], AddIfNew(idxs, draws[k]))
    ensures draws[k] !in idxs ==> NewAt(draws, k + 1)
  {
    assert draws[..k + 1] == draws[..k] + [draws[k]];
    FirstSeenOrderExtend(draws[..k], idxs, draws[k]);
  }

  /** Started from the indices seen in the first `k` draws, listed in
      first-occurrence order, the loop ends with the indices of the draws used,
      still in that order; and when it draws at all, its last draw was a new
      index: it stops as soon as the third distinct one appears. */
  lemma {:induction false} PickFromFirstSeen(draws: seq<int>, idxs: seq<int>, k: nat)
    requires k <= |draws|
    requires |idxs| <= PickCount && Distinct(idxs) && InRange(idxs, 0, CellCount - 1)
    requires SameMembers(idxs, draws[..k]) && FirstSeenOrder(draws[..k], idxs)
    ensures var r := PickFrom(draws, idxs, k);
      r.Some? ==>
        && FirstSeenOrder(draws[..r.value.next], r.value.idxs)
        && (|idxs| < PickCount ==> k < r.value.next && NewAt(draws, r.value.next))
    decreases |draws| - k
  {
    var r := PickFrom(draws, idxs, k);
    if |idxs| < PickCount && r.Some? {
      var x := draws[k];
      var added := AddIfNew(idxs, x);
      assert r == PickFrom(draws, added, k + 1);
      PickStep(draws, idxs, k);
      PickFromFirstSeen(draws, added, k + 1);
      if |added| >= PickCount {
        assert r == Some(Picked(added, k + 1));
        assert x !in idxs;
      }
    }
  }

  /** `p` is what the index loop gives on `draws`: three distinct indices in
      [0, 8], exactly those among the draws it used, listed in the order first
      drawn, and its last draw brought a new index. */
  ghost predicate PickedFrom(draws: seq<int>, p: Picked) {
    && |p.idxs| == PickCount && Distinct(p.idxs)
    && InRange(p.idxs, 0, CellCount - 1) && p.next <= |draws|
    && SameMembers(p.idxs, draws[..p.next])
    && FirstSeenOrder(draws[..p.next], p.idxs)
    && NewAt(draws, p.next)
  }

  /** Three distinct cell indices in [0, 8], listed in the order first drawn, and
      the number of draws used; `None` when the draws ran out first. The loop
      stops at the draw that brings the third distinct index. */
  function Pick3DistinctIdx(draws: seq<int>): (r: Option<Picked>)
    ensures r.Some? ==> PickedFrom(draws, r.value)
  {
    PickFacts(draws);
    PickFrom(draws, [], 0)
  }

  lemma PickFacts(draws: seq<int>)
    ensures var r := PickFrom(draws, [], 0); r.Some? ==> PickedFrom(draws, r.value)
  {
    PickFromMembers(draws, [], 0);
    PickFromFirstSeen(draws, [], 0);
    var r := PickFrom(draws, [], 0);
    if r.Some? {
      assert [] + draws[0..r.value.next] == draws[..r.value.next];
    }
  }

  /** Number of cells in [i, j) outside `sol`: the filler draws those cells use. */
  function FreeBetween(sol: seq<int>, i: int, j: int): nat
    decreases j - i
  {
    if i >= j then 0 else (if i in sol then 0 else 1) + FreeBetween(sol, i + 1, j)
  }

  datatype Filled = Filled(numbers: seq<int>, next: nat)

  /** The filler loop from cell `i` on: each cell outside `sol` gets the next
      draw in [0, 9]; solution cells are skipped. */
  function FillFrom(draws: seq<int>, sol: seq<int>, numbers: seq<int>, i: nat, k: nat): (r: Option<Filled>)
    requires |numbers| == CellCount && i <= CellCount && k <= |draws|
    ensures r.Some? ==>
      && |r.value.numbers| == CellCount
      && k <= r.value.next <= |draws|
      && (forall j :: 0 <= j < CellCount && (j < i || j in sol) ==> r.value.numbers[j] == numbers[j])
      && FillerDrawn(draws, r.value.numbers, sol, i, k)
      && (forall j :: i <= j < CellCount && j !in sol ==> RngMin <= r.value.numbers[j] <= RngMax)
    decreases CellCount - i
  {
    if i == CellCount then Some(Filled(numbers, k))
    else if i in sol then FillFrom(draws, sol, numbers, i + 1, k)
    else
      match RandInt(draws, k, RngMin, RngMax)
      case None => None
      case Some(v) => FillFrom(draws, sol, numbers[i := v], i + 1, k + 1)
  }

  /** The board before the filler loop: zeros, with the solution values written
      into the solution cells. */
  function Seeded(sol: seq<int>, a: int, b: int, c: int): (r: seq<int>)
    requires |sol| == PickCount && Distinct(sol) && InRange(sol, 0, CellCount - 1)
    ensures |r| == CellCount && r[sol[0]] == a && r[sol[1]] == b && r[sol[2]] == c
  {
    seq(CellCount, _ => 0)[sol[0] := a][sol[1] := b][sol[2] := c]
  }

  /** The solution cells hold the three draws from `next` on, in order. */
  predicate SolutionDrawn(draws: seq<int>, numbers: seq<int>, sol: seq<int>, next: nat) {
    forall j :: 0 <= j < |sol| ==>
      0 <= sol[j] < |numbers| && next + j < |draws| && numbers[sol[j]] == draws[next + j]
  }

  /** Every cell outside the solution holds its own draw from `start` on, in
      row-major order. */
  predicate FillerDrawn(draws: seq<int>, numbers: seq<int>, sol: seq<int>, from: nat, start: nat) {
    forall i {:trigger numbers[i]} :: from <= i < |numbers| && i !in sol ==>
      start + FreeBetween(sol, from, i) < |draws| && numbers[i] == draws[start + FreeBetween(sol, from, i)]
  }

  /** The filler loop uses exactly one draw per cell outside the solution. */
  lemma {:induction false} FillFromDrawCount(draws: seq<int>, sol: seq<int>, numbers: seq<int>, i: nat, k: nat)
    requires |numbers| == CellCount && i <= CellCount && k <= |draws|
    ensures var r := FillFrom(draws, sol, numbers, i, k);
      r.Some? ==> r.value.next == k + FreeBetween(sol, i, CellCount)
    decreases CellCount - i
  {
    if i < CellCount {
      if i in sol {
        FillFromDrawCount(draws, sol, numbers, i + 1, k);
      } else if k < |draws| && RngMin <= draws[k] <= RngMax {
        FillFromDrawCount(draws, sol, numbers[i := draws[k]], i + 1, k + 1);
      }
    }
  }

  /** A round with a solution built in, or `None` when the draws ran out (or
      left their range) first. The solution cells hold the three draws taken
      right after the index draws, and every other cell its own filler draw. */
  function GenerateRound(draws: seq<int>): (r: Option<Round>)
    ensures r.Some? ==> ValidRound(r.value) && HasSolution(r.value.numbers, r.value.target)
    ensures r.Some? ==>
      var p := Pick3DistinctIdx(draws);
      && p.Some? && r.value.solutionIdxs == p.value.idxs
      && SolutionDrawn(draws, r.value.numbers, p.value.idxs, p.value.next)
      && FillerDrawn(draws, r.value.numbers, p.value.idxs, 0, p.value.next + PickCount)
  {
    match Pick3DistinctIdx(draws)
    case None => None
    case Some(p) => FillRound(draws, p.idxs, p.next)
  }

  /** Everything `generateRound` does once the solution cells are known. */
  function FillRound(draws: seq<int>, sol: seq<int>, next: nat): (r: Option<Round>)
    requires |sol| == PickCount && Distinct(sol) && InRange(sol, 0, CellCount - 1)
    ensures r.Some? ==>
      && ValidRound(r.value) && HasSolution(r.value.numbers, r.value.target)
      && r.value.solutionIdxs == sol
      && SolutionDrawn(draws, r.value.numbers, sol, next)
      && FillerDrawn(draws, r.value.numbers, sol, 0, next + PickCount)
  {
    var (ra, rb, rc) := (RandInt(draws, next, RngMin, RngMax), RandInt(draws, next + 1, RngMin, RngMax),
                         RandInt(draws, next + 2, RngMin, RngMax));
    if ra.None? || rb.None? || rc.None? then None
    else
      var (a, b, c) := (ra.value, rb.value, rc.value);
      var numbers := Seeded(sol, a, b, c);
      match FillFrom(draws, sol, numbers, 0, next + PickCount)
      case None => None
      case Some(filled) =>
        RoundFacts(draws, sol, next, a, b, c, numbers, filled.numbers);
        Some(Round(filled.numbers, a + b + c, sol))
  }

  /** The facts `GenerateRound` needs once the filler loop has run. */
  lemma RoundFacts(draws: seq<int>, sol: seq<int>, next: nat, a: int, b: int, c: int,
                   before: seq<int>, after: seq<int>)
    requires |sol| == PickCount && Distinct(sol) && InRange(sol, 0, CellCount - 1)
    requires next + PickCount <= |draws|
    requires a == draws[next] && b == draws[next + 1] && c == draws[next + 2]
    requires RngMin <= a <= RngMax && RngMin <= b <= RngMax && RngMin <= c <= RngMax
    requires |before| == CellCount && before[sol[0]] == a && before[sol[1]] == b && before[sol[2]] == c
    requires |after| == CellCount
    requires forall j :: 0 <= j < CellCount && j in sol ==> after[j] == before[j]
    requires FillerDrawn(draws, after, sol, 0, next + PickCount)
    requires forall j :: 0 <= j < CellCount && j !in sol ==> RngMin <= after[j] <= RngMax
    ensures ValidRound(Round(after, a + b + c, sol)) && HasSolution(after, a + b + c)
    ensures SolutionDrawn(draws, after, sol, next)
  {
    SolutionCellsKept(before, after, sol);
    DrawnFromThree(draws, after, sol, next);
  }

  lemma DrawnFromThree(draws: seq<int>, numbers: seq<int>, sol: seq<int>, next: nat)
    requires |sol| == PickCount && next + PickCount <= |draws| && |numbers| == CellCount
    requires InRange(sol, 0, CellCount - 1)
    requires numbers[sol[0]] == draws[next] && numbers[sol[1]] == draws[next + 1]
    requires numbers[sol[2]] == draws[next + 2]
    ensures SolutionDrawn(draws, numbers, sol, next)
  {
    forall j | 0 <= j < |sol|
      ensures 0 <= sol[j] < |numbers| && next + j < |draws| && numbers[sol[j]] == draws[next + j]
    {
      assert j == 0 || j == 1 || j == 2;
    }
  }

  lemma SolutionCellsKept(before: seq<int>, after: seq<int>, sol: seq<int>)
    requires |before| == CellCount && |after| == CellCount
    requires |sol| == PickCount && Distinct(sol) && InRange(sol, 0, CellCount - 1)
    requires forall j :: 0 <= j < PickCount ==> RngMin <= before[sol[j]] <= RngMax
    requires forall j :: 0 <= j < CellCount && j in sol ==> after[j] == before[j]
    requires forall j :: 0 <= j < CellCount && j !in sol ==> RngMin <= after[j] <= RngMax
    ensures InRange(after, RngMin, RngMax)
    ensures forall j :: 0 <= j < PickCount ==> after[sol[j]] == before[sol[j]]
    ensures HasSolution(after, after[sol[0]] + after[sol[1]] + after[sol[2]])
  {
    forall j | 0 <= j < PickCount ensures after[sol[j]] == before[sol[j]] {
      assert sol[j] in sol;
    }
    forall i | 0 <= i < CellCount ensures RngMin <= after[i] <= RngMax {
      if i in sol {
        var j :| 0 <= j < PickCount && sol[j] == i;
      }
    }
  }

  /** The filler loop draws exactly six values: one per cell outside the solution. */
  lemma FillerDrawsSix(sol: seq<int>)
    requires |sol| == PickCount && Distinct(sol) && InRange(sol, 0, CellCount - 1)
    ensures FreeBetween(sol, 0, CellCount) == CellCount - PickCount
  {
    FreeBetweenCount(sol, 0, CellCount);
  }

  function Ind(b: bool): nat {
    if b then 1 else 0
  }

  lemma {:induction false} FreeBetweenCount(sol: seq<int>, i: int, j: int)
    requires |sol| == PickCount && Distinct(sol) && i <= j
    ensures FreeBetween(sol, i, j) + Ind(i <= sol[0] < j) + Ind(i <= sol[1] < j) + Ind(i <= sol[2] < j)
            == j - i
    decreases j - i
  {
    if i < j {
      FreeBetweenCount(sol, i + 1, j);
      assert i in sol <==> i == sol[0] || i == sol[1] || i == sol[2];
    }
  }

  /** The filler loop completes whenever the draws it needs exist and lie in [0, 9]. */
  lemma {:induction false} FillFromSucceeds(draws: seq<int>, sol: seq<int>, numbers: seq<int>, i: nat, k: nat)
    requires |numbers| == CellCount && i <= CellCount
    requires k + FreeBetween(sol, i, CellCount) <= |draws|
    requires forall n :: k <= n < k + FreeBetween(sol, i, CellCount) ==> RngMin <= draws[n] <= RngMax
    ensures FillFrom(draws, sol, numbers, i, k).Some?
    decreases CellCount - i
  {
    if i < CellCount {
      if i in sol {
        FillFromSucceeds(draws, sol, numbers, i + 1, k);
      } else {
        assert RngMin <= draws[k] <= RngMax;
        FillFromSucceeds(draws, sol, numbers[i := draws[k]], i + 1, k + 1);
      }
    }
  }

  /** Nine in-range draws from `next` on always complete a round. */
  lemma FillRoundSucceeds(draws: seq<int>, sol: seq<int>, next: nat)
    requires |sol| == PickCount && Distinct(sol) && InRange(sol, 0, CellCount - 1)
    requires next + CellCount <= |draws|
    requires forall m :: next <= m < next + CellCount ==> RngMin <= draws[m] <= RngMax
    ensures FillRound(draws, sol, next).Some?
  {
    FillerDrawsSix(sol);
    var numbers := Seeded(sol, draws[next], draws[next + 1], draws[next + 2]);
    FillFromSucceeds(draws, sol, numbers, 0, next + PickCount);
  }

  /** A completed round used nine draws from `next` on. */
  lemma FillRoundNeedsNine(draws: seq<int>, sol: seq<int>, next: nat)
    requires |sol| == PickCount && Distinct(sol) && InRange(sol, 0, CellCount - 1)
    ensures FillRound(draws, sol, next).Some? ==> next + CellCount <= |draws|
  {
    if FillRound(draws, sol, next).Some? {
      FillerDrawsSix(sol);
      var numbers := Seeded(sol, draws[next], draws[next + 1], draws[next + 2]);
      FillFromDrawCount(draws, sol, numbers, 0, next + PickCount);
    }
  }

  /** Once three indices are picked, generation fails only for lack of draws:
      nine more in [0, 9] (three solution values, six fillers) always suffice,
      and fewer than nine never do. */
  lemma GenerateRoundSucceeds(draws: seq<int>)
    requires Pick3DistinctIdx(draws).Some?
    ensures var n := Pick3DistinctIdx(draws).value.next;
      n + CellCount <= |draws| && (forall m :: n <= m < n + CellCount ==> RngMin <= draws[m] <= RngMax)
      ==> GenerateRound(draws).Some?
    ensures GenerateRound(draws).Some? ==> Pick3DistinctIdx(draws).value.next + CellCount <= |draws|
  {
    var p := Pick3DistinctIdx(draws).value;
    var n := p.next;
    if n + CellCount <= |draws| && (forall m :: n <= m < n + CellCount ==> RngMin <= draws[m] <= RngMax) {
      FillRoundSucceeds(draws, p.idxs, n);
    }
    FillRoundNeedsNine(draws, p.idxs, n);
  }

  /** The first n draws are all cell indices, and three of them differ. */
  ghost predicate EnoughIndexDraws(draws: seq<int>, n: nat) {
    && n <= |draws| && InRange(draws[..n], 0, CellCount - 1)
    && exists i, j, l :: 0 <= i < n && 0 <= j < n && 0 <= l < n
         && draws[i] != draws[j] && draws[j] != draws[l] && draws[i] != draws[l]
  }

  /** The pick loop succeeds, repeated draws notwithstanding, once the draws
      so far are cell indices holding three distinct values; it never reads
      further than that. */
  lemma PickSucceeds(draws: seq<int>, n: nat)
    requires EnoughIndexDraws(draws, n)
    ensures Pick3DistinctIdx(draws).Some? && Pick3DistinctIdx(draws).value.next <= n
  {
    var i, j, l :| 0 <= i < n && 0 <= j < n && 0 <= l < n
      && draws[i] != draws[j] && draws[j] != draws[l] && draws[i] != draws[l];
    var d := draws[0..n];
    assert d == draws[..n];
    assert [] + d == d;
    assert d[i] == draws[i] && d[j] == draws[j] && d[l] == draws[l];
    PickFromSucceeds(draws, [], 0, n, draws[i], draws[j], draws[l]);
  }

  /** Conversely, a successful pick used only cell indices and met three distinct
      ones, so by `PickSucceeds` it stopped at the first n for which that holds. */
  lemma PickSucceedsOnlyIf(draws: seq<int>)
    ensures var r := Pick3DistinctIdx(draws);
      r.Some? ==> EnoughIndexDraws(draws, r.value.next)
  {
    var r := Pick3DistinctIdx(draws);
    if r.Some? {
      PrefixHoldsPick(draws, r.value);
    }
  }

  lemma PrefixHoldsPick(draws: seq<int>, p: Picked)
    requires PickedFrom(draws, p)
    ensures EnoughIndexDraws(draws, p.next)
  {
    var d := draws[..p.next];
    assert SameMembers(p.idxs, d);
    assert forall y :: y in d ==> y in p.idxs;
    forall m | 0 <= m < |d| ensures 0 <= d[m] < CellCount {
      assert d[m] in d;
      assert d[m] in p.idxs;
    }
    assert p.idxs[0] in d && p.idxs[1] in d && p.idxs[2] in d;
    var i :| 0 <= i < |d| && d[i] == p.idxs[0];
    var j :| 0 <= j < |d| && d[j] == p.idxs[1];
    var l :| 0 <= l < |d| && d[l] == p.idxs[2];
    assert draws[i] != draws[j] && draws[j] != draws[l] && draws[i] != draws[l];
  }

  /** From `idxs` at draw k, with three distinct values each held already or
      among draws k..n-1, all of them cell indices, the loop ends by draw n. */
  lemma {:induction false} PickFromSucceeds(draws: seq<int>, idxs: seq<int>, k: nat, n: nat,
                                            u: int, v: int, w: int)
    requires k <= n <= |draws|
    requires |idxs| <= PickCount && Distinct(idxs) && InRange(idxs, 0, CellCount - 1)
    requires InRange(draws[k..n], 0, CellCount - 1)
    requires u != v && v != w && u != w
    requires u in idxs + draws[k..n] && v in idxs + draws[k..n] && w in idxs + draws[k..n]
    ensures PickFrom(draws, idxs, k).Some? && PickFrom(draws, idxs, k).value.next <= n
    decreases n - k
  {
    if |idxs| < PickCount {
      DrawAwaited(idxs, draws[k..n], u, v, w);
      DrawSplits(draws, k, n);
      var x := draws[k];
      var rest := draws[k + 1..n];
      var added := AddIfNew(idxs, x);
      assert PickFrom(draws, idxs, k) == PickFrom(draws, added, k + 1);
      HeldAfterDraw(idxs, added, x, rest, u);
      HeldAfterDraw(idxs, added, x, rest, v);
      HeldAfterDraw(idxs, added, x, rest, w);
      PickFromSucceeds(draws, added, k + 1, n, u, v, w);
    }
  }

  /** With fewer than three indices held, some of the three values is still to be drawn. */
  lemma DrawAwaited(idxs: seq<int>, d: seq<int>, u: int, v: int, w: int)
    requires |idxs| < PickCount && u != v && v != w && u != w
    requires u in idxs + d && v in idxs + d && w in idxs + d
    ensures |d| > 0
  {
    if |d| == 0 {
      assert idxs + d == idxs;
    }
    NotAllHeld(idxs, u, v, w);
  }

  /** The next of the in-range draws k..n-1 is a cell index, and so are the rest. */
  lemma DrawSplits(draws: seq<int>, k: nat, n: nat)
    requires k < n <= |draws| && InRange(draws[k..n], 0, CellCount - 1)
    ensures draws[k..n] == [draws[k]] + draws[k + 1..n]
    ensures 0 <= draws[k] < CellCount && InRange(draws[k + 1..n], 0, CellCount - 1)
  {
    var rest := draws[k + 1..n];
    assert draws[k..n] == [draws[k]] + rest;
    assert draws[k..n][0] == draws[k];
    forall m | 0 <= m < |rest| ensures 0 <= rest[m] < CellCount {
      assert rest[m] == draws[k..n][m + 1];
    }
  }

  /** Fewer than three indices cannot hold three distinct values. */
  lemma NotAllHeld(idxs: seq<int>, u: int, v: int, w: int)
    requires |idxs| < PickCount && u != v && v != w && u != w
    ensures !(u in idxs && v in idxs && w in idxs)
  {
    if u in idxs && v in idxs && w in idxs {
      var i :| 0 <= i < |idxs| && idxs[i] == u;
      var j :| 0 <= j < |idxs| && idxs[j] == v;
      var l :| 0 <= l < |idxs| && idxs[l] == w;
    }
  }

  /** A value held or still to be drawn stays so after one draw is taken in. */
  lemma HeldAfterDraw(idxs: seq<int>, added: seq<int>, x: int, rest: seq<int>, y: int)
    requires forall z :: z in added <==> z in idxs || z == x
    requires y in idxs + ([x] + rest)
    ensures y in added + rest
  {
    if y in idxs || y == x {
      assert y in added;
    } else {
      assert y in rest;
    }
  }

  /** Enough index draws followed by nine in-range draws always give a round. */
  lemma GenerateRoundSucceedsFrom(draws: seq<int>, n: nat)
    requires EnoughIndexDraws(draws, n)
    requires n + CellCount <= |draws|
    requires forall m :: n <= m < n + CellCount ==> RngMin <= draws[m] <= RngMax
    ensures GenerateRound(draws).Some?
  {
    PickSucceeds(draws, n);
    var next := Pick3DistinctIdx(draws).value.next;
    forall m | next <= m < next + CellCount
      ensures RngMin <= draws[m] <= RngMax
    {
      if m < n {
        assert draws[..n][m] == draws[m];
      }
    }
    GenerateRoundSucceeds(draws);
  }

  /** Index draws 0, 1, 2 pick those three cells with no rejection. */
  lemma PickFirstThree(draws: seq<int>)
    requires |draws| >= 3 && draws[0] == 0 && draws[1] == 1 && draws[2] == 2
    ensures Pick3DistinctIdx(draws) == Some(Picked([0, 1, 2], 3))
  {
    PickFromFirstThree(draws);
  }

  lemma PickFromFirstThree(draws: seq<int>)
    requires |draws| >= 3 && draws[0] == 0 && draws[1] == 1 && draws[2] == 2
    ensures PickFrom(draws, [], 0) == Some(Picked([0, 1, 2], 3))
  {
    assert draws[..PickCount] == [0, 1, 2];
    PickDistinctStart(draws);
  }

  /** Three distinct in-range first draws are exactly the indices picked. */
  lemma PickDistinctStart(draws: seq<int>)
    requires PickCount <= |draws|
    requires Distinct(draws[..PickCount]) && InRange(draws[..PickCount], 0, CellCount - 1)
    ensures PickFrom(draws, [], 0) == Some(Picked(draws[..PickCount], PickCount))
  {
    assert draws[..0] == [];
    PickFromPrefix(draws, 0);
  }

  /** Holding the first k of three distinct in-range draws, the loop ends with all three. */
  lemma {:induction false} PickFromPrefix(draws: seq<int>, k: nat)
    requires k <= PickCount <= |draws|
    requires Distinct(draws[..PickCount]) && InRange(draws[..PickCount], 0, CellCount - 1)
    ensures PickFrom(draws, draws[..k], k) == Some(Picked(draws[..PickCount], PickCount))
    decreases PickCount - k
  {
    if k < PickCount {
      PickPrefixStep(draws, k);
      PickFromPrefix(draws, k + 1);
    }
  }

  /** With three distinct in-range first draws, each of them is taken in turn. */
  lemma PickPrefixStep(draws: seq<int>, k: nat)
    requires k < PickCount <= |draws|
    requires Distinct(draws[..PickCount]) && InRange(draws[..PickCount], 0, CellCount - 1)
    ensures PickFrom(draws, draws[..k], k) == PickFrom(draws, draws[..k + 1], k + 1)
  {
    var idxs := draws[..k];
    assert idxs + [draws[k]] == draws[..k + 1];
    assert draws[k] == draws[..PickCount][k];
    assert forall i :: 0 <= i < k ==> idxs[i] == draws[..PickCount][i];
    PickNewIndex(draws, idxs, k);
  }

  /** A draw in range that is not yet held is appended, and the loop goes on. */
  lemma PickNewIndex(draws: seq<int>, idxs: seq<int>, k: nat)
    requires k < |draws| && 0 <= draws[k] < CellCount && draws[k] !in idxs
    requires |idxs| < PickCount && Distinct(idxs) && InRange(idxs, 0, CellCount - 1)
    ensures PickFrom(draws, idxs, k) == PickFrom(draws, idxs + [draws[k]], k + 1)
  {
  }

  /** The target is the sum of the three draws taken right after the index draws. */
  lemma TargetFromDraws(draws: seq<int>)
    ensures var r := GenerateRound(draws);
      r.Some? ==>
        var n := Pick3DistinctIdx(draws).value.next;
        n + PickCount <= |draws| && r.value.target == draws[n] + draws[n + 1] + draws[n + 2]
  {
    var r := GenerateRound(draws);
    if r.Some? {
      var p := Pick3DistinctIdx(draws).value;
      TargetOfDrawn(draws, r.value, p.next);
    }
  }

  lemma TargetOfDrawn(draws: seq<int>, round: Round, n: nat)
    requires ValidRound(round)
    requires SolutionDrawn(draws, round.numbers, round.solutionIdxs, n)
    ensures n + PickCount <= |draws|
    ensures round.target == draws[n] + draws[n + 1] + draws[n + 2]
  {
    var sol := round.solutionIdxs;
    assert round.numbers[sol[0]] == draws[n];
    assert round.numbers[sol[1]] == draws[n + 1];
    assert round.numbers[sol[2]] == draws[n + 2];
  }

  /** Index draws 0, 1, 2 followed by nine in-range draws always give a round,
      and its target is the sum of the three draws after the index draws. */
  lemma FirstCellsRound(draws: seq<int>)
    requires |draws| == 12 && draws[0] == 0 && draws[1] == 1 && draws[2] == 2
    requires forall m :: 3 <= m < 12 ==> RngMin <= draws[m] <= RngMax
    ensures GenerateRound(draws).Some?
    ensures GenerateRound(draws).value.target == draws[3] + draws[4] + draws[5]
  {
    PickFirstThree(draws);
    GenerateRoundSucceeds(draws);
    TargetFromDraws(draws);
  }

  /** Every value in [0, 27] is the target of some round, so together with
      `ValidRound` the possible targets are exactly [0, 27]: 0 is possible, and
      so are values above the ceilings 20 and 25, though none reaches 30. */
  lemma EveryTargetReachable(t: int)
    requires 0 <= t <= 27
    ensures exists draws :: GenerateRound(draws).Some? && GenerateRound(draws).value.target == t
  {
    var a := if t <= 9 then t else 9;
    var b := if t - a <= 9 then t - a else 9;
    var c := t - a - b;
    var draws := [0, 1, 2, a, b, c] + seq(6, _ => 0);
    assert forall m :: 3 <= m < 12 ==> RngMin <= draws[m] <= RngMax;
    FirstCellsRound(draws);
    assert GenerateRound(draws).Some? && GenerateRound(draws).value.target == t;
  }
}
