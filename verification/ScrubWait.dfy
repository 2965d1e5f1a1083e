/** Waiting for every placement group to be scrubbed: the cluster is polled until all scrub stamps
    are later than the start, or until too many polls in a row have brought no progress. */
module ScrubWait {

  /** How many stamps are later than the start. */
  function GoodCount(stamps: seq<int>, start: int): (n: nat)
    ensures n <= |stamps|
    ensures n == |stamps| <==> forall i | 0 <= i < |stamps| :: stamps[i] > start
  {
    if stamps == [] then 0
    else GoodCount(stamps[..|stamps| - 1], start) + if stamps[|stamps| - 1] > start then 1 else 0
  }

  lemma {:induction false} GoodCountCounts(stamps: seq<int>, start: int)
    ensures GoodCount(stamps, start) == |set i | 0 <= i < |stamps| && stamps[i] > start|
  {
    if stamps != [] {
      var last := |stamps| - 1;
      var before := stamps[..last];
      GoodCountCounts(before, start);
      var s, t := (set i | 0 <= i < |stamps| && stamps[i] > start), (set i | 0 <= i < last && before[i] > start);
      assert s == if stamps[last] > start then t + {last} else t;
    }
  }

  predicate AllGood(stamps: seq<int>, start: int) {
    forall i | 0 <= i < |stamps| :: stamps[i] > start
  }

  /** The best count among the first k polls. */
  function Best(polls: nat -> seq<int>, start: int, k: nat): nat {
    if k == 0 then 0 else
    var g := GoodCount(polls(k - 1), start);
    if g > Best(polls, start, k - 1) then g else Best(polls, start, k - 1)
  }

  /** How many of the first k polls came after the last one that improved on the best count. */
  function Gap(polls: nat -> seq<int>, start: int, k: nat): nat {
    if k == 0 then 0
    else if GoodCount(polls(k - 1), start) > Best(polls, start, k - 1) then 0
    else Gap(polls, start, k - 1) + 1
  }

  /** The best count is that of some poll, or zero before any, and no poll had a better one. */
  lemma {:induction false} BestIsGreatest(polls: nat -> seq<int>, start: int, k: nat)
    ensures forall j: nat | j < k :: GoodCount(polls(j), start) <= Best(polls, start, k)
    ensures Best(polls, start, k) == 0 || exists j: nat :: j < k && GoodCount(polls(j), start) == Best(polls, start, k)
  {
    if k > 0 {
      BestIsGreatest(polls, start, k - 1);
    }
  }

  predicate Improves(polls: nat -> seq<int>, start: int, j: nat) {
    GoodCount(polls(j), start) > Best(polls, start, j)
  }

  /** The polls of the gap have not improved on those before them, and the one before it has. */
  lemma {:induction false} GapIsSinceProgress(polls: nat -> seq<int>, start: int, k: nat)
    ensures Gap(polls, start, k) <= k
    ensures forall j: nat | k - Gap(polls, start, k) <= j < k :: !Improves(polls, start, j)
    ensures Gap(polls, start, k) < k ==> Improves(polls, start, k - 1 - Gap(polls, start, k))
  {
    if k > 0 {
      GapIsSinceProgress(polls, start, k - 1);
    }
  }

  /** After poll k the loop goes on: something is not scrubbed, and retries are left. */
  predicate GoesOn(polls: nat -> seq<int>, start: int, retries: nat, k: nat) {
    !AllGood(polls(k), start) && Gap(polls, start, k + 1) <= retries
  }

  lemma {:induction false} BestBounded(polls: nat -> seq<int>, start: int, maxPgs: nat, k: nat)
    requires forall i: nat :: |polls(i)| <= maxPgs
    ensures Best(polls, start, k) <= maxPgs
  {
    if k > 0 {
      BestBounded(polls, start, maxPgs, k - 1);
    }
  }

  lemma NextBound(n: int, best: int, gap: int, best': int, r: int)
    requires 0 <= gap <= r && n <= best * (r + 1) + gap && best < best'
    ensures n + 1 <= best' * (r + 1)
  {
    assert (best + 1) * (r + 1) == best * (r + 1) + r + 1;
    assert (best + 1) * (r + 1) <= best' * (r + 1);
  }

  lemma FinalBound(n: int, best: int, maxPgs: int, r: int)
    requires 0 <= best <= maxPgs && 0 <= r && n <= best * (r + 1) + r + 1
    ensures n <= (maxPgs + 1) * (r + 1)
  {
    assert best * (r + 1) <= maxPgs * (r + 1);
  }

  /** One pass over a snapshot: how many stamps are good, and whether one is not. */
  method CountGood(stats: seq<int>, start: int) returns (thisCnt: nat, loop: bool)
    ensures thisCnt == GoodCount(stats, start)
    ensures loop <==> !AllGood(stats, start)
  {
    thisCnt, loop := 0, false;
    var i := 0;
    while i < |stats|
      invariant 0 <= i <= |stats| && thisCnt == GoodCount(stats[..i], start)
      invariant loop <==> thisCnt < i
    {
      assert stats[..i + 1][..i] == stats[..i];
      if stats[i] > start {
        thisCnt := thisCnt + 1;
      } else {
        loop := true;
      }
      i := i + 1;
    }
    assert stats[..i] == stats;
  }

  /** The loop of `osd_scrub_pgs`. It ends for every sequence of snapshots of bounded size, after at
      most (maxPgs + 1) * (retries + 1) polls: with success at the first poll where all stamps are
      good, unless some poll up to and including that one exceeds the retries. */
  method WaitForScrubs(polls: nat -> seq<int>, start: int, retries: nat, ghost maxPgs: nat)
    returns (scrubbed: bool, n: nat)
    requires forall i: nat :: |polls(i)| <= maxPgs
    ensures 0 < n <= (maxPgs + 1) * (retries + 1)
    ensures forall k: nat | k < n - 1 :: GoesOn(polls, start, retries, k)
    ensures scrubbed <==> Gap(polls, start, n) <= retries
    ensures scrubbed ==> AllGood(polls(n - 1), start)
  {
    n := 0;
    var prevGood, gapCnt := 0, 0;
    var loop := true;
    while loop
      invariant prevGood == Best(polls, start, n) <= maxPgs
      invariant gapCnt == Gap(polls, start, n) <= retries
      invariant n <= prevGood * (retries + 1) + gapCnt
      invariant forall k: nat | k < n - 1 :: GoesOn(polls, start, retries, k)
      invariant if n == 0 then loop else loop == GoesOn(polls, start, retries, n - 1)
      decreases loop, maxPgs - prevGood, retries - gapCnt
    {
      var stats := polls(n);
      BestBounded(polls, start, maxPgs, n + 1);
      var thisCnt;
      thisCnt, loop := CountGood(stats, start);
      if thisCnt > prevGood {
        NextBound(n, prevGood, gapCnt, thisCnt, retries);
        prevGood := thisCnt;
        gapCnt := 0;
        n := n + 1;
      } else {
        gapCnt := gapCnt + 1;
        n := n + 1;
        if gapCnt > retries {
          FinalBound(n, prevGood, maxPgs, retries);
          return false, n;
        }
      }
    }
    FinalBound(n, prevGood, maxPgs, retries);
    scrubbed := true;
  }

  /** Polls in which the number of placement groups shrinks: three of which two are good, then two
      of which one is good, and one good one from poll r + 1 on. */
  function Shrinking(r: nat): nat -> seq<int> {
    (k: nat) => if k == 0 then [1, 1, 0] else if k <= r then [1, 0] else [1]
  }

  lemma {:induction false} ShrinkingGap(r: nat, k: nat)
    requires 1 <= k
    ensures Best(Shrinking(r), 0, k) == 2 && Gap(Shrinking(r), 0, k) == k - 1
  {
    assert GoodCount([1, 1, 0], 0) == 2 && GoodCount([1, 0], 0) == 1 && GoodCount([1], 0) == 1 by {
      assert [1, 1, 0][..2] == [1, 1] && [1, 1][..1] == [1] && [1][..0] == [] && [1, 0][..1] == [1];
      assert GoodCount([1], 0) == 1 && GoodCount([1, 1], 0) == 2;
    }
    if k > 1 {
      ShrinkingGap(r, k - 1);
    }
  }

  /** Success is not guaranteed once everything is scrubbed: for every number of retries there are
      polls whose last finds all stamps good and that yet fail, because the count of good groups,
      not their share, has to grow. */
  lemma FailsThoughScrubbed(retries: nat)
    ensures exists polls: nat -> seq<int>, n: nat ::
              && n > 0 && (forall k: nat | k < n - 1 :: GoesOn(polls, 0, retries, k))
              && AllGood(polls(n - 1), 0) && Gap(polls, 0, n) > retries
  {
    var polls, n := Shrinking(retries), retries + 2;
    forall k: nat | k < n - 1
      ensures GoesOn(polls, 0, retries, k)
    {
      ShrinkingGap(retries, k + 1);
      if k == 0 {
        assert polls(k)[2] <= 0;
      } else {
        assert polls(k)[1] <= 0;
      }
    }
    ShrinkingGap(retries, n);
    assert AllGood(polls(n - 1), 0);
  }

  lemma {:induction false} BestBelow(polls: nat -> seq<int>, start: int, c: nat, k: nat)
    requires c > 0 && forall i: nat :: |polls(i)| == c
    requires forall j: nat | j < k :: !AllGood(polls(j), start)
    ensures Best(polls, start, k) < c
  {
    if k > 0 {
      BestBelow(polls, start, c, k - 1);
      assert !AllGood(polls(k - 1), start);
    }
  }

  /** While the number of groups stays the same, the poll that finds them all scrubbed for the
      first time always counts as progress, so it succeeds. */
  lemma SameCountSucceeds(polls: nat -> seq<int>, start: int, c: nat, k: nat)
    requires c > 0 && forall i: nat :: |polls(i)| == c
    requires AllGood(polls(k), start) && forall j: nat | j < k :: !AllGood(polls(j), start)
    ensures Gap(polls, start, k + 1) == 0
  {
    BestBelow(polls, start, c, k);
  }

  /** Exactly when the poll that finds everything scrubbed succeeds: it has more groups than were
      good at best before, or there was a retry to spare. */
  lemma SucceedsExactly(polls: nat -> seq<int>, start: int, retries: nat, k: nat)
    requires AllGood(polls(k), start)
    ensures Gap(polls, start, k + 1) <= retries <==>
            |polls(k)| > Best(polls, start, k) || Gap(polls, start, k) < retries
  {
  }
}
