/**
  Scrolling until the page height stops growing.  The stored height starts
  at 0; each pass reads the height, scrolls, waits, reads the height again
  and stops when that second reading equals the stored one, otherwise stores
  it.  The live page is replaced by the finite sequence of readings it would
  give: `None` means the loop had not stopped by the last modelled reading
  (the source itself has no bound on the number of passes).
 */
module Scroll {
  import opened Wrappers
  import opened Browser

  /** The stored height when pass `k` compares: 0 before the first pass,
      afterwards the reading taken after the previous scroll. */
  function StoredBefore(probes: seq<ScrollProbe>, k: nat): int
    requires k <= |probes|
  {
    if k == 0 then 0 else probes[k - 1].after
  }

  /** Pass `k` finds the height unchanged, so the loop stops there. */
  predicate Repeats(probes: seq<ScrollProbe>, k: nat)
    requires k < |probes|
  {
    probes[k].after == StoredBefore(probes, k)
  }

  /** Passes from `k` on, with `stored` the height kept so far: the number of
      scroll passes made in all when the loop stops. */
  function SettleFrom(probes: seq<ScrollProbe>, k: nat, stored: int): Option<nat>
    decreases |probes| - k
  {
    if k >= |probes| then None
    else if probes[k].after == stored then Some(k + 1)
    else SettleFrom(probes, k + 1, probes[k].after)
  }

  /** The number of scroll passes the loop makes before it stops. */
  function ScrollPasses(probes: seq<ScrollProbe>): Option<nat>
  {
    SettleFrom(probes, 0, 0)
  }

  lemma {:induction false} SettleFromStopsAtFirstRepeat(probes: seq<ScrollProbe>, k: nat)
    requires k <= |probes|
    ensures SettleFrom(probes, k, StoredBefore(probes, k)).None? <==>
      forall j :: k <= j < |probes| ==> !Repeats(probes, j)
    ensures forall n: nat :: SettleFrom(probes, k, StoredBefore(probes, k)) == Some(n) <==>
      (k < n <= |probes| && Repeats(probes, n - 1) &&
       forall j :: k <= j < n - 1 ==> !Repeats(probes, j))
    decreases |probes| - k
  {
    if k < |probes| && !Repeats(probes, k) {
      SettleFromStopsAtFirstRepeat(probes, k + 1);
    }
  }

  /** The loop stops after the first pass whose second reading equals the
      stored height (0 before the first pass), after exactly that many
      passes, and every earlier pass saw the height change; it runs past the
      last modelled reading exactly when no pass repeats. */
  lemma ScrollStopsAtFirstRepeat(probes: seq<ScrollProbe>)
    ensures ScrollPasses(probes).None? <==>
      forall j :: 0 <= j < |probes| ==> !Repeats(probes, j)
    ensures forall n: nat :: ScrollPasses(probes) == Some(n) <==>
      (1 <= n <= |probes| && Repeats(probes, n - 1) &&
       forall j :: 0 <= j < n - 1 ==> !Repeats(probes, j))
  {
    SettleFromStopsAtFirstRepeat(probes, 0);
  }

  lemma {:induction false} SettleFromIgnoresBefore(
    probes: seq<ScrollProbe>, others: seq<ScrollProbe>, k: nat, stored: int)
    requires |probes| == |others|
    requires forall j :: 0 <= j < |probes| ==> probes[j].after == others[j].after
    ensures SettleFrom(probes, k, stored) == SettleFrom(others, k, stored)
    decreases |probes| - k
  {
    if k < |probes| {
      SettleFromIgnoresBefore(probes, others, k + 1, probes[k].after);
    }
  }

  /** The height read before each scroll never influences when the loop
      stops: two runs whose after-scroll readings agree stop together. */
  lemma BeforeReadingIsIgnored(probes: seq<ScrollProbe>, others: seq<ScrollProbe>)
    requires |probes| == |others|
    requires forall j :: 0 <= j < |probes| ==> probes[j].after == others[j].after
    ensures ScrollPasses(probes) == ScrollPasses(others)
  {
    SettleFromIgnoresBefore(probes, others, 0, 0);
  }

  /** A page first 1000 high that grows to 2500 on the first scroll and then
      stays: the loop scrolls twice. */
  lemma TwoPassesWhenHeightSettles()
    ensures ScrollPasses([ScrollProbe(1000, 2500), ScrollProbe(2500, 2500)]) == Some(2)
  {
  }

  /** The scroll loop itself. */
  method ScrollUntilStable(probes: seq<ScrollProbe>) returns (passes: Option<nat>)
    ensures passes == ScrollPasses(probes)
  {
    var previousHeight := 0;
    var k := 0;
    while k < |probes|
      invariant k <= |probes|
      invariant SettleFrom(probes, k, previousHeight) == ScrollPasses(probes)
    {
      var currentHeight := probes[k].before;
      var newHeight := probes[k].after;
      if newHeight == previousHeight {
        return Some(k + 1);
      }
      previousHeight := newHeight;
      k := k + 1;
    }
    return None;
  }
}
