/**
 * `initializeRevealAnimations`: the reveal observer's callback, which adds
 * `revealed` to every target reported as intersecting and never removes
 * it, and the card stagger set once at start-up.
 */
module Reveal {

  /** An IntersectionObserver entry: which `.reveal-element` it reports on, and whether it intersects. */
  datatype Entry = Entry(target: nat, isIntersecting: bool)

  /** Some entry in the batch reports element `i` as intersecting. */
  ghost predicate ReportedVisible(entries: seq<Entry>, i: nat) {
    exists k :: 0 <= k < |entries| && entries[k].target == i && entries[k].isIntersecting
  }

  /**
   * One observer callback over a batch of entries. An element is revealed
   * afterwards exactly when it was before or some entry reports it
   * intersecting; the flag is never cleared.
   */
  method OnIntersections(revealed: array<bool>, entries: seq<Entry>)
    requires forall k :: 0 <= k < |entries| ==> entries[k].target < revealed.Length
    modifies revealed
    ensures forall i :: 0 <= i < revealed.Length ==>
      (revealed[i] <==> old(revealed[i]) || ReportedVisible(entries, i))
    ensures forall i :: 0 <= i < revealed.Length ==> old(revealed[i]) ==> revealed[i]
  {
    for k := 0 to |entries|
      invariant forall i :: 0 <= i < revealed.Length ==>
        (revealed[i] <==> old(revealed[i]) || ReportedVisible(entries[..k], i))
    {
      var entry := entries[k];
      if entry.isIntersecting {
        revealed[entry.target] := true;
      }
      forall i | 0 <= i < revealed.Length
        ensures ReportedVisible(entries[..k + 1], i) <==>
          ReportedVisible(entries[..k], i) || (entry.target == i && entry.isIntersecting)
      {
        assert entries[..k + 1][k] == entry;
        if ReportedVisible(entries[..k + 1], i) {
          var m :| 0 <= m < k + 1 && entries[..k + 1][m].target == i && entries[..k + 1][m].isIntersecting;
          if m < k { assert entries[..k][m] == entries[..k + 1][m]; }
        }
        if ReportedVisible(entries[..k], i) {
          var m :| 0 <= m < k && entries[..k][m].target == i && entries[..k][m].isIntersecting;
          assert entries[..k + 1][m] == entries[..k][m];
        }
      }
    }
    assert entries[..|entries|] == entries;
  }

  /** The stagger between consecutive `.card-hover` elements, in milliseconds (0.1s). */
  const StaggerMs := 100

  /** `card.style.transitionDelay = index * 0.1s` for every card, in whole milliseconds. */
  method StaggerCards(delays: array<int>)
    modifies delays
    ensures forall i :: 0 <= i < delays.Length ==> delays[i] == i * StaggerMs
  {
    for index := 0 to delays.Length
      invariant forall i :: 0 <= i < index ==> delays[i] == i * StaggerMs
    {
      delays[index] := index * StaggerMs;
    }
  }
}
