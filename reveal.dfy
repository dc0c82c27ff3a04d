/** Reveal-on-scroll. Every element tagged for reveal starts hidden and
    observed. The observer's callback receives a batch of entries; for each
    entry that is intersecting it makes the element visible (opacity 1, no
    translation) and stops observing it. With the reduced-motion preference,
    every element is made visible at load. */
module Reveal {

  /** One entry of an observer batch: the element's index and whether it
      intersects the viewport. */
  datatype Entry = Entry(target: nat, isIntersecting: bool)

  /** Some entry of the batch reports element `k` as intersecting. */
  predicate HitIn(entries: seq<Entry>, k: nat) {
    exists e | e in entries :: e.target == k && e.isIntersecting
  }

  class RevealObserver {
    var revealed: array<bool>
    var observed: array<bool>

    ghost predicate Valid()
      reads this
    {
      revealed.Length == observed.Length && revealed != observed
    }

    /** `n` elements, none revealed yet, all observed. */
    constructor (n: nat)
      ensures Valid() && fresh(revealed) && fresh(observed) && revealed.Length == n
      ensures forall k | 0 <= k < n :: !revealed[k] && observed[k]
    {
      revealed := new bool[n](_ => false);
      observed := new bool[n](_ => true);
    }

    /** The observer callback over one batch of entries. An element becomes
        revealed when some entry hits it and is never hidden again; it stays
        observed only while no entry has hit it. */
    method OnEntries(entries: seq<Entry>)
      requires Valid()
      requires forall e | e in entries :: e.target < revealed.Length
      modifies revealed, observed
      ensures forall k | 0 <= k < revealed.Length ::
        revealed[k] == (old(revealed[k]) || HitIn(entries, k))
      ensures forall k | 0 <= k < observed.Length ::
        observed[k] == (old(observed[k]) && !HitIn(entries, k))
      ensures forall k | 0 <= k < revealed.Length :: old(revealed[k]) ==> revealed[k]
    {
      var n := 0;
      while n < |entries|
        invariant 0 <= n <= |entries|
        invariant forall k | 0 <= k < revealed.Length ::
          revealed[k] == (old(revealed[k]) || HitIn(entries[..n], k))
        invariant forall k | 0 <= k < observed.Length ::
          observed[k] == (old(observed[k]) && !HitIn(entries[..n], k))
      {
        var e := entries[n];
        assert entries[..n + 1] == entries[..n] + [e];
        assert e in entries;
        if e.isIntersecting {
          revealed[e.target] := true;
          observed[e.target] := false;
        }
        n := n + 1;
      }
      assert entries[..n] == entries;
    }

    /** With reduced motion, every element is made visible at load. Elements
        stay observed, since the observer was attached before this runs. */
    method ShowAll()
      requires Valid()
      modifies revealed
      ensures forall k | 0 <= k < revealed.Length :: revealed[k]
    {
      var n := 0;
      while n < revealed.Length
        invariant 0 <= n <= revealed.Length
        invariant forall k | 0 <= k < n :: revealed[k]
      {
        revealed[n] := true;
        n := n + 1;
      }
    }
  }
}
