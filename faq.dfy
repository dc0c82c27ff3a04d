/** The FAQ accordion. Item `i` of the page has an `open` class flag and its
    question button an `aria-expanded` attribute, kept here as two parallel
    boolean arrays. A click on question `i` closes every other open item and
    then toggles item `i`; Enter or Space on a question acts as a click. */
module Faq {

  /** No two items are open at once. */
  predicate AtMostOneOpen(open: seq<bool>) {
    forall j, k | 0 <= j < |open| && 0 <= k < |open| && open[j] && open[k] :: j == k
  }

  /** Every question's `aria-expanded` equals its item's `open` flag. */
  predicate Mirrors(open: seq<bool>, expanded: seq<bool>) {
    |open| == |expanded| && forall j | 0 <= j < |open| :: expanded[j] == open[j]
  }

  /** The pass over all items: every item other than `i` that is open gets
      `flags` set to false there; every other position keeps its flag. Used
      for both the `open` class and the `aria-expanded` attribute. */
  function CloseOthers(flags: seq<bool>, open: seq<bool>, i: nat): seq<bool>
    requires |flags| == |open|
  {
    seq(|flags|, j requires 0 <= j < |flags| => if j != i && open[j] then false else flags[j])
  }

  /** The `open` flags after a click on item `i`: close the others, then
      remove `open` from item `i` if it was open and add it otherwise. */
  function ClickOpen(open: seq<bool>, i: nat): (r: seq<bool>)
    requires i < |open|
    ensures |r| == |open| && r[i] == !open[i]
  {
    CloseOthers(open, open, i)[i := !open[i]]
  }

  /** The `aria-expanded` flags after a click on item `i`. */
  function ClickExpanded(open: seq<bool>, expanded: seq<bool>, i: nat): (r: seq<bool>)
    requires i < |open| == |expanded|
    ensures |r| == |expanded| && r[i] == !open[i]
  {
    CloseOthers(expanded, open, i)[i := !open[i]]
  }

  /** After a click, item `j` is open exactly when it is the clicked item and
      that item was closed: a click on an open item closes everything, a
      click on a closed item leaves it the only open one. */
  lemma ClickOpenAt(open: seq<bool>, i: nat, j: nat)
    requires i < |open| && j < |open|
    ensures |ClickOpen(open, i)| == |open|
    ensures ClickOpen(open, i)[j] <==> j == i && !open[i]
  {
  }

  /** Whatever the state before, at most one item is open after a click. */
  lemma ClickLeavesAtMostOne(open: seq<bool>, i: nat)
    requires i < |open|
    ensures AtMostOneOpen(ClickOpen(open, i))
  {
    forall j, k | 0 <= j < |open| && 0 <= k < |open| && ClickOpen(open, i)[j] && ClickOpen(open, i)[k]
      ensures j == k
    {
      ClickOpenAt(open, i, j);
      ClickOpenAt(open, i, k);
    }
  }

  /** Items other than `i` that were closed keep both their flags. */
  lemma ClickLeavesClosedUntouched(open: seq<bool>, expanded: seq<bool>, i: nat, j: nat)
    requires i < |open| == |expanded| && j < |open|
    requires j != i && !open[j]
    ensures !ClickOpen(open, i)[j] && ClickExpanded(open, expanded, i)[j] == expanded[j]
  {
  }

  /** A click keeps `aria-expanded` in step with `open`. */
  lemma ClickKeepsMirror(open: seq<bool>, expanded: seq<bool>, i: nat)
    requires i < |open|
    requires Mirrors(open, expanded)
    ensures Mirrors(ClickOpen(open, i), ClickExpanded(open, expanded, i))
  {
  }

  /** The `open` flags after a sequence of clicks, in order. */
  function ClickAll(open: seq<bool>, clicks: seq<nat>): seq<bool>
    requires forall c | c in clicks :: c < |open|
    decreases |clicks|
  {
    if clicks == [] then open
    else
      assert clicks[0] in clicks;
      assert forall c | c in clicks[1..] :: c in clicks;
      ClickAll(ClickOpen(open, clicks[0]), clicks[1..])
  }

  /** The `aria-expanded` flags after a sequence of clicks. */
  function ClickAllExpanded(open: seq<bool>, expanded: seq<bool>, clicks: seq<nat>): seq<bool>
    requires |open| == |expanded|
    requires forall c | c in clicks :: c < |open|
    decreases |clicks|
  {
    if clicks == [] then expanded
    else
      assert clicks[0] in clicks;
      assert forall c | c in clicks[1..] :: c in clicks;
      ClickAllExpanded(ClickOpen(open, clicks[0]), ClickExpanded(open, expanded, clicks[0]), clicks[1..])
  }

  /** From a state with at most one open item and `aria-expanded` mirroring
      `open`, both hold after any sequence of clicks. */
  lemma {:induction false} ClicksKeepInvariant(open: seq<bool>, expanded: seq<bool>, clicks: seq<nat>)
    requires forall c | c in clicks :: c < |open|
    requires AtMostOneOpen(open) && Mirrors(open, expanded)
    ensures AtMostOneOpen(ClickAll(open, clicks))
    ensures Mirrors(ClickAll(open, clicks), ClickAllExpanded(open, expanded, clicks))
    decreases |clicks|
  {
    if clicks != [] {
      var i := clicks[0];
      assert i in clicks;
      ClickLeavesAtMostOne(open, i);
      ClickKeepsMirror(open, expanded, i);
      assert forall c | c in clicks[1..] :: c in clicks;
      ClicksKeepInvariant(ClickOpen(open, i), ClickExpanded(open, expanded, i), clicks[1..]);
    }
  }

  /** Enter and Space activate a question; any other key does nothing. */
  predicate IsActivationKey(key: string) {
    key == "Enter" || key == " "
  }

  class Accordion {
    var open: array<bool>
    var expanded: array<bool>

    ghost predicate Valid()
      reads this
    {
      open.Length == expanded.Length && open != expanded
    }

    /** `n` items, all closed, every `aria-expanded` false. */
    constructor (n: nat)
      ensures Valid() && fresh(open) && fresh(expanded) && open.Length == n
      ensures AtMostOneOpen(open[..]) && Mirrors(open[..], expanded[..])
      ensures forall j | 0 <= j < n :: !open[j] && !expanded[j]
    {
      open := new bool[n](_ => false);
      expanded := new bool[n](_ => false);
    }

    /** The click handler of question `i`. */
    method Click(i: nat)
      requires Valid() && i < open.Length
      modifies open, expanded
      ensures open[..] == ClickOpen(old(open[..]), i)
      ensures expanded[..] == ClickExpanded(old(open[..]), old(expanded[..]), i)
      ensures AtMostOneOpen(open[..])
      ensures Mirrors(old(open[..]), old(expanded[..])) ==> Mirrors(open[..], expanded[..])
    {
      ghost var open0, expanded0 := open[..], expanded[..];
      var isOpen := open[i];
      var j := 0;
      while j < open.Length
        invariant 0 <= j <= open.Length
        invariant forall k | 0 <= k < open.Length ::
          open[k] == if k < j && k != i && open0[k] then false else open0[k]
        invariant forall k | 0 <= k < expanded.Length ::
          expanded[k] == if k < j && k != i && open0[k] then false else expanded0[k]
      {
        if j != i && open[j] {
          open[j] := false;
          expanded[j] := false;
        }
        j := j + 1;
      }
      if isOpen {
        open[i] := false;
        expanded[i] := false;
      } else {
        open[i] := true;
        expanded[i] := true;
      }
      assert open[..] == ClickOpen(open0, i);
      assert expanded[..] == ClickExpanded(open0, expanded0, i);
      ClickLeavesAtMostOne(open0, i);
      if Mirrors(open0, expanded0) {
        ClickKeepsMirror(open0, expanded0, i);
      }
    }

    /** The keydown handler of question `i`: Enter or Space has exactly the
        effect of a click, any other key changes nothing. */
    method KeyDown(i: nat, key: string)
      requires Valid() && i < open.Length
      modifies open, expanded
      ensures IsActivationKey(key) ==> open[..] == ClickOpen(old(open[..]), i)
      ensures IsActivationKey(key) ==>
        expanded[..] == ClickExpanded(old(open[..]), old(expanded[..]), i)
      ensures !IsActivationKey(key) ==> unchanged(open) && unchanged(expanded)
      ensures IsActivationKey(key) ==> AtMostOneOpen(open[..])
      ensures Mirrors(old(open[..]), old(expanded[..])) ==> Mirrors(open[..], expanded[..])
    {
      if key == "Enter" || key == " " {
        Click(i);
      }
    }
  }
}
