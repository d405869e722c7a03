/** The FAQ accordion (`initFaqAccordion`): a flat list of `.faq-item` elements, each
    with an `active` class, where a click on an item's question closes every other item
    and toggles that item. */
module Accordion {
  import opened Flags

  /** First half of the click handler: every other item that is active loses the class. */
  function CloseOthers(s: seq<bool>, i: nat): (r: seq<bool>)
    requires i < |s|
  {
    seq(|s|, j requires 0 <= j < |s| => if j != i && s[j] then false else s[j])
  }

  /** The items after a click on the question of item `i`. */
  function Click(s: seq<bool>, i: nat): (r: seq<bool>)
    requires i < |s|
    ensures |r| == |s|
    ensures r[i] == !s[i]
    ensures forall j :: 0 <= j < |s| && j != i ==> !r[j]
  {
    CloseOthers(s, i)[i := !s[i]]
  }

  /** Enter and Space on a question act as a click on it. */
  predicate ActivatesQuestion(key: string)
  {
    key == "Enter" || key == " "
  }

  /** From any prior state, a click leaves at most one item open. */
  lemma ClickAtMostOne(s: seq<bool>, i: nat)
    requires i < |s|
    ensures AtMostOne(Click(s, i))
    ensures CountTrue(Click(s, i)) <= 1
  {
    AtMostOneIffCount(Click(s, i));
  }

  /** The click opens item `i` (and only it) exactly when it was closed, and leaves
      every item closed exactly when it was open. */
  lemma {:induction false} ClickOpensIffClosed(s: seq<bool>, i: nat)
    requires i < |s|
    ensures OnlyActive(Click(s, i), i) <==> !s[i]
    ensures CountTrue(Click(s, i)) == 0 <==> s[i]
  {
    if !s[i] {
      OnlyActiveCount(Click(s, i), i);
    }
  }

  /** Clicking the same question twice closes every other item and gives item `i` back
      the state it had before the first click. */
  lemma ClickTwice(s: seq<bool>, i: nat)
    requires i < |s|
    ensures Click(Click(s, i), i) == CloseOthers(s, i)
  {
    assert |Click(Click(s, i), i)| == |CloseOthers(s, i)|;
    forall j | 0 <= j < |s| ensures Click(Click(s, i), i)[j] == CloseOthers(s, i)[j] {
    }
  }

  /** The items after a sequence of question clicks, in order. */
  function Clicks(s: seq<bool>, clicks: seq<nat>): (r: seq<bool>)
    requires forall k :: 0 <= k < |clicks| ==> clicks[k] < |s|
    ensures |r| == |s|
    decreases |clicks|
  {
    if clicks == [] then s
    else Clicks(Click(s, clicks[0]), clicks[1..])
  }

  /** After any non-empty sequence of clicks at most one item is open; a group that starts
      with at most one open item keeps that invariant for every sequence. */
  lemma {:induction false} ClicksAtMostOne(s: seq<bool>, clicks: seq<nat>)
    requires forall k :: 0 <= k < |clicks| ==> clicks[k] < |s|
    requires AtMostOne(s) || clicks != []
    ensures AtMostOne(Clicks(s, clicks))
    decreases |clicks|
  {
    if clicks != [] {
      ClickAtMostOne(s, clicks[0]);
      if clicks[1..] != [] {
        ClicksAtMostOne(Click(s, clicks[0]), clicks[1..]);
      }
    }
  }

  /** The `.faq-item` node list. `hasQuestion[i]` says whether item `i` contains a
      `.faq-question`; an item without one gets no handlers. */
  class FaqAccordion {
    const active: array<bool>
    const hasQuestion: seq<bool>

    predicate Valid()
    {
      |hasQuestion| == active.Length
    }

    constructor (initial: seq<bool>, questions: seq<bool>)
      requires |questions| == |initial|
      ensures Valid() && fresh(active)
      ensures active[..] == initial && hasQuestion == questions
    {
      active := new bool[|initial|](j requires 0 <= j < |initial| => initial[j]);
      hasQuestion := questions;
    }

    /** The click handler of item `i`'s question. */
    method QuestionClick(i: nat)
      requires Valid() && i < active.Length
      modifies active
      ensures active[..] == if hasQuestion[i] then Click(old(active[..]), i) else old(active[..])
      ensures hasQuestion[i] ==> AtMostOne(active[..])
    {
      if !hasQuestion[i] {
        return;
      }
      ghost var before := active[..];
      var k := 0;
      while k < active.Length
        invariant 0 <= k <= active.Length
        invariant forall j :: 0 <= j < k ==> active[j] == CloseOthers(before, i)[j]
        invariant forall j :: k <= j < active.Length ==> active[j] == before[j]
      {
        if k != i && active[k] {
          active[k] := false;
        }
        k := k + 1;
      }
      active[i] := !active[i];
      assert active[..] == Click(before, i);
      ClickAtMostOne(before, i);
    }

    /** The keydown handler of item `i`'s question. */
    method QuestionKeyDown(i: nat, key: string)
      requires Valid() && i < active.Length
      modifies active
      ensures active[..] ==
        if hasQuestion[i] && ActivatesQuestion(key) then Click(old(active[..]), i) else old(active[..])
    {
      if hasQuestion[i] && ActivatesQuestion(key) {
        QuestionClick(i);
      }
    }
  }
}
