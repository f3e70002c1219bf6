/**
 * The FAQ accordion: every `.faq-item` of the panel carries an `active` class or
 * not, modelled as `items[j]`. Clicking the question of item `i` notes whether
 * `i` was active, removes `active` from every item, and adds it back to `i` only
 * if `i` was not active before.
 */
module Accordion {

  /** The panel after a click on the question of item `i`, as a function of the panel before it. */
  function Toggled(before: seq<bool>, i: nat): (after: seq<bool>)
    requires i < |before|
    ensures |after| == |before|
  {
    seq(|before|, j requires 0 <= j < |before| => j == i && !before[i])
  }

  /** The indices of the items that are open. */
  function ActiveSet(s: seq<bool>): set<nat> {
    set j: nat | j < |s| && s[j]
  }

  /** The panel's invariant: no two distinct items are open. */
  predicate AtMostOneActive(s: seq<bool>) {
    forall j, k :: 0 <= j < |s| && 0 <= k < |s| && s[j] && s[k] ==> j == k
  }

  /** The number of open items. */
  function CountActive(s: seq<bool>): nat {
    if |s| == 0 then 0 else (if s[0] then 1 else 0) + CountActive(s[1..])
  }

  /** The click handler, run on the class lists in place. */
  method ClickQuestion(items: array<bool>, i: nat)
    requires i < items.Length
    modifies items
    ensures items[..] == Toggled(old(items[..]), i)
  {
    var wasActive := items[i];
    for j := 0 to items.Length
      invariant forall k :: 0 <= k < j ==> !items[k]
    {
      items[j] := false;
    }
    if !wasActive {
      items[i] := true;
    }
    assert forall k :: 0 <= k < items.Length ==> items[..][k] == Toggled(old(items[..]), i)[k];
  }

  /** A click opens the clicked item if it was closed, and leaves every other item closed. */
  lemma ToggledActiveSet(before: seq<bool>, i: nat)
    requires i < |before|
    ensures ActiveSet(Toggled(before, i)) == if before[i] then {} else {i}
  {
    var after := Toggled(before, i);
    assert forall j :: 0 <= j < |after| && j != i ==> !after[j];
    if before[i] {
      assert !after[i];
    } else {
      assert after[i];
    }
  }

  /** Whatever the panel looked like, at most one item is open after a click. */
  lemma ToggledAtMostOne(before: seq<bool>, i: nat)
    requires i < |before|
    ensures AtMostOneActive(Toggled(before, i))
  {
  }

  /** Counting open items of a panel in which only item `i` may be open. */
  lemma {:induction false} CountActiveOnlyAt(s: seq<bool>, i: nat)
    requires i < |s|
    requires forall j :: 0 <= j < |s| && j != i ==> !s[j]
    ensures CountActive(s) == if s[i] then 1 else 0
  {
    if i == 0 {
      CountActiveNone(s[1..]);
    } else {
      CountActiveOnlyAt(s[1..], i - 1);
    }
  }

  lemma {:induction false} CountActiveNone(s: seq<bool>)
    requires forall j :: 0 <= j < |s| ==> !s[j]
    ensures CountActive(s) == 0
  {
    if |s| > 0 {
      CountActiveNone(s[1..]);
    }
  }

  /** Clicking an open item leaves no item open; clicking a closed one leaves exactly one open. */
  lemma ToggledCount(before: seq<bool>, i: nat)
    requires i < |before|
    ensures CountActive(Toggled(before, i)) == if before[i] then 0 else 1
  {
    CountActiveOnlyAt(Toggled(before, i), i);
  }

  /**
   * Clicking the same question twice in a row: if the item was closed, the first
   * click opens it and the second closes everything; if it was open, the first
   * click closes everything and the second opens it again.
   */
  lemma ToggleTwice(before: seq<bool>, i: nat)
    requires i < |before|
    ensures ActiveSet(Toggled(Toggled(before, i), i)) == if before[i] then {i} else {}
  {
    ToggledActiveSet(Toggled(before, i), i);
  }

  /** On a panel that keeps the invariant, clicking the open item twice restores the panel. */
  lemma ToggleTwiceRestoresOpen(before: seq<bool>, i: nat)
    requires i < |before| && before[i] && AtMostOneActive(before)
    ensures Toggled(Toggled(before, i), i) == before
  {
  }

  /** The invariant, read as a count: at most one item is open exactly when at most one is counted. */
  lemma {:induction false} AtMostOneActiveCount(s: seq<bool>)
    ensures AtMostOneActive(s) <==> CountActive(s) <= 1
  {
    if |s| > 0 {
      var rest := s[1..];
      AtMostOneActiveCount(rest);
      assert forall j :: 1 <= j < |s| ==> s[j] == rest[j - 1];
      if s[0] {
        if AtMostOneActive(s) {
          CountActiveNone(rest);
        }
        if CountActive(s) <= 1 {
          CountActiveZero(rest);
        }
      }
    }
  }

  lemma {:induction false} CountActiveZero(s: seq<bool>)
    requires CountActive(s) == 0
    ensures forall j :: 0 <= j < |s| ==> !s[j]
  {
    if |s| > 0 {
      CountActiveZero(s[1..]);
      assert forall j :: 1 <= j < |s| ==> s[j] == s[1..][j - 1];
    }
  }

  predicate ValidClicks(n: nat, clicks: seq<nat>) {
    forall c :: 0 <= c < |clicks| ==> clicks[c] < n
  }

  /** The panel after the questions `clicks` were clicked one after another. */
  function AfterClicks(s: seq<bool>, clicks: seq<nat>): (r: seq<bool>)
    requires ValidClicks(|s|, clicks)
    ensures |r| == |s|
    decreases |clicks|
  {
    if |clicks| == 0 then s else AfterClicks(Toggled(s, clicks[0]), clicks[1..])
  }

  /** After any non-empty sequence of clicks at most one item is open, whatever the page started with. */
  lemma {:induction false} AfterClicksAtMostOne(s: seq<bool>, clicks: seq<nat>)
    requires ValidClicks(|s|, clicks)
    requires |clicks| > 0 || AtMostOneActive(s)
    ensures AtMostOneActive(AfterClicks(s, clicks))
    decreases |clicks|
  {
    if |clicks| > 0 {
      ToggledAtMostOne(s, clicks[0]);
      AfterClicksAtMostOne(Toggled(s, clicks[0]), clicks[1..]);
    }
  }
}
