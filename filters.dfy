/** The tour filter (`initTourFilters`): `.filter-btn` buttons with a `data-filter`
    token and `.tour-card` elements with an immutable `data-category`. Only the settled
    display of each card is modelled: shown (`display: block`) or hidden (`display: none`). */
module TourFilter {
  import opened Page
  import opened Flags

  /** The wildcard token. */
  const All: string := "all"

  /** Whether a card of `category` is shown under `filter`. Both attributes may be
      missing; JavaScript's `null === null` then holds, so a button without `data-filter`
      shows exactly the cards without `data-category`. */
  predicate Matches(filter: Option<string>, category: Option<string>)
  {
    filter == Some(All) || category == filter
  }

  /** The settled display of the cards, in order, after a click on a `filter` button. */
  function Settled(filter: Option<string>, categories: seq<Option<string>>): (shown: seq<bool>)
    ensures |shown| == |categories|
  {
    if categories == [] then []
    else [Matches(filter, categories[0])] + Settled(filter, categories[1..])
  }

  /** A card is displayed iff the filter is "all" or the card's category equals it. */
  lemma {:induction false} SettledAt(filter: Option<string>, categories: seq<Option<string>>, j: nat)
    requires j < |categories|
    ensures Settled(filter, categories)[j] <==> filter == Some(All) || categories[j] == filter
  {
    if j > 0 {
      SettledAt(filter, categories[1..], j - 1);
    }
  }

  /** The wildcard displays every card. */
  lemma {:induction false} AllShowsEveryCard(categories: seq<Option<string>>)
    ensures CountTrue(Settled(Some(All), categories)) == |categories|
  {
    if categories != [] {
      AllShowsEveryCard(categories[1..]);
    }
  }

  /** Two different category filters never display the same card. */
  lemma DistinctFiltersDisjoint(f1: string, f2: string, categories: seq<Option<string>>, j: nat)
    requires f1 != f2 && f1 != All && f2 != All && j < |categories|
    ensures !(Settled(Some(f1), categories)[j] && Settled(Some(f2), categories)[j])
  {
    SettledAt(Some(f1), categories, j);
    SettledAt(Some(f2), categories, j);
  }

  /** The example page: categories spices, tools, spices under "spices" display the first
      and the third card. */
  lemma SpicesExample()
    ensures Settled(Some("spices"), [Some("spices"), Some("tools"), Some("spices")]) == [true, false, true]
  {
    var cats := [Some("spices"), Some("tools"), Some("spices")];
    assert cats[1..] == [Some("tools"), Some("spices")];
    assert cats[1..][1..] == [Some("spices")];
    assert cats[1..][1..][1..] == [];
  }

  /** The filter buttons and tour cards of one page. */
  class TourFilters {
    const buttons: array<bool>
    const filters: seq<Option<string>>
    const categories: seq<Option<string>>
    const shown: array<bool>

    predicate Valid()
    {
      |filters| == buttons.Length && |categories| == shown.Length && buttons != shown
    }

    constructor (initialButtons: seq<bool>, tokens: seq<Option<string>>,
                 cards: seq<Option<string>>, initialShown: seq<bool>)
      requires |tokens| == |initialButtons| && |initialShown| == |cards|
      ensures Valid() && fresh(buttons) && fresh(shown)
      ensures buttons[..] == initialButtons && filters == tokens
      ensures categories == cards && shown[..] == initialShown
    {
      buttons := new bool[|initialButtons|](j requires 0 <= j < |initialButtons| => initialButtons[j]);
      filters := tokens;
      categories := cards;
      shown := new bool[|initialShown|](j requires 0 <= j < |initialShown| => initialShown[j]);
    }

    /** The click handler of button `b`, up to the moment every card timer has fired.
        With no tour cards on the page no handler was installed and nothing changes. */
    method Click(b: nat)
      requires Valid() && b < buttons.Length
      modifies buttons, shown
      ensures categories == [] ==> buttons[..] == old(buttons[..]) && shown[..] == old(shown[..])
      ensures categories != [] ==>
        buttons[..] == Selected(buttons.Length, b) && shown[..] == Settled(filters[b], categories)
    {
      if |categories| == 0 {
        return;
      }
      var k := 0;
      while k < buttons.Length
        invariant 0 <= k <= buttons.Length
        invariant forall j :: 0 <= j < k ==> !buttons[j]
      {
        buttons[k] := false;
        k := k + 1;
      }
      buttons[b] := true;
      var filter := filters[b];
      var c := 0;
      while c < shown.Length
        invariant 0 <= c <= shown.Length
        invariant forall j :: 0 <= j < c ==> shown[j] == Matches(filter, categories[j])
        invariant buttons[..] == Selected(buttons.Length, b)
      {
        shown[c] := Matches(filter, categories[c]);
        c := c + 1;
      }
      forall j | 0 <= j < shown.Length ensures shown[j] == Settled(filter, categories)[j] {
        SettledAt(filter, categories, j);
      }
    }
  }
}
