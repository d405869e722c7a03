/** The tab switcher (`initTabSwitcher`): `.tab-btn` buttons with a `data-tab` attribute
    and `.tab-content` elements found by the id `data-tab + "-tab"`. */
module Tabs {
  import opened Page
  import opened Flags

  /** The element id a button looks up. A button without `data-tab` interpolates
      JavaScript `null`, which prints as "null". */
  function TargetId(dataTab: Option<string>): (id: string)
  {
    match dataTab
    case Some(t) => t + "-tab"
    case None => "null-tab"
  }

  /** Distinct `data-tab` values select distinct contents ... */
  lemma TargetIdInjective(a: string, b: string)
    requires TargetId(Some(a)) == TargetId(Some(b))
    ensures a == b
  {
    assert a == TargetId(Some(a))[..|a|];
    assert b == TargetId(Some(b))[..|b|];
  }

  /** ... but a button with no `data-tab` selects the same content as `data-tab="null"`. */
  lemma MissingTabIsNull()
    ensures TargetId(None) == TargetId(Some("null"))
  {
  }

  /** The tab contents, keyed by id, after a click targeting `target`: every content is
      deactivated and then the one with id `target`, if any, is activated. */
  function ShowOnly(contents: map<string, bool>, target: string): (r: map<string, bool>)
  {
    map k | k in contents :: k == target
  }

  /** The ids of the active contents. */
  function ActiveIds(contents: map<string, bool>): (ids: set<string>)
    ensures forall k :: k in ids <==> k in contents && contents[k]
  {
    set k | k in contents && contents[k]
  }

  /** After a click the same contents exist, and the only active one is the target,
      which is active exactly when it exists. */
  lemma ShowOnlyActive(contents: map<string, bool>, target: string)
    ensures ShowOnly(contents, target).Keys == contents.Keys
    ensures ActiveIds(ShowOnly(contents, target)) == if target in contents then {target} else {}
  {
    var r := ShowOnly(contents, target);
    if target in contents {
      assert target in ActiveIds(r);
    }
  }

  /** A click undoes every earlier click: the contents depend only on the last target. */
  lemma ShowOnlyLastWins(contents: map<string, bool>, t1: string, t2: string)
    ensures ShowOnly(ShowOnly(contents, t1), t2) == ShowOnly(contents, t2)
  {
  }

  /** Afterwards exactly one button is active, the clicked one. */
  lemma SelectedExactlyOne(n: nat, b: nat)
    requires b < n
    ensures CountTrue(Selected(n, b)) == 1
  {
    OnlyActiveCount(Selected(n, b), b);
  }

  /** The buttons and contents of one page. `dataTabs[b]` is the `data-tab` attribute of
      button `b`; `contents` maps each `.tab-content` id to whether it is active. */
  class TabSwitcher {
    const buttons: array<bool>
    const dataTabs: seq<Option<string>>
    var contents: map<string, bool>

    predicate Valid()
    {
      |dataTabs| == buttons.Length
    }

    constructor (initialButtons: seq<bool>, tabs: seq<Option<string>>, initialContents: map<string, bool>)
      requires |tabs| == |initialButtons|
      ensures Valid() && fresh(buttons)
      ensures buttons[..] == initialButtons && dataTabs == tabs && contents == initialContents
    {
      buttons := new bool[|initialButtons|](j requires 0 <= j < |initialButtons| => initialButtons[j]);
      dataTabs := tabs;
      contents := initialContents;
    }

    /** The click handler of button `b`. With no `.tab-content` on the page no handler
        was installed and nothing changes. */
    method Click(b: nat)
      requires Valid() && b < buttons.Length
      modifies this, buttons
      ensures old(contents) == map[] ==> buttons[..] == old(buttons[..]) && contents == old(contents)
      ensures old(contents) != map[] ==>
        buttons[..] == Selected(buttons.Length, b) &&
        contents == ShowOnly(old(contents), TargetId(dataTabs[b]))
    {
      if contents == map[] {
        return;
      }
      var k := 0;
      while k < buttons.Length
        invariant 0 <= k <= buttons.Length
        invariant forall j :: 0 <= j < k ==> !buttons[j]
        invariant contents == old(contents)
      {
        buttons[k] := false;
        k := k + 1;
      }
      var pending := contents.Keys;
      while pending != {}
        invariant pending <= contents.Keys
        invariant contents.Keys == old(contents).Keys
        invariant forall id :: id in contents && id !in pending ==> !contents[id]
        invariant forall j :: 0 <= j < buttons.Length ==> !buttons[j]
        decreases pending
      {
        var id :| id in pending;
        contents := contents[id := false];
        pending := pending - {id};
      }
      buttons[b] := true;
      var target := TargetId(dataTabs[b]);
      if target in contents {
        contents := contents[target := true];
      }
      assert buttons[..] == Selected(buttons.Length, b);
    }
  }
}
