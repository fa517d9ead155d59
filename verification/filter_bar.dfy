/**
  The category filter dropdown (src/components/competitions/FilterBar.tsx):
  a trigger button that opens and closes a menu of categories, a choice
  that reports the category to the page and closes the menu, and a
  document listener, present only while the menu is open, that closes it
  on a mouse press outside the dropdown.

  The active category is owned by the page; the dropdown only reports
  choices, so it is a parameter here.
 */
module FilterBar {
  import opened Base

  /** An event the dropdown reacts to. `Choose` is a click on the option
      for `category`; `MouseDown` is a press anywhere in the document, inside
      the dropdown or outside it. */
  datatype Event = TriggerClick | Choose(category: string) | MouseDown(inside: bool)

  /** The new `isOpen` after an event, and the category reported to the
      page, if any. */
  datatype Outcome = Outcome(isOpen: bool, reported: Option<string>)

  /** One event. The trigger turns the menu over. Choosing an option (the
      options exist only while the menu is open) reports exactly that
      category and closes the menu. A press outside closes an open menu; a
      press inside, or any press while closed, changes nothing. Nothing but
      a choice reports anything. */
  function Step(categories: seq<string>, isOpen: bool, e: Event): (r: Outcome)
    ensures e.TriggerClick? ==> r == Outcome(!isOpen, None)
    ensures r.reported.Some? <==> e.Choose? && isOpen && e.category in categories
    ensures r.reported.Some? ==> r.reported.value == e.category && !r.isOpen
    ensures e.MouseDown? ==> r.isOpen == (isOpen && e.inside)
  {
    match e
    case TriggerClick => Outcome(!isOpen, None)
    case Choose(category) =>
      if isOpen && category in categories then Outcome(false, Some(category))
      else Outcome(isOpen, None)
    case MouseDown(inside) =>
      // The document listener is registered only while the menu is open.
      if isOpen && !inside then Outcome(false, None)
      else Outcome(isOpen, None)
  }

  /** The `isOpen` after a stream of events. */
  function Run(categories: seq<string>, isOpen: bool, es: seq<Event>): bool
    decreases |es|
  {
    if |es| == 0 then isOpen else Run(categories, Step(categories, isOpen, es[0]).isOpen, es[1..])
  }

  /** The categories reported over a stream of events. */
  function Reports(categories: seq<string>, isOpen: bool, es: seq<Event>): seq<string>
    decreases |es|
  {
    if |es| == 0 then []
    else
      var o := Step(categories, isOpen, es[0]);
      (if o.reported.Some? then [o.reported.value] else []) + Reports(categories, o.isOpen, es[1..])
  }

  /** Every reported category is one of the offered categories, and reports
      are never more than the choices made. */
  lemma {:induction false} ReportsOffered(categories: seq<string>, isOpen: bool, es: seq<Event>)
    ensures forall c :: c in Reports(categories, isOpen, es) ==> c in categories
    ensures |Reports(categories, isOpen, es)| <= |es|
    decreases |es|
  {
    if |es| > 0 {
      ReportsOffered(categories, Step(categories, isOpen, es[0]).isOpen, es[1..]);
    }
  }

  /** With the menu closed, presses anywhere change nothing and report
      nothing: no listener is registered. */
  lemma {:induction false} ClosedIgnoresPresses(categories: seq<string>, es: seq<Event>)
    requires forall k :: 0 <= k < |es| ==> es[k].MouseDown?
    ensures !Run(categories, false, es) && Reports(categories, false, es) == []
    decreases |es|
  {
    if |es| > 0 {
      ClosedIgnoresPresses(categories, es[1..]);
    }
  }

  /** Opening the menu and choosing a category reports exactly that
      category and leaves the menu closed. */
  lemma OpenAndChoose(categories: seq<string>, category: string)
    requires category in categories
    ensures Reports(categories, false, [TriggerClick, Choose(category)]) == [category]
    ensures !Run(categories, false, [TriggerClick, Choose(category)])
  {
    var es := [TriggerClick, Choose(category)];
    assert es[1..] == [Choose(category)];
    assert es[1..][1..] == [];
    assert Step(categories, false, TriggerClick) == Outcome(true, None);
    assert Step(categories, true, Choose(category)) == Outcome(false, Some(category));
    assert Reports(categories, true, es[1..]) == [category] + Reports(categories, false, []);
    assert Run(categories, true, es[1..]) == Run(categories, false, []);
  }

  /** Two trigger clicks in a row leave the menu as it was. */
  lemma TriggerTwice(categories: seq<string>, isOpen: bool)
    ensures Run(categories, isOpen, [TriggerClick, TriggerClick]) == isOpen
  {
    var es := [TriggerClick, TriggerClick];
    assert es[1..] == [TriggerClick];
    assert es[1..][1..] == [];
  }

  // ---------------------------------------------------------------------------
  // Rendering
  // ---------------------------------------------------------------------------

  /** The trigger's caption: `Filter By` for `All`, the category otherwise.
      It differs from the active category only for `All`. */
  function Label(activeCategory: string): (r: string)
    ensures r == "Filter By" <==> activeCategory == "All" || activeCategory == "Filter By"
    ensures r != activeCategory <==> activeCategory == "All"
  {
    if activeCategory == "All" then "Filter By" else activeCategory
  }

  /** One option of the open menu. */
  datatype OptionView = OptionView(category: string, highlighted: bool, checked: bool)

  /** The menu: nothing while closed; otherwise one option per category, in
      order, highlighted and checked exactly when it is the active one. */
  function Menu(categories: seq<string>, activeCategory: string, isOpen: bool): (vs: seq<OptionView>)
    ensures !isOpen ==> vs == []
    ensures isOpen ==> |vs| == |categories|
    ensures isOpen ==> forall k :: 0 <= k < |vs| ==>
              && vs[k].category == categories[k]
              && (vs[k].highlighted <==> categories[k] == activeCategory)
              && vs[k].checked == vs[k].highlighted
  {
    if !isOpen then []
    else
      seq(|categories|, k requires 0 <= k < |categories| =>
        OptionView(categories[k], categories[k] == activeCategory, categories[k] == activeCategory))
  }

  /** The number of checked options. */
  function CheckedCount(vs: seq<OptionView>): nat
    decreases |vs|
  {
    if |vs| == 0 then 0 else (if vs[0].checked then 1 else 0) + CheckedCount(vs[1..])
  }

  /** The number of times `c` occurs in `cs`. */
  function Occurrences(cs: seq<string>, c: string): nat
    decreases |cs|
  {
    if |cs| == 0 then 0 else (if cs[0] == c then 1 else 0) + Occurrences(cs[1..], c)
  }

  /** An open menu checks as many options as there are copies of the active
      category in the list: exactly one when the list has no duplicates and
      contains it, none when it does not contain it. */
  lemma CheckedMatchesActive(categories: seq<string>, activeCategory: string)
    ensures CheckedCount(Menu(categories, activeCategory, true)) == Occurrences(categories, activeCategory)
    ensures (forall i, j :: 0 <= i < j < |categories| ==> categories[i] != categories[j]) ==>
              CheckedCount(Menu(categories, activeCategory, true)) == if activeCategory in categories then 1 else 0
  {
    CheckedCountsOccurrences(categories, activeCategory);
    if forall i, j :: 0 <= i < j < |categories| ==> categories[i] != categories[j] {
      OccurrencesDistinct(categories, activeCategory);
    }
  }

  /** The checked options of an open menu are the copies of the active
      category. */
  lemma {:induction false} CheckedCountsOccurrences(categories: seq<string>, activeCategory: string)
    ensures CheckedCount(Menu(categories, activeCategory, true)) == Occurrences(categories, activeCategory)
    decreases |categories|
  {
    if |categories| > 0 {
      var vs := Menu(categories, activeCategory, true);
      assert vs[1..] == Menu(categories[1..], activeCategory, true);
      CheckedCountsOccurrences(categories[1..], activeCategory);
    }
  }

  /** Without duplicates, a category occurs once if listed and never
      otherwise. */
  lemma {:induction false} OccurrencesDistinct(cs: seq<string>, c: string)
    requires forall i, j :: 0 <= i < j < |cs| ==> cs[i] != cs[j]
    ensures Occurrences(cs, c) == (if c in cs then 1 else 0)
    decreases |cs|
  {
    if |cs| > 0 {
      OccurrencesDistinct(cs[1..], c);
      if cs[0] == c {
        assert c !in cs[1..] by {
          forall k | 0 <= k < |cs[1..]|
            ensures cs[1..][k] != c
          {
            assert cs[1..][k] == cs[k + 1];
          }
        }
      }
    }
  }
}
