/**
  The FAQ accordion (src/components/home/FAQ.tsx): the page keeps the index
  of the open question, or none; a click on a question closes it when it is
  the open one and opens it (closing the other) otherwise.
 */
module Faq {
  import opened Base

  /** The number of questions on the page. */
  const QuestionCount: nat := 6

  /** `openIndex`: the open question, `None` for `null`. */
  type OpenIndex = Option<nat>

  /** The state as first rendered: the first question is open. */
  const InitialOpen: OpenIndex := Some(0)

  /** `isOpen={openIndex === i}`. */
  predicate IsOpen(open: OpenIndex, i: nat)
  {
    open == Some(i)
  }

  /** The click handler of question `i`. Afterwards question `j` is open
      exactly when it is the clicked one and it was closed before. */
  function Click(open: OpenIndex, i: nat): (r: OpenIndex)
    ensures forall j: nat :: IsOpen(r, j) <==> j == i && !IsOpen(open, i)
    ensures IsOpen(open, i) ==> r.None?
  {
    if open == Some(i) then None else Some(i)
  }

  /** The open index names one of the questions, or none. */
  predicate Valid(open: OpenIndex, n: nat)
  {
    open.None? || open.value < n
  }

  /** The open index after a sequence of clicks. */
  function Run(open: OpenIndex, clicks: seq<nat>): OpenIndex
    decreases |clicks|
  {
    if |clicks| == 0 then open else Run(Click(open, clicks[0]), clicks[1..])
  }

  /** Clicking questions of the page keeps the open index on the page. */
  lemma {:induction false} RunValid(open: OpenIndex, n: nat, clicks: seq<nat>)
    requires Valid(open, n)
    requires forall k :: 0 <= k < |clicks| ==> clicks[k] < n
    ensures Valid(Run(open, clicks), n)
    decreases |clicks|
  {
    if |clicks| > 0 {
      RunValid(Click(open, clicks[0]), n, clicks[1..]);
    }
  }

  /** After any clicks the open question is either none or the last one
      clicked, and it is the last one clicked exactly when that question
      was closed just before the final click. */
  lemma {:induction false} RunLastClick(open: OpenIndex, clicks: seq<nat>)
    requires |clicks| > 0
    ensures var last := clicks[|clicks| - 1];
            var before := Run(open, clicks[..|clicks| - 1]);
            Run(open, clicks) == (if IsOpen(before, last) then None else Some(last))
    decreases |clicks|
  {
    if |clicks| > 1 {
      assert clicks[1..][..|clicks| - 2] == clicks[..|clicks| - 1][1..];
      RunLastClick(Click(open, clicks[0]), clicks[1..]);
    } else {
      assert clicks[..0] == [];
    }
  }

  /** Clicking the same question twice restores an accordion where it was
      the open one or where none was open; otherwise it leaves every
      question closed. */
  lemma ClickTwice(open: OpenIndex, i: nat)
    ensures open == Some(i) || open.None? ==> Click(Click(open, i), i) == open
    ensures open.Some? && open.value != i ==> Click(Click(open, i), i).None?
  {
  }

  // ---------------------------------------------------------------------------
  // Rendering
  // ---------------------------------------------------------------------------

  /** The icon of the toggle button. */
  datatype Icon = Plus | Minus

  /** What one accordion item shows: its icon and whether its answer is
      visible. */
  datatype ItemView = ItemView(icon: Icon, answerShown: bool)

  /** The items of an accordion of `n` questions. Each item shows the Minus
      icon exactly when its answer is visible, which is exactly when it is
      the open one. */
  function Render(open: OpenIndex, n: nat): (vs: seq<ItemView>)
    ensures |vs| == n
    ensures forall i :: 0 <= i < n ==> (vs[i].answerShown <==> IsOpen(open, i))
    ensures forall i :: 0 <= i < n ==> (vs[i].icon == Minus <==> vs[i].answerShown)
  {
    seq(n, i requires 0 <= i < n => if IsOpen(open, i) then ItemView(Minus, true) else ItemView(Plus, false))
  }

  /** The indices of the items whose answers are visible. */
  function Shown(vs: seq<ItemView>): (r: set<nat>)
    ensures forall i: nat :: i in r <==> i < |vs| && vs[i].answerShown
  {
    set i: nat | i < |vs| && vs[i].answerShown
  }

  /** At most one answer is visible: exactly the open question's, when it is
      on the page. */
  lemma AtMostOneShown(open: OpenIndex, n: nat)
    ensures Shown(Render(open, n)) == (if open.Some? && open.value < n then {open.value} else {})
    ensures |Shown(Render(open, n))| <= 1
  {
    var s := Shown(Render(open, n));
    if open.Some? && open.value < n {
      assert s == {open.value};
    } else {
      assert s == {};
    }
  }

  /** On first render only the first answer is visible. */
  lemma InitialView()
    ensures Shown(Render(InitialOpen, QuestionCount)) == {0}
  {
    AtMostOneShown(InitialOpen, QuestionCount);
  }
}
