/**
  The team member card (src/components/team/TeamMemberCard.tsx): a card of
  the `team` category flips on click, and the first time it is turned face
  up without details it loads the member list; the back face shows a
  spinner, the comma-separated names, or "No members listed".

  React state updates are modelled as a sequential stream of events: a
  click, and the completion or failure of the one fetch a click may start.
 */
module TeamCard {
  import opened Base
  import opened Text
  import Team

  /** The card's state: whether it is a `team` card (fixed by its member),
      whether it is flipped, the details loaded so far (`null` is `None`),
      and whether a load is in progress. */
  datatype Card = Card(isTeam: bool, flipped: bool, details: Option<string>, loading: bool)

  /** `isTeam`: the category is exactly `team` (no case folding here). */
  function IsTeamCategory(category: Option<string>): bool
  {
    category == Some("team")
  }

  /** The card as first rendered. */
  function Initial(category: Option<string>): (c: Card)
    ensures c.isTeam <==> category == Some("team")
    ensures !c.flipped && c.details.None? && !c.loading
  {
    Card(IsTeamCategory(category), false, None, false)
  }

  /** `!memberDetails`: no details, or the empty string. */
  predicate NoDetails(c: Card)
  {
    c.details.None? || c.details.value == []
  }

  /** The result of a click: the new state, and whether a fetch starts. */
  datatype ClickResult = ClickResult(card: Card, startsFetch: bool)

  /** `handleFlip`. On a non-team card nothing happens. A click on a
      face-down card with no details and no load in progress flips it,
      marks it loading and starts exactly one fetch. Every other click only
      turns the card over. */
  function Click(c: Card): (r: ClickResult)
    ensures !c.isTeam ==> r.card == c && !r.startsFetch
    ensures r.startsFetch <==> c.isTeam && !c.flipped && NoDetails(c) && !c.loading
    ensures r.startsFetch ==> r.card == c.(flipped := true, loading := true)
    ensures c.isTeam && !r.startsFetch ==> r.card == c.(flipped := !c.flipped)
  {
    if !c.isTeam then ClickResult(c, false)
    else if !c.flipped && NoDetails(c) && !c.loading then
      ClickResult(c.(loading := true, flipped := true), true)
    else ClickResult(c.(flipped := !c.flipped), false)
  }

  /** The fetch returned (`null` on a backend error, a string otherwise):
      the result is stored and loading ends. */
  function FetchDone(c: Card, result: Option<string>): (r: Card)
    ensures r.details == result && !r.loading
    ensures r.isTeam == c.isTeam && r.flipped == c.flipped
  {
    c.(details := result, loading := false)
  }

  /** The fetch threw: the details stay as they were, and loading ends. */
  function FetchFailed(c: Card): (r: Card)
    ensures r.details == c.details && !r.loading
    ensures r.isTeam == c.isTeam && r.flipped == c.flipped
  {
    c.(loading := false)
  }

  // ---------------------------------------------------------------------------
  // Back face
  // ---------------------------------------------------------------------------

  /** What the back face shows. */
  datatype BackFace = Hidden | Spinner | Names(lines: seq<string>) | NoMembers

  /** The lines of the member list: the comma-separated parts, trimmed. */
  function NameLines(details: string): (lines: seq<string>)
    ensures |lines| == Count(details, ',') + 1
    ensures forall i :: 0 <= i < |lines| ==> ',' !in lines[i]
  {
    var parts := Split(details, ',');
    SplitCount(details, ',');
    var lines := seq(|parts|, i requires 0 <= i < |parts| => Trim(parts[i]));
    forall i | 0 <= i < |lines|
      ensures ',' !in lines[i]
    {
      TrimmedChars(parts[i]);
    }
    lines
  }

  /** The back face: none for a non-team card; a spinner while loading; the
      list when there are details; otherwise "No members listed". */
  function Back(c: Card): (f: BackFace)
    ensures !c.isTeam <==> f.Hidden?
    ensures c.isTeam ==> (c.loading <==> f.Spinner?)
    ensures f.Names? <==> c.isTeam && !c.loading && !NoDetails(c)
    ensures f.Names? ==> f.lines == NameLines(c.details.value)
    ensures f.Names? ==> |f.lines| == Count(c.details.value, ',') + 1
  {
    if !c.isTeam then Hidden
    else if c.loading then Spinner
    else if !NoDetails(c) then Names(NameLines(c.details.value))
    else NoMembers
  }

  /** Each line of the list is one comma-separated part with its surrounding
      whitespace removed: putting the untrimmed parts back together with
      commas gives the details text. */
  lemma NameLinesParts(details: string)
    ensures var parts := Split(details, ',');
            && Join(parts, ',') == details
            && forall i :: 0 <= i < |parts| ==> NameLines(details)[i] == Trim(parts[i])
  {
    JoinSplit(details, ',');
  }

  /** The characters of a trimmed string are characters of the string. */
  lemma TrimmedChars(s: string)
    ensures forall x :: x in Trim(s) ==> x in s
  {
    var t := TrimStart(s);
    assert forall x :: x in t ==> x in s by {
      forall x | x in t
        ensures x in s
      {
        var k :| 0 <= k < |t| && t[k] == x;
        assert s[|s| - |t| + k] == x;
      }
    }
    var u := TrimEnd(t);
    forall x | x in u
      ensures x in t
    {
      var k :| 0 <= k < |u| && u[k] == x;
      assert t[k] == x;
    }
  }

  // ---------------------------------------------------------------------------
  // Event streams
  // ---------------------------------------------------------------------------

  /** An event the card reacts to. `Done` and `Failed` are the completion of
      the fetch in flight, if there is one. */
  datatype Event = Clicked | Done(result: Option<string>) | Failed

  /** The card together with the number of fetches in flight. */
  datatype Session = Session(card: Card, inFlight: nat)

  /** One event. A completion with no fetch in flight cannot arise in the
      source and changes nothing here. */
  function Step(s: Session, e: Event): (r: Session)
    ensures r.card.isTeam == s.card.isTeam
  {
    match e
    case Clicked =>
      var c := Click(s.card);
      Session(c.card, s.inFlight + (if c.startsFetch then 1 else 0))
    case Done(result) =>
      if s.inFlight == 0 then s else Session(FetchDone(s.card, result), s.inFlight - 1)
    case Failed =>
      if s.inFlight == 0 then s else Session(FetchFailed(s.card), s.inFlight - 1)
  }

  /** The fetches a stream of events starts. */
  function FetchesStarted(s: Session, es: seq<Event>): nat
    decreases |es|
  {
    if |es| == 0 then 0
    else
      (if es[0].Clicked? && Click(s.card).startsFetch then 1 else 0)
      + FetchesStarted(Step(s, es[0]), es[1..])
  }

  /** The session after a stream of events. */
  function Run(s: Session, es: seq<Event>): Session
    decreases |es|
  {
    if |es| == 0 then s else Run(Step(s, es[0]), es[1..])
  }

  /** The card is loading exactly while its one fetch is in flight, and it
      never loads while it holds details. */
  predicate Consistent(s: Session)
  {
    && s.inFlight == (if s.card.loading then 1 else 0)
    && (s.card.loading ==> NoDetails(s.card) && s.card.isTeam)
  }

  lemma StepConsistent(s: Session, e: Event)
    requires Consistent(s)
    ensures Consistent(Step(s, e))
  {
  }

  /** Whatever the events, at most one fetch is ever in flight. */
  lemma {:induction false} RunConsistent(s: Session, es: seq<Event>)
    requires Consistent(s)
    ensures Consistent(Run(s, es)) && Run(s, es).inFlight <= 1
    decreases |es|
  {
    if |es| > 0 {
      StepConsistent(s, es[0]);
      RunConsistent(Step(s, es[0]), es[1..]);
    }
  }

  /** Non-empty details are fetched at most once: once a card holds them, no
      stream of events starts another fetch or changes them. */
  lemma {:induction false} DetailsFetchedOnce(s: Session, es: seq<Event>)
    requires Consistent(s) && !NoDetails(s.card)
    ensures FetchesStarted(s, es) == 0
    ensures Run(s, es).card.details == s.card.details
    decreases |es|
  {
    if |es| > 0 {
      var s' := Step(s, es[0]);
      assert s'.card.details == s.card.details;
      StepConsistent(s, es[0]);
      DetailsFetchedOnce(s', es[1..]);
    }
  }

  /** A load that brought back nothing (`null` or `''`) is retried by the
      next click on the face-down card. */
  lemma EmptyResultRefetches(c: Card, result: Option<string>)
    requires c.isTeam && (result.None? || result == Some([]))
    ensures var d := FetchDone(c, result);
            !d.flipped ==> Click(d).startsFetch
  {
  }

  /** What the details query brings back decides whether the card loads
      again: after an error, or a row without a member list (read as
      `''`), turning the card over to its back starts a new fetch; after a
      non-empty member list it never does. */
  lemma DetailsReplyRefetches(c: Card, reply: Team.DetailsReply)
    requires c.isTeam
    ensures var d := FetchDone(c, Team.MemberDetails(reply));
            var faceDown := if d.flipped then Click(d).card else d;
            Click(faceDown).startsFetch <==>
              reply.DetailsError? || reply.teamMember.None? || reply.teamMember == Some([])
  {
  }

  /** From the initial state, a team card's first click starts the load and
      a non-team card never starts one. */
  lemma FirstClick(category: Option<string>, es: seq<Event>)
    ensures Click(Initial(category)).startsFetch <==> category == Some("team")
    ensures category != Some("team") ==> FetchesStarted(Session(Initial(category), 0), es) == 0
  {
    if category != Some("team") {
      NonTeamNeverFetches(Session(Initial(category), 0), es);
    }
  }

  /** A non-team card never starts a fetch and never changes. */
  lemma {:induction false} NonTeamNeverFetches(s: Session, es: seq<Event>)
    requires !s.card.isTeam && s.inFlight == 0
    ensures FetchesStarted(s, es) == 0 && Run(s, es) == s
    decreases |es|
  {
    if |es| > 0 {
      NonTeamNeverFetches(Step(s, es[0]), es[1..]);
    }
  }
}
