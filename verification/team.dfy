/**
  Team hierarchy (src/services/team.ts): normalising a free-text position
  into one of the hierarchy keys, grouping members by hierarchy, and the
  pure post-processing of the two backend queries. The queries themselves
  are inputs: a reply is either an error or the rows.
 */
module Team {
  import opened Base
  import opened Text

  /** A team member row; only the fields the logic reads are significant. */
  datatype Member = Member(
    id: int,
    imageUrl: string,
    instagramUrl: string,
    category: Option<string>,
    teamMember: Option<string>,
    position: Option<string>,
    name: Option<string>)

  /** The hierarchy positions plus the catch-all `other`. */
  datatype Position = Mentor | CulturalSecretary | Convenor | CreativeDirector | OcTeamHead | OcCommittee | Other

  /** The string key of each position. */
  function Key(p: Position): string
  {
    match p
    case Mentor => "mentor"
    case CulturalSecretary => "cultural_secretary"
    case Convenor => "convenor"
    case CreativeDirector => "creative_director"
    case OcTeamHead => "oc_team_head"
    case OcCommittee => "oc_committee"
    case Other => "other"
  }

  /** `HIERARCHY`, in display order. */
  const Hierarchy: seq<Position> := [Mentor, CulturalSecretary, Convenor, CreativeDirector, OcTeamHead, OcCommittee]

  /** Every position is a hierarchy position or `other`, and `other` is not
      in the hierarchy. */
  lemma HierarchyCovers(p: Position)
    ensures p in Hierarchy <==> p != Other
  {
  }

  /** Different positions have different keys. */
  lemma KeyInjective(p: Position, q: Position)
    requires Key(p) == Key(q)
    ensures p == q
  {
    assert Key(p)[|Key(p)| - 1] == Key(q)[|Key(q)| - 1];
    assert Key(p)[0] == Key(q)[0];
    assert |Key(p)| == |Key(q)|;
  }

  /** `HIERARCHY.includes(pos)`: the first position of `ps` whose key is `s`. */
  function FindKey(ps: seq<Position>, s: string): (r: Option<Position>)
    ensures r.Some? ==> r.value in ps && Key(r.value) == s
    ensures r.None? ==> forall p :: p in ps ==> Key(p) != s
  {
    if |ps| == 0 then None
    else if Key(ps[0]) == s then Some(ps[0])
    else FindKey(ps[1..], s)
  }

  /** The comparisons of `normalizePosition` on the lowercased, trimmed text,
      in the order the source makes them. */
  function Classify(pos: string): Position
  {
    if pos == "cultural secretary" then CulturalSecretary
    else if pos == "creative director" then CreativeDirector
    else if pos == "oc team lead" || pos == "oc team head" then OcTeamHead
    else if Contains(pos, "committee") then OcCommittee
    else match FindKey(Hierarchy, pos)
      case Some(p) => p
      case None => Other
  }

  /** `normalizePosition`: an absent or empty position is `other`; otherwise
      the lowercased, trimmed text is classified. The result is always a
      hierarchy position or `other`. */
  function NormalizePosition(position: Option<string>): (r: Position)
    ensures r in Hierarchy || r == Other
    ensures position.None? || position == Some([]) ==> r == Other
  {
    if position.None? || position.value == [] then Other
    else Classify(Trim(ToLower(position.value)))
  }

  // ---------------------------------------------------------------------------
  // The alias table, stated without reference to the order of the tests
  // ---------------------------------------------------------------------------

  /** The spellings (after lowercasing and trimming) that name each position. */
  predicate Spells(pos: string, p: Position)
  {
    match p
    case Mentor => pos == "mentor"
    case CulturalSecretary => pos == "cultural secretary" || pos == "cultural_secretary"
    case Convenor => pos == "convenor"
    case CreativeDirector => pos == "creative director" || pos == "creative_director"
    case OcTeamHead => pos == "oc team lead" || pos == "oc team head" || pos == "oc_team_head"
    case OcCommittee => Contains(pos, "committee")
    case Other => false
  }

  /** No spelling of a position other than `oc_committee` mentions
      `committee`: each lacks its `m` or its `i`. */
  lemma SpellingsWithoutCommittee(pos: string, p: Position)
    requires p != OcCommittee && Spells(pos, p)
    ensures !Contains(pos, "committee")
  {
    assert 'm' in "committee" && 'i' in "committee";
    match p
    case Mentor =>
      MissingCharNotContained(pos, "committee", 'i');
    case CulturalSecretary =>
      MissingCharNotContained(pos, "committee", 'm');
    case Convenor =>
      MissingCharNotContained(pos, "committee", 'm');
    case CreativeDirector =>
      MissingCharNotContained(pos, "committee", 'm');
    case OcTeamHead =>
      MissingCharNotContained(pos, "committee", 'i');
  }

  /** The spellings of different positions are different. */
  lemma SpellingsDisjoint(pos: string, p: Position, q: Position)
    requires Spells(pos, p) && Spells(pos, q)
    ensures p == q
  {
    if p == OcCommittee && q != OcCommittee {
      SpellingsWithoutCommittee(pos, q);
    } else if q == OcCommittee && p != OcCommittee {
      SpellingsWithoutCommittee(pos, p);
    }
  }

  /** The classifier returns the position whose spelling the text is, and
      `other` exactly when the text spells none: the precedence of the tests
      never decides anything, because no text spells two positions. */
  lemma {:induction false} ClassifySpells(pos: string, p: Position)
    ensures p != Other ==> (Classify(pos) == p <==> Spells(pos, p))
    ensures Classify(pos) == Other <==> forall q :: !Spells(pos, q)
  {
    var r := Classify(pos);
    if r != Other {
      ClassifyIsSpelled(pos);
      if Spells(pos, p) {
        SpellingsDisjoint(pos, p, r);
      }
    } else {
      ClassifyOther(pos, p);
      forall q | Spells(pos, q)
        ensures false
      {
        ClassifyOther(pos, q);
      }
    }
  }

  /** A position the classifier returns is spelled by the text. */
  lemma ClassifyIsSpelled(pos: string)
    requires Classify(pos) != Other
    ensures Spells(pos, Classify(pos))
  {
    var r := Classify(pos);
    ContainsAt(Key(OcCommittee), 3, "committee");
    if pos != "cultural secretary" && pos != "creative director" && pos != "oc team lead" && pos != "oc team head"
       && !Contains(pos, "committee")
    {
      var f := FindKey(Hierarchy, pos);
      assert f.Some? && f.value == r && Key(r) == pos;
    }
  }

  /** When the classifier returns `other`, the text spells nothing. */
  lemma ClassifyOther(pos: string, p: Position)
    requires Classify(pos) == Other
    ensures !Spells(pos, p)
  {
    assert FindKey(Hierarchy, pos).None?;
    if p != Other && p != OcCommittee {
      assert p in Hierarchy;
      assert Key(p) != pos;
    }
  }

  /** Each hierarchy key normalises to its own position. */
  lemma NormalizeKey(p: Position)
    requires p in Hierarchy
    ensures NormalizePosition(Some(Key(p))) == p
  {
    KeyIsNormal(p);
    KeySpells(p);
    ClassifySpells(Key(p), p);
  }

  /** A key is already lowercased and trimmed. */
  lemma KeyIsNormal(p: Position)
    ensures Key(p) != [] && ToLower(Key(p)) == Key(p) && Trim(Key(p)) == Key(p)
  {
    var k := Key(p);
    assert forall i :: 0 <= i < |k| ==> 'a' <= k[i] <= 'z' || k[i] == '_';
    LowerKeyWord(k);
  }

  /** A hierarchy key spells its own position. */
  lemma KeySpells(p: Position)
    requires p in Hierarchy
    ensures Spells(Key(p), p)
  {
    if p == OcCommittee {
      ContainsAt(Key(p), 3, "committee");
    }
  }

  /** Normalisation ignores letter case. */
  lemma NormalizeIgnoresCase(s: string)
    ensures NormalizePosition(Some(ToLower(s))) == NormalizePosition(Some(s))
  {
    ToLowerIdempotent(s);
  }

  /** Normalisation ignores whitespace around the text. */
  lemma NormalizeIgnoresPadding(a: string, s: string, b: string)
    requires AllWhitespace(a) && AllWhitespace(b)
    ensures NormalizePosition(Some(a + s + b)) == NormalizePosition(Some(s))
  {
    LowerTrimPadded(a, s, b);
    if s == [] {
      ClassifyEmpty();
    }
  }

  /** Text that is all whitespace classifies as `other`. */
  lemma ClassifyEmpty()
    ensures Classify(Trim(ToLower([]))) == Other
  {
    assert ToLower([]) == [];
    assert Trim([]) == [];
    MissingCharNotContained([], "committee", 'c');
    assert FindKey(Hierarchy, []).None?;
  }

  // ---------------------------------------------------------------------------
  // groupMembersByHierarchy
  // ---------------------------------------------------------------------------

  /** The group a member belongs to: its normalised position. */
  function PositionOf(m: Member): Position
  {
    NormalizePosition(m.position)
  }

  /** The members that `key` sends to `p`, in input order (the pushes of
      the source's loop, collected). The lemmas below hold for any `key`;
      the source's grouping uses `PositionOf`. */
  function Group(members: seq<Member>, key: Member -> Position, p: Position): seq<Member>
    decreases |members|
  {
    if |members| == 0 then []
    else
      var last := members[|members| - 1];
      Group(members[..|members| - 1], key, p) + (if key(last) == p then [last] else [])
  }

  /** A group holds exactly the members of its position. */
  lemma {:induction false} GroupMembership(members: seq<Member>, key: Member -> Position, p: Position)
    ensures forall m :: m in Group(members, key, p) <==> m in members && key(m) == p
    decreases |members|
  {
    if |members| > 0 {
      var init := members[..|members| - 1];
      GroupMembership(init, key, p);
      assert members == init + [members[|members| - 1]];
    }
  }

  /** Appending a member appends it to its own group only. */
  lemma GroupSnoc(members: seq<Member>, m: Member, key: Member -> Position, p: Position)
    ensures Group(members + [m], key, p) == Group(members, key, p) + (if key(m) == p then [m] else [])
  {
    assert (members + [m])[..|members|] == members;
  }

  /** A group is the order-preserving filter of the members by position. */
  lemma {:induction false} GroupIsFilter(members: seq<Member>, key: Member -> Position, p: Position)
    ensures Group(members, key, p) == Filter(members, (m: Member) => key(m) == p)
    decreases |members|
  {
    if |members| > 0 {
      GroupIsFilter(members[..|members| - 1], key, p);
    }
  }

  /** `sortedKeys`: the hierarchy, then `other` when its group is non-empty. */
  function SortedKeys(otherCount: nat): (ks: seq<Position>)
    ensures |Hierarchy| <= |ks| && ks[..|Hierarchy|] == Hierarchy
    ensures |ks| == |Hierarchy| + (if otherCount > 0 then 1 else 0)
    ensures Other in ks <==> otherCount > 0
  {
    Hierarchy + (if otherCount > 0 then [Other] else [])
  }

  /** The initial `grouped` record: an empty group for every hierarchy key,
      then one for `other`. */
  method EmptyGroups() returns (grouped: map<Position, seq<Member>>)
    ensures forall p :: p in grouped && grouped[p] == []
  {
    grouped := map[];
    var k := 0;
    while k < |Hierarchy|
      invariant 0 <= k <= |Hierarchy|
      invariant forall p :: p in grouped <==> p in Hierarchy[..k]
      invariant forall p :: p in grouped ==> grouped[p] == []
    {
      grouped := grouped[Hierarchy[k] := []];
      k := k + 1;
    }
    grouped := grouped[Other := []];
    forall p
      ensures p in grouped
    {
      HierarchyCovers(p);
    }
  }

  /** `groupMembersByHierarchy`. Every position has a group, even an empty
      one (so the source's fallback for a missing group never fires); each
      group holds exactly the members of that position, in input order; and
      the keys are listed in hierarchy order with `other` last when used. */
  method GroupMembers(members: seq<Member>) returns (grouped: map<Position, seq<Member>>, sortedKeys: seq<Position>)
    ensures forall p :: p in grouped
    ensures forall p :: p in grouped ==> grouped[p] == Group(members, PositionOf, p)
    ensures |Hierarchy| <= |sortedKeys| && sortedKeys[..|Hierarchy|] == Hierarchy
    ensures |sortedKeys| == |Hierarchy| + (if exists m :: m in members && PositionOf(m) == Other then 1 else 0)
    ensures Other in sortedKeys <==> exists m :: m in members && PositionOf(m) == Other
  {
    grouped := EmptyGroups();
    var i := 0;
    while i < |members|
      invariant 0 <= i <= |members|
      invariant forall p :: p in grouped
      invariant forall p :: p in grouped ==> grouped[p] == Group(members[..i], PositionOf, p)
    {
      var m := members[i];
      var key := PositionOf(m);
      GroupStep(members, i, PositionOf, key);
      grouped := grouped[key := grouped[key] + [m]];
      i := i + 1;
    }
    assert members[..i] == members;
    var others := grouped[Other];
    OthersNonEmpty(members, PositionOf);
    sortedKeys := SortedKeys(|others|);
  }

  /** Taking one more member extends its own group by it and leaves the
      others as they were. */
  lemma GroupStep(members: seq<Member>, i: nat, key: Member -> Position, k: Position)
    requires i < |members| && k == key(members[i])
    ensures forall p :: Group(members[..i + 1], key, p) == Group(members[..i], key, p) + (if p == k then [members[i]] else [])
  {
    assert members[..i + 1] == members[..i] + [members[i]];
    forall p
      ensures Group(members[..i + 1], key, p) == Group(members[..i], key, p) + (if p == k then [members[i]] else [])
    {
      GroupSnoc(members[..i], members[i], key, p);
    }
  }

  /** The `other` group is non-empty exactly when some member's position
      is `other`. */
  lemma OthersNonEmpty(members: seq<Member>, key: Member -> Position)
    ensures |Group(members, key, Other)| > 0 <==> exists m :: m in members && key(m) == Other
  {
    GroupMembership(members, key, Other);
    var others := Group(members, key, Other);
    if |others| > 0 {
      assert others[0] in others;
    }
  }

  /** The total size of the groups for the positions `ps`. */
  function GroupSizes(members: seq<Member>, key: Member -> Position, ps: seq<Position>): nat
  {
    if |ps| == 0 then 0 else |Group(members, key, ps[0])| + GroupSizes(members, key, ps[1..])
  }

  /** All positions, each once. */
  const AllPositions: seq<Position> := Hierarchy + [Other]

  lemma AllPositionsFacts(p: Position)
    ensures p in AllPositions
    ensures forall i, j :: 0 <= i < j < |AllPositions| ==> AllPositions[i] != AllPositions[j]
  {
  }

  /** Adding a member grows the total of a list of distinct positions by one
      when the list holds its position, and not at all otherwise. */
  lemma {:induction false} GroupSizesSnoc(members: seq<Member>, m: Member, key: Member -> Position, ps: seq<Position>)
    requires forall i, j :: 0 <= i < j < |ps| ==> ps[i] != ps[j]
    ensures GroupSizes(members + [m], key, ps) == GroupSizes(members, key, ps) + (if key(m) in ps then 1 else 0)
    decreases |ps|
  {
    if |ps| > 0 {
      GroupSnoc(members, m, key, ps[0]);
      GroupSizesSnoc(members, m, key, ps[1..]);
      if key(m) == ps[0] {
        assert ps[0] !in ps[1..];
      }
      assert key(m) in ps <==> key(m) == ps[0] || key(m) in ps[1..];
    }
  }

  /** Every member lands in exactly one group: the group sizes add up to the
      number of members. */
  lemma {:induction false} GroupSizesSum(members: seq<Member>, key: Member -> Position)
    ensures GroupSizes(members, key, AllPositions) == |members|
    decreases |members|
  {
    if |members| == 0 {
      GroupSizesEmpty(key, AllPositions);
    } else {
      var init := members[..|members| - 1];
      var m := members[|members| - 1];
      assert members == init + [m];
      GroupSizesSum(init, key);
      AllPositionsFacts(key(m));
      GroupSizesSnoc(init, m, key, AllPositions);
    }
  }

  lemma {:induction false} GroupSizesEmpty(key: Member -> Position, ps: seq<Position>)
    ensures GroupSizes([], key, ps) == 0
    decreases |ps|
  {
    if |ps| > 0 {
      GroupSizesEmpty(key, ps[1..]);
    }
  }

  // ---------------------------------------------------------------------------
  // fetchTeamData and fetchTeamMemberDetails, after the query
  // ---------------------------------------------------------------------------

  /** The backend's answer to the team query: an error, or the rows (which
      may be `null`). */
  datatype RowsReply = RowsError | Rows(data: Option<seq<Member>>)

  /** The member's category, lowercased and trimmed, is `c`; a missing
      category matches nothing. */
  predicate CategoryIs(m: Member, c: string)
  {
    m.category.Some? && Trim(ToLower(m.category.value)) == c
  }

  function IsCouncil(): Member -> bool
  {
    (m: Member) => CategoryIs(m, "council")
  }

  function IsTeam(): Member -> bool
  {
    (m: Member) => CategoryIs(m, "team")
  }

  /** The rows of a reply; `null` data reads as no rows. */
  function RowsOf(reply: RowsReply): seq<Member>
  {
    if reply.RowsError? || reply.data.None? then [] else reply.data.value
  }

  /** `fetchTeamData` after the query: on error both lists are empty;
      otherwise the council and team lists are the rows with that category,
      in row order. */
  function TeamData(reply: RowsReply): (r: (seq<Member>, seq<Member>))
    ensures reply.RowsError? ==> r.0 == [] && r.1 == []
    ensures forall m :: m in r.0 <==> m in RowsOf(reply) && CategoryIs(m, "council")
    ensures forall m :: m in r.1 <==> m in RowsOf(reply) && CategoryIs(m, "team")
    ensures !reply.RowsError? ==> r.0 == Filter(RowsOf(reply), IsCouncil()) && r.1 == Filter(RowsOf(reply), IsTeam())
  {
    if reply.RowsError? then ([], [])
    else
      var members := RowsOf(reply);
      (Filter(members, IsCouncil()), Filter(members, IsTeam()))
  }

  /** No member is in both the council and the team list. */
  lemma TeamDataDisjoint(reply: RowsReply, m: Member)
    ensures !(m in TeamData(reply).0 && m in TeamData(reply).1)
  {
    assert "council"[0] != "team"[0];
  }

  /** A category written with other letter case or surrounding whitespace
      is sorted into the same list. */
  lemma CategoryIgnoresPadding(m: Member, a: string, b: string, c: string)
    requires AllWhitespace(a) && AllWhitespace(b) && m.category.Some?
    ensures CategoryIs(m.(category := Some(a + ToLower(m.category.value) + b)), c) <==> CategoryIs(m, c)
  {
    var s := m.category.value;
    ToLowerIdempotent(s);
    LowerTrimPadded(a, ToLower(s), b);
  }

  /** The backend's answer to the details query: an error, or a row whose
      `team_member` may be missing (a missing row reads the same). */
  datatype DetailsReply = DetailsError | Found(teamMember: Option<string>)

  /** `fetchTeamMemberDetails` after the query: `null` on error, otherwise
      the member list text, with a missing one read as the empty string. */
  function MemberDetails(reply: DetailsReply): (r: Option<string>)
    ensures r.None? <==> reply.DetailsError?
    ensures reply.Found? && reply.teamMember.Some? ==> r == reply.teamMember
    ensures reply.Found? && reply.teamMember.None? ==> r == Some([])
  {
    if reply.DetailsError? then None
    else if reply.teamMember.Some? then reply.teamMember
    else Some([])
  }
}
