/** The tags of one submission (weasyl/searchtag.py): `associate`, `_set_suggested_tags`,
    `suggestion_arbitrate`, `suggestion_action_undo` and `_update_submission_tags`.

    A tag is its id.  `restricted` is the matcher for the owner's and the global restricted tags.
    The encrypted undo token is the values that it binds together. */
module TagMap {
  import opened Options

  type UserId = nat
  type TagId = nat

  /** `settings` contains 'a' for a tag of the artist; otherwise the tag is a suggestion. */
  datatype Row = Row(settings: string, addedBy: Option<UserId>)

  datatype Feedback = Feedback(incorrect: bool, unwanted: bool, abusive: bool)

  datatype Change = Change(userid: UserId, added: set<TagId>, removed: set<TagId>)

  /** `index` is the row of `submission_tags`. */
  datatype Tables = Tables(
    rows: map<TagId, Row>,
    index: set<TagId>,
    history: seq<Change>,
    feedback: map<(TagId, UserId), Feedback>)

  /** Who asks, and what holds of them. */
  datatype Caller = Caller(userid: UserId, isMod: bool, canSuggest: bool, ignoredByOwner: bool)

  datatype Action = Reject | Approve

  datatype Token = Token(time: int, tag: TagId, addedBy: UserId)

  datatype Outcome =
    | NotAdded(tags: set<TagId>)
    | Failure
    | Success(undo: Option<Token>)
    | Undone
    | InsufficientPermissions
    | OwnerIgnoredYou
    | Unexpected
    | UndoExpired
    | InvalidTag

  const EMPTY := Tables(map[], {}, [], map[])

  predicate IsArtist(r: Row) { 'a' in r.settings }

  function Artist(rows: map<TagId, Row>): set<TagId> { set t <- rows | IsArtist(rows[t]) }

  predicate MayDecide(c: Caller, owner: UserId) { c.userid == owner || c.isMod }

  // ---------- Writing all tags ----------

  function Promoted(rows: map<TagId, Row>, user: UserId, t: TagId): Row {
    if t in rows then
      if IsArtist(rows[t]) then rows[t] else Row(rows[t].settings + "a", Some(user))
    else Row("a", Some(user))
  }

  function OwnerRemoves(rows: map<TagId, Row>, tags: set<TagId>): set<TagId> {
    set t <- rows | IsArtist(rows[t]) && t !in tags
  }

  function OwnerAdds(rows: map<TagId, Row>, tags: set<TagId>): set<TagId> {
    set t <- tags | t !in rows || !IsArtist(rows[t])
  }

  function OwnerRows(rows: map<TagId, Row>, user: UserId, tags: set<TagId>): map<TagId, Row> {
    map t <- rows.Keys - OwnerRemoves(rows, tags) + tags :: if t in tags then Promoted(rows, user, t) else rows[t]
  }

  function OwnerStep(s: Tables, user: UserId, tags: set<TagId>): Tables {
    var rows := OwnerRows(s.rows, user, tags);
    Tables(rows, rows.Keys, s.history + [Change(user, OwnerAdds(s.rows, tags), OwnerRemoves(s.rows, tags))], s.feedback)
  }

  function SuggesterRemoves(rows: map<TagId, Row>, user: UserId, tags: set<TagId>): set<TagId> {
    set t <- rows | !IsArtist(rows[t]) && rows[t].addedBy == Some(user) && t !in tags
  }

  function SuggesterAdds(rows: map<TagId, Row>, tags: set<TagId>): set<TagId> {
    set t <- tags | t !in rows
  }

  function SuggesterRows(rows: map<TagId, Row>, user: UserId, tags: set<TagId>): map<TagId, Row> {
    map t <- rows.Keys - SuggesterRemoves(rows, user, tags) + tags :: if t in rows then rows[t] else Row("", Some(user))
  }

  function SuggestStep(s: Tables, user: UserId, tags: set<TagId>): Tables {
    var rows := SuggesterRows(s.rows, user, tags);
    Tables(rows, rows.Keys,
      s.history + [Change(user, SuggesterAdds(s.rows, tags), SuggesterRemoves(s.rows, user, tags))], s.feedback)
  }

  function Allowed(tags: set<TagId>, restricted: TagId -> bool): set<TagId> {
    set t <- tags | !restricted(t)
  }

  /** `associate`. */
  function Associated(s: Tables, owner: UserId, c: Caller, tags: set<TagId>, restricted: TagId -> bool)
    : (Tables, Outcome)
  {
    if MayDecide(c, owner) then (OwnerStep(s, c.userid, tags), NotAdded({}))
    else if !c.canSuggest then (s, InsufficientPermissions)
    else if c.ignoredByOwner then (s, OwnerIgnoredYou)
    else (SuggestStep(s, c.userid, Allowed(tags, restricted)), NotAdded(tags - Allowed(tags, restricted)))
  }

  // ---------- Deciding on suggestions ----------

  function TokenFor(s: Tables, tag: TagId, now: int): Option<Token>
    requires tag in s.rows
  {
    if s.rows[tag].addedBy.None? then None else Some(Token(now, tag, s.rows[tag].addedBy.value))
  }

  /** `suggestion_arbitrate`. */
  function Arbitrate(s: Tables, owner: UserId, c: Caller, tag: TagId, action: Action, now: int): (Tables, Outcome) {
    if !MayDecide(c, owner) then (s, InsufficientPermissions)
    else if tag !in s.rows then (s, if action.Approve? then Failure else Success(None))
    else if IsArtist(s.rows[tag]) then (s, if action.Approve? then Success(None) else Failure)
    else
      var r := s.rows[tag];
      match action
      case Approve =>
        (s.(rows := s.rows[tag := Row(r.settings + "a", Some(c.userid))]), Success(TokenFor(s, tag, now)))
      case Reject =>
        (s.(rows := s.rows - {tag},
            feedback := if (tag, c.userid) in s.feedback then s.feedback
                        else s.feedback[(tag, c.userid) := Feedback(false, false, false)]),
         Success(TokenFor(s, tag, now)))
  }

  function WithoutA(settings: string): (r: string)
    ensures 'a' !in r
    ensures 'a' !in settings ==> r == settings
  {
    if settings == "" then ""
    else if settings[0] == 'a' then WithoutA(settings[1..])
    else [settings[0]] + WithoutA(settings[1..])
  }

  const UNDO_TOKEN_VALIDITY := 60
  const UNDO_TOKEN_MAX_CLOCK_SKEW := 2

  function Restored(s: Tables, tag: TagId, suggester: UserId): Row {
    Row(if tag in s.rows then WithoutA(s.rows[tag].settings) else "", Some(suggester))
  }

  /** `suggestion_action_undo`; the token is bound to its tag, so that with another one its decryption fails. */
  function Undo(s: Tables, owner: UserId, c: Caller, tag: TagId, token: Token, now: int): (Tables, Outcome) {
    if token.time < now - UNDO_TOKEN_VALIDITY then (s, UndoExpired)
    else if token.time > now + UNDO_TOKEN_MAX_CLOCK_SKEW then (s, Unexpected)
    else if token.tag != tag then (s, InvalidTag)
    else if !MayDecide(c, owner) then (s, Unexpected)
    else
      var rows := s.rows[tag := Restored(s, tag, token.addedBy)];
      (s.(rows := rows, feedback := s.feedback - {(tag, c.userid)}), Undone)
  }

  // ---------- What writing all tags does ----------

  /** Settings are empty or "a". */
  ghost predicate WellSet(rows: map<TagId, Row>) {
    forall t <- rows :: rows[t].settings in {"", "a"}
  }

  ghost predicate IndexTrue(s: Tables) { s.index == s.rows.Keys }

  lemma SuggestionsAreEmpty(rows: map<TagId, Row>)
    requires WellSet(rows)
    ensures forall t <- rows :: !IsArtist(rows[t]) ==> rows[t].settings == "" && rows[t].settings + "a" == "a"
    ensures forall t <- rows :: WithoutA(rows[t].settings) == ""
  {}

  /** The owner's tags become exactly what was entered, and the log is the exact difference; suggestions that were not
      entered stay. */
  lemma OwnerWritesExactly(s: Tables, user: UserId, tags: set<TagId>)
    ensures var t := OwnerStep(s, user, tags);
            && Artist(t.rows) == tags
            && t.history == s.history + [Change(user, Artist(t.rows) - Artist(s.rows), Artist(s.rows) - Artist(t.rows))]
            && (forall x <- s.rows :: IsArtist(s.rows[x]) && x in tags ==> x in t.rows && t.rows[x] == s.rows[x])
            && (forall x <- s.rows :: !IsArtist(s.rows[x]) && x !in tags ==> x in t.rows && t.rows[x] == s.rows[x])
            && (forall x <- Artist(t.rows) - Artist(s.rows) :: t.rows[x].addedBy == Some(user))
            && t.rows.Keys <= s.rows.Keys + tags
            && IndexTrue(t) && t.feedback == s.feedback
  {
    var t := OwnerStep(s, user, tags);
    assert forall x <- tags :: IsArtist(Promoted(s.rows, user, x));
    assert Artist(t.rows) == tags;
    assert OwnerAdds(s.rows, tags) == Artist(t.rows) - Artist(s.rows);
    assert OwnerRemoves(s.rows, tags) == Artist(s.rows) - Artist(t.rows);
  }

  /** The suggestions of one user. */
  function SuggestionsOf(rows: map<TagId, Row>, user: UserId): set<TagId> {
    set t <- rows | !IsArtist(rows[t]) && rows[t].addedBy == Some(user)
  }

  /** A suggester changes nothing but their own suggestions and tags that nobody had entered, and the log is the exact
      difference. */
  lemma SuggesterIsConfined(s: Tables, user: UserId, tags: set<TagId>)
    ensures var t := SuggestStep(s, user, tags);
            && (forall x <- s.rows :: x !in SuggestionsOf(s.rows, user) ==> x in t.rows && t.rows[x] == s.rows[x])
            && SuggestionsOf(t.rows, user) == SuggestionsOf(s.rows, user) * tags + (tags - s.rows.Keys)
            && tags <= t.rows.Keys && Artist(t.rows) == Artist(s.rows)
            && t.history == s.history + [Change(user, t.rows.Keys - s.rows.Keys, s.rows.Keys - t.rows.Keys)]
            && IndexTrue(t) && t.feedback == s.feedback
  {
    var t := SuggestStep(s, user, tags);
    assert SuggesterAdds(s.rows, tags) == t.rows.Keys - s.rows.Keys;
    assert SuggesterRemoves(s.rows, user, tags) == s.rows.Keys - t.rows.Keys;
  }

  /** Owner and moderators write all tags.  Of what another user enters exactly the restricted tags are returned and
      none of them is a suggestion of that user afterwards; all others are there. */
  lemma AssociateExactly(s: Tables, owner: UserId, c: Caller, tags: set<TagId>, restricted: TagId -> bool)
    ensures var (t, outcome) := Associated(s, owner, c, tags, restricted);
            if c.userid == owner || c.isMod then outcome == NotAdded({}) && Artist(t.rows) == tags
            else if !c.canSuggest then outcome == InsufficientPermissions && t == s
            else if c.ignoredByOwner then outcome == OwnerIgnoredYou && t == s
            else
              && outcome.NotAdded? && outcome.tags <= tags && Artist(t.rows) == Artist(s.rows)
              && (forall x <- tags :: x in outcome.tags <==> restricted(x))
              && (forall x <- tags - outcome.tags :: x in t.rows)
              && (forall x <- tags | restricted(x) :: x in t.rows ==> x in s.rows)
              && (forall x <- SuggestionsOf(t.rows, c.userid) :: x in tags && !restricted(x))
  {
    if MayDecide(c, owner) {
      OwnerWritesExactly(s, c.userid, tags);
      hide OwnerStep;
    } else {
      SuggesterIsConfined(s, c.userid, Allowed(tags, restricted));
      hide SuggestStep;
    }
  }

  // ---------- What deciding does ----------

  function Suggested(rows: map<TagId, Row>): set<TagId> { rows.Keys - Artist(rows) }

  /** Approving makes a suggestion one of the artist's tags, rejecting takes it away; the token remembers when, which
      tag, and whose it was. */
  lemma DecideExactly(s: Tables, owner: UserId, c: Caller, tag: TagId, action: Action, now: int)
    requires MayDecide(c, owner) && tag in Suggested(s.rows)
    ensures var (t, outcome) := Arbitrate(s, owner, c, tag, action, now);
            && t.index == s.index && t.history == s.history
            && Artist(t.rows) == Artist(s.rows) + (if action == Approve then {tag} else {})
            && Suggested(t.rows) == Suggested(s.rows) - {tag}
            && (forall x <- s.rows | x != tag :: t.rows[x] == s.rows[x])
            && (action == Approve ==> t.rows[tag].addedBy == Some(c.userid))
            && (action == Reject ==> t.feedback.Keys == s.feedback.Keys + {(tag, c.userid)})
            && outcome == Success(match s.rows[tag].addedBy
                                  case None => None
                                  case Some(suggester) => Some(Token(now, tag, suggester)))
  {
    var t := Arbitrate(s, owner, c, tag, action, now).0;
    if action.Approve? {
      assert IsArtist(t.rows[tag]);
      assert t.rows.Keys == s.rows.Keys;
    } else {
      assert t.rows.Keys == s.rows.Keys - {tag};
    }
    assert forall x <- s.rows | x != tag :: IsArtist(t.rows[x]) == IsArtist(s.rows[x]);
  }

  /** Nobody else decides, and what is no suggestion stays as it is: the answer is a failure exactly if it is the
      opposite of what was asked for. */
  lemma NothingToDecide(s: Tables, owner: UserId, c: Caller, tag: TagId, action: Action, now: int)
    requires (c.userid != owner && !c.isMod) || tag !in Suggested(s.rows)
    ensures var (t, outcome) := Arbitrate(s, owner, c, tag, action, now);
            && t == s
            && (outcome == InsufficientPermissions <==> c.userid != owner && !c.isMod)
            && (outcome == Failure <==>
                  (c.userid == owner || c.isMod) && if action == Approve then tag !in s.rows else tag in Artist(s.rows))
            && (outcome.Success? ==> outcome.undo == None)
  {}

  // ---------- Undoing ----------

  /** Whatever happened since, an undo makes the tag the suggestion that it was when it was decided on, and leaves the
      other tags alone. */
  lemma UndoRestoresRow(s: Tables, owner: UserId, c: Caller, tag: TagId, action: Action, now: int, token: Token,
                        later: Tables, d: Caller, after: int)
    requires WellSet(s.rows) && WellSet(later.rows)
    requires Arbitrate(s, owner, c, tag, action, now).1 == Success(Some(token))
    ensures tag in s.rows
    ensures var (t, outcome) := Undo(later, owner, d, tag, token, after);
            && (outcome.Undone? <==> MayDecide(d, owner) && after - 60 <= now <= after + 2)
            && t.rows == if outcome.Undone? then later.rows[tag := s.rows[tag]] else later.rows
  {
    SuggestionsAreEmpty(s.rows);
    SuggestionsAreEmpty(later.rows);
  }

  /** Undone at once, a decision leaves the tags and the index as they were.  The feedback is as it was
      exactly when there was none of that user about that tag. */
  lemma UndoAtOnce(s: Tables, owner: UserId, c: Caller, tag: TagId, action: Action, now: int, token: Token, after: int)
    requires WellSet(s.rows) && now <= after <= now + 60
    requires Arbitrate(s, owner, c, tag, action, now).1 == Success(Some(token))
    ensures var t := Undo(Arbitrate(s, owner, c, tag, action, now).0, owner, c, tag, token, after).0;
            && t.rows == s.rows && t.index == s.index && t.history == s.history
            && (t.feedback == s.feedback <==> (tag, c.userid) !in s.feedback)
  {
    var decided := Arbitrate(s, owner, c, tag, action, now).0;
    assert !IsArtist(s.rows[tag]);
    assert s.rows[tag].settings == "";
    SuggestionsAreEmpty(s.rows);
    assert WellSet(decided.rows);
    UndoRestoresRow(s, owner, c, tag, action, now, token, decided, c, after);
    var t := Undo(decided, owner, c, tag, token, after).0;
    assert t.rows == s.rows;
    assert t.feedback == s.feedback - {(tag, c.userid)};
    if (tag, c.userid) in s.feedback {
      assert (tag, c.userid) !in t.feedback;
    }
  }

  /** Who may decide, the answers, and deciding again: it is refused when it was decided the other way, and else
      changes nothing. */
  lemma DecidingTwice(s: Tables, owner: UserId, c: Caller, tag: TagId, first: Action, second: Action, now: int)
    requires WellSet(s.rows) && Arbitrate(s, owner, c, tag, first, now).1.Success?
    ensures var (t, _) := Arbitrate(s, owner, c, tag, first, now);
            Arbitrate(t, owner, c, tag, second, now) == (t, if first == second then Success(None) else Failure)
  {}

  // ---------- Runs ----------

  datatype Operation =
    | DoAssociate(caller: Caller, tags: set<TagId>, restricted: TagId -> bool)
    | DoArbitrate(caller: Caller, tag: TagId, action: Action, now: int)
    | DoUndo(caller: Caller, tag: TagId, token: Token, now: int)

  function Step(s: Tables, owner: UserId, op: Operation): Tables {
    match op
    case DoAssociate(c, tags, restricted) => Associated(s, owner, c, tags, restricted).0
    case DoArbitrate(c, tag, action, now) => Arbitrate(s, owner, c, tag, action, now).0
    case DoUndo(c, tag, token, now) => Undo(s, owner, c, tag, token, now).0
  }

  function Run(s: Tables, owner: UserId, ops: seq<Operation>): Tables
    decreases |ops|
  {
    if ops == [] then s else Run(Step(s, owner, ops[0]), owner, ops[1..])
  }

  lemma StepWellSet(s: Tables, owner: UserId, op: Operation)
    requires WellSet(s.rows)
    ensures WellSet(Step(s, owner, op).rows)
  {
    SuggestionsAreEmpty(s.rows);
  }

  /** In every run settings are empty or "a", so that a tag is either the artist's or a suggestion. */
  lemma {:induction false} RunWellSet(s: Tables, owner: UserId, ops: seq<Operation>)
    requires WellSet(s.rows)
    ensures WellSet(Run(s, owner, ops).rows)
    decreases |ops|
  {
    if ops != [] {
      StepWellSet(s, owner, ops[0]);
      RunWellSet(Step(s, owner, ops[0]), owner, ops[1..]);
    }
  }

  predicate MayWrite(c: Caller, owner: UserId) {
    MayDecide(c, owner) || (c.canSuggest && !c.ignoredByOwner)
  }

  predicate Rejects(s: Tables, owner: UserId, c: Caller, tag: TagId, action: Action) {
    action.Reject? && MayDecide(c, owner) && tag in s.rows && !IsArtist(s.rows[tag])
  }

  predicate Undoes(owner: UserId, c: Caller, tag: TagId, token: Token, now: int) {
    && MayDecide(c, owner) && token.tag == tag
    && now - UNDO_TOKEN_VALIDITY <= token.time <= now + UNDO_TOKEN_MAX_CLOCK_SKEW
  }

  /** When the index is true after a step: a full write makes it so; rejecting needs the tag to be missing from it,
      and undoing needs the tag in it. */
  lemma IndexAfter(s: Tables, owner: UserId, op: Operation)
    ensures IndexTrue(Step(s, owner, op)) <==>
              match op
              case DoAssociate(c, _, _) => MayWrite(c, owner) || IndexTrue(s)
              case DoArbitrate(c, tag, action, _) =>
                if Rejects(s, owner, c, tag, action) then s.index == s.rows.Keys - {tag} else IndexTrue(s)
              case DoUndo(c, tag, token, now) =>
                if Undoes(owner, c, tag, token, now) then s.index == s.rows.Keys + {tag} else IndexTrue(s)
  {
    match op
    case DoAssociate(c, tags, restricted) =>
      OwnerWritesExactly(s, c.userid, tags);
      SuggesterIsConfined(s, c.userid, Allowed(tags, restricted));
    case DoArbitrate(c, tag, action, now) =>
      assert (s.rows - {tag}).Keys == s.rows.Keys - {tag};
    case DoUndo(c, tag, token, now) =>
  }

  /** The tags that were rejected or brought back since all tags were last written. */
  function Unsettled(s: Tables, owner: UserId, op: Operation, before: set<TagId>): set<TagId> {
    match op
    case DoAssociate(c, _, _) => if MayWrite(c, owner) then {} else before
    case DoArbitrate(c, tag, action, _) => if Rejects(s, owner, c, tag, action) then before + {tag} else before
    case DoUndo(c, tag, token, now) => if Undoes(owner, c, tag, token, now) then before + {tag} else before
  }

  function UnsettledBy(s: Tables, owner: UserId, ops: seq<Operation>, before: set<TagId>): set<TagId>
    decreases |ops|
  {
    if ops == [] then before
    else UnsettledBy(Step(s, owner, ops[0]), owner, ops[1..], Unsettled(s, owner, ops[0], before))
  }

  lemma StepIndex(s: Tables, owner: UserId, op: Operation, before: set<TagId>)
    requires forall t :: t !in before ==> (t in s.index <==> t in s.rows)
    ensures var r := Step(s, owner, op);
            forall t :: t !in Unsettled(s, owner, op, before) ==> (t in r.index <==> t in r.rows)
  {
    if op.DoAssociate? && MayWrite(op.caller, owner) {
      IndexAfter(s, owner, op);
      hide Step, IsArtist;
      assert IndexTrue(Step(s, owner, op));
    } else {
      hide OwnerStep, SuggestStep;
    }
  }

  /** In every run the index differs from the tags at most in those that were rejected or brought back since all tags
      were last written. */
  lemma {:induction false} RunIndex(s: Tables, owner: UserId, ops: seq<Operation>, before: set<TagId>)
    requires forall t :: t !in before ==> (t in s.index <==> t in s.rows)
    ensures var r := Run(s, owner, ops);
            forall t :: t !in UnsettledBy(s, owner, ops, before) ==> (t in r.index <==> t in r.rows)
    decreases |ops|
  {
    if ops != [] {
      hide Step, Unsettled;
      StepIndex(s, owner, ops[0], before);
      RunIndex(Step(s, owner, ops[0]), owner, ops[1..], Unsettled(s, owner, ops[0], before));
    }
  }

  /** A tag that is rejected, written over and brought back is missing from the index. */
  lemma IndexCanMissTag()
    ensures var (owner, suggester) := (Caller(1, false, true, false), Caller(2, false, true, false));
            var s := Run(EMPTY, 1, [DoAssociate(suggester, {7}, t => false), DoArbitrate(owner, 7, Reject, 0),
                                    DoAssociate(owner, {8}, t => false), DoUndo(owner, 7, Token(0, 7, 2), 0)]);
            7 in s.rows && 7 !in s.index
  {
    var owner, suggester := Caller(1, false, true, false), Caller(2, false, true, false);
    var ops := [DoAssociate(suggester, {7}, t => false), DoArbitrate(owner, 7, Reject, 0),
                DoAssociate(owner, {8}, t => false), DoUndo(owner, 7, Token(0, 7, 2), 0)];
    var s1 := Step(EMPTY, 1, ops[0]);
    assert 7 in Allowed({7}, t => false);
    assert s1.rows == map[7 := Row("", Some(2))];
    var s2 := Step(s1, 1, ops[1]);
    assert s2.rows == map[];
    var s3 := Step(s2, 1, ops[2]);
    assert s3.index == {8};
    var s4 := Step(s3, 1, ops[3]);
    assert 7 in s4.rows && 7 !in s4.index;
    hide Step;
    RunFour(EMPTY, 1, ops);
  }

  lemma RunFour(s: Tables, owner: UserId, ops: seq<Operation>)
    requires |ops| == 4
    ensures Run(s, owner, ops) == Step(Step(Step(Step(s, owner, ops[0]), owner, ops[1]), owner, ops[2]), owner, ops[3])
  {
    hide Step;
    var t := Step(Step(s, owner, ops[0]), owner, ops[1]);
    assert Run(Step(s, owner, ops[0]), owner, ops[1..]) == Run(t, owner, ops[1..][1..]);
    var u := Step(t, owner, ops[2]);
    assert ops[1..][1..] == [ops[2]] + [ops[3]];
    assert ([ops[2]] + [ops[3]])[1..] == [ops[3]];
    assert Run(t, owner, [ops[2]] + [ops[3]]) == Run(u, owner, [ops[3]]);
    assert [ops[3]][1..] == [];
    assert Run(u, owner, [ops[3]]) == Run(Step(u, owner, ops[3]), owner, []);
  }

  // ---------- The program ----------

  lemma OwnerRowsAre(
    rows: map<TagId, Row>, user: UserId, tags: set<TagId>,
    removed: set<TagId>, inserted: set<TagId>, updated: set<TagId>)
    requires removed == OwnerRemoves(rows, tags) && inserted == tags - rows.Keys
    requires updated == set t <- tags | t in rows && !IsArtist(rows[t])
    ensures OwnerRows(rows, user, tags) ==
            (rows - removed) + (map t <- inserted :: Row("a", Some(user)))
            + (map t <- updated :: Row(rows[t].settings + "a", Some(user)))
  {}

  lemma OwnerStepIs(s: Tables, user: UserId, tags: set<TagId>, t: Tables)
    requires t.rows == OwnerRows(s.rows, user, tags) && t.index == t.rows.Keys && t.feedback == s.feedback
    requires t.history == s.history + [Change(user, OwnerAdds(s.rows, tags), OwnerRemoves(s.rows, tags))]
    ensures t == OwnerStep(s, user, tags)
  {}

  lemma SuggestStepIs(s: Tables, user: UserId, tags: set<TagId>, t: Tables)
    requires t.rows == SuggesterRows(s.rows, user, tags) && t.index == t.rows.Keys && t.feedback == s.feedback
    requires t.history == s.history + [Change(user, SuggesterAdds(s.rows, tags), SuggesterRemoves(s.rows, user, tags))]
    ensures t == SuggestStep(s, user, tags)
  {}

  class Submission {
    const owner: UserId
    var rows: map<TagId, Row>
    var index: set<TagId>
    var history: seq<Change>
    var feedback: map<(TagId, UserId), Feedback>

    constructor (owner: UserId)
      ensures Value() == EMPTY && this.owner == owner
    {
      this.owner := owner;
      rows, index, history, feedback := map[], {}, [], map[];
    }

    ghost function Value(): Tables
      reads this
    {
      Tables(rows, index, history, feedback)
    }

    /** `_update_submission_tags`. */
    method UpdateSubmissionTags()
      modifies this`index
      ensures index == rows.Keys
    {
      index := rows.Keys;
    }

    /** The transaction of `_set_suggested_tags`.  Both parts of its statement see the table as it was. */
    method SetSuggestedTags(user: UserId, tags: set<TagId>)
      modifies this
      ensures Value() == SuggestStep(old(Value()), user, tags)
    {
      var removed := set t <- rows | 'a' !in rows[t].settings && rows[t].addedBy == Some(user) && t !in tags;
      var added := set t <- tags | t !in rows;
      assert removed == SuggesterRemoves(rows, user, tags) && added == SuggesterAdds(rows, tags);
      rows := (rows - removed) + map t <- added :: Row("", Some(user));
      assert rows == SuggesterRows(old(rows), user, tags);
      hide *;
      history := history + [Change(user, added, removed)];
      UpdateSubmissionTags();
      SuggestStepIs(old(Value()), user, tags, Value());
    }

    /** The transaction of `associate`. */
    method SetTags(user: UserId, tags: set<TagId>)
      modifies this
      ensures Value() == OwnerStep(old(Value()), user, tags)
    {
      var removed := set t <- rows | 'a' in rows[t].settings && t !in tags;
      var inserted := set t <- tags | t !in rows;
      var updated := set t <- tags | t in rows && 'a' !in rows[t].settings;
      assert removed == OwnerRemoves(rows, tags) && inserted + updated == OwnerAdds(rows, tags);
      rows := (rows - removed)
              + (map t <- inserted :: Row("a", Some(user)))
              + (map t <- updated :: Row(rows[t].settings + "a", Some(user)));
      OwnerRowsAre(old(rows), user, tags, removed, inserted, updated);
      hide *;
      history := history + [Change(user, inserted + updated, removed)];
      UpdateSubmissionTags();
      OwnerStepIs(old(Value()), user, tags, Value());
    }

    method Associate(c: Caller, tags: set<TagId>, restricted: TagId -> bool) returns (r: Outcome)
      modifies this
      ensures (Value(), r) == Associated(old(Value()), owner, c, tags, restricted)
    {
      if c.userid != owner && !c.isMod {
        if !c.canSuggest { return InsufficientPermissions; }
        if c.ignoredByOwner { return OwnerIgnoredYou; }
        var notAdded := set t <- tags | restricted(t);
        assert tags - notAdded == Allowed(tags, restricted);
        assert notAdded == tags - Allowed(tags, restricted);
        SetSuggestedTags(c.userid, tags - notAdded);
        return NotAdded(notAdded);
      }
      SetTags(c.userid, tags);
      r := NotAdded({});
    }

    /** `suggestion_arbitrate`. */
    method SuggestionArbitrate(c: Caller, tag: TagId, action: Action, now: int) returns (r: Outcome)
      modifies this
      ensures (Value(), r) == Arbitrate(old(Value()), owner, c, tag, action, now)
    {
      if c.userid != owner && !c.isMod { return InsufficientPermissions; }
      if tag !in rows {
        return if action.Approve? then Failure else Success(None);
      }
      var check := rows[tag];
      if 'a' in check.settings {
        return if action.Approve? then Success(None) else Failure;
      }
      var undo := if check.addedBy.None? then None else Some(Token(now, tag, check.addedBy.value));
      match action {
        case Approve =>
          rows := rows[tag := Row(check.settings + "a", Some(c.userid))];
        case Reject =>
          rows := rows - {tag};
          if (tag, c.userid) !in feedback {
            feedback := feedback[(tag, c.userid) := Feedback(false, false, false)];
          }
      }
      r := Success(undo);
    }

    /** `suggestion_action_undo`. */
    method SuggestionActionUndo(c: Caller, tag: TagId, token: Token, now: int) returns (r: Outcome)
      modifies this
      ensures (Value(), r) == Undo(old(Value()), owner, c, tag, token, now)
    {
      if token.time < now - UNDO_TOKEN_VALIDITY { return UndoExpired; }
      if token.time > now + UNDO_TOKEN_MAX_CLOCK_SKEW { return Unexpected; }
      if token.tag != tag { return InvalidTag; }
      if c.userid != owner && !c.isMod { return Unexpected; }
      if tag in rows {
        rows := rows[tag := Row(WithoutA(rows[tag].settings), Some(token.addedBy))];
      } else {
        rows := rows[tag := Row("", Some(token.addedBy))];
      }
      feedback := feedback - {(tag, c.userid)};
      r := Undone;
    }
  }
}
