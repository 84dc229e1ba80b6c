/** Who owns which username (weasyl/login.py, weasyl/useralias.py).

    Four tables hold names: accounts, aliases, pending signups, and the redirects that
    renamed accounts leave behind.  Each operation is one serializable step on them. */
module Namespace {

  type UserId = nat

  /** Times are in microseconds, as PostgreSQL keeps them. */
  const SECOND := 1_000_000
  const DAY := 3600 * 24 * SECOND

  datatype Alias = Alias(userid: UserId, name: string, premium: bool)

  datatype Pending = Pending(display: string, name: string, invalid: bool, createdAt: int)

  datatype Past = Past(userid: UserId, display: string, name: string, replacedAt: int, active: bool, cosmetic: bool)

  /** `login` maps users to sysnames and `display` to `profile.username`; `history` is in order of its ids. */
  datatype Tables = Tables(
    login: map<UserId, string>,
    display: map<UserId, string>,
    aliases: set<Alias>,
    pending: map<string, Pending>,
    history: seq<Past>)

  datatype Error =
    | UsernameExists | LogincreateRecordMissing | UsernameChangedTooRecently | InsufficientPermissions
    | NoSuchUser | ConstraintViolation

  datatype Outcome = Done | Throw(error: Error)

  // ---------- Names ----------

  /** A row that a name is taken by. */
  datatype Claim = OfUser(u: UserId) | OfAlias(row: Alias) | OfSignup(token: string) | OfRedirect(id: nat)

  predicate Holds(t: Tables, c: Claim, name: string) {
    match c
    case OfUser(u) => u in t.login && t.login[u] == name
    case OfAlias(row) => row in t.aliases && row.name == name
    case OfSignup(token) => token in t.pending && t.pending[token].name == name
    case OfRedirect(id) => id < |t.history| && t.history[id].active && t.history[id].name == name
  }

  /** `username_exists`. */
  predicate Taken(t: Tables, name: string) {
    || (exists u :: u in t.login && t.login[u] == name)
    || (exists row :: row in t.aliases && row.name == name)
    || (exists token :: token in t.pending && t.pending[token].name == name)
    || (exists id :: 0 <= id < |t.history| && t.history[id].active && t.history[id].name == name)
  }

  lemma TakenIsHeld(t: Tables, name: string)
    ensures Taken(t, name) <==> exists c :: Holds(t, c, name)
  {
    if c :| Holds(t, c, name) {
      match c {
        case OfUser(u) => assert u in t.login && t.login[u] == name;
        case OfAlias(row) => assert row in t.aliases && row.name == name;
        case OfSignup(token) => assert token in t.pending && t.pending[token].name == name;
        case OfRedirect(id) => assert t.history[id].active && t.history[id].name == name;
      }
    }
    if Taken(t, name) {
      if u :| u in t.login && t.login[u] == name {
        assert Holds(t, OfUser(u), name);
      } else if row :| row in t.aliases && row.name == name {
        assert Holds(t, OfAlias(row), name);
      } else if token :| token in t.pending && t.pending[token].name == name {
        assert Holds(t, OfSignup(token), name);
      } else {
        var id :| 0 <= id < |t.history| && t.history[id].active && t.history[id].name == name;
        assert Holds(t, OfRedirect(id), name);
      }
    }
  }

  /** `_get_userids`: the users that a name finds. */
  ghost predicate Finds(t: Tables, name: string, u: UserId) {
    || Holds(t, OfUser(u), name)
    || (exists row :: Holds(t, OfAlias(row), name) && row.userid == u)
    || (exists id: nat :: Holds(t, OfRedirect(id), name) && t.history[id].userid == u)
  }

  // ---------- Operations ----------

  datatype Operation =
    | Create(token: string, display: string, name: string, emailUsed: bool)
    | Verify(token: string, newUser: UserId)
    | Expire
    | Rename(target: UserId, bypassLimit: bool, display: string, name: string)
    | Release(target: UserId)
    | SetAlias(user: UserId, name: string, premium: bool)

  function DeleteExpired(t: Tables, now: int): Tables {
    t.(pending := map token | token in t.pending && t.pending[token].createdAt >= now - 2 * DAY :: t.pending[token])
  }

  function Released(history: seq<Past>, target: UserId): seq<Past> {
    seq(|history|, i requires 0 <= i < |history| =>
      if history[i].userid == target then history[i].(active := false) else history[i])
  }

  function WithoutPremium(aliases: set<Alias>, user: UserId): set<Alias> {
    set row | row in aliases && !(row.userid == user && row.premium)
  }

  /** The row of a user's last non-cosmetic change, or -1. */
  function LatestChange(history: seq<Past>, target: UserId): (r: int)
    ensures -1 <= r < |history|
    ensures r >= 0 ==> history[r].userid == target && !history[r].cosmetic
    ensures forall i :: r < i < |history| ==> history[i].userid != target || history[i].cosmetic
  {
    if history == [] then -1
    else
      var last := |history| - 1;
      if history[last].userid == target && !history[last].cosmetic then last
      else LatestChange(history[..last], target)
  }

  /** `extract(epoch from ...)::int8`: whole seconds, rounded. */
  function Seconds(time: int): int {
    (time + SECOND / 2) / SECOND
  }

  predicate TooRecent(t: Tables, target: UserId, now: int) {
    var i := LatestChange(t.history, target);
    i >= 0 && Seconds(now - t.history[i].replacedAt) / (3600 * 24) < 30
  }

  function Step(t: Tables, now: int, op: Operation): (Outcome, Tables) {
    match op
    case Create(token, display, name, emailUsed) =>
      var t := DeleteExpired(t, now);
      if Taken(t, name) then (Throw(UsernameExists), t)
      else if token in t.pending then (Throw(ConstraintViolation), t)
      else (Done, t.(pending := t.pending[token := Pending(display, name, emailUsed, now)]))
    case Verify(token, newUser) =>
      var t := DeleteExpired(t, now);
      if token !in t.pending || t.pending[token].invalid then (Throw(LogincreateRecordMissing), t)
      else if newUser in t.login then (Throw(ConstraintViolation), t)
      else
        (Done, t.(login := t.login[newUser := t.pending[token].name],
                  display := t.display[newUser := t.pending[token].display],
                  pending := t.pending - {token}))
    case Expire => (Done, DeleteExpired(t, now))
    case Rename(target, bypassLimit, display, name) => RenameStep(t, now, target, bypassLimit, display, name)
    case Release(target) => (Done, t.(history := Released(t.history, target)))
    case SetAlias(user, name, premium) =>
      if name != "" && Taken(t, name) then (Throw(UsernameExists), t)
      else if !premium then (Throw(InsufficientPermissions), t)
      else if user !in t.login then (Throw(ConstraintViolation), t)
      else
        (Done, t.(aliases := WithoutPremium(t.aliases, user) + if name != "" then {Alias(user, name, true)} else {}))
  }

  /** `change_username`: an error leaves everything as it was. */
  function RenameStep(t: Tables, now: int, target: UserId, bypassLimit: bool, display: string, name: string)
    : (Outcome, Tables)
  {
    if target !in t.login || target !in t.display then (Throw(NoSuchUser), t)
    else if display == t.display[target] then (Done, t)
    else
      var oldName, oldDisplay := t.login[target], t.display[target];
      if name == oldName then
        (Done, t.(history := t.history + [Past(target, oldDisplay, oldName, now, false, true)],
                  display := t.display[target := display]))
      else if !bypassLimit && TooRecent(t, target, now) then (Throw(UsernameChangedTooRecently), t)
      else
        var released := t.(history := Released(t.history, target));
        if Taken(released, name) then (Throw(UsernameExists), t)
        else
          (Done, released.(history := released.history + [Past(target, oldDisplay, oldName, now, true, false)],
                           login := t.login[target := name],
                           display := t.display[target := display]))
  }

  // ---------- The invariant ----------

  /** No name is taken twice. */
  ghost predicate OneOwner(t: Tables) {
    forall name, c, d :: Holds(t, c, name) && Holds(t, d, name) ==> c == d
  }

  ghost predicate OneRedirect(t: Tables) {
    forall i, j ::
      0 <= i < j < |t.history| && t.history[i].active && t.history[j].active ==>
        t.history[i].userid != t.history[j].userid
  }

  ghost predicate Chronological(t: Tables, now: int) {
    && (forall i :: 0 <= i < |t.history| ==> t.history[i].replacedAt <= now)
    && (forall i, j :: 0 <= i < j < |t.history| ==> t.history[i].replacedAt <= t.history[j].replacedAt)
  }

  ghost predicate Inv(t: Tables, now: int) {
    && OneOwner(t) && OneRedirect(t) && Chronological(t, now)
    && (forall i :: 0 <= i < |t.history| && t.history[i].cosmetic ==> !t.history[i].active)
  }

  /** Rows that stay and rows that go take no name anew. */
  lemma FewerClaims(t: Tables, u: Tables)
    requires OneOwner(t) && forall name, c :: Holds(u, c, name) ==> Holds(t, c, name)
    ensures OneOwner(u)
  {}

  lemma DeleteExpiredInv(t: Tables, now: int)
    requires OneOwner(t)
    ensures OneOwner(DeleteExpired(t, now))
  {
    FewerClaims(t, DeleteExpired(t, now));
  }

  lemma ReleaseInv(t: Tables, target: UserId)
    requires OneOwner(t)
    ensures OneOwner(t.(history := Released(t.history, target)))
  {
    FewerClaims(t, t.(history := Released(t.history, target)));
  }

  /** One more row takes a name that was free. */
  lemma OneMoreClaim(t: Tables, u: Tables, new_: Claim, taken: string)
    requires OneOwner(t) && !Taken(t, taken)
    requires forall name, c :: Holds(u, c, name) ==> Holds(t, c, name) || (c == new_ && name == taken)
    ensures OneOwner(u)
  {}

  lemma RenameInv(t: Tables, now: int, target: UserId, display: string, name: string)
    requires Inv(t, now) && target in t.login && name != t.login[target]
    requires !Taken(t.(history := Released(t.history, target)), name)
    ensures var released := Released(t.history, target);
            Inv(t.(history := released + [Past(target, display, t.login[target], now, true, false)],
                   login := t.login[target := name]), now)
  {
    var r := t.(history := Released(t.history, target));
    var oldName, id := t.login[target], |r.history|;
    var u := r.(history := r.history + [Past(target, display, oldName, now, true, false)],
      login := r.login[target := name]);
    ReleaseInv(t, target);
    TakenIsHeld(r, name);
    assert Holds(r, OfUser(target), oldName);
    forall n, c | Holds(u, c, n)
      ensures || (c == OfUser(target) && n == name) || (c == OfRedirect(id) && n == oldName)
              || (Holds(r, c, n) && c != OfUser(target) && n != name && n != oldName)
    {
      if c != OfUser(target) && c != OfRedirect(id) {
        assert Holds(r, c, n);
      }
    }
  }

  lemma CosmeticInv(t: Tables, now: int, row: Past)
    requires Inv(t, now) && !row.active && row.replacedAt == now
    ensures Inv(t.(history := t.history + [row]), now)
  {
    FewerClaims(t, t.(history := t.history + [row]));
  }

  lemma SignupInv(t: Tables, now: int, token: string, row: Pending)
    requires OneOwner(t) && !Taken(t, row.name) && token !in t.pending
    ensures OneOwner(t.(pending := t.pending[token := row]))
  {
    OneMoreClaim(t, t.(pending := t.pending[token := row]), OfSignup(token), row.name);
  }

  lemma AliasInv(t: Tables, user: UserId, name: string)
    requires OneOwner(t) && (name != "" ==> !Taken(t, name))
    ensures var added := if name != "" then {Alias(user, name, true)} else {};
            OneOwner(t.(aliases := WithoutPremium(t.aliases, user) + added))
  {
    var u := t.(aliases := WithoutPremium(t.aliases, user) + if name != "" then {Alias(user, name, true)} else {});
    if name == "" {
      FewerClaims(t, u);
    } else {
      OneMoreClaim(t, u, OfAlias(Alias(user, name, true)), name);
    }
  }

  /** A verified signup hands its name to the new account. */
  lemma VerifyInv(t: Tables, token: string, newUser: UserId)
    requires OneOwner(t) && token in t.pending && newUser !in t.login
    ensures OneOwner(t.(login := t.login[newUser := t.pending[token].name], pending := t.pending - {token}))
  {
    var u := t.(login := t.login[newUser := t.pending[token].name], pending := t.pending - {token});
    assert Holds(t, OfSignup(token), t.pending[token].name);
    forall n, c | Holds(u, c, n)
      ensures if c == OfUser(newUser) then n == t.pending[token].name else Holds(t, c, n) && c != OfSignup(token)
    {}
  }

  lemma ReleasedChronological(t: Tables, now: int, target: UserId)
    requires Inv(t, now)
    ensures Inv(t.(history := Released(t.history, target)), now)
  {
    ReleaseInv(t, target);
  }

  lemma StepInv(t: Tables, now: int, op: Operation)
    requires Inv(t, now)
    ensures Inv(Step(t, now, op).1, now)
  {
    hide OneOwner, Taken;
    match op {
      case Create(token, display, name, emailUsed) =>
        DeleteExpiredInv(t, now);
        var d := DeleteExpired(t, now);
        if !Taken(d, name) && token !in d.pending {
          SignupInv(d, now, token, Pending(display, name, emailUsed, now));
        }
      case Verify(token, newUser) =>
        DeleteExpiredInv(t, now);
        var d := DeleteExpired(t, now);
        if token in d.pending && newUser !in d.login {
          VerifyInv(d, token, newUser);
          DisplayIsNoName(d.(login := d.login[newUser := d.pending[token].name], pending := d.pending - {token}),
                          d.display[newUser := d.pending[token].display]);
        }
      case Expire => DeleteExpiredInv(t, now);
      case Rename(target, bypassLimit, display, name) => RenameStepInv(t, now, target, bypassLimit, display, name);
      case Release(target) => ReleasedChronological(t, now, target);
      case SetAlias(user, name, premium) =>
        if name == "" || !Taken(t, name) {
          AliasInv(t, user, name);
        }
    }
  }

  lemma DisplayIsNoName(t: Tables, display: map<UserId, string>)
    requires OneOwner(t)
    ensures OneOwner(t.(display := display))
  {
    FewerClaims(t, t.(display := display));
  }

  lemma RenameStepInv(t: Tables, now: int, target: UserId, bypassLimit: bool, display: string, name: string)
    requires Inv(t, now)
    ensures Inv(RenameStep(t, now, target, bypassLimit, display, name).1, now)
  {
    hide OneOwner, Taken, TooRecent;
    if target in t.login && target in t.display && display != t.display[target] {
      var oldName, oldDisplay := t.login[target], t.display[target];
      var shown := t.display[target := display];
      if name == oldName {
        var row := Past(target, oldDisplay, oldName, now, false, true);
        CosmeticInv(t, now, row);
        DisplayIsNoName(t.(history := t.history + [row]), shown);
      } else if !Taken(t.(history := Released(t.history, target)), name) {
        RenameInv(t, now, target, oldDisplay, name);
        DisplayIsNoName(
          t.(history := Released(t.history, target) + [Past(target, oldDisplay, oldName, now, true, false)],
             login := t.login[target := name]), shown);
      }
    }
  }

  // ---------- Main results ----------

  ghost predicate Clock(now: int, times: seq<int>) {
    && (forall i :: 0 <= i < |times| ==> now <= times[i])
    && (forall i, j :: 0 <= i < j < |times| ==> times[i] <= times[j])
  }

  function After(t: Tables, times: seq<int>, ops: seq<Operation>): Tables
    requires |times| == |ops|
    decreases |ops|
  {
    if ops == [] then t else After(Step(t, times[0], ops[0]).1, times[1..], ops[1..])
  }

  lemma LaterInv(t: Tables, now: int, later: int)
    requires Inv(t, now) && now <= later
    ensures Inv(t, later)
  {}

  /** In every run each name has at most one owner and each user at most one redirect. */
  lemma {:induction false} RunInv(t: Tables, now: int, times: seq<int>, ops: seq<Operation>)
    requires Inv(t, now) && |times| == |ops| && Clock(now, times)
    ensures Inv(After(t, times, ops), if times == [] then now else times[|times| - 1])
    decreases |ops|
  {
    if ops != [] {
      LaterInv(t, now, times[0]);
      StepInv(t, times[0], ops[0]);
      RunInv(Step(t, times[0], ops[0]).1, times[0], times[1..], ops[1..]);
    }
  }

  /** Then a lookup finds at most one user, and finds one exactly if the name is taken by anything but a signup. */
  lemma LookupIsUnique(t: Tables, now: int, name: string, u: UserId, v: UserId)
    requires Inv(t, now) && Finds(t, name, u) && Finds(t, name, v)
    ensures u == v
    ensures Taken(t, name) && forall token :: !Holds(t, OfSignup(token), name)
  {}

  /** A redirect of `u` from `name` is in force. */
  ghost predicate Redirects(t: Tables, u: UserId, name: string) {
    exists id: nat :: Holds(t, OfRedirect(id), name) && t.history[id].userid == u
  }

  /** The operations that end a user's redirect: a release, or a further change that is not cosmetic. */
  predicate Ends(t: Tables, now: int, op: Operation, u: UserId) {
    match op
    case Release(target) => target == u
    case Rename(target, bypassLimit, display, name) =>
      target == u && target in t.login && name != t.login[target] && Step(t, now, op).0 == Done
    case _ => false
  }

  lemma {:induction false} RedirectStays(t: Tables, now: int, op: Operation, u: UserId, name: string)
    requires Redirects(t, u, name) && !Ends(t, now, op, u)
    ensures Redirects(Step(t, now, op).1, u, name)
  {
    hide Taken, TooRecent;
    var id: nat :| Holds(t, OfRedirect(id), name) && t.history[id].userid == u;
    assert Holds(Step(t, now, op).1, OfRedirect(id), name);
  }

  ghost predicate NeverEnds(t: Tables, times: seq<int>, ops: seq<Operation>, u: UserId)
    requires |times| == |ops|
    decreases |ops|
  {
    ops != [] ==> !Ends(t, times[0], ops[0], u) && NeverEnds(Step(t, times[0], ops[0]).1, times[1..], ops[1..], u)
  }

  lemma {:induction false} RedirectStaysInRun(t: Tables, times: seq<int>, ops: seq<Operation>, u: UserId, name: string)
    requires |times| == |ops| && Redirects(t, u, name) && NeverEnds(t, times, ops, u)
    ensures Redirects(After(t, times, ops), u, name)
    decreases |ops|
  {
    if ops != [] {
      RedirectStays(t, times[0], ops[0], u, name);
      RedirectStaysInRun(Step(t, times[0], ops[0]).1, times[1..], ops[1..], u, name);
    }
  }

  /** A change that is not cosmetic makes the new name and the old one find the user; the old one keeps doing so until
      something ends the redirect. */
  lemma OldNameStillFound(
    t: Tables, now: int, target: UserId, bypass: bool, display: string, name: string,
    times: seq<int>, ops: seq<Operation>)
    requires Inv(t, now) && target in t.login && target in t.display
    requires name != t.login[target] && display != t.display[target]
    requires Step(t, now, Rename(target, bypass, display, name)).0 == Done
    requires |times| == |ops|
    requires NeverEnds(Step(t, now, Rename(target, bypass, display, name)).1, times, ops, target)
    ensures Finds(Step(t, now, Rename(target, bypass, display, name)).1, name, target)
    ensures Finds(After(Step(t, now, Rename(target, bypass, display, name)).1, times, ops), t.login[target], target)
  {
    RenameDone(t, now, target, bypass, display, name);
    hide Step, Redirects, Holds;
    var u := Step(t, now, Rename(target, bypass, display, name)).1;
    RedirectStaysInRun(u, times, ops, target, t.login[target]);
    RedirectFinds(After(u, times, ops), target, t.login[target]);
  }

  lemma RenameDone(t: Tables, now: int, target: UserId, bypass: bool, display: string, name: string)
    requires target in t.login && target in t.display
    requires name != t.login[target] && display != t.display[target]
    requires Step(t, now, Rename(target, bypass, display, name)).0 == Done
    ensures var u := Step(t, now, Rename(target, bypass, display, name)).1;
            Finds(u, name, target) && Redirects(u, target, t.login[target])
  {
    hide Taken, TooRecent;
    var u := Step(t, now, Rename(target, bypass, display, name)).1;
    assert Holds(u, OfRedirect(|t.history|), t.login[target]);
  }

  lemma RedirectFinds(t: Tables, u: UserId, name: string)
    requires Redirects(t, u, name)
    ensures Finds(t, name, u)
  {}

  /** Half a second short of 30 days, which is what rounding makes of them. */
  const LIMIT := 30 * DAY - SECOND / 2

  lemma ThirtyDaysRounded(time: int)
    ensures Seconds(time) / (3600 * 24) >= 30 <==> time >= LIMIT
  {}

  /** A change of `u` that is not cosmetic. */
  ghost predicate Changed(r: Past, u: UserId) {
    r.userid == u && !r.cosmetic
  }

  /** The limit stands in the way exactly if some change of the user that was not cosmetic is more recent. */
  lemma LimitExactly(t: Tables, now: int, u: UserId)
    requires Inv(t, now)
    ensures TooRecent(t, u, now) <==> exists r <- t.history :: Changed(r, u) && now - r.replacedAt < LIMIT
  {
    var i := LatestChange(t.history, u);
    if i >= 0 {
      ThirtyDaysRounded(now - t.history[i].replacedAt);
      assert t.history[i] in t.history;
    }
    forall r | r in t.history && Changed(r, u) ensures i >= 0 && r.replacedAt <= t.history[i].replacedAt {
      var k :| 0 <= k < |t.history| && t.history[k] == r;
      assert k <= i;
    }
  }

  /** Without the bypass, every earlier change of the user that was not cosmetic is 30 days old, to the second. */
  lemma ThirtyDays(t: Tables, now: int, op: Operation, u: UserId, r: Past)
    requires Inv(t, now) && ChangesName(t, now, op, u) && !op.bypassLimit
    requires r in t.history && Changed(r, u)
    ensures now - r.replacedAt >= LIMIT
  {
    LimitExactly(t, now, u);
    hide TooRecent, Taken;
  }

  /** With every such change that old, the limit does not stand in the way. */
  lemma LimitAllows(t: Tables, now: int, u: UserId)
    requires forall r <- t.history :: Changed(r, u) ==> now - r.replacedAt >= LIMIT
    ensures !TooRecent(t, u, now)
  {
    var i := LatestChange(t.history, u);
    if i >= 0 {
      ThirtyDaysRounded(now - t.history[i].replacedAt);
      assert t.history[i] in t.history;
    }
  }

  /** `change_username` gives the user another name. */
  ghost predicate ChangesName(t: Tables, now: int, op: Operation, u: UserId) {
    && op.Rename? && op.target == u && u in t.login && u in t.display
    && op.name != t.login[u] && op.display != t.display[u]
    && Step(t, now, op).0 == Done
  }

  ghost predicate Recorded(t: Tables, u: UserId, time: int) {
    exists r <- t.history :: Changed(r, u) && r.replacedAt == time
  }

  lemma ChangeRecorded(t: Tables, now: int, op: Operation, u: UserId)
    requires ChangesName(t, now, op, u)
    ensures Recorded(Step(t, now, op).1, u, now)
  {
    hide Taken, TooRecent;
    var history := Step(t, now, op).1.history;
    assert history[|history| - 1] in history;
  }

  lemma RecordedStays(t: Tables, now: int, op: Operation, u: UserId, time: int)
    requires Recorded(t, u, time)
    ensures Recorded(Step(t, now, op).1, u, time)
  {
    hide Taken, TooRecent;
    var r :| r in t.history && Changed(r, u) && r.replacedAt == time;
    var k :| 0 <= k < |t.history| && t.history[k] == r;
    var history := Step(t, now, op).1.history;
    assert k < |history| && Changed(history[k], u) && history[k].replacedAt == time;
    assert history[k] in history;
  }

  lemma {:induction false} RecordedInRun(t: Tables, times: seq<int>, ops: seq<Operation>, u: UserId, time: int)
    requires |times| == |ops| && Recorded(t, u, time)
    ensures Recorded(After(t, times, ops), u, time)
    decreases |ops|
  {
    hide Step, Recorded;
    if ops != [] {
      RecordedStays(t, times[0], ops[0], u, time);
      RecordedInRun(Step(t, times[0], ops[0]).1, times[1..], ops[1..], u, time);
    }
  }

  /** In every run a change of a user and a later one without the bypass are 30 days apart, to the second. */
  lemma ChangesAreApart(
    t: Tables, now: int, first: Operation, u: UserId, times: seq<int>, ops: seq<Operation>,
    later: int, second: Operation)
    requires Inv(t, now) && ChangesName(t, now, first, u)
    requires |times| == |ops| && Clock(now, times + [later])
    requires ChangesName(After(Step(t, now, first).1, times, ops), later, second, u) && !second.bypassLimit
    ensures later - now >= LIMIT
  {
    hide ChangesName, Step, Inv, Recorded;
    var s := Step(t, now, first).1;
    StepInv(t, now, first);
    ClockParts(now, times, later);
    RunInv(s, now, times, ops);
    LaterInv(After(s, times, ops), if times == [] then now else times[|times| - 1], later);
    ChangeRecorded(t, now, first, u);
    RecordedInRun(s, times, ops, u, now);
    var r := TheRecord(After(s, times, ops), u, now);
    ThirtyDays(After(s, times, ops), later, second, u, r);
  }

  lemma TheRecord(t: Tables, u: UserId, time: int) returns (r: Past)
    requires Recorded(t, u, time)
    ensures r in t.history && Changed(r, u) && r.replacedAt == time
  {
    r :| r in t.history && Changed(r, u) && r.replacedAt == time;
  }

  lemma ClockParts(now: int, times: seq<int>, later: int)
    requires Clock(now, times + [later])
    ensures Clock(now, times) && (if times == [] then now else times[|times| - 1]) <= later
  {
    var all := times + [later];
    assert forall i :: 0 <= i < |times| ==> all[i] == times[i];
    assert all[|times|] == later;
  }

  // ---------- What each operation does ----------

  const EXPIRY := 2 * DAY

  /** A signup that can be verified: not made for an address in use, and at most two days old. */
  predicate Genuine(t: Tables, now: int, token: string) {
    token in t.pending && !t.pending[token].invalid && now - t.pending[token].createdAt <= EXPIRY
  }

  /** A signup that still holds its name. */
  predicate Live(t: Tables, now: int, token: string) {
    token in t.pending && now - t.pending[token].createdAt <= EXPIRY
  }

  /** Signups go exactly when they are more than two days old. */
  lemma ExpiryExactly(t: Tables, now: int, token: string)
    ensures token in DeleteExpired(t, now).pending <==> Live(t, now, token)
    ensures Live(t, now, token) ==> DeleteExpired(t, now).pending[token] == t.pending[token]
    ensures DeleteExpired(t, now) == t.(pending := DeleteExpired(t, now).pending)
  {}

  /** A signup becomes an account exactly if it is genuine; the account then has its names, and the signup is gone. */
  lemma VerifyExactly(t: Tables, now: int, token: string, newUser: UserId)
    ensures var (r, u) := Step(t, now, Verify(token, newUser));
            && (r == Done <==> Genuine(t, now, token) && newUser !in t.login)
            && (r == Done ==>
                  && u.login == t.login[newUser := t.pending[token].name]
                  && u.display == t.display[newUser := t.pending[token].display]
                  && Finds(u, t.pending[token].name, newUser))
            && (r != Done ==> u.login == t.login && u.display == t.display)
            && (!Genuine(t, now, token) ==> r == Throw(LogincreateRecordMissing))
            && u.aliases == t.aliases && u.history == t.history
  {
    ExpiryExactly(t, now, token);
    hide DeleteExpired;
    var u := Step(t, now, Verify(token, newUser)).1;
    if Step(t, now, Verify(token, newUser)).0 == Done {
      assert Holds(u, OfUser(newUser), t.pending[token].name);
    }
  }

  /** A name that nothing but an expired signup holds. */
  ghost predicate Free(t: Tables, now: int, name: string) {
    forall c | Holds(t, c, name) :: c.OfSignup? && !Live(t, now, c.token)
  }

  lemma FreeExactly(t: Tables, now: int, name: string)
    ensures Free(t, now, name) <==> !Taken(DeleteExpired(t, now), name)
  {
    var d := DeleteExpired(t, now);
    TakenIsHeld(d, name);
    forall c ensures Holds(d, c, name) <==> Holds(t, c, name) && (c.OfSignup? ==> Live(t, now, c.token)) {
      if c.OfSignup? {
        ExpiryExactly(t, now, c.token);
      }
    }
    hide Taken, DeleteExpired, Holds, Live;
  }

  /** Signing up succeeds exactly if the name is free, and then holds it. */
  lemma CreateExactly(t: Tables, now: int, token: string, display: string, name: string, emailUsed: bool)
    ensures var (r, u) := Step(t, now, Create(token, display, name, emailUsed));
            && (r == Done <==> Free(t, now, name) && !Live(t, now, token))
            && (r == Done ==> token in u.pending && u.pending[token] == Pending(display, name, emailUsed, now))
            && (!Free(t, now, name) ==> r == Throw(UsernameExists))
            && u == t.(pending := u.pending)
  {
    FreeExactly(t, now, name);
    ExpiryExactly(t, now, token);
    hide DeleteExpired, Taken, Free;
  }

  /** Every other signup stays in either case, unless it has expired. */
  lemma OtherSignupsStay(t: Tables, now: int, op: Operation, token: string)
    requires op.Create? || op.Verify? || op.Expire?
    requires op.Expire? || Step(t, now, op).0 != Done || op.token != token
    ensures var u := Step(t, now, op).1;
            && (token in u.pending <==> Live(t, now, token))
            && (token in u.pending ==> u.pending[token] == t.pending[token])
  {
    ExpiryExactly(t, now, token);
    hide DeleteExpired, Taken;
  }

  lemma OthersKeepSignups(t: Tables, now: int, op: Operation)
    requires op.Rename? || op.Release? || op.SetAlias?
    ensures Step(t, now, op).1.pending == t.pending
  {
    hide Taken, TooRecent;
  }

  lemma RedirectsAfterRelease(t: Tables, target: UserId, v: UserId, n: string)
    ensures Redirects(t.(history := Released(t.history, target)), v, n) <==> v != target && Redirects(t, v, n)
  {
    var r := t.(history := Released(t.history, target));
    if Redirects(r, v, n) {
      var id: nat :| Holds(r, OfRedirect(id), n) && r.history[id].userid == v;
      assert Holds(t, OfRedirect(id), n);
    }
    if v != target && Redirects(t, v, n) {
      var id: nat :| Holds(t, OfRedirect(id), n) && t.history[id].userid == v;
      assert Holds(r, OfRedirect(id), n);
    }
  }

  lemma RedirectsAfterRow(t: Tables, row: Past, v: UserId, n: string)
    ensures Redirects(t.(history := t.history + [row]), v, n)
       <==> Redirects(t, v, n) || (row.active && row.userid == v && row.name == n)
  {
    var r := t.(history := t.history + [row]);
    if Redirects(r, v, n) {
      var id: nat :| Holds(r, OfRedirect(id), n) && r.history[id].userid == v;
      assert id < |t.history| ==> Holds(t, OfRedirect(id), n);
    }
    if Redirects(t, v, n) {
      var id: nat :| Holds(t, OfRedirect(id), n) && t.history[id].userid == v;
      assert Holds(r, OfRedirect(id), n);
    }
    if row.active && row.userid == v && row.name == n {
      assert Holds(r, OfRedirect(|t.history|), n);
    }
  }

  /** Only the user's own redirects do not stand in the way of another name. */
  ghost predicate FreeFor(t: Tables, target: UserId, name: string) {
    forall c | Holds(t, c, name) :: c.OfRedirect? && t.history[c.id].userid == target
  }

  lemma FreeForExactly(t: Tables, target: UserId, name: string)
    ensures FreeFor(t, target, name) <==> !Taken(t.(history := Released(t.history, target)), name)
  {
    var r := t.(history := Released(t.history, target));
    TakenIsHeld(r, name);
    forall c
      ensures Holds(r, c, name) <==> Holds(t, c, name) && !(c.OfRedirect? && t.history[c.id].userid == target)
    {}
    hide Taken, Holds, Released;
  }

  /** Without a user or without a change nothing happens. */
  lemma NothingToRename(t: Tables, now: int, target: UserId, bypass: bool, display: string, name: string)
    ensures var (r, u) := Step(t, now, Rename(target, bypass, display, name));
            var known := target in t.login && target in t.display;
            && (r == Throw(NoSuchUser) <==> !known)
            && (!known ==> u == t)
            && (known && display == t.display[target] ==> r == Done && u == t)
  {
    hide Taken, TooRecent;
  }

  /** Another display of the same name changes just that, and leaves all redirects. */
  lemma CosmeticExactly(t: Tables, now: int, target: UserId, bypass: bool, display: string, v: UserId, n: string)
    requires target in t.login && target in t.display && display != t.display[target]
    ensures var (r, u) := Step(t, now, Rename(target, bypass, display, t.login[target]));
            && r == Done && u.login == t.login && u.display == t.display[target := display]
            && u.aliases == t.aliases && u.pending == t.pending
            && u.history == t.history + [Past(target, t.display[target], t.login[target], now, false, true)]
            && (Redirects(u, v, n) <==> Redirects(t, v, n))
  {
    RedirectsAfterRow(t, Past(target, t.display[target], t.login[target], now, false, true), v, n);
    hide Redirects, Taken, TooRecent;
  }

  /** A change is recorded with the names it replaced; of what was recorded before nothing but redirects goes. */
  ghost predicate RecordsChange(
    before: seq<Past>, after: seq<Past>, target: UserId, display: string, name: string, now: int)
  {
    && |after| == |before| + 1
    && after[|before|] == Past(target, display, name, now, true, false)
    && forall i :: 0 <= i < |before| ==> after[i].(active := false) == before[i].(active := false)
  }

  /** Another name is refused exactly if it is taken, or the last change too recent; else the user has it, and is
      found by the old one, but by no older one. */
  lemma RenameExactly(
    t: Tables, now: int, target: UserId, bypass: bool, display: string, name: string, v: UserId, n: string)
    requires Inv(t, now) && target in t.login && target in t.display
    requires display != t.display[target] && name != t.login[target]
    ensures var (r, u) := Step(t, now, Rename(target, bypass, display, name));
            var recent := exists row <- t.history :: Changed(row, target) && now - row.replacedAt < LIMIT;
            && (r == Done <==> FreeFor(t, target, name) && (bypass || !recent))
            && (r == Throw(UsernameChangedTooRecently) <==> !bypass && recent)
            && (r != Done ==> u == t)
            && (r == Done ==>
                  && u.login == t.login[target := name] && u.display == t.display[target := display]
                  && u.aliases == t.aliases && u.pending == t.pending
                  && RecordsChange(t.history, u.history, target, t.display[target], t.login[target], now)
                  && (Redirects(u, v, n) <==> if v == target then n == t.login[target] else Redirects(t, v, n)))
  {
    LimitExactly(t, now, target);
    FreeForExactly(t, target, name);
    RedirectsAfterRelease(t, target, v, n);
    RedirectsAfterRow(t.(history := Released(t.history, target)),
                      Past(target, t.display[target], t.login[target], now, true, false), v, n);
    hide Redirects, Taken, TooRecent, FreeFor, Inv, Changed;
  }

  /** A release ends the user's redirect and does nothing else to names. */
  lemma ReleaseExactly(t: Tables, now: int, target: UserId, v: UserId, n: string)
    ensures var (r, u) := Step(t, now, Release(target));
            && r == Done && u == t.(history := u.history) && |u.history| == |t.history|
            && (forall i :: 0 <= i < |t.history| ==>
                  u.history[i].(active := false) == t.history[i].(active := false))
            && (Redirects(u, v, n) <==> v != target && Redirects(t, v, n))
  {
    RedirectsAfterRelease(t, target, v, n);
    hide Redirects;
  }

  /** A user with premium gets any free name as alias, and loses the alias set before. */
  lemma AliasExactly(t: Tables, now: int, user: UserId, name: string, premium: bool, row: Alias)
    requires user in t.login
    ensures var (r, u) := Step(t, now, SetAlias(user, name, premium));
            && (r == Done <==> premium && (name == "" || forall c :: !Holds(t, c, name)))
            && (r != Done ==> u == t)
            && (r == Throw(UsernameExists) <==> name != "" && exists c :: Holds(t, c, name))
            && u == t.(aliases := u.aliases)
            && (r == Done && row.userid == user && row.premium ==>
                  (row in u.aliases <==> name != "" && row.name == name))
            && (r == Done && !(row.userid == user && row.premium) ==> (row in u.aliases <==> row in t.aliases))
  {
    TakenIsHeld(t, name);
    hide Taken, Holds;
  }

  // ---------- Signups over runs ----------

  /** The state before operation `i`. */
  function Until(t: Tables, times: seq<int>, ops: seq<Operation>, i: nat): Tables
    requires |times| == |ops| && i <= |ops|
  {
    After(t, times[..i], ops[..i])
  }

  lemma {:induction false} AfterLast(t: Tables, times: seq<int>, ops: seq<Operation>)
    requires |times| == |ops| && ops != []
    ensures var k := |ops| - 1; After(t, times, ops) == Step(After(t, times[..k], ops[..k]), times[k], ops[k]).1
    decreases |ops|
  {
    hide Step;
    var k := |ops| - 1;
    if k > 0 {
      AfterLast(Step(t, times[0], ops[0]).1, times[1..], ops[1..]);
      assert times[1..][..k - 1] == times[..k][1..] && ops[1..][..k - 1] == ops[..k][1..];
    }
  }

  lemma UntilNext(t: Tables, times: seq<int>, ops: seq<Operation>, i: nat)
    requires |times| == |ops| && i < |ops|
    ensures Until(t, times, ops, i + 1) == Step(Until(t, times, ops, i), times[i], ops[i]).1
  {
    hide Step;
    AfterLast(t, times[..i + 1], ops[..i + 1]);
    assert times[..i + 1][..i] == times[..i] && ops[..i + 1][..i] == ops[..i];
  }

  lemma UntilAll(t: Tables, times: seq<int>, ops: seq<Operation>)
    requires |times| == |ops|
    ensures Until(t, times, ops, |ops|) == After(t, times, ops)
    ensures Until(t, times, ops, 0) == t
  {
    assert times[..|ops|] == times && ops[..|ops|] == ops;
  }

  /** Nothing in the run verifies the signup. */
  ghost predicate NotVerified(t: Tables, times: seq<int>, ops: seq<Operation>, token: string)
    requires |times| == |ops|
    decreases |ops|
  {
    ops != [] ==>
      && !(ops[0].Verify? && ops[0].token == token && Step(t, times[0], ops[0]).0 == Done)
      && NotVerified(Step(t, times[0], ops[0]).1, times[1..], ops[1..], token)
  }

  lemma SignupStays(t: Tables, now: int, op: Operation, token: string)
    requires Live(t, now, token) && !(op.Verify? && op.token == token && Step(t, now, op).0 == Done)
    ensures token in Step(t, now, op).1.pending && Step(t, now, op).1.pending[token] == t.pending[token]
  {
    hide Step;
    if op.Create? || op.Verify? || op.Expire? {
      if op.Create? && op.token == token {
        CreateExactly(t, now, token, op.display, op.name, op.emailUsed);
      }
      OtherSignupsStay(t, now, op, token);
    } else {
      OthersKeepSignups(t, now, op);
    }
  }

  lemma {:induction false} SignupStaysInRun(t: Tables, times: seq<int>, ops: seq<Operation>, token: string)
    requires |times| == |ops| && token in t.pending && NotVerified(t, times, ops, token)
    requires forall i :: 0 <= i < |times| ==> Live(t, times[i], token)
    ensures token in After(t, times, ops).pending && After(t, times, ops).pending[token] == t.pending[token]
    decreases |ops|
  {
    hide Step;
    if ops != [] {
      SignupStays(t, times[0], ops[0], token);
      SignupStaysInRun(Step(t, times[0], ops[0]).1, times[1..], ops[1..], token);
    }
  }

  /** A signup with an unused address can be verified for two days, whatever happens to other names, unless it has
      been verified. */
  lemma SignupCanBeVerified(
    t: Tables, now: int, token: string, display: string, name: string, times: seq<int>, ops: seq<Operation>,
    later: int, newUser: UserId)
    requires Step(t, now, Create(token, display, name, false)).0 == Done
    requires |times| == |ops| && Clock(now, times + [later]) && later - now <= EXPIRY
    requires NotVerified(Step(t, now, Create(token, display, name, false)).1, times, ops, token)
    requires newUser !in After(Step(t, now, Create(token, display, name, false)).1, times, ops).login
    ensures var u := After(Step(t, now, Create(token, display, name, false)).1, times, ops);
            var (r, v) := Step(u, later, Verify(token, newUser));
            r == Done && v.login == u.login[newUser := name] && v.display == u.display[newUser := display]
  {
    hide Step, NotVerified;
    var s := Step(t, now, Create(token, display, name, false)).1;
    CreateExactly(t, now, token, display, name, false);
    assert forall i :: 0 <= i < |times| ==> (times + [later])[i] == times[i];
    assert (times + [later])[|times|] == later;
    SignupStaysInRun(s, times, ops, token);
    VerifyExactly(After(s, times, ops), later, token, newUser);
  }

  /** Where a signup comes from: a creation in the run, or what was there before it. */
  lemma {:induction false} SignupComesFrom(t: Tables, times: seq<int>, ops: seq<Operation>, token: string, k: nat)
      returns (i: int)
    requires |times| == |ops| && k <= |ops| && token in Until(t, times, ops, k).pending
    ensures -1 <= i < k
    ensures var row := Until(t, times, ops, k).pending[token];
            if i < 0 then token in t.pending && row == t.pending[token]
            else
              && ops[i] == Create(token, row.display, row.name, row.invalid) && times[i] == row.createdAt
              && Step(Until(t, times, ops, i), times[i], ops[i]).0 == Done
  {
    hide Step, Until;
    UntilAll(t, times, ops);
    if k == 0 {
      i := -1;
    } else {
      var s := Until(t, times, ops, k - 1);
      UntilNext(t, times, ops, k - 1);
      i := SignupMadeBy(s, times[k - 1], ops[k - 1], token, k - 1);
      if i < 0 {
        i := SignupComesFrom(t, times, ops, token, k - 1);
      }
    }
  }

  lemma SignupMadeBy(t: Tables, now: int, op: Operation, token: string, at: nat) returns (i: int)
    requires token in Step(t, now, op).1.pending
    ensures i == -1 || i == at
    ensures var row := Step(t, now, op).1.pending[token];
            if i < 0 then token in t.pending && row == t.pending[token]
            else op == Create(token, row.display, row.name, row.invalid) && now == row.createdAt
                 && Step(t, now, op).0 == Done
  {
    hide Step;
    i := -1;
    if op.Create? || op.Verify? || op.Expire? {
      if op.Create? && op.token == token && Step(t, now, op).0 == Done {
        CreateExactly(t, now, token, op.display, op.name, op.emailUsed);
        i := at;
      } else if op.Verify? && op.token == token && Step(t, now, op).0 == Done {
        VerifiedIsGone(t, now, token, op.newUser);
        assert false;
      } else {
        OtherSignupsStay(t, now, op, token);
      }
    } else {
      OthersKeepSignups(t, now, op);
    }
  }

  lemma VerifiedIsGone(t: Tables, now: int, token: string, newUser: UserId)
    requires Step(t, now, Verify(token, newUser)).0 == Done
    ensures token !in Step(t, now, Verify(token, newUser)).1.pending
  {
    hide DeleteExpired;
  }

  /** Only verifying makes a user. */
  lemma UserMadeBy(t: Tables, now: int, op: Operation, u: UserId)
    requires u !in t.login && u in Step(t, now, op).1.login
    ensures op.Verify? && op.newUser == u && Step(t, now, op).0 == Done
  {
    hide Taken, TooRecent;
  }

  lemma {:induction false} AccountComesFrom(t: Tables, times: seq<int>, ops: seq<Operation>, u: UserId, k: nat)
      returns (j: nat)
    requires |times| == |ops| && k <= |ops| && u !in t.login && u in Until(t, times, ops, k).login
    ensures j < k && ops[j].Verify? && ops[j].newUser == u
    ensures Step(Until(t, times, ops, j), times[j], ops[j]).0 == Done
  {
    hide Step, Until;
    UntilAll(t, times, ops);
    UntilNext(t, times, ops, k - 1);
    if u in Until(t, times, ops, k - 1).login {
      j := AccountComesFrom(t, times, ops, u, k - 1);
    } else {
      j := k - 1;
      UserMadeBy(Until(t, times, ops, k - 1), times[k - 1], ops[k - 1], u);
    }
  }

  /** Every account that a run makes was signed up for with an unused address at most two days before it was verified,
      and has the names that were asked for; so a signup with a used address never becomes one. */
  lemma AccountsAreSignedUpFor(t: Tables, times: seq<int>, ops: seq<Operation>, u: UserId) returns (i: nat, j: nat)
    requires |times| == |ops| && t.pending == map[] && u !in t.login && u in After(t, times, ops).login
    ensures i < j < |ops| && ops[i].Create? && !ops[i].emailUsed && ops[j] == Verify(ops[i].token, u)
    ensures times[j] - times[i] <= EXPIRY
    ensures Step(Until(t, times, ops, i), times[i], ops[i]).0 == Done
    ensures u in Until(t, times, ops, j + 1).login && Until(t, times, ops, j + 1).login[u] == ops[i].name
    ensures u in Until(t, times, ops, j + 1).display && Until(t, times, ops, j + 1).display[u] == ops[i].display
  {
    hide Step, Until;
    UntilAll(t, times, ops);
    j := AccountComesFrom(t, times, ops, u, |ops|);
    var token, s := ops[j].token, Until(t, times, ops, j);
    VerifyExactly(s, times[j], token, u);
    i := SignupComesFrom(t, times, ops, token, j);
    UntilNext(t, times, ops, j);
  }

  // ---------- The operations on the tables ----------

  class Database {
    var login: map<UserId, string>
    var display: map<UserId, string>
    var aliases: set<Alias>
    var pending: map<string, Pending>
    var history: seq<Past>

    constructor ()
      ensures Inv(Value(), 0)
    {
      login, display, aliases, pending, history := map[], map[], {}, map[], [];
    }

    function Value(): Tables
      reads this
    {
      Tables(login, display, aliases, pending, history)
    }

    method RemoveExpired(now: int)
      modifies `pending
      ensures Value() == DeleteExpired(old(Value()), now)
    {
      pending := map token | token in pending && pending[token].createdAt >= now - 2 * DAY :: pending[token];
    }

    /** `create`, past the checks of the form; `emailUsed` is what `email_exists` says. */
    method Create(now: int, token: string, shown: string, name: string, emailUsed: bool) returns (r: Outcome)
      modifies this
      ensures (r, Value()) == Step(old(Value()), now, Operation.Create(token, shown, name, emailUsed))
    {
      hide Taken;
      RemoveExpired(now);
      if Taken(Value(), name) {
        return Throw(UsernameExists);
      }
      if token in pending {
        return Throw(ConstraintViolation);
      }
      pending := pending[token := Pending(shown, name, emailUsed, now)];
      return Done;
    }

    /** `verify`; `newUser` is the id that the sequence of `login` gives. */
    method Verify(now: int, token: string, newUser: UserId) returns (r: Outcome)
      modifies this
      ensures (r, Value()) == Step(old(Value()), now, Operation.Verify(token, newUser))
    {
      RemoveExpired(now);
      if token !in pending || pending[token].invalid {
        return Throw(LogincreateRecordMissing);
      }
      if newUser in login {
        return Throw(ConstraintViolation);
      }
      login := login[newUser := pending[token].name];
      display := display[newUser := pending[token].display];
      pending := pending - {token};
      return Done;
    }

    /** `release_username`. */
    method ReleaseUsername(target: UserId)
      modifies `history
      ensures Value() == Step(old(Value()), 0, Operation.Release(target)).1
    {
      history := Released(history, target);
    }

    /** `change_username`: the rows released before a conflict is found come back with the rollback. */
    method Rename(now: int, target: UserId, bypassLimit: bool, newDisplay: string, newName: string) returns (r: Outcome)
      modifies this
      ensures (r, Value()) == Step(old(Value()), now, Operation.Rename(target, bypassLimit, newDisplay, newName))
    {
      hide Taken, TooRecent;
      if target !in login || target !in display {
        return Throw(NoSuchUser);
      }
      var oldDisplay, oldName := display[target], login[target];
      if newDisplay == oldDisplay {
        return Done;
      }
      var cosmetic := newName == oldName;
      var rollback := history;
      if !cosmetic && !bypassLimit {
        if TooRecent(Value(), target, now) {
          return Throw(UsernameChangedTooRecently);
        }
      }
      if !cosmetic {
        ReleaseUsername(target);
        if Taken(Value(), newName) {
          history := rollback;
          return Throw(UsernameExists);
        }
      }
      history := history + [Past(target, oldDisplay, oldName, now, !cosmetic, cosmetic)];
      if !cosmetic {
        login := login[target := newName];
      }
      display := display[target := newDisplay];
      return Done;
    }

    /** `useralias.set`. */
    method SetAlias(now: int, user: UserId, name: string, premium: bool) returns (r: Outcome)
      modifies this
      ensures (r, Value()) == Step(old(Value()), now, Operation.SetAlias(user, name, premium))
    {
      hide Taken;
      if name != "" && Taken(Value(), name) {
        return Throw(UsernameExists);
      } else if !premium {
        return Throw(InsufficientPermissions);
      } else if user !in login {
        return Throw(ConstraintViolation);
      }
      aliases := WithoutPremium(aliases, user);
      assert aliases + {} == aliases;
      if name != "" {
        aliases := aliases + {Alias(user, name, true)};
      }
      return Done;
    }
  }
}
