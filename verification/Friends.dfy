/** Friendships and their notifications (weasyl/frienduser.py, the friend notices of weasyl/welcome.py,
    `insert` and `remove` of weasyl/ignoreuser.py).

    Each operation is one transaction, so a run of the site is a sequence of steps on the tables. */
module Friends {

  /** User ids are positive; zero is nobody. */
  type UserId = nat

  datatype Row = Row(userid: UserId, otherid: UserId, pending: bool)

  /** Notices of type 3080 and 3085: `from` asked `to`, and `from` accepted what `to` asked. */
  datatype Notice = Asked(to: UserId, from: UserId) | Accepted(to: UserId, from: UserId)

  /** `asked` is no table.  It records who asked whom since the pair last had no row. */
  datatype Tables = Tables(
    rows: set<Row>,
    notices: multiset<Notice>,
    ignored: set<(UserId, UserId)>,
    ghost asked: set<(UserId, UserId)>)

  const EMPTY := Tables({}, multiset{}, {}, {})

  // ---------- The unique index ----------

  function Least(a: UserId, b: UserId): UserId { if a < b then a else b }

  /** The operator `#` of PostgreSQL, bit by bit. */
  function Xor(a: nat, b: nat): nat {
    if a == 0 && b == 0 then 0 else 2 * Xor(a / 2, b / 2) + if a % 2 == b % 2 then 0 else 1
  }

  function Key(a: UserId, b: UserId): (UserId, UserId) { (Least(a, b), Xor(a, b)) }

  predicate SamePair(a: UserId, b: UserId, c: UserId, d: UserId) {
    (a == c && b == d) || (a == d && b == c)
  }

  lemma {:induction false} XorCancels(a: nat, b: nat, c: nat)
    ensures Xor(a, b) == Xor(a, c) <==> b == c
    decreases a + b + c
  {
    if a != 0 || b != 0 || c != 0 {
      XorCancels(a / 2, b / 2, c / 2);
      XorStep(a, b);
      XorStep(a, c);
    }
  }

  lemma XorStep(a: nat, b: nat)
    ensures Xor(a, b) / 2 == Xor(a / 2, b / 2) && Xor(a, b) % 2 == if a % 2 == b % 2 then 0 else 1
  {}

  lemma {:induction false} XorCommutes(a: nat, b: nat)
    ensures Xor(a, b) == Xor(b, a)
    decreases a + b
  {
    if a != 0 || b != 0 {
      XorCommutes(a / 2, b / 2);
    }
  }

  lemma LeastIsOne(a: UserId, b: UserId)
    ensures Least(a, b) == Least(b, a) && (Least(a, b) == a || Least(a, b) == b)
  {}

  /** The index distinguishes exactly the unordered pairs. */
  lemma KeyIdentifiesPair(a: UserId, b: UserId, c: UserId, d: UserId)
    ensures Key(a, b) == Key(c, d) <==> SamePair(a, b, c, d)
  {
    hide Xor, Least;
    LeastIsOne(a, b);
    LeastIsOne(c, d);
    XorCommutes(a, b);
    XorCommutes(c, d);
    XorCancels(a, b, c);
    XorCancels(a, b, d);
    XorCancels(b, a, c);
    XorCancels(b, a, d);
  }

  predicate Of(r: Row, a: UserId, b: UserId) { SamePair(r.userid, r.otherid, a, b) }

  // ---------- The operations ----------

  datatype Operation =
    | Request(userid: UserId, otherid: UserId)
    | Remove(userid: UserId, otherid: UserId)
    | RemoveRequest(sender: UserId, recipient: UserId)
    | Dismiss(kept: multiset<Notice>)
    | Ignore(userid: UserId, others: set<UserId>, mods: set<UserId>)
    | Unignore(userid: UserId, others: set<UserId>)

  /** `ignoreuser.check`. */
  predicate Ignores(s: Tables, a: UserId, b: UserId) {
    a != 0 && b != 0 && (a, b) in s.ignored
  }

  function Forget(asked: set<(UserId, UserId)>, a: UserId, b: UserId): set<(UserId, UserId)> {
    asked - {(a, b), (b, a)}
  }

  /** The notice that goes with a row. */
  function NoticeOf(r: Row): Notice {
    if r.pending then Asked(r.otherid, r.userid) else Accepted(r.userid, r.otherid)
  }

  ghost function RequestStep(s: Tables, u: UserId, o: UserId): Tables {
    if Ignores(s, o, u) || Ignores(s, u, o) then s
    else
      var t := s.(asked := s.asked + {(u, o)});
      if Row(o, u, true) in s.rows then
        t.(rows := s.rows - {Row(o, u, true)} + {Row(o, u, false)},
           notices := s.notices[Asked(u, o) := 0] + multiset{Accepted(o, u)})
      else if exists r <- s.rows :: Of(r, u, o) then t
      else
        t.(rows := s.rows + {Row(u, o, true)},
           notices := s.notices[Asked(o, u) := 0] + multiset{Asked(o, u)})
  }

  ghost function RemoveStep(s: Tables, u: UserId, o: UserId): Tables {
    if r :| r in s.rows && Of(r, u, o) then
      s.(rows := s.rows - {r}, notices := s.notices[NoticeOf(r) := 0], asked := Forget(s.asked, u, o))
    else s
  }

  ghost function RemoveRequestStep(s: Tables, sender: UserId, recipient: UserId): Tables {
    var r := Row(sender, recipient, true);
    s.(rows := s.rows - {r},
       notices := s.notices[Asked(recipient, sender) := 0],
       asked := if r in s.rows then Forget(s.asked, sender, recipient) else s.asked)
  }

  /** The rows that ignoring deletes. */
  predicate Cut(r: Row, u: UserId, others: set<UserId>) {
    (r.userid == u && r.otherid in others) || (r.otherid == u && r.userid in others)
  }

  ghost function IgnoreStep(s: Tables, u: UserId, others: set<UserId>, mods: set<UserId>): Tables {
    if u in others || others * mods != {} then s
    else
      s.(rows := (set r <- s.rows | !Cut(r, u, others)),
         ignored := s.ignored + (set o <- others :: (u, o)),
         asked := (set p <- s.asked | forall r <- s.rows :: Of(r, p.0, p.1) ==> !Cut(r, u, others)))
  }

  ghost function Step(s: Tables, op: Operation): Tables {
    match op
    case Request(u, o) => RequestStep(s, u, o)
    case Remove(u, o) => RemoveStep(s, u, o)
    case RemoveRequest(sender, recipient) => RemoveRequestStep(s, sender, recipient)
    case Dismiss(kept) => s.(notices := s.notices * kept)
    case Ignore(u, others, mods) => IgnoreStep(s, u, others, mods)
    case Unignore(u, others) => s.(ignored := set p <- s.ignored | p.0 != u || p.1 !in others)
  }

  ghost function Run(s: Tables, ops: seq<Operation>): Tables
    decreases |ops|
  {
    if ops == [] then s else Run(Step(s, ops[0]), ops[1..])
  }

  // ---------- What every operation keeps ----------

  ghost predicate Unique(rows: set<Row>) {
    forall r <- rows, q <- rows :: Key(r.userid, r.otherid) == Key(q.userid, q.otherid) ==> r == q
  }

  ghost predicate RowAsked(r: Row, asked: set<(UserId, UserId)>) {
    (r.userid, r.otherid) in asked && (!r.pending ==> (r.otherid, r.userid) in asked)
  }

  /** In every run: one row a pair, friends who both asked, one request notice a direction. */
  ghost predicate Sound(s: Tables) {
    && Unique(s.rows)
    && (forall r <- s.rows :: RowAsked(r, s.asked))
    && (forall n: Notice :: n.Asked? ==> s.notices[n] <= 1)
  }

  /** In every run without ignoring: one notice for a row, and none without its row. */
  ghost predicate Exact(s: Tables) {
    forall n: Notice :: ExactAt(s, n)
  }

  predicate ExactAt(s: Tables, n: Notice) {
    s.notices[n] <= if RowOf(n) in s.rows then 1 else 0
  }

  function RowOf(n: Notice): (r: Row)
    ensures NoticeOf(r) == n
  {
    match n
    case Asked(to, from) => Row(from, to, true)
    case Accepted(to, from) => Row(to, from, false)
  }

  lemma UniqueByPair(rows: set<Row>)
    ensures Unique(rows) <==> forall r <- rows, q <- rows :: Of(r, q.userid, q.otherid) ==> r == q
  {
    forall r <- rows, q <- rows
      ensures Key(r.userid, r.otherid) == Key(q.userid, q.otherid) <==> Of(r, q.userid, q.otherid)
    {
      KeyIdentifiesPair(r.userid, r.otherid, q.userid, q.otherid);
    }
  }

  lemma RequestSound(s: Tables, u: UserId, o: UserId)
    requires Sound(s)
    ensures Sound(RequestStep(s, u, o))
  {
    hide Key;
    UniqueByPair(s.rows);
    UniqueByPair(RequestStep(s, u, o).rows);
  }

  lemma RemoveSound(s: Tables, u: UserId, o: UserId)
    requires Sound(s)
    ensures Sound(RemoveStep(s, u, o))
  {
    hide Key;
    UniqueByPair(s.rows);
  }

  lemma RemoveRequestSound(s: Tables, sender: UserId, recipient: UserId)
    requires Sound(s)
    ensures Sound(RemoveRequestStep(s, sender, recipient))
  {
    hide Key;
    UniqueByPair(s.rows);
  }

  lemma IgnoreSound(s: Tables, u: UserId, others: set<UserId>, mods: set<UserId>)
    requires Sound(s)
    ensures Sound(IgnoreStep(s, u, others, mods))
  {
    hide Key;
    UniqueByPair(s.rows);
  }

  lemma StepSound(s: Tables, op: Operation)
    requires Sound(s)
    ensures Sound(Step(s, op))
  {
    match op
    case Request(u, o) => RequestSound(s, u, o);
    case Remove(u, o) => RemoveSound(s, u, o);
    case RemoveRequest(sender, recipient) => RemoveRequestSound(s, sender, recipient);
    case Ignore(u, others, mods) => IgnoreSound(s, u, others, mods);
    case _ =>
  }

  lemma RequestExact(s: Tables, u: UserId, o: UserId, n: Notice)
    requires Sound(s) && ExactAt(s, n)
    ensures ExactAt(RequestStep(s, u, o), n)
  {
    hide Key;
    UniqueByPair(s.rows);
  }

  lemma RemoveExact(s: Tables, u: UserId, o: UserId, n: Notice)
    requires ExactAt(s, n)
    ensures ExactAt(RemoveStep(s, u, o), n)
  {}

  lemma RemoveRequestExact(s: Tables, sender: UserId, recipient: UserId, n: Notice)
    requires ExactAt(s, n)
    ensures ExactAt(RemoveRequestStep(s, sender, recipient), n)
  {}

  /** The pairs whose row ignoring deletes while there is a notice for it. */
  ghost function LeftBehind(s: Tables, op: Operation): set<(UserId, UserId)> {
    if op.Ignore? && op.userid !in op.others && op.others * op.mods == {} then
      set r <- s.rows | Cut(r, op.userid, op.others) && NoticeOf(r) in s.notices :: (r.userid, r.otherid)
    else {}
  }

  predicate Concerns(n: Notice, pairs: set<(UserId, UserId)>) {
    exists p <- pairs :: SamePair(n.to, n.from, p.0, p.1)
  }

  /** Any operation keeps what holds of a notice, unless it leaves that one behind. */
  lemma StepExactAt(s: Tables, op: Operation, n: Notice)
    requires Sound(s) && ExactAt(s, n) && !Concerns(n, LeftBehind(s, op))
    ensures ExactAt(Step(s, op), n)
  {
    hide Sound;
    match op
    case Request(u, o) => RequestExact(s, u, o, n);
    case Remove(u, o) => RemoveExact(s, u, o, n);
    case RemoveRequest(sender, recipient) => RemoveRequestExact(s, sender, recipient, n);
    case Ignore(u, others, mods) => IgnoreExactAt(s, u, others, mods, n);
    case _ =>
  }

  lemma IgnoreExactAt(s: Tables, u: UserId, others: set<UserId>, mods: set<UserId>, n: Notice)
    requires ExactAt(s, n) && !Concerns(n, LeftBehind(s, Ignore(u, others, mods)))
    ensures ExactAt(IgnoreStep(s, u, others, mods), n)
  {
    var r, left := RowOf(n), LeftBehind(s, Ignore(u, others, mods));
    assert n in s.notices <==> s.notices[n] > 0;
    assert SamePair(n.to, n.from, r.userid, r.otherid);
    assert u !in others && others * mods == {} && r in s.rows && Cut(r, u, others) && n in s.notices ==>
             (r.userid, r.otherid) in left;
  }

  lemma StepExact(s: Tables, op: Operation)
    requires Sound(s) && Exact(s) && !op.Ignore?
    ensures Exact(Step(s, op))
  {
    hide Step;
    forall n: Notice ensures ExactAt(Step(s, op), n) {
      assert ExactAt(s, n);
      StepExactAt(s, op, n);
    }
  }

  /** Ignoring leaves stale notices behind exactly when there is a notice for a row that it deletes. */
  lemma IgnoreExact(s: Tables, u: UserId, others: set<UserId>, mods: set<UserId>)
    requires Sound(s) && Exact(s) && u !in others && others * mods == {}
    ensures Exact(IgnoreStep(s, u, others, mods)) <==> forall n <- s.notices :: !Cut(RowOf(n), u, others)
  {
    var t := IgnoreStep(s, u, others, mods);
    forall n: Notice ensures ExactAt(t, n) <==> n in s.notices ==> !Cut(RowOf(n), u, others) {
      assert ExactAt(s, n);
      assert n in s.notices <==> s.notices[n] > 0;
    }
  }

  /** Sound in every run; exact in every run without ignoring. */
  lemma {:induction false} RunKeeps(s: Tables, ops: seq<Operation>)
    requires Sound(s)
    ensures Sound(Run(s, ops))
    ensures Exact(s) && (forall op <- ops :: !op.Ignore?) ==> Exact(Run(s, ops))
    decreases |ops|
  {
    if ops != [] {
      StepSound(s, ops[0]);
      if Exact(s) && (forall op <- ops :: !op.Ignore?) {
        assert ops[0] in ops;
        StepExact(s, ops[0]);
      }
      RunKeeps(Step(s, ops[0]), ops[1..]);
    }
  }

  ghost function LeftBehindBy(s: Tables, ops: seq<Operation>): set<(UserId, UserId)>
    decreases |ops|
  {
    if ops == [] then {} else LeftBehind(s, ops[0]) + LeftBehindBy(Step(s, ops[0]), ops[1..])
  }

  /** In every run, ignoring included: a notice is there once at most and has its row, but for pairs left behind. */
  lemma {:induction false} RunNotices(s: Tables, ops: seq<Operation>, n: Notice)
    requires Sound(s) && ExactAt(s, n) && !Concerns(n, LeftBehindBy(s, ops))
    ensures ExactAt(Run(s, ops), n)
    decreases |ops|
  {
    if ops != [] {
      hide Sound, Step, ExactAt, LeftBehind;
      assert forall p <- LeftBehind(s, ops[0]) :: p in LeftBehindBy(s, ops);
      assert forall p <- LeftBehindBy(Step(s, ops[0]), ops[1..]) :: p in LeftBehindBy(s, ops);
      StepSound(s, ops[0]);
      StepExactAt(s, ops[0], n);
      RunNotices(Step(s, ops[0]), ops[1..], n);
    }
  }

  // ---------- What each operation does ----------

  /** What two users have to do with each other. */
  predicate Waits(s: Tables, from: UserId, to: UserId) { Row(from, to, true) in s.rows }

  predicate Befriended(s: Tables, a: UserId, b: UserId) {
    Row(a, b, false) in s.rows || Row(b, a, false) in s.rows
  }

  predicate Strangers(s: Tables, a: UserId, b: UserId) {
    !Waits(s, a, b) && !Waits(s, b, a) && !Befriended(s, a, b)
  }

  /** Other pairs stay as they are. */
  ghost predicate OnlyPair(s: Tables, t: Tables, a: UserId, b: UserId) {
    forall r: Row | !Of(r, a, b) :: r in t.rows <==> r in s.rows
  }

  ghost predicate OnlyNotice(s: Tables, t: Tables, n: Notice) {
    forall m: Notice | m != n :: t.notices[m] == s.notices[m]
  }

  /** A request is refused if one ignores the other; it accepts one in the other direction, goes out once to a
      stranger, and is nothing new to a friend.  Either way the other is told once. */
  lemma RequestExactly(s: Tables, u: UserId, o: UserId)
    requires Sound(s)
    ensures var t := RequestStep(s, u, o);
            var refused := Ignores(s, o, u) || Ignores(s, u, o);
            && t.ignored == s.ignored && OnlyPair(s, t, u, o)
            && (refused ==> t == s)
            && (!refused && Waits(s, o, u) ==>
                  && Befriended(t, u, o) && !Waits(t, o, u) && !Waits(t, u, o)
                  && t.notices[Accepted(o, u)] == s.notices[Accepted(o, u)] + 1 && t.notices[Asked(u, o)] == 0
                  && forall m: Notice | m !in {Accepted(o, u), Asked(u, o)} :: t.notices[m] == s.notices[m])
            && (!refused && Strangers(s, u, o) ==>
                  && Waits(t, u, o) && (u != o ==> !Waits(t, o, u)) && !Befriended(t, u, o)
                  && t.notices[Asked(o, u)] == 1 && OnlyNotice(s, t, Asked(o, u)))
            && (!Waits(s, o, u) && !Strangers(s, u, o) ==> t.rows == s.rows && t.notices == s.notices)
  {
    hide Key;
    UniqueByPair(s.rows);
    if r :| r in s.rows && Of(r, u, o) {
      assert r in {Row(u, o, true), Row(o, u, true), Row(u, o, false), Row(o, u, false)};
    }
  }

  /** Removing makes strangers of two users, and takes back the notice of what they were. */
  lemma RemoveExactly(s: Tables, u: UserId, o: UserId, r: Row)
    requires Sound(s)
    ensures var t := RemoveStep(s, u, o);
            && t.ignored == s.ignored && OnlyPair(s, t, u, o) && Strangers(t, u, o)
            && (Strangers(s, u, o) ==> t == s)
            && (r in s.rows && Of(r, u, o) ==> t.notices[NoticeOf(r)] == 0 && OnlyNotice(s, t, NoticeOf(r)))
  {
    hide Key;
    UniqueByPair(s.rows);
    if q :| q in s.rows && Of(q, u, o) {
      assert q in {Row(u, o, true), Row(o, u, true), Row(u, o, false), Row(o, u, false)};
    }
  }

  /** Taking back a request takes back that one only: friends stay friends, and so does a request in the other
      direction. */
  lemma RemoveRequestExactly(s: Tables, sender: UserId, recipient: UserId)
    requires Sound(s)
    ensures var t := RemoveRequestStep(s, sender, recipient);
            && t.ignored == s.ignored && OnlyPair(s, t, sender, recipient)
            && !Waits(t, sender, recipient)
            && (Waits(s, sender, recipient) ==> Strangers(t, sender, recipient))
            && (!Waits(s, sender, recipient) ==> t.rows == s.rows)
            && t.notices[Asked(recipient, sender)] == 0 && OnlyNotice(s, t, Asked(recipient, sender))
  {
    hide Key;
    UniqueByPair(s.rows);
  }

  /** Ignoring makes strangers of the user and those ignored, who must be others and no moderators. */
  lemma IgnoreExactly(s: Tables, u: UserId, others: set<UserId>, mods: set<UserId>, a: UserId, b: UserId)
    requires u != 0 && 0 !in others
    ensures var t, refused := IgnoreStep(s, u, others, mods), u in others || exists o <- others :: o in mods;
            && t.notices == s.notices
            && (refused ==> t == s)
            && (!refused ==> (Ignores(t, a, b) <==> Ignores(s, a, b) || (a == u && b in others)))
            && (!refused && ((a == u && b in others) || (b == u && a in others)) ==> Strangers(t, a, b))
            && (!(a == u && b in others) && !(b == u && a in others) ==>
                  forall pending :: Row(a, b, pending) in t.rows <==> Row(a, b, pending) in s.rows)
  {
    if o :| o in others && o in mods {
      assert o in others * mods;
    }
  }

  lemma UnignoreExactly(s: Tables, u: UserId, others: set<UserId>, a: UserId, b: UserId)
    ensures var t := Step(s, Unignore(u, others));
            && t == s.(ignored := t.ignored)
            && (Ignores(t, a, b) <==> Ignores(s, a, b) && !(a == u && b in others))
  {}

  /** Users can be left with any of their notices, and nothing else changes then. */
  lemma DismissExactly(s: Tables, kept: multiset<Notice>)
    requires kept <= s.notices
    ensures Step(s, Dismiss(kept)) == s.(notices := kept)
  {
    assert s.notices * kept == kept;
  }

  /** Whoever asked has asked still, or is a friend. */
  ghost predicate AskedKnown(s: Tables) {
    forall p <- s.asked :: Waits(s, p.0, p.1) || Befriended(s, p.0, p.1)
  }

  lemma StepAskedKnown(s: Tables, op: Operation)
    requires Sound(s) && AskedKnown(s)
    ensures AskedKnown(Step(s, op))
  {
    hide Key;
    UniqueByPair(s.rows);
    match op
    case Request(u, o) => RequestExactly(s, u, o);
    case Ignore(u, others, mods) => IgnoreAskedKnown(s, u, others, mods);
    case _ =>
  }

  lemma IgnoreAskedKnown(s: Tables, u: UserId, others: set<UserId>, mods: set<UserId>)
    requires Sound(s) && AskedKnown(s)
    ensures AskedKnown(IgnoreStep(s, u, others, mods))
  {
    hide Sound;
    var t := IgnoreStep(s, u, others, mods);
    forall p <- t.asked ensures Waits(t, p.0, p.1) || Befriended(t, p.0, p.1) {
      assert p in s.asked;
    }
  }

  lemma {:induction false} RunAskedKnown(s: Tables, ops: seq<Operation>)
    requires Sound(s) && AskedKnown(s)
    ensures AskedKnown(Run(s, ops))
    decreases |ops|
  {
    hide Step, Sound, AskedKnown;
    if ops != [] {
      StepSound(s, ops[0]);
      StepAskedKnown(s, ops[0]);
      RunAskedKnown(Step(s, ops[0]), ops[1..]);
    }
  }

  // ---------- What that means for users ----------

  /** `check`. */
  predicate AreFriends(s: Tables, a: UserId, b: UserId) {
    a != 0 && b != 0 && (a == b || Row(a, b, false) in s.rows || Row(b, a, false) in s.rows)
  }

  /** Two users are friends exactly if each has asked the other since they last had nothing to do with each other, and
      one waits for the other exactly if only that one has. */
  lemma FriendsBothAsked(ops: seq<Operation>, a: UserId, b: UserId)
    requires a != b && a != 0 && b != 0
    ensures var s := Run(EMPTY, ops);
            && (AreFriends(s, a, b) <==> AreFriends(s, b, a))
            && (AreFriends(s, a, b) <==> (a, b) in s.asked && (b, a) in s.asked)
            && (Waits(s, a, b) <==> (a, b) in s.asked && (b, a) !in s.asked)
  {
    RunKeeps(EMPTY, ops);
    RunAskedKnown(EMPTY, ops);
    var s := Run(EMPTY, ops);
    hide Key, Run;
    UniqueByPair(s.rows);
  }

  /** Whatever was before, two users who ask each other are friends. */
  lemma MutualRequestsBefriend(s: Tables, a: UserId, b: UserId)
    requires Sound(s) && a != 0 && b != 0 && !Ignores(s, a, b) && !Ignores(s, b, a)
    ensures AreFriends(RequestStep(RequestStep(s, a, b), b, a), a, b)
  {}

  /** Without ignoring, a pair has one notice at most, and none once one of them has ended what they had. */
  lemma PairHasOneNotice(ops: seq<Operation>, n: Notice, m: Notice)
    requires forall op <- ops :: !op.Ignore?
    ensures var notices := Run(EMPTY, ops).notices;
            n in notices && m in notices && SamePair(n.to, n.from, m.to, m.from) ==> n == m && notices[n] == 1
    ensures SamePair(n.to, n.from, m.to, m.from) ==> n !in RemoveStep(Run(EMPTY, ops), m.to, m.from).notices
  {
    RunKeeps(EMPTY, ops);
    var s := Run(EMPTY, ops);
    hide Key, Run;
    UniqueByPair(s.rows);
    if SamePair(n.to, n.from, m.to, m.from) {
      RemoveTellsNobody(s, m.to, m.from, n);
      if n in s.notices && m in s.notices {
        assert s.notices[n] > 0 && s.notices[m] > 0 && ExactAt(s, n) && ExactAt(s, m);
        assert RowOf(n) in s.rows && RowOf(m) in s.rows;
        assert RowOf(n) == RowOf(m);
        assert NoticeOf(RowOf(n)) == NoticeOf(RowOf(m));
      }
    }
  }

  lemma RemoveTellsNobody(s: Tables, a: UserId, b: UserId, n: Notice)
    requires Sound(s) && Exact(s) && SamePair(n.to, n.from, a, b)
    ensures n !in RemoveStep(s, a, b).notices
  {
    hide Key;
    UniqueByPair(s.rows);
    if s.notices[n] > 0 {
      assert ExactAt(s, n);
      assert RowOf(n) in s.rows && Of(RowOf(n), a, b);
      assert NoticeOf(RowOf(n)) == n;
    }
  }

  /** Ignoring someone and making up again can leave two notices of the same friendship. */
  lemma IgnoringDoublesNotices()
    ensures var befriend := [Request(1, 2), Request(2, 1)];
            Run(EMPTY, befriend + [Ignore(1, {2}, {}), Unignore(1, {2})] + befriend).notices[Accepted(1, 2)] == 2
  {
    var befriend, apart := [Request(1, 2), Request(2, 1)], [Ignore(1, {2}, {}), Unignore(1, {2})];
    var friends, strangers := Run(EMPTY, befriend), Run(EMPTY, befriend + apart);
    RunConcat(EMPTY, befriend, apart);
    RunConcat(EMPTY, befriend + apart, befriend);
    assert friends.rows == {Row(1, 2, false)} && friends.ignored == {} && friends.notices[Accepted(1, 2)] == 1 by {
      Befriend(EMPTY);
    }
    assert strangers.rows == {} && strangers.ignored == {} && strangers.notices[Accepted(1, 2)] == 1 by {
      RunTwo(friends, apart[0], apart[1]);
    }
    Befriend(strangers);
  }

  lemma Befriend(s: Tables)
    requires s.rows == {} && s.ignored == {}
    ensures var t := Run(s, [Request(1, 2), Request(2, 1)]);
            && t.rows == {Row(1, 2, false)} && t.ignored == {}
            && t.notices[Accepted(1, 2)] == s.notices[Accepted(1, 2)] + 1
  {}

  lemma RunTwo(s: Tables, a: Operation, b: Operation)
    ensures Run(s, [a, b]) == Step(Step(s, a), b)
  {
    hide Step;
    assert [a, b][1..] == [b] && [b][1..] == [];
    assert Run(Step(s, a), [b]) == Run(Step(Step(s, a), b), []);
  }

  lemma {:induction false} RunConcat(s: Tables, a: seq<Operation>, b: seq<Operation>)
    ensures Run(s, a + b) == Run(Run(s, a), b)
    decreases |a|
  {
    hide Step;
    if a == [] {
      assert a + b == b;
    } else {
      assert (a + b)[1..] == a[1..] + b;
      RunConcat(Step(s, a[0]), a[1..], b);
    }
  }

  // ---------- The program ----------

  datatype Error = IgnoredYou | YouIgnored

  datatype Outcome = Done | Throw(error: Error)

  class Database {
    var rows: set<Row>
    var notices: multiset<Notice>
    var ignored: set<(UserId, UserId)>
    ghost var asked: set<(UserId, UserId)>

    constructor ()
      ensures Value() == EMPTY
    {
      rows, notices, ignored, asked := {}, multiset{}, {}, {};
    }

    ghost function Value(): Tables
      reads this
    {
      Tables(rows, notices, ignored, asked)
    }

    /** `ignoreuser.check`. */
    method Check(a: UserId, b: UserId) returns (r: bool)
      ensures r == Ignores(Value(), a, b)
    {
      r := a != 0 && b != 0 && (a, b) in ignored;
    }

    method RemoveNotices(n: Notice)
      modifies this`notices
      ensures notices == old(notices)[n := 0]
    {
      notices := notices[n := 0];
    }

    method InsertNotice(n: Notice)
      modifies this`notices
      ensures notices == old(notices) + multiset{n}
    {
      notices := notices + multiset{n};
    }

    /** `request`: on a conflict the row with the same key is updated if it is a request in the other direction. */
    method Request(u: UserId, o: UserId) returns (r: Outcome)
      requires Sound(Value())
      modifies this
      ensures Value() == RequestStep(old(Value()), u, o) && Sound(Value())
      ensures r == if Ignores(old(Value()), o, u) then Throw(IgnoredYou)
                   else if Ignores(old(Value()), u, o) then Throw(YouIgnored) else Done
    {
      RequestSound(Value(), u, o);
      ConflictIsPair(rows, u, o);
      hide Key, Sound, Of, Unique;
      var ignores := Check(o, u);
      if ignores { return Throw(IgnoredYou); }
      ignores := Check(u, o);
      if ignores { return Throw(YouIgnored); }
      if exists q <- rows :: Key(q.userid, q.otherid) == Key(u, o) {
        var q :| q in rows && Key(q.userid, q.otherid) == Key(u, o);
        if q.userid == o && q.otherid == u && q.pending {
          rows := rows - {q} + {q.(pending := false)};
          RemoveNotices(Asked(u, o));
          InsertNotice(Accepted(o, u));
        }
      } else {
        rows := rows + {Row(u, o, true)};
        RemoveNotices(Asked(o, u));
        InsertNotice(Asked(o, u));
      }
      asked := asked + {(u, o)};
      r := Done;
    }

    /** `remove`. */
    method Remove(u: UserId, o: UserId)
      requires Sound(Value())
      modifies this
      ensures Value() == RemoveStep(old(Value()), u, o) && Sound(Value())
    {
      RemoveSound(Value(), u, o);
      ghost var s := Value();
      var found := set q <- rows | (q.userid == u && q.otherid == o) || (q.userid == o && q.otherid == u);
      if found == {} {
        RemoveNothing(s, u, o, found);
        return;
      }
      var q :| q in found;
      RemoveOne(s, u, o, found, q);
      hide *;
      rows := rows - found;
      if q.pending {
        RemoveNotices(Asked(q.otherid, q.userid));
      } else {
        RemoveNotices(Accepted(q.userid, q.otherid));
      }
      asked := Forget(asked, u, o);
    }

    /** `remove_request`. */
    method RemoveRequest(sender: UserId, recipient: UserId)
      requires Sound(Value())
      modifies this
      ensures Value() == RemoveRequestStep(old(Value()), sender, recipient) && Sound(Value())
    {
      RemoveRequestSound(Value(), sender, recipient);
      if Row(sender, recipient, true) in rows {
        asked := Forget(asked, sender, recipient);
      }
      rows := rows - {Row(sender, recipient, true)};
      RemoveNotices(Asked(recipient, sender));
    }
  }

  lemma RemoveNothing(s: Tables, u: UserId, o: UserId, found: set<Row>)
    requires found == {} && forall q <- s.rows :: Of(q, u, o) ==> q in found
    ensures RemoveStep(s, u, o) == s
  {}

  lemma RemoveOne(s: Tables, u: UserId, o: UserId, found: set<Row>, q: Row)
    requires Sound(s) && q in found && forall r :: r in found <==> r in s.rows && Of(r, u, o)
    ensures found == {q}
    ensures RemoveStep(s, u, o)
         == Tables(s.rows - {q},
           s.notices[if q.pending then Asked(q.otherid, q.userid) else Accepted(q.userid, q.otherid) := 0],
                   s.ignored, Forget(s.asked, u, o))
  {
    hide Key;
    UniqueByPair(s.rows);
  }

  lemma ConflictIsPair(rows: set<Row>, u: UserId, o: UserId)
    requires Unique(rows)
    ensures forall q <- rows :: Key(q.userid, q.otherid) == Key(u, o) <==> Of(q, u, o)
    ensures Row(o, u, true) in rows ==>
              forall q <- rows :: Key(q.userid, q.otherid) == Key(u, o) <==> q == Row(o, u, true)
  {
    UniqueByPair(rows);
    forall q <- rows ensures Key(q.userid, q.otherid) == Key(u, o) <==> Of(q, u, o) {
      KeyIdentifiesPair(q.userid, q.otherid, u, o);
    }
  }
}
