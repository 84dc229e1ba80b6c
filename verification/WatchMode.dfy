/** The incremental rebuild machine of `build.ts --watch`.

    JavaScript runs one callback at a time, so a run of the program is a sequence of steps:
    a watcher event, the debounce timer, the end of a build.  `Step` says what each does to
    the variables of `main`; `Watcher` is the same code with its loops and assignments. */
module WatchMode {
  import opened Options

  /** `Done` carries the inputs that the run reported; a run stays `Pending` until a build has awaited it. */
  datatype Outcome = Pending | Failed | Done(inputs: set<string>)

  datatype Run = Run(start: nat, outcome: Outcome)

  datatype Condition = Set | Unset | Handled

  /** The variables of `main`, `LimitOne` and `debounce`; then a clock and the history that the claims are about.
      `missed` is the last rescan that was acted on while a failed build had left nothing in `watchMap`. */
  datatype State = State(
    runs: seq<Option<Run>>,
    watchMap: map<string, set<nat>>,
    buildFailed: Condition,
    changes: set<string>,
    changesUnknown: Condition,
    running: bool,
    timer: bool,
    now: nat,
    buildStart: nat,
    reported: map<string, nat>,
    rescanned: Option<nat>,
    missed: Option<nat>)

  datatype Event =
    | Report(paths: set<string>, rescan: bool)
    | TimerFires(attempted: set<nat>)
    | BuildEnds(ok: bool, outcomes: seq<Outcome>)

  // ---------- Pieces of the machine ----------

  function Drop(runs: seq<Option<Run>>, tasks: set<nat>): seq<Option<Run>> {
    seq(|runs|, i requires 0 <= i < |runs| => if i in tasks then None else runs[i])
  }

  /** Tasks listed in `watchMap` for any of `paths`. */
  function Watching(watchMap: map<string, set<nat>>, paths: set<string>): set<nat> {
    set p, i | p in paths && p in watchMap && i in watchMap[p] :: i
  }

  predicate HasInput(runs: seq<Option<Run>>, i: nat, p: string) {
    i < |runs| && runs[i].Some? && runs[i].value.outcome.Done? && p in runs[i].value.outcome.inputs
  }

  function WatchMapOf(runs: seq<Option<Run>>): map<string, set<nat>> {
    var paths := set i: nat, p | i < |runs| && runs[i].Some? && runs[i].value.outcome.Done?
                              && p in runs[i].value.outcome.inputs :: p;
    map p | p in paths :: set i: nat | i < |runs| && HasInput(runs, i, p)
  }

  /** `debouncedRebuildIfNeeded`. */
  function React(s: State): State {
    if s.changesUnknown != Unset then
      if s.changesUnknown == Handled then s.(changes := {})
      else s.(runs := Drop(s.runs, Watching(s.watchMap, s.watchMap.Keys)),
              timer := true, changesUnknown := Handled, changes := {})
    else if s.buildFailed != Unset && s.changes != {} then
      if s.buildFailed == Handled then s.(changes := {})
      else s.(runs := seq(|s.runs|, _ => None), timer := true, buildFailed := Handled, changes := {})
    else
      s.(runs := Drop(s.runs, Watching(s.watchMap, s.changes)),
         timer := s.timer || s.changes * s.watchMap.Keys != {},
         changes := {})
  }

  /** The synchronous half of `rebuild`: the null runs among `attempted` start now. A `run` that throws at once cuts
      it short. */
  function StartBuild(s: State, attempted: set<nat>): State {
    s.(runs := seq(|s.runs|, i requires 0 <= i < |s.runs| =>
         if s.runs[i].None? && i in attempted then Some(Run(s.now, Pending)) else s.runs[i]),
       watchMap := map[], buildFailed := Unset, buildStart := s.now)
  }

  function Settle(runs: seq<Option<Run>>, outcomes: seq<Outcome>): seq<Option<Run>>
    requires |outcomes| == |runs|
  {
    seq(|runs|, i requires 0 <= i < |runs| =>
      if runs[i].Some? && runs[i].value.outcome.Pending? then Some(Run(runs[i].value.start, outcomes[i])) else runs[i])
  }

  predicate AllDone(runs: seq<Option<Run>>) {
    forall i :: 0 <= i < |runs| ==> runs[i].Some? && runs[i].value.outcome.Done?
  }

  /** The rest of `rebuild`, once every started run has settled. */
  function EndBuild(s: State, ok: bool, outcomes: seq<Outcome>): State
    requires |outcomes| == |s.runs|
  {
    var runs := Settle(s.runs, outcomes);
    if ok then s.(runs := runs, watchMap := WatchMapOf(runs))
    else s.(runs := runs, watchMap := map[], buildFailed := Set)
  }

  /** What can happen: only a build that runs ends, and it ends well only if every task has a good result. */
  predicate Enabled(s: State, e: Event) {
    match e
    case Report(_, _) => true
    case TimerFires(_) => s.timer
    case BuildEnds(ok, outcomes) =>
      s.running && |outcomes| == |s.runs| && (ok ==> AllDone(Settle(s.runs, outcomes)))
  }

  function Notice(s: State, paths: set<string>, rescan: bool): State {
    s.(changes := s.changes + paths,
       changesUnknown := if rescan && s.changesUnknown == Unset then Set else s.changesUnknown,
       reported := s.reported + map p | p in paths :: s.now,
       rescanned := if rescan then Some(s.now) else s.rescanned)
  }

  /** A rescan that is acted on after a failed build, when `watchMap` is empty: at once, or when a build fails that it
      came during. */
  predicate RescanAfterFailure(s: State, e: Event) {
    match e
    case Report(_, rescan) => !s.running && rescan && s.changesUnknown == Unset && s.buildFailed == Set
    case TimerFires(_) => false
    case BuildEnds(ok, _) => !ok && s.changesUnknown == Set
  }

  function Step(s: State, e: Event): State
    requires Enabled(s, e)
  {
    var t := match e {
      case Report(paths, rescan) =>
        var t := Notice(s, paths, rescan);
        if s.running then t else React(t)
      case TimerFires(attempted) =>
        if s.running then s.(timer := false)
        else StartBuild(s.(timer := false, running := true, changes := {}, changesUnknown := Unset), attempted)
      case BuildEnds(ok, outcomes) =>
        React(EndBuild(s, ok, outcomes)).(running := false)
    };
    t.(now := s.now + 1, missed := if RescanAfterFailure(s, e) then t.rescanned else s.missed)
  }

  function Blank(n: nat): State {
    State(seq(n, _ => None), map[], Unset, {}, Unset, false, false, 0, 0, map[], None, None)
  }

  /** The first build runs to its end before anything is watched. */
  function Initial(n: nat, attempted: set<nat>): State {
    StartBuild(Blank(n), attempted)
  }

  predicate Starts(s: State, n: nat, attempted: set<nat>, ok: bool, outcomes: seq<Outcome>) {
    && |outcomes| == n
    && (ok ==> AllDone(Settle(Initial(n, attempted).runs, outcomes)))
    && s == EndBuild(Initial(n, attempted), ok, outcomes).(now := 1)
  }

  // ---------- What must not happen ----------

  /** The run began after the last report of a change to any of its inputs. */
  ghost predicate Fresh(s: State, r: Run) {
    r.outcome.Done? ==>
      && (forall p :: p in r.outcome.inputs && p in s.reported ==> s.reported[p] < r.start)
      && (r.outcome.inputs != {} && s.rescanned.Some? ==> s.rescanned.value < r.start)
  }

  /** Idle after a good build, every run is up to date, or is null and a rebuild is coming. */
  ghost predicate NoChangeLost(s: State) {
    !s.running && s.buildFailed == Unset ==>
      forall i :: 0 <= i < |s.runs| ==>
        match s.runs[i]
        case None => s.timer
        case Some(r) => r.outcome.Done? && Fresh(s, r)
  }

  // ---------- The invariant ----------

  /** No missed rescan concerns the run: it reads nothing, or it started after the last one. */
  predicate Spared(s: State, r: Run) {
    r.outcome.Done? && r.outcome.inputs != {} && s.missed.Some? ==> s.missed.value < r.start
  }

  /** `Fresh`, or stale in a way that the check at the end of the build will notice. */
  ghost predicate FreshOrDeferred(s: State, r: Run) {
    r.outcome.Done? ==>
      && (forall p :: p in r.outcome.inputs && p in s.reported ==> s.reported[p] < r.start || p in s.changes)
      && (r.outcome.inputs != {} && s.rescanned.Some? ==> s.rescanned.value < r.start || s.changesUnknown == Set)
  }

  ghost predicate Building(s: State) {
    && !s.timer && s.buildFailed == Unset && s.changesUnknown != Handled && s.watchMap == map[]
    && (forall p :: p in s.reported && s.reported[p] >= s.buildStart ==> p in s.changes)
    && (s.changesUnknown == Set <==> s.rescanned.Some? && s.rescanned.value >= s.buildStart)
    && forall i :: 0 <= i < |s.runs| && s.runs[i].Some? ==>
         var r := s.runs[i].value;
         && r.start <= s.buildStart
         && (Missed(s, r) || (r.outcome.Pending? && r.start == s.buildStart)
           || (r.outcome.Done? && FreshOrDeferred(s, r)))
  }

  /** The run was there when the last rescan was missed. */
  predicate Missed(s: State, r: Run) {
    s.missed.Some? && r.start <= s.missed.value
  }

  /** After a missed rescan: a build will come, but runs were kept for it. */
  ghost predicate Forgetful(s: State) {
    && s.timer && s.changesUnknown == Handled && s.watchMap == map[] && s.missed.Some?
    && forall i :: 0 <= i < |s.runs| && s.runs[i].Some? ==> Missed(s, s.runs[i].value)
  }

  ghost predicate Watched(s: State, i: nat)
    requires i < |s.runs| && s.runs[i].Some? && s.runs[i].value.outcome.Done?
  {
    forall p :: p in s.runs[i].value.outcome.inputs ==> p in s.watchMap && i in s.watchMap[p]
  }

  ghost predicate IdleAfterSuccess(s: State) {
    && (s.changesUnknown == Handled ==> s.timer)
    && forall i :: 0 <= i < |s.runs| ==>
         match s.runs[i]
         case None => s.timer
         case Some(r) =>
           && r.outcome.Done? && (Spared(s, r) ==> Fresh(s, r)) && Watched(s, i)
           && (s.changesUnknown == Handled ==> r.outcome.inputs == {})
  }

  /** All that has happened lies in the past. */
  ghost predicate Past(s: State) {
    && (forall p :: p in s.reported ==> s.reported[p] < s.now)
    && (s.rescanned.Some? ==> s.rescanned.value < s.now)
    && (s.missed.Some? ==> s.rescanned.Some? && s.missed.value <= s.rescanned.value)
    && s.buildStart < s.now
    && (forall i :: 0 <= i < |s.runs| && s.runs[i].Some? ==> s.runs[i].value.start < s.now)
  }

  ghost predicate Idle(s: State) {
    && s.changes == {} && s.changesUnknown != Set
    && match s.buildFailed
       case Unset => IdleAfterSuccess(s)
       case Set => Forgetful(s) || (!s.timer && s.changesUnknown == Unset && s.watchMap == map[])
       case Handled => s.timer && forall i :: 0 <= i < |s.runs| ==> s.runs[i].None?
  }

  ghost predicate Inv(s: State) {
    Past(s) && if s.running then Building(s) else Idle(s)
  }

  lemma InitialInv(s: State, n: nat, attempted: set<nat>, ok: bool, outcomes: seq<Outcome>)
    requires Starts(s, n, attempted, ok, outcomes)
    ensures Inv(s) && |s.runs| == n
  {
    if ok {
      forall i | 0 <= i < n ensures s.runs[i].Some? && Watched(s, i) {
        forall p | p in s.runs[i].value.outcome.inputs ensures p in s.watchMap && i in s.watchMap[p] {
          assert HasInput(s.runs, i, p);
        }
      }
    }
  }

  /** Ready for `React` after a good build: all that is stale is still noted in `changes` or `changesUnknown`. */
  ghost predicate Reviewable(s: State) {
    && s.buildFailed == Unset
    && (s.changesUnknown == Handled ==> s.timer)
    && forall i :: 0 <= i < |s.runs| ==>
         match s.runs[i]
         case None => s.timer
         case Some(r) =>
           && r.outcome.Done? && Watched(s, i)
           && if s.changesUnknown == Handled then r.outcome.inputs == {} else Spared(s, r) ==> FreshOrDeferred(s, r)
  }

  /** A run that `React` keeps has no input among the changes it read. */
  lemma KeptIsFresh(s: State, i: nat)
    requires Reviewable(s) && i < |s.runs| && React(s).runs[i].Some?
    ensures Spared(s, s.runs[i].value) ==> Fresh(React(s), React(s).runs[i].value)
    ensures React(s).runs[i] == s.runs[i] && Watched(React(s), i)
    ensures React(s).changesUnknown == Handled ==> React(s).runs[i].value.outcome.inputs == {}
  {
    var r := s.runs[i].value;
    assert Watched(s, i) && React(s).runs[i] == Some(r);
    assert s.changesUnknown == Unset ==> i !in Watching(s.watchMap, s.changes);
    assert s.changesUnknown == Set ==> i !in Watching(s.watchMap, s.watchMap.Keys);
  }

  lemma ReactKeepsUp(s: State)
    requires Reviewable(s)
    ensures IdleAfterSuccess(React(s))
  {
    var t := React(s);
    forall i | 0 <= i < |t.runs|
      ensures match t.runs[i]
              case None => t.timer
              case Some(r) =>
                && r.outcome.Done? && (Spared(t, r) ==> Fresh(t, r)) && Watched(t, i)
                && (t.changesUnknown == Handled ==> r.outcome.inputs == {})
    {
      if t.runs[i].Some? {
        KeptIsFresh(s, i);
      } else if s.runs[i].Some? && s.changesUnknown == Unset {
        var p :| p in s.changes && p in s.watchMap && i in s.watchMap[p];
        assert p in s.changes * s.watchMap.Keys;
      }
    }
  }

  lemma NoticeReviewable(s: State, paths: set<string>, rescan: bool)
    requires Inv(s) && !s.running && s.buildFailed == Unset
    ensures Reviewable(Notice(s, paths, rescan))
  {}

  lemma NoticeBuilding(s: State, paths: set<string>, rescan: bool)
    requires Inv(s) && s.running
    ensures Building(Notice(s, paths, rescan))
  {}

  lemma ReactIsPast(s: State)
    ensures React(s).reported == s.reported && React(s).rescanned == s.rescanned && React(s).missed == s.missed
    ensures React(s).now == s.now && React(s).buildStart == s.buildStart && |React(s).runs| == |s.runs|
    ensures forall i :: 0 <= i < |s.runs| && React(s).runs[i].Some? ==> React(s).runs[i] == s.runs[i]
  {
    hide Watching;
  }

  lemma ReportPast(s: State, paths: set<string>, rescan: bool)
    requires Past(s)
    ensures Past(Step(s, Report(paths, rescan)))
  {
    ReactIsPast(Notice(s, paths, rescan));
    hide React;
  }

  /** `React` after a failure: nothing is watched, so it drops all runs or none. */
  lemma ReactAfterFailure(u: State)
    requires u.buildFailed != Unset && u.watchMap == map[]
    ensures var t := React(u);
            if u.changesUnknown == Set then
              t == u.(timer := true, changesUnknown := Handled, changes := {})
            else if u.changesUnknown == Handled || u.changes == {} || u.buildFailed == Handled then
              t == u.(changes := {})
            else
              t == u.(runs := seq(|u.runs|, _ => None), timer := true, buildFailed := Handled, changes := {})
  {
    assert Watching(u.watchMap, u.watchMap.Keys) == {} && Watching(u.watchMap, u.changes) == {};
    assert Drop(u.runs, {}) == u.runs;
  }

  lemma ReportAfterFailure(s: State, paths: set<string>, rescan: bool)
    requires Inv(s) && !s.running && s.buildFailed == Set
    ensures Idle(Step(s, Report(paths, rescan)))
  {
    ReactAfterFailure(Notice(s, paths, rescan));
    hide React, IdleAfterSuccess;
  }

  lemma ReportAfterHandled(s: State, paths: set<string>, rescan: bool)
    requires Inv(s) && !s.running && s.buildFailed == Handled
    ensures Idle(Step(s, Report(paths, rescan)))
  {
    var u := Notice(s, paths, rescan);
    assert Drop(u.runs, Watching(u.watchMap, u.watchMap.Keys)) == u.runs;
    assert Drop(u.runs, Watching(u.watchMap, u.changes)) == u.runs;
    hide Watching, Drop, IdleAfterSuccess;
  }

  lemma ReportAfterSuccess(s: State, paths: set<string>, rescan: bool)
    requires Inv(s) && !s.running && s.buildFailed == Unset
    ensures Idle(Step(s, Report(paths, rescan)))
  {
    var u := Notice(s, paths, rescan);
    NoticeReviewable(s, paths, rescan);
    ReactKeepsUp(u);
    ReactSettles(u);
    hide React, Reviewable, Watched, Fresh;
    AnotherTime(React(u), s.now + 1);
  }

  lemma ReactSettles(s: State)
    requires s.buildFailed == Unset
    ensures React(s).changes == {} && React(s).changesUnknown != Set && React(s).buildFailed == Unset
    ensures React(s).running == s.running
  {
    hide Watching, Drop;
  }

  lemma AnotherTime(s: State, now: nat)
    requires IdleAfterSuccess(s)
    ensures IdleAfterSuccess(s.(now := now))
  {}

  lemma ReportInv(s: State, paths: set<string>, rescan: bool)
    requires Inv(s)
    ensures Inv(Step(s, Report(paths, rescan)))
  {
    ReportPast(s, paths, rescan);
    if s.running {
      NoticeBuilding(s, paths, rescan);
      hide Past, Idle, React;
    } else {
      match s.buildFailed
      case Unset => ReportAfterSuccess(s, paths, rescan); hide Past, Idle;
      case Set => ReportAfterFailure(s, paths, rescan); hide Past, Idle;
      case Handled => ReportAfterHandled(s, paths, rescan); hide Past, Idle;
    }
  }

  lemma TimerInv(s: State, attempted: set<nat>)
    requires Inv(s) && s.timer
    ensures !s.running && Inv(Step(s, TimerFires(attempted)))
  {}

  lemma EndReviewable(s: State, outcomes: seq<Outcome>)
    requires Inv(s) && Enabled(s, BuildEnds(true, outcomes))
    ensures Reviewable(EndBuild(s, true, outcomes))
  {
    var u := EndBuild(s, true, outcomes);
    forall i | 0 <= i < |u.runs|
      ensures Watched(u, i) && (Spared(u, u.runs[i].value) ==> FreshOrDeferred(u, u.runs[i].value))
    {
      forall p | p in u.runs[i].value.outcome.inputs ensures p in u.watchMap && i in u.watchMap[p] {
        assert HasInput(u.runs, i, p);
      }
    }
  }

  lemma EndPast(s: State, ok: bool, outcomes: seq<Outcome>)
    requires Past(s) && Enabled(s, BuildEnds(ok, outcomes))
    requires RescanAfterFailure(s, BuildEnds(ok, outcomes)) ==> s.rescanned.Some?
    ensures Past(Step(s, BuildEnds(ok, outcomes)))
  {
    ReactIsPast(EndBuild(s, ok, outcomes));
    hide React, WatchMapOf;
  }

  lemma BuildFails(s: State, outcomes: seq<Outcome>)
    requires Inv(s) && Enabled(s, BuildEnds(false, outcomes))
    ensures Idle(Step(s, BuildEnds(false, outcomes)))
  {
    ReactAfterFailure(EndBuild(s, false, outcomes));
    hide React, IdleAfterSuccess;
  }

  lemma BuildSucceeds(s: State, outcomes: seq<Outcome>)
    requires Inv(s) && Enabled(s, BuildEnds(true, outcomes))
    ensures Idle(Step(s, BuildEnds(true, outcomes)))
  {
    var u := EndBuild(s, true, outcomes);
    EndReviewable(s, outcomes);
    ReactKeepsUp(u);
    ReactSettles(u);
    hide React, Reviewable, WatchMapOf, Watched, Fresh;
    AfterBuild(React(u), s.now + 1);
  }

  lemma AfterBuild(s: State, now: nat)
    requires IdleAfterSuccess(s)
    ensures IdleAfterSuccess(s.(running := false, now := now))
  {}

  lemma BuildEndsInv(s: State, ok: bool, outcomes: seq<Outcome>)
    requires Inv(s) && Enabled(s, BuildEnds(ok, outcomes))
    ensures Inv(Step(s, BuildEnds(ok, outcomes)))
  {
    EndPast(s, ok, outcomes);
    if ok {
      BuildSucceeds(s, outcomes);
    } else {
      BuildFails(s, outcomes);
    }
    hide Past, Idle, React, EndBuild;
  }

  // ---------- Main results ----------

  /** A sequence of events that can happen from `s`. */
  ghost predicate CanHappen(s: State, es: seq<Event>)
    decreases |es|
  {
    es != [] ==> Enabled(s, es[0]) && CanHappen(Step(s, es[0]), es[1..])
  }

  ghost predicate NoRescanAfterFailure(s: State, es: seq<Event>)
    requires CanHappen(s, es)
    decreases |es|
  {
    es != [] ==> !RescanAfterFailure(s, es[0]) && NoRescanAfterFailure(Step(s, es[0]), es[1..])
  }

  /** Idle after a good build, no run is one that a missed rescan concerns. */
  ghost predicate AllSpared(s: State) {
    !s.running && s.buildFailed == Unset ==>
      forall i :: 0 <= i < |s.runs| && s.runs[i].Some? ==> Spared(s, s.runs[i].value)
  }

  /** In every state along the way changes are lost exactly to missed rescans, and the runner is never entered while
      it runs. */
  ghost predicate LostExactly(s: State, es: seq<Event>)
    requires CanHappen(s, es)
    decreases |es|
  {
    && (NoChangeLost(s) <==> AllSpared(s))
    && (es != [] ==> (es[0].TimerFires? ==> !s.running) && LostExactly(Step(s, es[0]), es[1..]))
  }

  /** In every state along the way no change is lost, and the runner is never entered while it runs. */
  ghost predicate SafeThroughout(s: State, es: seq<Event>)
    requires CanHappen(s, es)
    decreases |es|
  {
    && NoChangeLost(s)
    && (es != [] ==> (es[0].TimerFires? ==> !s.running) && SafeThroughout(Step(s, es[0]), es[1..]))
  }

  lemma LostIfMissed(s: State)
    requires Inv(s)
    ensures NoChangeLost(s) <==> AllSpared(s)
  {}

  lemma StepInv(s: State, e: Event)
    requires Inv(s) && Enabled(s, e)
    ensures Inv(Step(s, e)) && (e.TimerFires? ==> !s.running)
  {
    hide *;
    match e
    case Report(paths, rescan) => ReportInv(s, paths, rescan);
    case TimerFires(attempted) => TimerEnabled(s, attempted); TimerInv(s, attempted);
    case BuildEnds(ok, outcomes) => BuildEndsInv(s, ok, outcomes);
  }

  lemma TimerEnabled(s: State, attempted: set<nat>)
    requires Enabled(s, TimerFires(attempted))
    ensures s.timer
  {}

  lemma {:induction false} ExactFrom(s: State, es: seq<Event>)
    requires Inv(s) && CanHappen(s, es)
    ensures LostExactly(s, es)
    decreases |es|
  {
    hide Inv, Step, NoChangeLost, AllSpared;
    LostIfMissed(s);
    if es != [] {
      StepInv(s, es[0]);
      ExactFrom(Step(s, es[0]), es[1..]);
    }
  }

  /** Whatever the first build did, and whatever happens after it: changes are lost exactly to rescans that were
      missed. */
  lemma ChangesLostExactly(n: nat, attempted: set<nat>, ok: bool, outcomes: seq<Outcome>, s: State, es: seq<Event>)
    requires Starts(s, n, attempted, ok, outcomes) && CanHappen(s, es)
    ensures LostExactly(s, es)
  {
    InitialInv(s, n, attempted, ok, outcomes);
    ExactFrom(s, es);
  }

  lemma {:induction false} SafeFrom(s: State, es: seq<Event>)
    requires Inv(s) && CanHappen(s, es) && NoRescanAfterFailure(s, es) && s.missed.None?
    ensures SafeThroughout(s, es)
    decreases |es|
  {
    hide Inv;
    LostIfMissed(s);
    if es != [] {
      StepInv(s, es[0]);
      assert Step(s, es[0]).missed.None?;
      hide Step, NoChangeLost;
      SafeFrom(Step(s, es[0]), es[1..]);
    }
  }

  /** Without such a rescan no change is ever lost. */
  lemma NoChangeIsLost(n: nat, attempted: set<nat>, ok: bool, outcomes: seq<Outcome>, s: State, es: seq<Event>)
    requires Starts(s, n, attempted, ok, outcomes)
    requires CanHappen(s, es) && NoRescanAfterFailure(s, es)
    ensures SafeThroughout(s, es)
  {
    InitialInv(s, n, attempted, ok, outcomes);
    SafeFrom(s, es);
  }

  /** After a failed build the next reported change makes every task run again. */
  lemma ChangeAfterFailure(s: State, paths: set<string>)
    requires Inv(s) && !s.running && s.buildFailed == Set && paths != {}
    ensures var t := Step(s, Report(paths, false));
            && t.timer
            && (if s.changesUnknown == Unset then forall i :: 0 <= i < |t.runs| ==> t.runs[i].None?
                else t.runs == s.runs && t.changes == {})
  {
    assert Notice(s, paths, false).changes != {};
  }

  // ---------- What every step does to the runs ----------

  /** What `watchMap` says is right: each path has a task, and a task that is listed read that path. */
  ghost predicate MapIsRight(s: State) {
    forall p <- s.watchMap ::
      && (exists i: nat :: i < |s.runs| && i in s.watchMap[p])
      && forall i: nat :: i < |s.runs| && i in s.watchMap[p] && s.runs[i].Some? ==>
           s.runs[i].value.outcome.Done? && p in s.runs[i].value.outcome.inputs
  }

  /** Reported since the build started. */
  predicate Since(s: State, p: string) {
    p in s.reported && s.reported[p] >= s.buildStart
  }

  predicate RescanSince(s: State) {
    s.rescanned.Some? && s.rescanned.value >= s.buildStart
  }

  ghost predicate Tidy(s: State) {
    MapIsRight(s) && (s.running ==> forall p :: p in s.changes <==> Since(s, p))
  }

  /** How run `i` of a build comes out. */
  function Settled(run: Option<Run>, outcome: Outcome): Option<Run> {
    if run.Some? && run.value.outcome.Pending? then Some(Run(run.value.start, outcome)) else run
  }

  predicate Reads(run: Option<Run>, p: string) {
    run.Some? && run.value.outcome.Done? && p in run.value.outcome.inputs
  }

  predicate ReadsSomething(run: Option<Run>) {
    run.Some? && run.value.outcome.Done? && run.value.outcome.inputs != {}
  }

  /** A run that a report makes stale. */
  ghost predicate Hit(run: Option<Run>, paths: set<string>, rescan: bool) {
    (rescan && ReadsSomething(run)) || exists p <- paths :: Reads(run, p)
  }

  /** A run that was made stale while it was being built. */
  ghost predicate HitSince(s: State, run: Option<Run>) {
    (RescanSince(s) && ReadsSomething(run)) || exists p <- s.reported :: Since(s, p) && Reads(run, p)
  }

  /** The report leaves all runs but those that it makes stale, and sets the timer for nothing else. */
  ghost predicate ReportDrops(s: State, paths: set<string>, rescan: bool, t: State)
    requires |t.runs| == |s.runs|
  {
    if s.running then t.runs == s.runs && t.timer == s.timer
    else if s.buildFailed == Unset then
      && (forall i :: 0 <= i < |s.runs| ==> t.runs[i] == if Hit(s.runs[i], paths, rescan) then None else s.runs[i])
      && (t.timer <==> s.timer || (rescan && s.changesUnknown == Unset)
                       || exists i :: 0 <= i < |s.runs| && Hit(s.runs[i], paths, rescan))
    else
      var first := s.buildFailed == Set && s.changesUnknown == Unset;
      && (forall i :: 0 <= i < |s.runs| ==> t.runs[i] == if first && !rescan && paths != {} then None else s.runs[i])
      && (t.timer <==> s.timer || (first && (rescan || paths != {})))
  }

  /** A build runs exactly the tasks that are null and reached. */
  ghost predicate TimerStarts(s: State, attempted: set<nat>, t: State)
    requires |t.runs| == |s.runs|
  {
    && t.running && !t.timer
    && forall i :: 0 <= i < |s.runs| ==>
         t.runs[i] == if s.runs[i].None? && i in attempted then Some(Run(s.now, Pending)) else s.runs[i]
  }

  /** At its end a good build drops the runs that were made stale meanwhile, and a bad one all or none. */
  ghost predicate EndDrops(s: State, ok: bool, outcomes: seq<Outcome>, t: State)
    requires |outcomes| == |s.runs| == |t.runs|
  {
    && !t.running
    && if ok then
         && (forall i :: 0 <= i < |s.runs| ==>
               t.runs[i] == var run := Settled(s.runs[i], outcomes[i]); if HitSince(s, run) then None else run)
         && (t.timer <==> RescanSince(s) || exists i ::
                            0 <= i < |s.runs| && HitSince(s, Settled(s.runs[i], outcomes[i])))
       else
         var changed := exists p <- s.reported :: Since(s, p);
         && (forall i :: 0 <= i < |s.runs| ==>
               t.runs[i] == if changed && !RescanSince(s) then None else Settled(s.runs[i], outcomes[i]))
         && (t.timer <==> RescanSince(s) || changed)
  }

  ghost predicate StepDrops(s: State, e: Event)
    requires Enabled(s, e)
  {
    var t := Step(s, e);
    && |t.runs| == |s.runs|
    && match e
       case Report(paths, rescan) => ReportDrops(s, paths, rescan, t)
       case TimerFires(attempted) => TimerStarts(s, attempted, t)
       case BuildEnds(ok, outcomes) => EndDrops(s, ok, outcomes, t)
  }

  /** `React` when `watchMap` is right and complete: exactly the runs that what is noted makes stale are dropped. */
  lemma ReactDrops(s: State)
    requires MapIsRight(s) && Reviewable(s)
    ensures |React(s).runs| == |s.runs|
    ensures forall i :: 0 <= i < |s.runs| ==>
              React(s).runs[i] == if Hit(s.runs[i], s.changes, s.changesUnknown != Unset) then None else s.runs[i]
    ensures React(s).timer <==>
            (s.timer || s.changesUnknown == Set
             || exists i :: 0 <= i < |s.runs| && Hit(s.runs[i], s.changes, s.changesUnknown != Unset))
  {
    forall i | 0 <= i < |s.runs|
      ensures React(s).runs[i] == if Hit(s.runs[i], s.changes, s.changesUnknown != Unset) then None else s.runs[i]
    {
      ReactDropsAt(s, i);
    }
    if s.changesUnknown == Unset && !s.timer && s.changes * s.watchMap.Keys != {} {
      var p :| p in s.changes * s.watchMap.Keys;
      var i: nat :| i < |s.runs| && i in s.watchMap[p];
      assert Reads(s.runs[i], p);
    }
    if i :| 0 <= i < |s.runs| && Hit(s.runs[i], s.changes, s.changesUnknown != Unset) {
      if s.changesUnknown == Unset {
        var p :| p in s.changes && Reads(s.runs[i], p);
        assert Watched(s, i);
        assert p in s.changes * s.watchMap.Keys;
      }
    }
  }

  lemma ReactDropsAt(s: State, i: nat)
    requires MapIsRight(s) && Reviewable(s) && i < |s.runs|
    ensures React(s).runs[i] == if Hit(s.runs[i], s.changes, s.changesUnknown != Unset) then None else s.runs[i]
  {
    var tasks := Watching(s.watchMap, if s.changesUnknown == Unset then s.changes else s.watchMap.Keys);
    if s.runs[i].Some? {
      assert Watched(s, i);
      var r := s.runs[i].value;
      if s.changesUnknown == Unset {
        assert i in tasks <==> exists p <- s.changes :: p in r.outcome.inputs;
      } else {
        if r.outcome.inputs != {} {
          var p :| p in r.outcome.inputs;
          assert p in s.watchMap && i in s.watchMap[p];
        }
        assert i in tasks <==> r.outcome.inputs != {};
      }
    }
  }

  ghost predicate SameButTime(t: State, r: State) {
    t == r.(now := t.now, missed := t.missed, running := t.running)
  }

  lemma ReportStep(s: State, paths: set<string>, rescan: bool)
    ensures var t, u := Step(s, Report(paths, rescan)), Notice(s, paths, rescan);
            SameButTime(t, if s.running then u else React(u)) && t.running == s.running
  {
    assert React(Notice(s, paths, rescan)).running == s.running by { hide Watching, Drop; }
    hide React, RescanAfterFailure;
  }

  lemma EndStep(s: State, ok: bool, outcomes: seq<Outcome>)
    requires Enabled(s, BuildEnds(ok, outcomes))
    ensures var t := Step(s, BuildEnds(ok, outcomes));
            SameButTime(t, React(EndBuild(s, ok, outcomes))) && !t.running
  {
    hide React, RescanAfterFailure, EndBuild;
  }

  lemma ReactKeepsMap(s: State)
    ensures React(s).watchMap == s.watchMap
  {
    hide Watching, Drop;
  }

  lemma MapStaysRight(s: State, t: State)
    requires MapIsRight(s) && t.watchMap == s.watchMap && |t.runs| == |s.runs|
    requires forall i :: 0 <= i < |s.runs| && t.runs[i].Some? ==> t.runs[i] == s.runs[i]
    ensures MapIsRight(t)
  {}

  lemma ReportTidy(s: State, paths: set<string>, rescan: bool)
    requires Inv(s) && Tidy(s)
    ensures Tidy(Step(s, Report(paths, rescan)))
  {
    var t, u := Step(s, Report(paths, rescan)), Notice(s, paths, rescan);
    ReportStep(s, paths, rescan);
    ReactIsPast(u);
    ReactKeepsMap(u);
    NotedSince(s, paths, rescan);
    assert t.watchMap == s.watchMap && |t.runs| == |s.runs|;
    hide React, Inv, Notice, Step;
    MapStaysRight(s, t);
    hide MapIsRight;
  }

  lemma NotedSince(s: State, paths: set<string>, rescan: bool)
    requires Past(s) && (s.running ==> forall p :: p in s.changes <==> Since(s, p))
    ensures var u := Notice(s, paths, rescan);
            s.running ==> forall p :: p in u.changes <==> Since(u, p)
  {}

  lemma EndTidy(s: State, ok: bool, outcomes: seq<Outcome>)
    requires Inv(s) && Tidy(s) && Enabled(s, BuildEnds(ok, outcomes))
    ensures Tidy(Step(s, BuildEnds(ok, outcomes)))
  {
    var t, u := Step(s, BuildEnds(ok, outcomes)), EndBuild(s, ok, outcomes);
    EndStep(s, ok, outcomes);
    EndIsRight(s, ok, outcomes);
    ReactIsPast(u);
    ReactKeepsMap(u);
    hide React, EndBuild, Inv, Step;
    MapStaysRight(u, t);
    hide MapIsRight;
  }

  lemma EndIsRight(s: State, ok: bool, outcomes: seq<Outcome>)
    requires Enabled(s, BuildEnds(ok, outcomes))
    ensures MapIsRight(EndBuild(s, ok, outcomes))
  {
    if ok {
      EndMapIsRight(EndBuild(s, ok, outcomes).runs);
    }
    hide WatchMapOf, Settle;
  }

  lemma EndMapIsRight(runs: seq<Option<Run>>)
    ensures forall p <- WatchMapOf(runs) ::
              && (exists i: nat :: i < |runs| && i in WatchMapOf(runs)[p])
              && forall i: nat :: i in WatchMapOf(runs)[p] ==> HasInput(runs, i, p)
  {
    hide WatchMapOf;
    forall p <- WatchMapOf(runs)
      ensures exists i: nat :: i < |runs| && i in WatchMapOf(runs)[p]
      ensures forall i: nat :: i in WatchMapOf(runs)[p] ==> HasInput(runs, i, p)
    {
      WatchMapAt(runs, p);
      var i: nat :| HasInput(runs, i, p);
      assert i < |runs| && i in WatchMapOf(runs)[p];
    }
  }

  lemma TimerTidy(s: State, attempted: set<nat>)
    requires Inv(s) && Tidy(s) && s.timer
    ensures Tidy(Step(s, TimerFires(attempted)))
  {
    TimerInv(s, attempted);
  }

  lemma StepTidy(s: State, e: Event)
    requires Inv(s) && Tidy(s) && Enabled(s, e)
    ensures Tidy(Step(s, e))
  {
    hide *;
    match e
    case Report(paths, rescan) => ReportTidy(s, paths, rescan);
    case TimerFires(attempted) => TimerEnabled(s, attempted); TimerTidy(s, attempted);
    case BuildEnds(ok, outcomes) => EndTidy(s, ok, outcomes);
  }

  lemma ReportDropsExactly(s: State, paths: set<string>, rescan: bool)
    requires Inv(s) && Tidy(s)
    ensures StepDrops(s, Report(paths, rescan))
  {
    ReportStep(s, paths, rescan);
    if s.running {
      hide Inv, Tidy;
    } else if s.buildFailed == Unset {
      ReportDropsStale(s, paths, rescan);
      hide *;
      ReportDropsIf(s, paths, rescan);
    } else {
      ReportDropsAll(s, paths, rescan);
      hide *;
      ReportDropsIf(s, paths, rescan);
    }
  }

  lemma ReportDropsIf(s: State, paths: set<string>, rescan: bool)
    requires var t := Step(s, Report(paths, rescan));
             |t.runs| == |s.runs| && ReportDrops(s, paths, rescan, t)
    ensures StepDrops(s, Report(paths, rescan))
  {
    hide Step, ReportDrops;
  }

  lemma ReportDropsStale(s: State, paths: set<string>, rescan: bool)
    requires Inv(s) && Tidy(s) && !s.running && s.buildFailed == Unset
    ensures var t := Step(s, Report(paths, rescan));
            |t.runs| == |s.runs| && ReportDrops(s, paths, rescan, t)
  {
    var u := Notice(s, paths, rescan);
    ReportStep(s, paths, rescan);
    NoticeReviewable(s, paths, rescan);
    assert MapIsRight(u) by { hide Inv; MapStaysRight(s, u); }
    HitAlike(s, paths, rescan);
    ReactDrops(u);
    NoticeFields(s, paths, rescan);
    IdleIsHandled(s);
    hide React, Reviewable, Inv, Tidy, Hit, Step, Notice, MapIsRight;
  }

  lemma IdleIsHandled(s: State)
    requires Inv(s) && !s.running
    ensures s.changesUnknown != Set && s.changes == {}
  {}

  lemma NoticeFields(s: State, paths: set<string>, rescan: bool)
    ensures var u := Notice(s, paths, rescan);
            && u.runs == s.runs && u.timer == s.timer && u.buildFailed == s.buildFailed && u.watchMap == s.watchMap
            && u.changes == s.changes + paths
            && (u.changesUnknown == Set <==> s.changesUnknown == Set || (rescan && s.changesUnknown == Unset))
            && (u.changesUnknown == Handled <==> s.changesUnknown == Handled)
  {}

  lemma ReportDropsAll(s: State, paths: set<string>, rescan: bool)
    requires Inv(s) && !s.running && s.buildFailed != Unset
    ensures var t := Step(s, Report(paths, rescan));
            |t.runs| == |s.runs| && ReportDrops(s, paths, rescan, t)
  {
    var u := Notice(s, paths, rescan);
    ReportStep(s, paths, rescan);
    NoticeFields(s, paths, rescan);
    if s.buildFailed == Set {
      assert s.watchMap == map[] && (s.changesUnknown != Unset ==> s.timer);
      IdleIsHandled(s);
      hide Inv, Step, Notice;
      ReactAfterFailure(u);
      hide React;
    } else {
      ReactIsPast(u);
      ReactKeepsTimer(u);
      hide React, Step, Notice;
    }
  }

  lemma ReactKeepsTimer(s: State)
    ensures s.timer ==> React(s).timer
  {
    hide Watching, Drop;
  }

  /** Where a rescan was handled before, no run that is left reads anything. */
  lemma HitAlike(s: State, paths: set<string>, rescan: bool)
    requires Inv(s) && !s.running && s.buildFailed == Unset
    ensures var u := Notice(s, paths, rescan);
            forall i :: 0 <= i < |s.runs| ==>
              (Hit(s.runs[i], u.changes, u.changesUnknown != Unset) <==> Hit(s.runs[i], paths, rescan))
  {}

  lemma TimerStartsExactly(s: State, attempted: set<nat>)
    requires Inv(s) && s.timer
    ensures StepDrops(s, TimerFires(attempted))
  {
    TimerInv(s, attempted);
  }

  lemma EndDropsExactly(s: State, ok: bool, outcomes: seq<Outcome>)
    requires Inv(s) && Tidy(s) && Enabled(s, BuildEnds(ok, outcomes))
    ensures StepDrops(s, BuildEnds(ok, outcomes))
  {
    if ok {
      GoodEndDrops(s, outcomes);
    } else {
      BadEndDrops(s, outcomes);
    }
    hide Step, EndDrops, Inv, Tidy;
  }

  lemma SettledRuns(s: State, ok: bool, outcomes: seq<Outcome>)
    requires Enabled(s, BuildEnds(ok, outcomes))
    ensures var u := EndBuild(s, ok, outcomes);
            && |u.runs| == |s.runs|
            && u.changes == s.changes && u.changesUnknown == s.changesUnknown && u.timer == s.timer
            && forall i :: 0 <= i < |s.runs| ==> u.runs[i] == Settled(s.runs[i], outcomes[i])
  {
    hide WatchMapOf;
  }

  lemma GoodEndDrops(s: State, outcomes: seq<Outcome>)
    requires Inv(s) && Tidy(s) && Enabled(s, BuildEnds(true, outcomes))
    ensures var t := Step(s, BuildEnds(true, outcomes));
            |t.runs| == |s.runs| == |outcomes| && EndDrops(s, true, outcomes, t)
  {
    var u := EndBuild(s, true, outcomes);
    assert |outcomes| == |s.runs| && s.running && !s.timer;
    hide *;
    EndStep(s, true, outcomes);
    EndReviewable(s, outcomes);
    EndIsRight(s, true, outcomes);
    SettledRuns(s, true, outcomes);
    HitMeansSince(s, u);
    ReactDrops(u);
    GoodEndFrom(s, outcomes, u, React(u), Step(s, BuildEnds(true, outcomes)));
  }

  lemma GoodEndFrom(s: State, outcomes: seq<Outcome>, u: State, r: State, t: State)
    requires |outcomes| == |s.runs| == |u.runs| == |r.runs| && SameButTime(t, r) && !t.running
    requires forall i :: 0 <= i < |s.runs| ==> u.runs[i] == Settled(s.runs[i], outcomes[i])
    requires forall i :: 0 <= i < |u.runs| ==>
               r.runs[i] == if Hit(u.runs[i], u.changes, u.changesUnknown != Unset) then None else u.runs[i]
    requires forall i :: 0 <= i < |u.runs| ==>
               (Hit(u.runs[i], u.changes, u.changesUnknown != Unset) <==> HitSince(s, u.runs[i]))
    requires r.timer <==>
             (RescanSince(s)
              || exists i :: 0 <= i < |u.runs| && Hit(u.runs[i], u.changes, u.changesUnknown != Unset))
    ensures |t.runs| == |s.runs| && EndDrops(s, true, outcomes, t)
  {
    hide Hit, HitSince, Settled, RescanSince;
    assert t.runs == r.runs && t.timer == r.timer;
    forall i | 0 <= i < |s.runs|
      ensures t.runs[i] == var run := Settled(s.runs[i], outcomes[i]); if HitSince(s, run) then None else run
    {
      assert u.runs[i] == Settled(s.runs[i], outcomes[i]);
    }
    if i :| 0 <= i < |u.runs| && Hit(u.runs[i], u.changes, u.changesUnknown != Unset) {
      assert HitSince(s, Settled(s.runs[i], outcomes[i]));
    }
    if i :| 0 <= i < |s.runs| && HitSince(s, Settled(s.runs[i], outcomes[i])) {
      assert Hit(u.runs[i], u.changes, u.changesUnknown != Unset);
    }
  }

  lemma BadEndDrops(s: State, outcomes: seq<Outcome>)
    requires Inv(s) && Tidy(s) && Enabled(s, BuildEnds(false, outcomes))
    ensures var t := Step(s, BuildEnds(false, outcomes));
            |t.runs| == |s.runs| == |outcomes| && EndDrops(s, false, outcomes, t)
  {
    var u := EndBuild(s, false, outcomes);
    EndStep(s, false, outcomes);
    SettledRuns(s, false, outcomes);
    HitMeansSince(s, u);
    assert !s.timer && u.buildFailed == Set && u.watchMap == map[];
    assert s.changes != {} <==> exists p <- s.reported :: Since(s, p);
    ReactAfterFailure(u);
    hide React, MapIsRight, Inv, EndBuild, Step, Settled, RescanSince;
  }

  lemma HitMeansSince(s: State, u: State)
    requires Inv(s) && Tidy(s) && s.running && u.changes == s.changes
    ensures (s.changesUnknown != Unset <==> RescanSince(s)) && (s.changesUnknown == Set <==> RescanSince(s))
    ensures forall i :: 0 <= i < |u.runs| ==>
              (Hit(u.runs[i], s.changes, s.changesUnknown != Unset) <==> HitSince(s, u.runs[i]))
  {
    assert forall p :: p in s.changes <==> Since(s, p);
  }

  lemma StepDropsExactly(s: State, e: Event)
    requires Inv(s) && Tidy(s) && Enabled(s, e)
    ensures StepDrops(s, e)
  {
    hide *;
    match e
    case Report(paths, rescan) => ReportDropsExactly(s, paths, rescan);
    case TimerFires(attempted) => TimerEnabled(s, attempted); TimerStartsExactly(s, attempted);
    case BuildEnds(ok, outcomes) => EndDropsExactly(s, ok, outcomes);
  }

  ghost predicate DropsThroughout(s: State, es: seq<Event>)
    requires CanHappen(s, es)
    decreases |es|
  {
    es != [] ==> StepDrops(s, es[0]) && DropsThroughout(Step(s, es[0]), es[1..])
  }

  lemma {:induction false} DropsFrom(s: State, es: seq<Event>)
    requires Inv(s) && Tidy(s) && CanHappen(s, es)
    ensures DropsThroughout(s, es)
    decreases |es|
  {
    hide Inv, Tidy, Step, StepDrops;
    if es != [] {
      StepInv(s, es[0]);
      StepTidy(s, es[0]);
      StepDropsExactly(s, es[0]);
      DropsFrom(Step(s, es[0]), es[1..]);
    }
  }

  /** In every run each step drops and starts exactly the runs that it should. */
  lemma RunsAreDroppedExactly(
    n: nat, attempted: set<nat>, ok: bool, outcomes: seq<Outcome>, s: State, es: seq<Event>)
    requires Starts(s, n, attempted, ok, outcomes) && CanHappen(s, es)
    ensures DropsThroughout(s, es)
  {
    InitialInv(s, n, attempted, ok, outcomes);
    if ok {
      EndMapIsRight(s.runs);
    }
    assert Tidy(s);
    hide Inv, Tidy, Starts;
    DropsFrom(s, es);
  }

  // ---------- What a missed rescan costs ----------

  /** The runs that are kept when a rescan is missed. */
  function KeptRuns(s: State, e: Event): seq<Option<Run>>
    requires Enabled(s, e)
  {
    if e.BuildEnds? then Settle(s.runs, e.outcomes) else s.runs
  }

  function AfterAll(s: State, es: seq<Event>): State
    requires CanHappen(s, es)
    decreases |es|
  {
    if es == [] then s else AfterAll(Step(s, es[0]), es[1..])
  }

  lemma MissedRescan(s: State, e: Event)
    requires Inv(s) && Enabled(s, e) && RescanAfterFailure(s, e)
    ensures var t := Step(s, e);
            Inv(t) && !t.running && t.buildFailed == Set && t.changesUnknown == Handled && t.runs == KeptRuns(s, e)
  {
    StepInv(s, e);
    match e
    case Report(paths, rescan) => ReactAfterFailure(Notice(s, paths, rescan));
    case BuildEnds(ok, outcomes) => ReactAfterFailure(EndBuild(s, false, outcomes));
    hide React;
  }

  /** Until the timer fires, further reports change nothing about the runs. */
  lemma {:induction false} ReportsAreIgnored(s: State, es: seq<Event>)
    requires Inv(s) && !s.running && s.buildFailed == Set && s.changesUnknown == Handled
    requires CanHappen(s, es) && forall e <- es :: e.Report?
    ensures var t := AfterAll(s, es);
            Inv(t) && !t.running && t.buildFailed == Set && t.changesUnknown == Handled && t.runs == s.runs
    decreases |es|
  {
    hide Inv;
    if es != [] {
      assert es[0] in es;
      StepInv(s, es[0]);
      ReportIgnored(s, es[0].paths, es[0].rescan);
      hide Step;
      ReportsAreIgnored(Step(s, es[0]), es[1..]);
    }
  }

  lemma ReportIgnored(s: State, paths: set<string>, rescan: bool)
    requires !s.running && s.changesUnknown == Handled
    ensures var t := Step(s, Report(paths, rescan));
            t.runs == s.runs && !t.running && t.buildFailed == s.buildFailed && t.changesUnknown == Handled
  {}

  /** The next build, if it succeeds: it repairs everything if and only if no run that was kept reads an input. */
  lemma BuildAfterMissed(s: State, attempted: set<nat>, b: State, outcomes: seq<Outcome>, u: State)
    requires Inv(s) && !s.running && s.buildFailed == Set && s.changesUnknown == Handled
    requires Enabled(s, TimerFires(attempted)) && b == Step(s, TimerFires(attempted))
    requires Enabled(b, BuildEnds(true, outcomes)) && u == Step(b, BuildEnds(true, outcomes))
    ensures !u.running && u.buildFailed == Unset && AllDone(u.runs) && |outcomes| == |s.runs|
    ensures forall i :: 0 <= i < |s.runs| && s.runs[i].Some? ==> Settle(s.runs, outcomes)[i].value.outcome.Done?
    ensures NoChangeLost(u) <==>
            forall i :: 0 <= i < |s.runs| && s.runs[i].Some? ==> Settle(s.runs, outcomes)[i].value.outcome.inputs == {}
  {
    StepInv(s, TimerFires(attempted));
    StepInv(b, BuildEnds(true, outcomes));
    LostIfMissed(u);
    ForgetfulIf(s);
    RebuildAfterMissed(s, attempted, b, outcomes, u);
    AllSparedMeans(u);
    hide *;
    forall i | 0 <= i < |s.runs|
      ensures |Settle(s.runs, outcomes)| == |s.runs| && u.runs[i].Some?
      ensures s.runs[i].Some? ==>
                Settle(s.runs, outcomes)[i].Some? && Settle(s.runs, outcomes)[i].value.outcome.Done?
      ensures Spared(u, u.runs[i].value) <==>
              (s.runs[i].Some? ==> Settle(s.runs, outcomes)[i].value.outcome.inputs == {})
    {
      SparedExactly(s, attempted, outcomes, u, i);
    }
  }

  lemma AllSparedMeans(u: State)
    requires !u.running && u.buildFailed == Unset && AllDone(u.runs)
    ensures AllSpared(u) <==>
              forall i :: 0 <= i < |u.runs| ==> u.runs[i].Some? && Spared(u, u.runs[i].value)
  {}

  lemma SparedExactly(s: State, attempted: set<nat>, outcomes: seq<Outcome>, u: State, i: nat)
    requires |outcomes| == |s.runs| == |u.runs| && i < |s.runs|
    requires Forgetful(s) && s.missed.Some? && s.missed.value < s.now && u.missed == s.missed
    requires u.runs == Settle(StartBuild(s, attempted).runs, outcomes) && AllDone(u.runs)
    ensures |Settle(s.runs, outcomes)| == |s.runs| && u.runs[i].Some?
    ensures s.runs[i].Some? ==>
              Settle(s.runs, outcomes)[i].Some? && Settle(s.runs, outcomes)[i].value.outcome.Done?
    ensures Spared(u, u.runs[i].value) <==>
            (s.runs[i].Some? ==> Settle(s.runs, outcomes)[i].value.outcome.inputs == {})
  {
    SettledRun(s, attempted, outcomes, i);
    assert |Settle(s.runs, outcomes)| == |s.runs|;
    hide Settle, StartBuild;
  }

  /** The build after a missed rescan settles the runs that were kept and those it started, and drops none. */
  lemma RebuildAfterMissed(s: State, attempted: set<nat>, b: State, outcomes: seq<Outcome>, u: State)
    requires !s.running && Enabled(s, TimerFires(attempted)) && b == Step(s, TimerFires(attempted))
    requires Enabled(b, BuildEnds(true, outcomes)) && u == Step(b, BuildEnds(true, outcomes))
    ensures |outcomes| == |s.runs| == |u.runs| && u.runs == Settle(StartBuild(s, attempted).runs, outcomes)
    ensures !u.running && u.buildFailed == Unset && AllDone(u.runs) && u.missed == s.missed
  {
    var e := EndBuild(b, true, outcomes);
    assert b.runs == StartBuild(s, attempted).runs;
    assert Watching(e.watchMap, e.changes) == {};
    hide Watching, WatchMapOf, Settle, StartBuild;
    assert Drop(e.runs, {}) == e.runs;
  }

  lemma SettledRun(s: State, attempted: set<nat>, outcomes: seq<Outcome>, i: nat)
    requires |outcomes| == |s.runs| && i < |s.runs|
    ensures var started := StartBuild(s, attempted).runs;
            && |started| == |s.runs|
            && (s.runs[i].Some? ==> Settle(started, outcomes)[i] == Settle(s.runs, outcomes)[i]
                                    && Settle(s.runs, outcomes)[i].Some?
                                    && Settle(s.runs, outcomes)[i].value.start == s.runs[i].value.start)
            && (s.runs[i].None? && Settle(started, outcomes)[i].Some? ==>
                  Settle(started, outcomes)[i].value.start == s.now)
  {}

  lemma ForgetfulIf(s: State)
    requires Inv(s) && !s.running && s.buildFailed == Set && s.changesUnknown == Handled
    ensures Forgetful(s) && s.missed.Some? && s.missed.value < s.now
  {}

  /** A rescan is missed, reports may follow, then a build succeeds: changes are lost if and only if a run that was
      kept when the rescan was missed reads an input. */
  lemma RescanAfterFailureIsLost(s: State, e: Event, es: seq<Event>, attempted: set<nat>, outcomes: seq<Outcome>)
    requires Inv(s) && Enabled(s, e) && RescanAfterFailure(s, e)
    requires (forall r <- es :: r.Report?)
        && CanHappen(Step(s, e), es + [TimerFires(attempted), BuildEnds(true, outcomes)])
    ensures var u := AfterAll(Step(s, e), es + [TimerFires(attempted), BuildEnds(true, outcomes)]);
            && |outcomes| == |s.runs| && !u.running && u.buildFailed == Unset
            && (NoChangeLost(u) <==>
                forall i :: 0 <= i < |s.runs| && KeptRuns(s, e)[i].Some? ==>
                  var r := Settle(KeptRuns(s, e), outcomes)[i].value; r.outcome.Done? && r.outcome.inputs == {})
  {
    MissedRescan(s, e);
    var last := [TimerFires(attempted), BuildEnds(true, outcomes)];
    SplitRun(Step(s, e), es, last);
    ReportsAreIgnored(Step(s, e), es);
    var t := AfterAll(Step(s, e), es);
    TwoSteps(t, last[0], last[1]);
    var b := Step(t, last[0]);
    BuildAfterMissed(t, attempted, b, outcomes, Step(b, last[1]));
    hide Step, Inv, NoChangeLost;
  }

  lemma {:induction false} SplitRun(s: State, es: seq<Event>, more: seq<Event>)
    requires CanHappen(s, es + more)
    ensures CanHappen(s, es) && CanHappen(AfterAll(s, es), more)
    ensures AfterAll(s, es + more) == AfterAll(AfterAll(s, es), more)
    decreases |es|
  {
    hide Step, Enabled;
    if es == [] {
      assert es + more == more;
    } else {
      assert (es + more)[0] == es[0] && (es + more)[1..] == es[1..] + more;
      SplitRun(Step(s, es[0]), es[1..], more);
    }
  }

  lemma TwoSteps(s: State, e: Event, f: Event)
    requires CanHappen(s, [e, f])
    ensures Enabled(s, e) && Enabled(Step(s, e), f) && AfterAll(s, [e, f]) == Step(Step(s, e), f)
  {
    assert [e, f][1..] == [f] && [f][1..] == [];
    assert CanHappen(Step(s, e), [f]);
    hide Step;
    assert AfterAll(Step(s, e), [f]) == AfterAll(Step(Step(s, e), f), []);
  }

  /** It happens: the first build fails though its one task is done, a rescan follows, and the rebuild runs nothing. */
  lemma ChangeCanBeLost(s: State)
    requires Starts(s, 1, {0}, false, [Done({"a"})])
    ensures var es := [Report({}, true), TimerFires({0}), BuildEnds(true, [Done({"a"})])];
            CanHappen(s, es) && !NoChangeLost(AfterAll(s, es))
  {
    var first, last := Report({}, true), [TimerFires({0}), BuildEnds(true, [Done({"a"})])];
    InitialInv(s, 1, {0}, false, [Done({"a"})]);
    assert s.runs == [Some(Run(0, Done({"a"})))];
    var t := Step(s, first);
    MissedRescan(s, first);
    assert t.runs == s.runs && t.timer by { hide RescanAfterFailure; ForgetfulIf(t); }
    var b := Step(t, last[0]);
    assert b.runs == s.runs;
    assert Settle(b.runs, [Done({"a"})]) == s.runs;
    assert Enabled(b, last[1]);
    hide Step;
    CanHappenTwice(t, last[0], last[1]);
    var es := [first] + last;
    assert es[1..] == last;
    assert CanHappen(s, es) && AfterAll(s, es) == AfterAll(t, last);
    assert [] + last == last;
    var none: seq<Event> := [];
    RescanAfterFailureIsLost(s, first, none, {0}, [Done({"a"})]);
    assert KeptRuns(s, first)[0].Some? && Settle(KeptRuns(s, first), [Done({"a"})])[0].value.outcome.inputs == {"a"};
    assert es == [Report({}, true), TimerFires({0}), BuildEnds(true, [Done({"a"})])];
  }

  lemma CanHappenTwice(s: State, e: Event, f: Event)
    requires Enabled(s, e) && Enabled(Step(s, e), f)
    ensures CanHappen(s, [e, f])
  {
    assert [e, f][1..] == [f] && [f][1..] == [];
    assert CanHappen(Step(s, e), [f]);
  }

  // ---------- The machine as a program ----------

  lemma WatchMapAt(runs: seq<Option<Run>>, p: string)
    ensures p in WatchMapOf(runs) <==> exists i: nat :: HasInput(runs, i, p)
    ensures p in WatchMapOf(runs) ==> forall i: nat :: i in WatchMapOf(runs)[p] <==> HasInput(runs, i, p)
  {
    if i: nat :| HasInput(runs, i, p) {
      assert p in runs[i].value.outcome.inputs;
    }
    if p in WatchMapOf(runs) {
      var i: nat :|
        i < |runs| && runs[i].Some? && runs[i].value.outcome.Done? && p in runs[i].value.outcome.inputs;
      assert HasInput(runs, i, p);
    }
  }

  lemma RecordInput(done: seq<Option<Run>>, start: nat, seen: set<string>, p: string)
    ensures var before := WatchMapOf(done + [Some(Run(start, Done(seen)))]);
            WatchMapOf(done + [Some(Run(start, Done(seen + {p})))])
            == before[p := (if p in before then before[p] else {}) + {|done|}]
  {
    var a, b := done + [Some(Run(start, Done(seen)))], done + [Some(Run(start, Done(seen + {p})))];
    forall i: nat, q: string ensures HasInput(b, i, q) <==> HasInput(a, i, q) || (i == |done| && q == p) {
      if i < |done| {
        assert a[i] == b[i] == done[i];
      }
    }
    var before, after := WatchMapOf(a), WatchMapOf(b);
    var expected := before[p := (if p in before then before[p] else {}) + {|done|}];
    assert HasInput(b, |done|, p);
    forall q ensures q in after <==> q in expected
             ensures q in after && q in expected ==> after[q] == expected[q] {
      WatchMapAt(a, q);
      WatchMapAt(b, q);
    }
  }

  lemma RecordNoInput(done: seq<Option<Run>>, start: nat)
    ensures WatchMapOf(done + [Some(Run(start, Done({})))]) == WatchMapOf(done)
  {
    var a := done + [Some(Run(start, Done({})))];
    forall i: nat, q: string ensures HasInput(a, i, q) <==> HasInput(done, i, q) {
      if i < |done| {
        assert a[i] == done[i];
      }
    }
    forall q ensures q in WatchMapOf(a) <==> q in WatchMapOf(done)
             ensures q in WatchMapOf(a) && q in WatchMapOf(done) ==> WatchMapOf(a)[q] == WatchMapOf(done)[q] {
      WatchMapAt(a, q);
      WatchMapAt(done, q);
    }
  }

  class Watcher {
    const order: seq<nat>
    const latestRuns: array<Option<Run>>
    var watchMap: map<string, set<nat>>
    var buildFailed: Condition
    var changes: set<string>
    var changesUnknown: Condition
    var running: bool
    var timer: bool
    var now: nat
    ghost var buildStart: nat
    ghost var reported: map<string, nat>
    ghost var rescanned: Option<nat>
    ghost var missed: Option<nat>

    /** The first tasks of `order`. */
    ghost function Reached(attempts: nat): set<nat>
      requires attempts <= |order|
    {
      set i | i in order[..attempts]
    }

    ghost function Value(): State
      reads this, latestRuns
    {
      State(latestRuns[..], watchMap, buildFailed, changes, changesUnknown, running, timer,
            now, buildStart, reported, rescanned, missed)
    }

    /** Everything indexes `latestRuns`. */
    ghost predicate Indexed()
      reads this
    {
      && (forall i :: i in order ==> i < latestRuns.Length)
      && (forall p :: p in watchMap ==> forall i :: i in watchMap[p] ==> i < latestRuns.Length)
    }

    ghost predicate Valid()
      reads this
    {
      Indexed() && (running ==> watchMap == map[])
    }

    constructor (n: nat, order: seq<nat>)
      requires forall i :: i in order ==> i < n
      ensures Valid() && Value() == Blank(n) && fresh(latestRuns) && this.order == order
    {
      this.order := order;
      latestRuns := new Option<Run>[n](_ => None);
      watchMap := map[];
      buildFailed := Unset;
      changes := {};
      changesUnknown := Unset;
      running := false;
      timer := false;
      now := 0;
      buildStart := 0;
      reported := map[];
      rescanned := None;
      missed := None;
    }

    method Forget(tasks: set<nat>)
      requires forall i :: i in tasks ==> i < latestRuns.Length
      modifies latestRuns
      ensures latestRuns[..] == Drop(old(latestRuns[..]), tasks)
    {
      var rest := tasks;
      while rest != {}
        invariant rest <= tasks
        invariant latestRuns[..] == Drop(old(latestRuns[..]), tasks - rest)
      {
        var i :| i in rest;
        latestRuns[i] := None;
        rest := rest - {i};
      }
      assert tasks - rest == tasks;
    }

    /** The two loops of `debouncedRebuildIfNeeded` that look `paths` up. */
    method ForgetWatching(paths: set<string>) returns (found: bool)
      requires Indexed()
      modifies latestRuns
      ensures latestRuns[..] == Drop(old(latestRuns[..]), Watching(watchMap, paths))
      ensures found <==> paths * watchMap.Keys != {}
    {
      var rest := paths;
      found := false;
      assert Watching(watchMap, {}) == {};
      while rest != {}
        invariant rest <= paths
        invariant latestRuns[..] == Drop(old(latestRuns[..]), Watching(watchMap, paths - rest))
        invariant found <==> (paths - rest) * watchMap.Keys != {}
      {
        var p :| p in rest;
        assert paths - (rest - {p}) == (paths - rest) + {p};
        if p in watchMap {
          found := true;
          assert Watching(watchMap, (paths - rest) + {p}) == Watching(watchMap, paths - rest) + watchMap[p];
          Forget(watchMap[p]);
          assert p in (paths - (rest - {p})) * watchMap.Keys;
        } else {
          assert Watching(watchMap, (paths - rest) + {p}) == Watching(watchMap, paths - rest);
          assert (paths - (rest - {p})) * watchMap.Keys == (paths - rest) * watchMap.Keys;
        }
        rest := rest - {p};
      }
      assert paths - rest == paths;
    }

    method DebouncedRebuildIfNeeded() returns (needed: bool)
      requires Indexed()
      modifies latestRuns, `changes, `changesUnknown, `buildFailed, `timer
      ensures Indexed() && Value() == React(old(Value()))
      ensures needed ==> timer
    {
      needed := false;
      if changesUnknown != Unset {
        if changesUnknown != Handled {
          var _ := ForgetWatching(watchMap.Keys);
          needed := true;
          changesUnknown := Handled;
        }
      } else if buildFailed != Unset && changes != {} {
        if buildFailed != Handled {
          forall i | 0 <= i < latestRuns.Length {
            latestRuns[i] := None;
          }
          needed := true;
          buildFailed := Handled;
        }
      } else {
        needed := ForgetWatching(changes);
      }
      changes := {};
      if needed {
        timer := true;
      }
    }

    /** `rebuild` up to its first `await`; `attempts` of the tasks are reached before one throws, if any does. */
    method StartRuns(attempts: nat)
      requires Valid() && attempts <= |order|
      modifies latestRuns, `watchMap, `buildFailed, `buildStart
      ensures Valid() && Value() == StartBuild(old(Value()), Reached(attempts))
    {
      watchMap := map[];
      buildFailed := Unset;
      buildStart := now;
      ghost var was := latestRuns[..];
      for k := 0 to attempts
        invariant forall i :: 0 <= i < latestRuns.Length ==>
            latestRuns[i] == if was[i].None? && i in order[..k] then Some(Run(now, Pending)) else was[i]
        modifies latestRuns
      {
        var i := order[k];
        assert i in order && order[..k + 1] == order[..k] + [i];
        if latestRuns[i].None? {
          latestRuns[i] := Some(Run(now, Pending));
        }
      }
    }

    /** The loop over the results in `rebuild`. */
    method RecordInputs()
      requires AllDone(latestRuns[..]) && watchMap == map[]
      modifies `watchMap
      ensures watchMap == WatchMapOf(latestRuns[..])
    {
      assert WatchMapOf([]) == map[];
      for k := 0 to latestRuns.Length
        invariant watchMap == WatchMapOf(latestRuns[..k])
      {
        var r := latestRuns[k].value;
        var rest := r.outcome.inputs;
        RecordNoInput(latestRuns[..k], r.start);
        assert r.outcome.inputs - rest == {};
        while rest != {}
          invariant rest <= r.outcome.inputs
          invariant watchMap == WatchMapOf(latestRuns[..k] + [Some(Run(r.start, Done(r.outcome.inputs - rest)))])
        {
          var p :| p in rest;
          RecordInput(latestRuns[..k], r.start, r.outcome.inputs - rest, p);
          assert r.outcome.inputs - (rest - {p}) == (r.outcome.inputs - rest) + {p};
          watchMap := watchMap[p := (if p in watchMap then watchMap[p] else {}) + {k}];
          rest := rest - {p};
        }
        assert r.outcome.inputs - rest == r.outcome.inputs;
        assert latestRuns[..k + 1] == latestRuns[..k] + [Some(Run(r.start, Done(r.outcome.inputs)))];
      }
      assert latestRuns[..latestRuns.Length] == latestRuns[..];
    }

    /** `rebuild` from its first `await` on: the runs settle, then their inputs are recorded. */
    method FinishRuns(ok: bool, outcomes: seq<Outcome>)
      requires Indexed() && watchMap == map[] && |outcomes| == latestRuns.Length
      requires ok ==> AllDone(Settle(latestRuns[..], outcomes))
      modifies latestRuns, `watchMap, `buildFailed
      ensures Indexed() && Value() == EndBuild(old(Value()), ok, outcomes)
    {
      forall i | 0 <= i < latestRuns.Length && latestRuns[i].Some? && latestRuns[i].value.outcome.Pending? {
        latestRuns[i] := Some(Run(latestRuns[i].value.start, outcomes[i]));
      }
      assert latestRuns[..] == Settle(old(latestRuns[..]), outcomes);
      if ok {
        RecordInputs();
      } else {
        watchMap := map[];
        buildFailed := Set;
      }
    }

    /** The build that `main` awaits before it looks at the watcher. */
    method FirstBuild(attempts: nat, ok: bool, outcomes: seq<Outcome>)
      requires Valid() && attempts <= |order| && Value() == Blank(latestRuns.Length)
      requires |outcomes| == latestRuns.Length
      requires ok ==> AllDone(Settle(Initial(latestRuns.Length, Reached(attempts)).runs, outcomes))
      modifies this, latestRuns
      ensures Valid()
      ensures Starts(Value(), latestRuns.Length, Reached(attempts), ok, outcomes)
    {
      StartRuns(attempts);
      FinishRuns(ok, outcomes);
      now := 1;
    }

    /** What an event adds to `changes` and `changesUnknown`. */
    method NoteReport(paths: set<string>, rescan: bool)
      modifies `changes, `changesUnknown, `reported, `rescanned
      ensures Value() == Notice(old(Value()), paths, rescan)
    {
      changes := changes + paths;
      reported := reported + map p | p in paths :: now;
      if rescan {
        rescanned := Some(now);
        if changesUnknown == Unset {
          changesUnknown := Set;
        }
      }
    }

    /** One iteration of the loop over `watcher`. */
    method OnReport(paths: set<string>, rescan: bool)
      requires Valid()
      modifies this, latestRuns
      ensures Valid() && Value() == Step(old(Value()), Report(paths, rescan))
    {
      ghost var before := Value();
      hide React, Notice, RescanAfterFailure;
      NoteReport(paths, rescan);
      if !running {
        var _ := DebouncedRebuildIfNeeded();
      }
      missed := if RescanAfterFailure(before, Report(paths, rescan)) then rescanned else missed;
      now := now + 1;
    }

    /** `LimitOne.run`, called by the debounce timer, and the action up to its first `await`. */
    method OnTimer(attempts: nat)
      requires Valid() && timer && attempts <= |order|
      modifies this, latestRuns
      ensures Valid() && Value() == Step(old(Value()), TimerFires(Reached(attempts)))
    {
      timer := false;
      if !running {
        changes := {};
        changesUnknown := Unset;
        StartRuns(attempts);
        running := true;
      }
      now := now + 1;
    }

    /** The rest of the action, and `finally`. */
    method OnBuildEnd(ok: bool, outcomes: seq<Outcome>)
      requires Valid() && Enabled(Value(), BuildEnds(ok, outcomes))
      modifies this, latestRuns
      ensures Valid() && Value() == Step(old(Value()), BuildEnds(ok, outcomes))
    {
      ghost var before := Value();
      FinishRuns(ok, outcomes);
      var _ := DebouncedRebuildIfNeeded();
      missed := if RescanAfterFailure(before, BuildEnds(ok, outcomes)) then rescanned else missed;
      running := false;
      now := now + 1;
    }
  }
}
