/** The depth-first ranking of asset tasks (build.ts, `getTopologicalOrder`).

    A task is known by its index.  `Rank` is the specification: the search written on
    values.  `Ranker` is the search as the program does it, on a shared array. */
module TopologicalOrder {

  const UNSET := -1
  const IN_PROGRESS := -2

  /** The index of a dependency, if it is one of the tasks at all. */
  datatype Lookup = NotInTasks | Found(index: nat)

  datatype Error = DependencyCycle | DependencyNotInTasks

  datatype Outcome<+T> = Ok(value: T) | Throw(error: Error)

  /** `g[i]` lists what task `i` depends on, in iteration order. */
  type Graph = g: seq<seq<Lookup>> |
      forall i, k :: 0 <= i < |g| && 0 <= k < |g[i]| && g[i][k].Found? ==> g[i][k].index < |g|
    witness []

  /** A rank, or one of the two marks of a task without one. */
  type Mark = m: int | m >= IN_PROGRESS witness UNSET

  datatype Search = Search(order: seq<Mark>, next: nat)

  // ---------- What a ranking is for ----------

  ghost predicate Edge(g: Graph, i: nat, j: nat) {
    i < |g| && Found(j) in g[i]
  }

  ghost predicate Path(g: Graph, p: seq<nat>) {
    forall k :: 0 <= k < |p| - 1 ==> Edge(g, p[k], p[k + 1])
  }

  ghost predicate Cyclic(g: Graph) {
    exists p :: |p| >= 2 && Path(g, p) && p[0] == p[|p| - 1]
  }

  /** Every dependency of every task is itself one of the tasks. */
  ghost predicate Complete(g: Graph) {
    forall i :: 0 <= i < |g| ==> NotInTasks !in g[i]
  }

  /** A permutation of the indices in which every dependency ranks strictly below its dependent. */
  ghost predicate TopologicalRanking(g: Graph, order: seq<Mark>) {
    && |order| == |g|
    && (forall i :: 0 <= i < |order| ==> 0 <= order[i] < |g|)
    && (forall i, j :: 0 <= i < j < |order| ==> order[i] != order[j])
    && (forall i: nat, j: nat :: Edge(g, i, j) ==> order[j] < order[i])
  }

  // ---------- The search ----------

  ghost function Unset(order: seq<Mark>): set<int> {
    set i | 0 <= i < |order| && order[i] == UNSET
  }

  ghost function Done(order: seq<Mark>): set<int> {
    set i | 0 <= i < |order| && order[i] >= 0
  }

  function Visit(g: Graph, s: Search, i: nat): (r: Outcome<Search>)
    requires |s.order| == |g| && i < |g|
    ensures r.Ok? ==> |r.value.order| == |g| && Unset(r.value.order) <= Unset(s.order)
    decreases Unset(s.order), 1, 0
  {
    if s.order[i] >= 0 then
      Ok(s)
    else if s.order[i] == IN_PROGRESS then
      Throw(DependencyCycle)
    else
      assert i in Unset(s.order);
      assert Unset(s.order[i := IN_PROGRESS]) == Unset(s.order) - {i};
      match VisitDependencies(g, s.(order := s.order[i := IN_PROGRESS]), i, 0)
      case Throw(e) => Throw(e)
      case Ok(t) =>
        assert Unset(t.order[i := t.next]) <= Unset(t.order);
        Ok(Search(t.order[i := t.next], t.next + 1))
  }

  function VisitDependencies(g: Graph, s: Search, i: nat, k: nat): (r: Outcome<Search>)
    requires |s.order| == |g| && i < |g| && k <= |g[i]|
    ensures r.Ok? ==> |r.value.order| == |g| && Unset(r.value.order) <= Unset(s.order)
    decreases Unset(s.order), 2, |g[i]| - k
  {
    if k == |g[i]| then
      Ok(s)
    else
      match g[i][k]
      case NotInTasks => Throw(DependencyNotInTasks)
      case Found(j) =>
        match Visit(g, s, j)
        case Throw(e) => Throw(e)
        case Ok(t) => VisitDependencies(g, t, i, k + 1)
  }

  function VisitFrom(g: Graph, s: Search, i: nat): (r: Outcome<Search>)
    requires |s.order| == |g| && i <= |g|
    ensures r.Ok? ==> |r.value.order| == |g|
    decreases |g| - i
  {
    if i == |g| then Ok(s)
    else
      match Visit(g, s, i)
      case Throw(e) => Throw(e)
      case Ok(t) => VisitFrom(g, t, i + 1)
  }

  function Initial(n: nat): Search {
    Search(seq(n, _ => UNSET), 0)
  }

  function Rank(g: Graph): Outcome<seq<Mark>> {
    match VisitFrom(g, Initial(|g|), 0)
    case Throw(e) => Throw(e)
    case Ok(s) => Ok(s.order)
  }

  // ---------- Invariants of the search ----------

  /** The finished tasks are ranked `0..next`, above all they depend on; `stack` holds the tasks in progress, a path. */
  ghost predicate Consistent(g: Graph, s: Search, stack: seq<nat>) {
    && |s.order| == |g|
    && s.next == |Done(s.order)|
    && (forall i :: 0 <= i < |g| ==> s.order[i] < s.next)
    && (forall i, j :: 0 <= i < j < |g| && s.order[i] >= 0 ==> s.order[i] != s.order[j])
    && (forall i, k :: 0 <= i < |g| && s.order[i] >= 0 && 0 <= k < |g[i]| ==> Ranked(g, s, i, k))
    && Path(g, stack)
    && (forall i :: 0 <= i < |g| ==> (s.order[i] == IN_PROGRESS <==> i in stack))
  }

  ghost predicate Ranked(g: Graph, s: Search, i: nat, k: nat)
    requires |s.order| == |g| && i < |g| && k < |g[i]|
  {
    g[i][k].Found? && 0 <= s.order[g[i][k].index] < s.order[i]
  }

  /** What the search has ranked stays ranked. */
  ghost predicate Extends(s: Search, t: Search) {
    && |s.order| == |t.order|
    && s.next <= t.next
    && forall i :: 0 <= i < |s.order| && s.order[i] >= 0 ==> t.order[i] == s.order[i]
  }

  ghost predicate Justified(g: Graph, e: Error) {
    match e
    case DependencyCycle => Cyclic(g)
    case DependencyNotInTasks => !Complete(g)
  }

  lemma PathExtends(g: Graph, stack: seq<nat>, i: nat)
    requires Path(g, stack) && (stack == [] || Edge(g, stack[|stack| - 1], i))
    ensures Path(g, stack + [i])
  {}

  /** Meeting a task in progress closes a cycle. */
  lemma StackClosesCycle(g: Graph, stack: seq<nat>, i: nat)
    requires Path(g, stack) && i in stack && Edge(g, stack[|stack| - 1], i)
    ensures Justified(g, DependencyCycle)
  {
    PathExtends(g, stack, i);
    var at :| 0 <= at < |stack| && stack[at] == i;
    var p := (stack + [i])[at..];
    forall k | 0 <= k < |p| - 1 ensures Edge(g, p[k], p[k + 1]) {
      assert Edge(g, (stack + [i])[at + k], (stack + [i])[at + k + 1]);
    }
    assert |p| >= 2 && Path(g, p) && p[0] == p[|p| - 1];
  }

  lemma PathShrinks(g: Graph, stack: seq<nat>, i: nat)
    requires Path(g, stack + [i])
    ensures Path(g, stack)
  {
    forall k | 0 <= k < |stack| - 1 ensures Edge(g, stack[k], stack[k + 1]) {
      assert Edge(g, (stack + [i])[k], (stack + [i])[k + 1]);
    }
  }

  lemma FinishConsistent(g: Graph, s: Search, stack: seq<nat>, i: nat)
    requires i < |g| && i !in stack && Consistent(g, s, stack + [i])
    requires forall k :: 0 <= k < |g[i]| ==> g[i][k].Found? && s.order[g[i][k].index] >= 0
    ensures Consistent(g, Search(s.order[i := s.next], s.next + 1), stack)
  {
    hide Path, Edge, Done;
    var t := Search(s.order[i := s.next], s.next + 1);
    assert s.order[i] == IN_PROGRESS by { assert i in stack + [i]; }
    OneMoreDone(s.order, i, s.next);
    PathShrinks(g, stack, i);
    assert forall a :: a in stack + [i] <==> a in stack || a == i;
    FinishRanked(g, s, i);
  }

  lemma OneMoreDone(order: seq<Mark>, i: nat, r: nat)
    requires i < |order| && order[i] < 0
    ensures |Done(order[i := r])| == |Done(order)| + 1
  {
    assert Done(order[i := r]) == Done(order) + {i};
  }

  lemma FinishRanked(g: Graph, s: Search, i: nat)
    requires i < |g| && |s.order| == |g| && s.order[i] == IN_PROGRESS
    requires forall a :: 0 <= a < |g| ==> s.order[a] < s.next
    requires forall a, k :: 0 <= a < |g| && s.order[a] >= 0 && 0 <= k < |g[a]| ==> Ranked(g, s, a, k)
    requires forall k :: 0 <= k < |g[i]| ==> g[i][k].Found? && s.order[g[i][k].index] >= 0
    ensures var t := Search(s.order[i := s.next], s.next + 1);
            forall a, k :: 0 <= a < |g| && t.order[a] >= 0 && 0 <= k < |g[a]| ==> Ranked(g, t, a, k)
  {
    var t := Search(s.order[i := s.next], s.next + 1);
    forall a, k | 0 <= a < |g| && t.order[a] >= 0 && 0 <= k < |g[a]| ensures Ranked(g, t, a, k) {
      if a != i { assert Ranked(g, s, a, k); }
    }
  }

  lemma StartConsistent(g: Graph, s: Search, stack: seq<nat>, i: nat)
    requires i < |g| && Consistent(g, s, stack) && s.order[i] == UNSET
    requires stack == [] || Edge(g, stack[|stack| - 1], i)
    ensures i !in stack && Consistent(g, s.(order := s.order[i := IN_PROGRESS]), stack + [i])
  {
    var t := s.(order := s.order[i := IN_PROGRESS]);
    assert Done(t.order) == Done(s.order);
    PathExtends(g, stack, i);
    forall a, k | 0 <= a < |g| && t.order[a] >= 0 && 0 <= k < |g[a]| ensures Ranked(g, t, a, k) {
      assert Ranked(g, s, a, k);
    }
  }

  lemma {:induction false} VisitCorrect(g: Graph, s: Search, stack: seq<nat>, i: nat)
    requires i < |g| && Consistent(g, s, stack)
    requires stack == [] || Edge(g, stack[|stack| - 1], i)
    ensures match Visit(g, s, i)
            case Ok(t) => Consistent(g, t, stack) && Extends(s, t) && t.order[i] >= 0
            case Throw(e) => Justified(g, e)
    decreases Unset(s.order), 1, 0
  {
    assert |s.order| == |g|;
    hide Consistent, Extends, Justified, VisitDependencies, Edge, Path, Unset;
    if s.order[i] == IN_PROGRESS {
      InProgressIsOnStack(g, s, stack, i);
      StackClosesCycle(g, stack, i);
    } else if s.order[i] == UNSET {
      VisitUnset(g, s, stack, i);
    } else {
      ExtendsItself(s);
    }
  }

  lemma {:induction false} VisitUnset(g: Graph, s: Search, stack: seq<nat>, i: nat)
    requires i < |g| && |s.order| == |g| && Consistent(g, s, stack) && s.order[i] == UNSET
    requires stack == [] || Edge(g, stack[|stack| - 1], i)
    ensures match Visit(g, s, i)
            case Ok(t) => Consistent(g, t, stack) && Extends(s, t) && t.order[i] >= 0
            case Throw(e) => Justified(g, e)
    decreases Unset(s.order), 0, 0
  {
    var s' := s.(order := s.order[i := IN_PROGRESS]);
    MarkShrinks(s.order, i);
    VisitStarts(g, s, i);
    hide *;
    StartConsistent(g, s, stack, i);
    var pushed := stack + [i];
    assert pushed != [] && pushed[|pushed| - 1] == i;
    VisitDependenciesCorrect(g, s', pushed, i, 0);
    var r := VisitDependencies(g, s', i, 0);
    if r.Ok? {
      Finished(g, s, r.value, stack, i);
    }
  }

  lemma Finished(g: Graph, s: Search, t: Search, stack: seq<nat>, i: nat)
    requires i < |g| && |s.order| == |g| && s.order[i] == UNSET && i !in stack
    requires Consistent(g, t, stack + [i]) && Extends(s.(order := s.order[i := IN_PROGRESS]), t)
    requires forall m :: 0 <= m < |g[i]| ==> g[i][m].Found? && t.order[g[i][m].index] >= 0
    ensures |t.order| == |g|
    ensures var u := Search(t.order[i := t.next], t.next + 1);
            Consistent(g, u, stack) && Extends(s, u) && u.order[i] >= 0
  {
    assert |t.order| == |g|;
    hide Consistent, Extends;
    FinishConsistent(g, t, stack, i);
    FinishExtends(s, t, i);
  }

  lemma MarkShrinks(order: seq<Mark>, i: nat)
    requires i < |order| && order[i] == UNSET
    ensures Unset(order[i := IN_PROGRESS]) < Unset(order)
  {
    assert i in Unset(order);
    assert Unset(order[i := IN_PROGRESS]) == Unset(order) - {i};
  }

  lemma VisitStarts(g: Graph, s: Search, i: nat)
    requires i < |g| && |s.order| == |g| && s.order[i] == UNSET
    ensures Visit(g, s, i) ==
            match VisitDependencies(g, s.(order := s.order[i := IN_PROGRESS]), i, 0)
            case Throw(e) => Throw(e)
            case Ok(t) => Ok(Search(t.order[i := t.next], t.next + 1))
  {
    hide VisitDependencies;
  }

  lemma InProgressIsOnStack(g: Graph, s: Search, stack: seq<nat>, i: nat)
    requires i < |g| && Consistent(g, s, stack) && s.order[i] == IN_PROGRESS
    ensures i in stack && stack != []
  {}

  lemma FinishExtends(s: Search, t: Search, i: nat)
    requires i < |s.order| && s.order[i] == UNSET && Extends(s.(order := s.order[i := IN_PROGRESS]), t)
    ensures Extends(s, Search(t.order[i := t.next], t.next + 1))
  {}

  lemma {:induction false} VisitDependenciesCorrect(g: Graph, s: Search, stack: seq<nat>, i: nat, k: nat)
    requires i < |g| && k <= |g[i]| && Consistent(g, s, stack)
    requires stack != [] && stack[|stack| - 1] == i
    requires forall m :: 0 <= m < k ==> g[i][m].Found? && s.order[g[i][m].index] >= 0
    ensures match VisitDependencies(g, s, i, k)
            case Ok(t) =>
              Consistent(g, t, stack) && Extends(s, t)
              && forall m :: 0 <= m < |g[i]| ==> g[i][m].Found? && t.order[g[i][m].index] >= 0
            case Throw(e) => Justified(g, e)
    decreases Unset(s.order), 2, |g[i]| - k
  {
    assert |s.order| == |g|;
    NextDependency(g, s, i, k);
    hide *;
    if k == |g[i]| {
      ExtendsItself(s);
    } else if g[i][k] == NotInTasks {
      MissingIsIncomplete(g, i, k);
    } else {
      var j := g[i][k].index;
      EdgeAt(g, i, k, j);
      VisitCorrect(g, s, stack, j);
      var r := Visit(g, s, j);
      if r.Ok? {
        StillRanked(g, s, r.value, i, k);
        VisitDependenciesCorrect(g, r.value, stack, i, k + 1);
        var u := VisitDependencies(g, r.value, i, k + 1);
        if u.Ok? {
          ExtendsOn(s, r.value, u.value);
        }
      }
    }
  }

  lemma NextDependency(g: Graph, s: Search, i: nat, k: nat)
    requires |s.order| == |g| && i < |g| && k <= |g[i]|
    ensures k == |g[i]| ==> VisitDependencies(g, s, i, k) == Ok(s)
    ensures k < |g[i]| && g[i][k] == NotInTasks ==> VisitDependencies(g, s, i, k) == Throw(DependencyNotInTasks)
    ensures k < |g[i]| && g[i][k].Found? ==>
              var r := Visit(g, s, g[i][k].index);
              VisitDependencies(g, s, i, k) ==
              if r.Throw? then Throw(r.error) else VisitDependencies(g, r.value, i, k + 1)
  {
    hide Visit;
  }

  lemma MissingIsIncomplete(g: Graph, i: nat, k: nat)
    requires i < |g| && k < |g[i]| && g[i][k] == NotInTasks
    ensures Justified(g, DependencyNotInTasks)
  {}

  lemma EdgeAt(g: Graph, i: nat, k: nat, j: nat)
    requires i < |g| && k < |g[i]| && g[i][k] == Found(j)
    ensures Edge(g, i, j)
  {}

  lemma StillRanked(g: Graph, s: Search, t: Search, i: nat, k: nat)
    requires |s.order| == |g| && i < |g| && k < |g[i]| && Extends(s, t)
    requires forall m :: 0 <= m < k ==> g[i][m].Found? && s.order[g[i][m].index] >= 0
    requires g[i][k].Found? && t.order[g[i][k].index] >= 0
    ensures forall m :: 0 <= m < k + 1 ==> g[i][m].Found? && t.order[g[i][m].index] >= 0
  {}

  lemma ExtendsOn(s: Search, t: Search, u: Search)
    requires Extends(s, t) && Extends(t, u)
    ensures Extends(s, u)
  {}

  lemma ExtendsItself(s: Search)
    ensures Extends(s, s)
  {}

  lemma {:induction false} VisitFromCorrect(g: Graph, s: Search, i: nat)
    requires i <= |g| && Consistent(g, s, [])
    requires forall m :: 0 <= m < i ==> s.order[m] >= 0
    ensures match VisitFrom(g, s, i)
            case Ok(t) => Consistent(g, t, []) && Extends(s, t) && forall m :: 0 <= m < |g| ==> t.order[m] >= 0
            case Throw(e) => Justified(g, e)
    decreases |g| - i
  {
    hide Visit, Path, Ranked, Justified, Done;
    if i < |g| {
      VisitCorrect(g, s, [], i);
      match Visit(g, s, i) {
        case Throw(_) =>
        case Ok(t) => VisitFromCorrect(g, t, i + 1);
      }
    }
  }

  // ---------- Main results ----------

  lemma {:induction false} SubsetOfRange(s: set<int>, n: nat)
    requires forall x :: x in s ==> 0 <= x < n
    ensures |s| <= n
  {
    if n == 0 {
      assert forall x :: x !in s;
      assert s == {};
    } else {
      SubsetOfRange(s - {n - 1}, n - 1);
      assert s <= (s - {n - 1}) + {n - 1};
    }
  }

  lemma {:induction false} RanksFallAlongPath(g: Graph, order: seq<Mark>, p: seq<nat>)
    requires TopologicalRanking(g, order) && |p| >= 2 && Path(g, p)
    ensures p[|p| - 1] < |g| && p[0] < |g| && order[p[|p| - 1]] < order[p[0]]
  {
    assert Edge(g, p[0], p[1]);
    if |p| > 2 {
      var q := p[1..];
      forall k | 0 <= k < |q| - 1 ensures Edge(g, q[k], q[k + 1]) {
        assert Edge(g, p[k + 1], p[k + 2]);
      }
      RanksFallAlongPath(g, order, q);
      assert order[p[1]] < order[p[0]];
    }
  }

  lemma RankingIsAcyclic(g: Graph, order: seq<Mark>)
    requires TopologicalRanking(g, order)
    ensures !Cyclic(g)
  {
    hide TopologicalRanking, Path;
    forall p | |p| >= 2 && Path(g, p) ensures p[0] != p[|p| - 1] {
      RanksFallAlongPath(g, order, p);
    }
  }

  lemma FinishedIsRanking(g: Graph, t: Search)
    requires Consistent(g, t, []) && forall m :: 0 <= m < |g| ==> t.order[m] >= 0
    ensures Complete(g) && TopologicalRanking(g, t.order)
  {
    SubsetOfRange(Done(t.order), |g|);
    hide Done, Path;
    forall i: nat, j: nat | Edge(g, i, j) ensures t.order[j] < t.order[i] {
      var k :| 0 <= k < |g[i]| && g[i][k] == Found(j);
      assert Ranked(g, t, i, k);
    }
    forall i | 0 <= i < |g| ensures NotInTasks !in g[i] {
      forall k | 0 <= k < |g[i]| ensures g[i][k] != NotInTasks {
        assert Ranked(g, t, i, k);
      }
    }
  }

  /** The search succeeds exactly on the complete acyclic graphs, and then its ranks are topological;
      each error it throws names a fault the graph has. */
  lemma RankCorrect(g: Graph)
    ensures Rank(g).Ok? <==> Complete(g) && !Cyclic(g)
    ensures Rank(g).Ok? ==> TopologicalRanking(g, Rank(g).value)
    ensures Rank(g).Throw? ==> Justified(g, Rank(g).error)
  {
    var s := Initial(|g|);
    assert Done(s.order) == {};
    VisitFromCorrect(g, s, 0);
    hide Consistent, Cyclic, Complete, TopologicalRanking, VisitFrom;
    if Rank(g).Ok? {
      FinishedIsRanking(g, VisitFrom(g, s, 0).value);
      RankingIsAcyclic(g, Rank(g).value);
    }
  }

  // ---------- The loop over the result (build.ts, `for (const i of order)`) ----------

  /** Visiting the tasks in the order `visits[0], visits[1], ...` reaches each one after what it depends on. */
  ghost predicate DependenciesFirst(g: Graph, visits: seq<Mark>) {
    forall a, b |
      0 <= a < |visits| && 0 <= b < |visits| && visits[a] >= 0 && visits[b] >= 0 && Edge(g, visits[a], visits[b])
      :: b < a
  }

  /** The tasks by rank: the sequence that a ranking describes. */
  ghost predicate Inverse(order: seq<Mark>, visits: seq<Mark>) {
    && |visits| == |order|
    && (forall i :: 0 <= i < |order| ==> 0 <= order[i] < |order| && visits[order[i]] == i)
    && (forall r :: 0 <= r < |visits| ==> 0 <= visits[r] < |order| && order[visits[r]] == r)
  }

  lemma InverseIsDependenciesFirst(g: Graph, order: seq<Mark>, visits: seq<Mark>)
    requires TopologicalRanking(g, order) && Inverse(order, visits)
    ensures DependenciesFirst(g, visits)
  {}

  /** The state after the first `i` tasks were ranked in the order they are listed. */
  function Listed(n: nat, i: nat): Search
    requires i <= n
  {
    Search(seq(n, k => if k < i then k else UNSET), i)
  }

  lemma {:induction false} VisitDependenciesDone(g: Graph, s: Search, i: nat, k: nat)
    requires |s.order| == |g| && i < |g| && k <= |g[i]|
    requires forall m :: k <= m < |g[i]| ==> g[i][m].Found? && s.order[g[i][m].index] >= 0
    ensures VisitDependencies(g, s, i, k) == Ok(s)
    decreases |g[i]| - k
  {
    if k < |g[i]| {
      assert Visit(g, s, g[i][k].index) == Ok(s);
      VisitDependenciesDone(g, s, i, k + 1);
    }
  }

  lemma {:induction false} RankListed(g: Graph, i: nat)
    requires Complete(g) && i <= |g|
    requires forall a: nat, b: nat :: Edge(g, a, b) ==> b < a
    ensures VisitFrom(g, Listed(|g|, i), i) == Ok(Listed(|g|, |g|))
    decreases |g| - i
  {
    if i < |g| {
      var s := Listed(|g|, i);
      var t := s.(order := s.order[i := IN_PROGRESS]);
      forall m | 0 <= m < |g[i]| ensures g[i][m].Found? && t.order[g[i][m].index] >= 0 {
        assert g[i][m].Found? && Edge(g, i, g[i][m].index);
      }
      VisitDependenciesDone(g, t, i, 0);
      assert t.order[i := i] == Listed(|g|, i + 1).order;
      RankListed(g, i + 1);
    }
  }

  /** Where every task is listed after what it depends on, ranks and indices coincide and the loop is right. */
  lemma ListedInOrder(g: Graph)
    requires Complete(g)
    requires forall a: nat, b: nat :: Edge(g, a, b) ==> b < a
    ensures Rank(g) == Ok(seq(|g|, i => i)) && DependenciesFirst(g, Rank(g).value)
  {
    assert Initial(|g|).order == Listed(|g|, 0).order;
    RankListed(g, 0);
    assert Listed(|g|, |g|).order == seq(|g|, i => i);
  }

  /** Two tasks that need a third: the search ranks them 1 and 2, and the loop then runs task 1 first of all. */
  const FORK: Graph := [[Found(2)], [Found(2)], []]

  lemma LoopCounterexample()
    ensures Rank(FORK) == Ok([1, 2, 0])
    ensures Complete(FORK) && !Cyclic(FORK)
    ensures !DependenciesFirst(FORK, [1, 2, 0])
  {
    var u: Mark, p: Mark := UNSET, IN_PROGRESS;
    assert Initial(3) == Search([u, u, u], 0);
    assert [u, u, u][0 := p] == [p, u, u] && [p, u, u][2 := p] == [p, u, p] && [p, u, p][2 := 0] == [p, u, 0];
    assert [p, u, 0][0 := 1] == [1, u, 0] && [1, u, 0][1 := p] == [1, p, 0] && [1, p, 0][1 := 2] == [1, 2, 0];
    assert VisitDependencies(FORK, Search([p, u, p], 0), 2, 0) == Ok(Search([p, u, p], 0));
    assert Visit(FORK, Search([p, u, u], 0), 2) == Ok(Search([p, u, 0], 1));
    assert VisitDependencies(FORK, Search([p, u, 0], 1), 0, 1) == Ok(Search([p, u, 0], 1));
    assert VisitDependencies(FORK, Search([p, u, u], 0), 0, 0) == Ok(Search([p, u, 0], 1));
    assert Visit(FORK, Search([u, u, u], 0), 0) == Ok(Search([1, u, 0], 2));
    assert VisitDependencies(FORK, Search([1, p, 0], 2), 1, 0) == Ok(Search([1, p, 0], 2));
    assert Visit(FORK, Search([1, u, 0], 2), 1) == Ok(Search([1, 2, 0], 3));
    assert VisitFrom(FORK, Search([1, 2, 0], 3), 2) == Ok(Search([1, 2, 0], 3));
    RankCorrect(FORK);
    assert Edge(FORK, 1, 2);
  }

  /** A task with two late dependencies: whether the loop is right depends on which it names first. */
  lemma OrderOfDependenciesMatters()
    ensures var g: Graph := [[Found(1), Found(2)], [], []];
            Rank(g) == Ok([2, 0, 1]) && !DependenciesFirst(g, [2, 0, 1])
    ensures var g: Graph := [[Found(2), Found(1)], [], []];
            Rank(g) == Ok([2, 1, 0]) && DependenciesFirst(g, [2, 1, 0])
  {
    var g: Graph, h: Graph := [[Found(1), Found(2)], [], []], [[Found(2), Found(1)], [], []];
    RankOfThree(g, 1, 2);
    RankOfThree(h, 2, 1);
    var visits: seq<Mark> := [2, 0, 1];
    assert Edge(g, visits[1], visits[2]);
  }

  lemma RankOfThree(g: Graph, a: nat, b: nat)
    requires (a == 1 && b == 2) || (a == 2 && b == 1)
    requires g == [[Found(a), Found(b)], [], []]
    ensures Rank(g) == Ok([2, a - 1, b - 1])
  {
    var u: Mark, p: Mark := UNSET, IN_PROGRESS;
    var s0 := Search([p, u, u], 0);
    var s1 := Search(s0.order[a := 0], 1);
    var s2 := Search(s1.order[b := 1], 2);
    assert Initial(3) == Search([u, u, u], 0) && [u, u, u][0 := p] == [p, u, u];
    assert s2.order[0 := 2] == [2, a - 1, b - 1];
    VisitLeaf(g, s0, a);
    VisitLeaf(g, s1, b);
    assert VisitDependencies(g, s2, 0, 2) == Ok(s2);
    assert VisitDependencies(g, s1, 0, 1) == Ok(s2);
    assert VisitDependencies(g, s0, 0, 0) == Ok(s2);
    var t := Search([2, a - 1, b - 1], 3);
    assert Visit(g, Initial(3), 0) == Ok(t);
    assert VisitFrom(g, t, 3) == Ok(t);
    assert VisitFrom(g, t, 2) == Ok(t);
    assert VisitFrom(g, t, 1) == Ok(t);
  }

  lemma VisitLeaf(g: Graph, s: Search, i: nat)
    requires i < |g| == |s.order| && g[i] == [] && s.order[i] == UNSET
    ensures Visit(g, s, i) == Ok(Search(s.order[i := s.next], s.next + 1))
  {
    var t := s.(order := s.order[i := IN_PROGRESS]);
    assert VisitDependencies(g, t, i, 0) == Ok(t);
    assert t.order[i := t.next] == s.order[i := s.next];
  }

  // ---------- When the loop is right: a condition on the task list ----------

  /** A task that depends on one listed after it. */
  ghost predicate Late(g: Graph, d: nat, e: nat) {
    Edge(g, d, e) && d < e
  }

  /** Each task has one late dependency at most, and what that depends on is listed before them both. */
  ghost predicate Shallow(g: Graph) {
    && (forall d: nat, e: nat, f: nat :: Late(g, d, e) && Late(g, d, f) ==> e == f)
    && (forall d: nat, e: nat, f: nat :: Late(g, d, e) && Edge(g, e, f) ==> f < d)
  }

  /** No task up to `n` that is listed between the two ends of a late dependency needs the first of them,
      or has a late dependency itself. */
  ghost predicate ClearBetween(g: Graph, n: nat) {
    forall d: nat, e: nat, k: nat | Late(g, d, e) && d < k < e && k < n :: Untangled(g, d, k)
  }

  ghost predicate Untangled(g: Graph, d: nat, k: nat) {
    !Edge(g, k, d) && forall f: nat :: !Late(g, k, f)
  }

  ghost predicate LateFor(g: Graph, x: nat, i: nat) {
    exists d: nat :: d < i && Late(g, d, x)
  }

  /** `x` lies from the first end of a late dependency up to before the other. */
  ghost predicate Between(g: Graph, x: nat) {
    exists d: nat, e: nat :: Late(g, d, e) && d <= x < e
  }

  /** The rank of `x` after the first `i` tasks: late dependencies move to their dependents, and what is between moves
      up. */
  ghost function RankAfter(g: Graph, i: nat, x: nat): Mark {
    if LateFor(g, x, i) then
      var d: nat :| d < i && Late(g, d, x);
      d
    else if x >= i then UNSET
    else if Between(g, x) then x + 1
    else x
  }

  ghost predicate Pending(g: Graph, i: nat) {
    exists d: nat, e: nat :: Late(g, d, e) && d < i <= e
  }

  ghost function After(g: Graph, i: nat): Search {
    Search(seq(|g|, x requires 0 <= x < |g| => RankAfter(g, i, x)), i + if Pending(g, i) then 1 else 0)
  }

  lemma NothingBetween(g: Graph, n: nat, d: nat, e: nat, k: nat)
    requires ClearBetween(g, n) && Late(g, d, e) && k < n
    ensures d < k < e ==> !Edge(g, k, d) && forall f: nat :: !Late(g, k, f)
  {
    assert d < k < e ==> Untangled(g, d, k);
  }

  /** Two late dependencies that reach over the same place are one. */
  lemma SameSpan(g: Graph, n: nat, d: nat, e: nat, d': nat, e': nat, x: nat)
    requires Shallow(g) && ClearBetween(g, n)
    requires Late(g, d, e) && Late(g, d', e') && d <= x < e && d' <= x < e' && d < n && d' < n
    ensures d == d' && e == e'
  {
    NothingBetween(g, n, d, e, d');
    NothingBetween(g, n, d', e', d);
  }

  lemma OneDependent(g: Graph, n: nat, d: nat, d': nat, e: nat)
    requires Shallow(g) && ClearBetween(g, n) && Late(g, d, e) && Late(g, d', e) && d < n && d' < n
    ensures d == d'
  {
    SameSpan(g, n, d, e, d', e, e - 1);
  }

  lemma RankOfLate(g: Graph, n: nat, i: nat, d: nat, x: nat)
    requires Shallow(g) && ClearBetween(g, n) && i <= n && d < i && Late(g, d, x)
    ensures RankAfter(g, i, x) == d
  {
    assert LateFor(g, x, i);
    var c: nat := RankAfter(g, i, x);
    assert Late(g, c, x);
    OneDependent(g, n, c, d, x);
  }

  /** Task `i` was ranked as a late dependency before its turn came. */
  lemma TurnOfLate(g: Graph, i: nat)
    requires Shallow(g) && ClearBetween(g, i + 1) && i < |g| && LateFor(g, i, i)
    ensures Visit(g, After(g, i), i) == Ok(After(g, i + 1))
  {
    var d: nat :| d < i && Late(g, d, i);
    RankOfLate(g, i + 1, i, d, i);
    assert forall f: nat :: !Late(g, i, f);
    hide Edge, Late;
    assert Pending(g, i);
    if Pending(g, i + 1) {
      var d': nat, e': nat :| Late(g, d', e') && d' < i + 1 <= e';
      SameSpan(g, i + 1, d, i, d', e', i - 1);
    }
    forall x: nat | x < |g| ensures RankAfter(g, i, x) == RankAfter(g, i + 1, x) {
      SameRank(g, i, x);
    }
    assert After(g, i).order == After(g, i + 1).order;
  }

  /** Only the ranks of task `i` and of its late dependency change in its turn. */
  lemma SameRank(g: Graph, i: nat, x: nat)
    requires Shallow(g) && ClearBetween(g, i + 1) && !Late(g, i, x) && (x != i || LateFor(g, i, i))
    ensures RankAfter(g, i, x) == RankAfter(g, i + 1, x)
  {
    hide Edge;
    if LateFor(g, x, i) {
      var d: nat :| d < i && Late(g, d, x);
      RankOfLate(g, i + 1, i, d, x);
      RankOfLate(g, i + 1, i + 1, d, x);
    }
  }

  lemma EarlierIsRanked(g: Graph, i: nat, j: nat)
    requires j < i
    ensures RankAfter(g, i, j) >= 0
  {}

  /** A task with no late dependency, whose turn comes: all it needs is ranked. */
  lemma TurnOfPlain(g: Graph, i: nat)
    requires Complete(g) && Shallow(g) && ClearBetween(g, i + 1) && i < |g|
    requires !LateFor(g, i, i) && (forall f: nat :: !Late(g, i, f)) && !Edge(g, i, i)
    ensures Visit(g, After(g, i), i) == Ok(After(g, i + 1))
  {
    var s := After(g, i);
    var t := s.(order := s.order[i := IN_PROGRESS]);
    forall m | 0 <= m < |g[i]| ensures g[i][m].Found? && t.order[g[i][m].index] >= 0 {
      assert g[i][m].Found? && Edge(g, i, g[i][m].index);
      assert !Late(g, i, g[i][m].index);
      EarlierIsRanked(g, i, g[i][m].index);
    }
    VisitDependenciesDone(g, t, i, 0);
    PendingSame(g, i);
    var u := After(g, i + 1);
    forall x: nat | x < |g| ensures u.order[x] == t.order[i := t.next][x] {
      if x != i {
        SameRank(g, i, x);
      } else {
        BetweenIsPending(g, i);
      }
    }
    assert u.order == t.order[i := t.next];
  }

  lemma PendingSame(g: Graph, i: nat)
    requires !LateFor(g, i, i) && forall f: nat :: !Late(g, i, f)
    ensures Pending(g, i) <==> Pending(g, i + 1)
  {
    hide Edge;
    if Pending(g, i) {
      var d: nat, e: nat :| Late(g, d, e) && d < i <= e;
      assert e != i;
    }
    if Pending(g, i + 1) {
      var d: nat, e: nat :| Late(g, d, e) && d < i + 1 <= e;
      assert d != i;
    }
  }

  lemma BetweenIsPending(g: Graph, i: nat)
    requires !LateFor(g, i, i) && forall f: nat :: !Late(g, i, f)
    ensures RankAfter(g, i + 1, i) == i + if Pending(g, i) then 1 else 0
  {
    PendingSame(g, i);
    assert !LateFor(g, i, i + 1);
    if Between(g, i) {
      var d: nat, e: nat :| Late(g, d, e) && d <= i < e;
      assert d < i + 1 <= e;
    }
  }

  /** Task `i` with a late dependency `e`: that is ranked first, and then `i`. */
  lemma TurnWithLate(g: Graph, i: nat, e: nat)
    requires Complete(g) && Shallow(g) && ClearBetween(g, i + 1) && i < |g|
    requires !LateFor(g, i, i) && Late(g, i, e) && !Edge(g, i, i)
    ensures Visit(g, After(g, i), i) == Ok(After(g, i + 1))
  {
    var s := After(g, i);
    NothingPending(g, i, e);
    var t := s.(order := s.order[i := IN_PROGRESS]);
    assert e < |g| by { EdgeInRange(g, i, e); }
    VisitLate(g, i, e, t);
    forall m | 0 <= m < |g[i]| ensures g[i][m].Found? && (g[i][m].index == e || t.order[g[i][m].index] >= 0) {
      assert g[i][m].Found? && Edge(g, i, g[i][m].index);
      if g[i][m].index != e {
        assert !Late(g, i, g[i][m].index);
        EarlierIsRanked(g, i, g[i][m].index);
      }
    }
    var v := Search(t.order[e := i], i + 1);
    VisitDependenciesWithLate(g, t, i, 0, e, v);
    assert g[i][0..] == g[i];
    assert v.order[i := i + 1] == s.order[e := i][i := i + 1];
    TurnWithLateRanks(g, i, e);
  }

  lemma EdgeInRange(g: Graph, i: nat, j: nat)
    requires Edge(g, i, j)
    ensures j < |g|
  {}

  lemma NothingPending(g: Graph, i: nat, e: nat)
    requires Shallow(g) && ClearBetween(g, i + 1) && !LateFor(g, i, i) && Late(g, i, e)
    ensures !Pending(g, i) && !LateFor(g, e, i) && Pending(g, i + 1)
    ensures RankAfter(g, i, e) == UNSET
  {
    hide Edge;
    if LateFor(g, e, i) {
      var d: nat :| d < i && Late(g, d, e);
      assert d < i <= e;
      assert Pending(g, i);
    }
    if Pending(g, i) {
      var d: nat, f: nat :| Late(g, d, f) && d < i <= f;
      assert f != i;
      NothingBetween(g, i + 1, d, f, i);
    }
    assert i < i + 1 <= e;
  }

  /** The late dependency is ranked at once, for what it depends on comes before `i`. */
  lemma VisitLate(g: Graph, i: nat, e: nat, t: Search)
    requires Complete(g) && Shallow(g) && Late(g, i, e) && i < e < |g|
    requires |t.order| == |g| && t.order[e] == UNSET && t.next == i
    requires forall j: nat :: j < i ==> t.order[j] >= 0
    ensures Visit(g, t, e) == Ok(Search(t.order[e := i], i + 1))
  {
    var t' := t.(order := t.order[e := IN_PROGRESS]);
    forall m | 0 <= m < |g[e]| ensures g[e][m].Found? && t'.order[g[e][m].index] >= 0 {
      assert g[e][m].Found? && Edge(g, e, g[e][m].index);
    }
    VisitDependenciesDone(g, t', e, 0);
    assert t'.order[e := i] == t.order[e := i];
  }

  lemma {:induction false} VisitDependenciesWithLate(g: Graph, t: Search, i: nat, k: nat, e: nat, v: Search)
    requires |t.order| == |g| && i < |g| && k <= |g[i]| && e < |g|
    requires v.order == t.order[e := i] && Visit(g, t, e) == Ok(v)
    requires forall m :: k <= m < |g[i]| ==> g[i][m].Found? && (g[i][m].index == e || t.order[g[i][m].index] >= 0)
    ensures VisitDependencies(g, t, i, k) == if Found(e) in g[i][k..] then Ok(v) else Ok(t)
    decreases |g[i]| - k
  {
    if k < |g[i]| {
      assert g[i][k..] == [g[i][k]] + g[i][k + 1..];
      if g[i][k].index == e {
        VisitDependenciesDone(g, v, i, k + 1);
      } else {
        assert Visit(g, t, g[i][k].index) == Ok(t);
        VisitDependenciesWithLate(g, t, i, k + 1, e, v);
      }
    }
  }

  lemma TurnWithLateRanks(g: Graph, i: nat, e: nat)
    requires Shallow(g) && ClearBetween(g, i + 1) && i < |g| && e < |g|
    requires !LateFor(g, i, i) && Late(g, i, e)
    ensures After(g, i).order[e := i][i := i + 1] == After(g, i + 1).order
  {
    var u := After(g, i + 1);
    forall x: nat | x < |g| ensures u.order[x] == After(g, i).order[e := i][i := i + 1][x] {
      if x == e {
        RankOfLate(g, i + 1, i + 1, i, e);
      } else if x == i {
        assert !LateFor(g, i, i + 1);
        assert i <= i < e;
      } else {
        SameRank(g, i, x);
      }
    }
  }

  lemma Turn(g: Graph, i: nat)
    requires Complete(g) && Shallow(g) && ClearBetween(g, i + 1) && i < |g| && !Edge(g, i, i)
    ensures Visit(g, After(g, i), i) == Ok(After(g, i + 1))
  {
    hide *;
    if LateFor(g, i, i) {
      TurnOfLate(g, i);
    } else if e: nat :| Late(g, i, e) {
      TurnWithLate(g, i, e);
    } else {
      TurnOfPlain(g, i);
    }
  }

  lemma NoSelfDependency(g: Graph, i: nat)
    requires !Cyclic(g)
    ensures !Edge(g, i, i)
  {
    if Edge(g, i, i) {
      SelfIsCycle(g, i);
    }
  }

  lemma SelfIsCycle(g: Graph, i: nat)
    requires Edge(g, i, i)
    ensures Cyclic(g)
  {
    var p := [i, i];
    assert |p| >= 2 && Path(g, p) && p[0] == p[|p| - 1];
  }

  /** As long as nothing is tangled, the search goes through the tasks as `After` says. */
  lemma {:induction false} RankedUpTo(g: Graph, n: nat)
    requires Complete(g) && !Cyclic(g) && Shallow(g) && ClearBetween(g, n) && n <= |g|
    ensures VisitFrom(g, Initial(|g|), 0) == VisitFrom(g, After(g, n), n)
    ensures Consistent(g, After(g, n), [])
    decreases n
  {
    if n == 0 {
      assert Initial(|g|) == After(g, 0);
      assert Done(Initial(|g|).order) == {};
    } else {
      assert ClearBetween(g, n - 1);
      RankedUpTo(g, n - 1);
      NoSelfDependency(g, n - 1);
      Turn(g, n - 1);
      VisitCorrect(g, After(g, n - 1), [], n - 1);
      hide After, Visit, Shallow, ClearBetween, Consistent;
    }
  }

  /** The ranks that `After` ends with are read as tasks in the right order. */
  lemma UntangledIsRight(g: Graph)
    requires Complete(g) && !Cyclic(g) && Shallow(g) && ClearBetween(g, |g|)
    ensures DependenciesFirst(g, After(g, |g|).order)
  {
    var n := |g|;
    var order := After(g, n).order;
    forall a: nat, b: nat | a < n && b < n && order[a] >= 0 && order[b] >= 0 && Edge(g, order[a], order[b])
      ensures b < a
    {
      RanksInOrder(g, a, b);
    }
  }

  datatype Role = Moved(d: nat) | Inner(d: nat, e: nat) | Plain

  /** How task `x` got its rank. */
  ghost predicate Plays(g: Graph, x: nat, role: Role) {
    match role
    case Moved(d) => Late(g, d, x) && RankAfter(g, |g|, x) == d
    case Inner(d, e) => Late(g, d, e) && d <= x < e && RankAfter(g, |g|, x) == x + 1
    case Plain => RankAfter(g, |g|, x) == x && !Between(g, x) && forall d: nat :: !Late(g, d, x)
  }

  lemma RoleOf(g: Graph, x: nat) returns (role: Role)
    requires Shallow(g) && ClearBetween(g, |g|) && x < |g|
    ensures Plays(g, x, role)
  {
    if d: nat :| d < |g| && Late(g, d, x) {
      RankOfLate(g, |g|, |g|, d, x);
      role := Moved(d);
    } else {
      assert !LateFor(g, x, |g|);
      if Between(g, x) {
        var d: nat, e: nat :| Late(g, d, e) && d <= x < e;
        role := Inner(d, e);
      } else {
        role := Plain;
      }
    }
  }

  lemma AfterPlain(g: Graph, a: nat, b: nat, role: Role)
    requires Plays(g, a, Plain) && Plays(g, b, role) && !Edge(g, a, a)
    requires RankAfter(g, |g|, b) >= 0 && Edge(g, a, RankAfter(g, |g|, b))
    ensures b < a
  {
    hide Edge, RankAfter;
    var y: nat := RankAfter(g, |g|, b);
    assert forall e: nat :: Late(g, a, e) ==> a <= a < e;
    assert !Late(g, a, y);
    if role.Moved? {
      assert !(role.d <= a < b);
    }
  }

  lemma AfterInner(g: Graph, a: nat, b: nat, d: nat, e: nat, role: Role)
    requires Shallow(g) && ClearBetween(g, |g|) && a < |g| && b < |g|
    requires Plays(g, a, Inner(d, e)) && Plays(g, b, role) && !Edge(g, a + 1, a + 1)
    requires RankAfter(g, |g|, b) >= 0 && Edge(g, a + 1, RankAfter(g, |g|, b))
    ensures b < a
  {
    var y: nat := RankAfter(g, |g|, b);
    EdgeInRange(g, d, e);
    NothingBetween(g, |g|, d, e, if a + 1 < e then a + 1 else d);
    hide Edge, RankAfter, ClearBetween;
    assert y < a + 1 && y != d by {
      assert Late(g, a + 1, y) <==> a + 1 < y;
    }
    if role.Moved? && a < b {
      SpansMeet(g, a, b, d, e, role.d);
    }
  }

  lemma SpansMeet(g: Graph, a: nat, b: nat, d: nat, e: nat, d': nat)
    requires Shallow(g) && ClearBetween(g, |g|) && a < |g| && Late(g, d, e) && Late(g, d', b) && d <= a < e
        && d' <= a < b
    ensures d == d'
  {
    SameSpan(g, |g|, d, e, d', b, a);
  }

  lemma AfterMoved(g: Graph, a: nat, b: nat, d: nat, role: Role)
    requires Shallow(g) && ClearBetween(g, |g|) && a < |g| && b < |g|
    requires Plays(g, a, Moved(d)) && Plays(g, b, role) && !Edge(g, d, d)
    requires RankAfter(g, |g|, b) >= 0 && Edge(g, d, RankAfter(g, |g|, b))
    ensures b < a
  {
    var y: nat := RankAfter(g, |g|, b);
    assert y > d ==> Late(g, d, y) && y == a;
    if role.Moved? {
      NothingBetween(g, |g|, role.d, b, d);
      assert role.d == a ==> Edge(g, a, b);
    }
    hide RankAfter, ClearBetween;
  }

  lemma RanksInOrder(g: Graph, a: nat, b: nat)
    requires !Cyclic(g) && Shallow(g) && ClearBetween(g, |g|) && a < |g| && b < |g|
    requires RankAfter(g, |g|, a) >= 0 && RankAfter(g, |g|, b) >= 0
    requires Edge(g, RankAfter(g, |g|, a), RankAfter(g, |g|, b))
    ensures b < a
  {
    NoSelfDependency(g, RankAfter(g, |g|, a));
    var role := RoleOf(g, a);
    var other := RoleOf(g, b);
    match role
    case Plain => AfterPlain(g, a, b, other);
    case Inner(d, e) => AfterInner(g, a, b, d, e, other);
    case Moved(d) => AfterMoved(g, a, b, d, other);
  }

  /** The first place where something is tangled. */
  lemma {:induction false} FirstTangle(g: Graph, n: nat) returns (d: nat, e: nat, k: nat)
    requires !ClearBetween(g, n)
    ensures Late(g, d, e) && d < k < e && k < n && ClearBetween(g, k) && !Untangled(g, d, k)
  {
    hide Late, Untangled;
    if ClearBetween(g, n - 1) {
      d, e, k :| Late(g, d, e) && d < k < e && k < n && !Untangled(g, d, k);
      assert k == n - 1;
    } else {
      d, e, k := FirstTangle(g, n - 1);
    }
  }

  /** Up to a tangle ranks run one ahead, so that its task `k` is run in the turn of `k - 1`. */
  lemma RanksBeforeTangle(g: Graph, d: nat, e: nat, k: nat)
    requires Shallow(g) && ClearBetween(g, k) && Late(g, d, e) && d < k < e
    ensures RankAfter(g, k, k - 1) == k && RankAfter(g, k, e) == d
    ensures forall x: nat :: x < k ==> 0 <= RankAfter(g, k, x) <= x + 1
  {
    RankOfLate(g, k, k, d, e);
    assert d <= k - 1 < e;
    assert Between(g, k - 1);
    if LateFor(g, k - 1, k) {
      var c: nat :| c < k && Late(g, c, k - 1);
      NothingBetween(g, k, c, k - 1, d);
      NothingBetween(g, k, d, e, c);
    }
    forall x: nat | x < k ensures 0 <= RankAfter(g, k, x) <= x + 1 {
      if LateFor(g, x, k) {
        var c: nat :| c < k && Late(g, c, x);
        RankOfLate(g, k, k, c, x);
      }
    }
  }

  ghost function Elements(s: seq<Mark>): set<int> {
    set x <- s
  }

  lemma {:induction false} DistinctCount(s: seq<Mark>)
    requires forall i, j :: 0 <= i < j < |s| ==> s[i] != s[j]
    ensures |Elements(s)| == |s|
  {
    if s != [] {
      var rest, last := s[..|s| - 1], s[|s| - 1];
      DistinctCount(rest);
      assert s == rest + [last];
      assert Elements(s) == Elements(rest) + {last};
      assert last !in Elements(rest);
    }
  }

  lemma EachRankOccurs(g: Graph, order: seq<Mark>, r: nat) returns (b: nat)
    requires TopologicalRanking(g, order) && r < |g|
    ensures b < |g| && order[b] == r
  {
    if r !in Elements(order) {
      DistinctCount(order);
      SubsetOfRange(Elements(order) + {r}, |g|);
    }
    b :| 0 <= b < |order| && order[b] == r;
  }

  /** A ranking that runs one ahead up to a tangle runs the tangled task too early. */
  lemma RunTooEarly(g: Graph, order: seq<Mark>, d: nat, e: nat, k: nat)
    requires TopologicalRanking(g, order) && d < k < e < |g| && !Untangled(g, d, k)
    requires order[k - 1] == k && order[e] == d && forall x: nat :: x < k ==> order[x] <= x + 1
    ensures !DependenciesFirst(g, order)
  {
    assert |order| == |g|;
    if Edge(g, k, d) {
      assert Edge(g, order[k - 1], order[e]);
    } else {
      var f: nat :| Late(g, k, f);
      EdgeInRange(g, k, f);
      var b := EachRankOccurs(g, order, f);
      hide TopologicalRanking;
      assert Edge(g, order[k - 1], order[b]);
    }
  }

  lemma TangledIsWrong(g: Graph)
    requires Complete(g) && !Cyclic(g) && Shallow(g) && !ClearBetween(g, |g|)
    ensures Rank(g).Ok? && !DependenciesFirst(g, Rank(g).value)
  {
    hide *;
    var d, e, k := FirstTangle(g, |g|);
    RankCorrect(g);
    RanksBeforeTangle(g, d, e, k);
    assert e < |g| by { LateInRange(g, d, e); }
    RanksStay(g, k);
    RunTooEarly(g, Rank(g).value, d, e, k);
  }

  lemma LateInRange(g: Graph, d: nat, e: nat)
    requires Late(g, d, e)
    ensures e < |g|
  {}

  lemma RanksStay(g: Graph, k: nat)
    requires Complete(g) && !Cyclic(g) && Shallow(g) && ClearBetween(g, k) && k <= |g| && Rank(g).Ok?
    ensures |Rank(g).value| == |g|
    ensures forall x: nat :: x < |g| && RankAfter(g, k, x) >= 0 ==> Rank(g).value[x] == RankAfter(g, k, x)
  {
    RankedUpTo(g, k);
    forall m: nat | m < k ensures After(g, k).order[m] >= 0 {
      EarlierIsRanked(g, k, m);
    }
    VisitFromCorrect(g, After(g, k), k);
    hide RankAfter, ClearBetween, Shallow, Consistent, VisitFrom;
    var s, t := After(g, k), VisitFrom(g, After(g, k), k).value;
    assert Extends(s, t) && Rank(g).value == t.order;
  }

  /** Where late dependencies are shallow, the loop is right if and only if nothing between the two ends of one
      needs its first end or has a late dependency itself. */
  lemma LoopIsRightExactly(g: Graph)
    requires Complete(g) && !Cyclic(g) && Shallow(g)
    ensures Rank(g).Ok? && (DependenciesFirst(g, Rank(g).value) <==> ClearBetween(g, |g|))
  {
    RankCorrect(g);
    if ClearBetween(g, |g|) {
      RankedUpTo(g, |g|);
      UntangledIsRight(g);
    } else {
      TangledIsWrong(g);
    }
  }

  /** The task list of the program: `js/flash.js` (12) needs `ruffle` (19), and nothing else is late. */
  const TASKS: Graph :=
    [[]]
    + [[Found(0)], [Found(0)]]
    + [[Found(0), Found(1)], [Found(0), Found(1)], [Found(0), Found(1)], [Found(0), Found(1)], [Found(0), Found(1)]]
    + [[Found(0), Found(2)]]
    + [[Found(0)], [Found(0)], [Found(0)]]
    + [[Found(0), Found(19)]]
    + [[Found(0)], [Found(0)], [Found(0)], [Found(0)], [Found(0)], [Found(0)], [Found(0)]]

  lemma DependenciesOfTasks(i: nat, j: nat)
    requires Edge(TASKS, i, j)
    ensures i < 20 && (j < 3 <= i || j == 0 < i || (i == 12 && j == 19))
  {}

  lemma NothingOnTouch(j: nat)
    ensures !Edge(TASKS, 0, j) && (Edge(TASKS, 19, j) ==> j == 0)
  {}

  lemma TasksAreComplete()
    ensures |TASKS| == 20 && Complete(TASKS)
  {}

  lemma TasksAreAcyclic()
    ensures !Cyclic(TASKS)
  {
    var order: seq<Mark> := seq(20, i => if i < 12 then i else if i == 12 then 19 else if i == 19 then 12 else i);
    TasksAreComplete();
    hide TASKS;
    forall i: nat, j: nat | Edge(TASKS, i, j) ensures i < 20 && j < 20 && order[j] < order[i] {
      DependenciesOfTasks(i, j);
      NothingOnTouch(j);
    }
    RankingIsAcyclic(TASKS, order);
  }

  lemma TasksAreShallow()
    ensures Shallow(TASKS) && ClearBetween(TASKS, 20)
  {
    hide TASKS, Edge;
    forall i: nat, j: nat | Edge(TASKS, i, j)
      ensures (i < j ==> i == 12 && j == 19) && (i == 19 ==> j == 0) && (j == 12 ==> false)
    {
      DependenciesOfTasks(i, j);
      NothingOnTouch(j);
    }
  }

  /** The loop is right for the task list as it is. */
  lemma TaskListIsRight()
    ensures Rank(TASKS).Ok? && DependenciesFirst(TASKS, Rank(TASKS).value)
  {
    hide *;
    TasksAreComplete();
    TasksAreAcyclic();
    TasksAreShallow();
    LoopIsRightExactly(TASKS);
  }

  // ---------- The search in place ----------

  class Ranker {
    const graph: Graph
    const order: array<Mark>
    var nextOrder: nat

    constructor (g: Graph)
      ensures graph == g && fresh(order) && order.Length == |g|
      ensures State() == Initial(|g|)
    {
      graph := g;
      order := new Mark[|g|](_ => UNSET);
      nextOrder := 0;
    }

    ghost function State(): Search
      reads this, order
    {
      Search(order[..], nextOrder)
    }

    /** `traverse`: as `Visit`, on the shared array. */
    method Traverse(i: nat) returns (r: Outcome<()>)
      requires order.Length == |graph| && i < |graph|
      modifies this`nextOrder, order
      ensures match Visit(graph, old(State()), i)
              case Ok(t) => r == Ok(()) && State() == t
              case Throw(e) => r == Throw(e)
      decreases Unset(order[..])
    {
      if order[i] >= 0 {
        return Ok(());
      }
      if order[i] == IN_PROGRESS {
        return Throw(DependencyCycle);
      }
      ghost var before := State();
      assert i in Unset(order[..]);
      order[i] := IN_PROGRESS;
      ghost var marked := State();
      assert marked == before.(order := before.order[i := IN_PROGRESS]);
      assert Unset(marked.order) == Unset(before.order) - {i};

      for k := 0 to |graph[i]|
        invariant Unset(order[..]) <= Unset(marked.order)
        invariant VisitDependencies(graph, State(), i, k) == VisitDependencies(graph, marked, i, 0)
      {
        match graph[i][k] {
          case NotInTasks =>
            return Throw(DependencyNotInTasks);
          case Found(j) =>
            var inner := Traverse(j);
            if inner.Throw? {
              return inner;
            }
        }
      }

      order[i] := nextOrder;
      nextOrder := nextOrder + 1;
      return Ok(());
    }
  }

  method GetTopologicalOrder(g: Graph) returns (r: Outcome<seq<Mark>>)
    ensures r == Rank(g)
    ensures r.Ok? <==> Complete(g) && !Cyclic(g)
    ensures r.Ok? ==> TopologicalRanking(g, r.value)
    ensures Complete(g) ==> (r == Throw(DependencyCycle) <==> Cyclic(g))
  {
    RankCorrect(g);
    var ranker := new Ranker(g);
    for i := 0 to |g|
      invariant VisitFrom(g, ranker.State(), i) == VisitFrom(g, Initial(|g|), 0)
    {
      var visited := ranker.Traverse(i);
      if visited.Throw? {
        return Throw(visited.error);
      }
    }
    return Ok(ranker.order[..]);
  }
}
