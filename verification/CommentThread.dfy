/** Threading comments for display (weasyl/comment.py, `thread`).

    Below, a comment is named by its position in the query result. */
module CommentThread {
  import opened Options
  import opened Lists

  /** `parent` is zero for a top-level comment. */
  datatype Row = Row(id: nat, parent: nat, body: string, hidden: bool)

  datatype Comment = Comment(id: nat, body: string, indent: nat, hidden: bool)

  type Rows = seq<Row>

  // ---------- Which comments are shown, and where they belong ----------

  /** Where the reply goes: nowhere if the comment it answers is not shown above it. */
  datatype Place = TopLevel | Under(k: nat) | Nowhere

  /** The position of an id among the first `k` rows. */
  function Find(rows: Rows, id: nat, k: nat): (r: Option<nat>)
    requires k <= |rows|
    ensures r.Some? ==> r.value < k && rows[r.value].id == id
    ensures r.None? ==> forall j :: 0 <= j < k ==> rows[j].id != id
  {
    if k == 0 then None else if rows[k - 1].id == id then Some(k - 1) else Find(rows, id, k - 1)
  }

  function PlaceOf(rows: Rows, k: nat): (p: Place)
    ensures p.Under? ==> p.k < k < |rows|
    decreases k
  {
    if k >= |rows| then Nowhere
    else if rows[k].parent == 0 then TopLevel
    else
      match Find(rows, rows[k].parent, k)
      case None => Nowhere
      case Some(j) => if PlaceOf(rows, j) == Nowhere then Nowhere else Under(j)
  }

  predicate Shown(rows: Rows, k: nat) {
    PlaceOf(rows, k) != Nowhere
  }

  function Depth(rows: Rows, k: nat): nat
    decreases k
  {
    match PlaceOf(rows, k)
    case Under(j) => Depth(rows, j) + 1
    case _ => 0
  }

  /** Hidden itself, or an answer to what is. */
  predicate HiddenAt(rows: Rows, k: nat)
    requires k < |rows|
    decreases k
  {
    rows[k].hidden || match PlaceOf(rows, k) case Under(j) => HiddenAt(rows, j) case _ => false
  }

  /** `k` is `a` or below it. */
  predicate Below(rows: Rows, k: nat, a: nat)
    requires k < |rows|
    decreases k
  {
    k == a || match PlaceOf(rows, k) case Under(j) => Below(rows, j, a) case _ => false
  }

  /** The comments in a place among the first `n`, in order. */
  function Children(rows: Rows, p: Place, n: nat): (ks: seq<nat>)
    requires n <= |rows|
    ensures forall i :: 0 <= i < |ks| ==> ks[i] < n && PlaceOf(rows, ks[i]) == p
    ensures forall i, j :: 0 <= i < j < |ks| ==> ks[i] < ks[j]
  {
    if n == 0 then []
    else Children(rows, p, n - 1) + if PlaceOf(rows, n - 1) == p then [n - 1] else []
  }

  lemma {:induction false} ChildrenComplete(rows: Rows, p: Place, n: nat, k: nat)
    requires k < n <= |rows| && PlaceOf(rows, k) == p
    ensures k in Children(rows, p, n)
  {
    hide PlaceOf;
    var before := Children(rows, p, n - 1);
    assert Children(rows, p, n) == before + if PlaceOf(rows, n - 1) == p then [n - 1] else [];
    if k < n - 1 {
      ChildrenComplete(rows, p, n - 1, k);
    }
  }

  function Replies(rows: Rows, k: nat): (ks: seq<nat>)
    requires k < |rows|
    ensures forall i :: 0 <= i < |ks| ==> k < ks[i] < |rows| && PlaceOf(rows, ks[i]) == Under(k)
  {
    Children(rows, Under(k), |rows|)
  }

  /** Preorder. */
  function Walk(rows: Rows, ks: seq<nat>, ghost above: int): (out: seq<nat>)
    requires -1 <= above < |rows| && forall i :: 0 <= i < |ks| ==> above < ks[i] < |rows|
    ensures forall i :: 0 <= i < |out| ==> above < out[i] < |rows|
    decreases |rows| - above, |ks|
  {
    if ks == [] then []
    else [ks[0]] + Walk(rows, Replies(rows, ks[0]), ks[0]) + Walk(rows, ks[1..], above)
  }

  lemma WalkCons(rows: Rows, ks: seq<nat>, above: int)
    requires -1 <= above < |rows| && ks != [] && forall i :: 0 <= i < |ks| ==> above < ks[i] < |rows|
    ensures Walk(rows, ks, above)
         == [ks[0]] + Walk(rows, Replies(rows, ks[0]), ks[0]) + Walk(rows, ks[1..], above)
  {}

  function Roots(rows: Rows, reverseTopLevel: bool): (ks: seq<nat>)
    ensures forall i :: 0 <= i < |ks| ==> ks[i] < |rows| && PlaceOf(rows, ks[i]) == TopLevel
  {
    var ks := Children(rows, TopLevel, |rows|);
    if reverseTopLevel then Reverse(ks) else ks
  }

  function Order(rows: Rows, reverseTopLevel: bool): (ks: seq<nat>)
    ensures forall i :: 0 <= i < |ks| ==> ks[i] < |rows|
  {
    if rows == [] then [] else Walk(rows, Roots(rows, reverseTopLevel), -1)
  }

  function Entry(rows: Rows, k: nat): Comment
    requires k < |rows|
  {
    Comment(rows[k].id, rows[k].body, Depth(rows, k), HiddenAt(rows, k))
  }

  function Display(rows: Rows, ks: seq<nat>): seq<Comment>
    requires forall i :: 0 <= i < |ks| ==> ks[i] < |rows|
  {
    seq(|ks|, i requires 0 <= i < |ks| => Entry(rows, ks[i]))
  }

  // ---------- What the order is ----------

  ghost predicate Distinct(s: seq<nat>) {
    forall i, j :: 0 <= i < j < |s| ==> s[i] != s[j]
  }

  /** All of the same place, each once. */
  ghost predicate Siblings(rows: Rows, ks: seq<nat>, p: Place) {
    Distinct(ks) && forall i :: 0 <= i < |ks| ==> ks[i] < |rows| && PlaceOf(rows, ks[i]) == p
  }

  lemma {:induction false} BelowIsLater(rows: Rows, k: nat, a: nat)
    requires k < |rows| && Below(rows, k, a)
    ensures a <= k
    decreases k
  {
    if k != a {
      BelowIsLater(rows, PlaceOf(rows, k).k, a);
    }
  }

  /** What is below `k` is `k` or below one of its replies. */
  lemma {:induction false} BelowReply(rows: Rows, k: nat, a: nat) returns (b: nat)
    requires k < |rows| && a < |rows| && Below(rows, k, a) && k != a
    ensures b in Replies(rows, a) && Below(rows, k, b)
    decreases k
  {
    var j := PlaceOf(rows, k).k;
    if j == a {
      ChildrenComplete(rows, Under(a), |rows|, k);
      b := k;
    } else {
      b := BelowReply(rows, j, a);
    }
  }

  /** Two comments of one place have nothing below them in common. */
  lemma {:induction false} SiblingsAreDisjoint(rows: Rows, k: nat, a: nat, b: nat)
    requires k < |rows| && a < |rows| && b < |rows| && PlaceOf(rows, a) == PlaceOf(rows, b) && a != b
    ensures !(Below(rows, k, a) && Below(rows, k, b))
    decreases k
  {
    if Below(rows, k, a) && Below(rows, k, b) {
      if k == a {
        var j := PlaceOf(rows, k).k;
        BelowIsLater(rows, j, b);
      } else if k == b {
        BelowIsLater(rows, PlaceOf(rows, k).k, a);
      } else {
        SiblingsAreDisjoint(rows, PlaceOf(rows, k).k, a, b);
      }
    }
  }

  ghost predicate BelowAny(rows: Rows, k: nat, ks: seq<nat>)
    requires k < |rows|
  {
    exists i :: 0 <= i < |ks| && Below(rows, k, ks[i])
  }

  lemma {:induction false} WalkMembers(rows: Rows, ks: seq<nat>, p: Place, above: int, k: nat)
    requires -1 <= above < |rows| && Siblings(rows, ks, p) && forall i :: 0 <= i < |ks| ==> above < ks[i]
    requires k < |rows|
    ensures k in Walk(rows, ks, above) <==> BelowAny(rows, k, ks)
    decreases |rows| - above, |ks|
  {
    if ks != [] {
      hide Walk, Replies, Below, BelowAny, PlaceOf;
      var a, rest := ks[0], ks[1..];
      var replies := Replies(rows, a);
      assert Siblings(rows, rest, p);
      WalkCons(rows, ks, above);
      WalkMembers(rows, replies, Under(a), a, k);
      WalkMembers(rows, rest, p, above, k);
      BelowAnyCons(rows, k, ks);
      BelowAnyReply(rows, k, a);
    }
  }

  lemma BelowAnyReply(rows: Rows, k: nat, a: nat)
    requires k < |rows| && a < |rows|
    ensures Below(rows, k, a) <==> k == a || BelowAny(rows, k, Replies(rows, a))
  {
    if Below(rows, k, a) && k != a {
      var b := BelowReply(rows, k, a);
    }
    if BelowAny(rows, k, Replies(rows, a)) {
      BlockIsBelow(rows, a, k);
    }
  }

  lemma BelowAnyCons(rows: Rows, k: nat, ks: seq<nat>)
    requires k < |rows| && ks != []
    ensures BelowAny(rows, k, ks) <==> Below(rows, k, ks[0]) || BelowAny(rows, k, ks[1..])
  {}

  lemma DistinctConcat(a: seq<nat>, b: seq<nat>)
    requires Distinct(a) && Distinct(b) && forall x :: x in a ==> x !in b
    ensures Distinct(a + b)
  {
    var c := a + b;
    forall i, j | 0 <= i < j < |c| ensures c[i] != c[j] {
      if i < |a| <= j {
        assert a[i] in a && b[j - |a|] in b;
      }
    }
  }

  lemma {:induction false} WalkDistinct(rows: Rows, ks: seq<nat>, p: Place, above: int)
    requires -1 <= above < |rows| && Siblings(rows, ks, p) && forall i :: 0 <= i < |ks| ==> above < ks[i]
    ensures Distinct(Walk(rows, ks, above))
    decreases |rows| - above, |ks|
  {
    if ks != [] {
      var a, rest := ks[0], ks[1..];
      var inner, outer := Walk(rows, Replies(rows, a), a), Walk(rows, rest, above);
      assert Siblings(rows, rest, p);
      WalkDistinct(rows, Replies(rows, a), Under(a), a);
      WalkDistinct(rows, rest, p, above);
      DistinctConcat([a], inner);
      forall x | x in [a] + inner ensures x !in outer {
        WalkMembers(rows, Replies(rows, a), Under(a), a, x);
        WalkMembers(rows, rest, p, above, x);
        BlockIsBelow(rows, a, x);
        forall i | 0 <= i < |rest| ensures !Below(rows, x, rest[i]) {
          SiblingsAreDisjoint(rows, x, a, rest[i]);
        }
      }
      DistinctConcat([a] + inner, outer);
    }
  }

  lemma BlockIsBelow(rows: Rows, a: nat, x: nat)
    requires a < |rows| && x < |rows| && (x == a || BelowAny(rows, x, Replies(rows, a)))
    ensures Below(rows, x, a)
  {}

  lemma {:induction false} ShownHasRoot(rows: Rows, k: nat) returns (r: nat)
    requires k < |rows| && Shown(rows, k)
    ensures r < |rows| && PlaceOf(rows, r) == TopLevel && Below(rows, k, r)
    decreases k
  {
    match PlaceOf(rows, k) {
      case TopLevel => r := k;
      case Under(j) => r := ShownHasRoot(rows, j);
    }
  }

  lemma {:induction false} BelowShownIsShown(rows: Rows, k: nat, a: nat)
    requires k < |rows| && a < |rows| && Below(rows, k, a) && Shown(rows, a)
    ensures Shown(rows, k)
    decreases k
  {}

  lemma ReverseKeeps(s: seq<nat>)
    ensures forall x :: x in Reverse(s) <==> x in s
    ensures Distinct(s) ==> Distinct(Reverse(s))
  {
    forall x | x in s ensures x in Reverse(s) {
      var i :| 0 <= i < |s| && s[i] == x;
      assert Reverse(s)[|s| - 1 - i] == x;
    }
  }

  lemma RootsAreSiblings(rows: Rows, reverseTopLevel: bool)
    ensures Siblings(rows, Roots(rows, reverseTopLevel), TopLevel)
    ensures forall k: nat :: k < |rows| && PlaceOf(rows, k) == TopLevel ==> k in Roots(rows, reverseTopLevel)
  {
    ReverseKeeps(Children(rows, TopLevel, |rows|));
    forall k: nat | k < |rows| && PlaceOf(rows, k) == TopLevel ensures k in Children(rows, TopLevel, |rows|) {
      ChildrenComplete(rows, TopLevel, |rows|, k);
    }
  }

  lemma InOrderIfShown(rows: Rows, reverseTopLevel: bool, k: nat)
    requires k < |rows|
    ensures k in Order(rows, reverseTopLevel) <==> Shown(rows, k)
  {
    hide Walk, Roots, Below;
    var roots := Roots(rows, reverseTopLevel);
    RootsAreSiblings(rows, reverseTopLevel);
    WalkMembers(rows, roots, TopLevel, -1, k);
    if Shown(rows, k) {
      var r := ShownHasRoot(rows, k);
      var i :| 0 <= i < |roots| && roots[i] == r;
      assert BelowAny(rows, k, roots);
    }
    if BelowAny(rows, k, roots) {
      var i :| 0 <= i < |roots| && Below(rows, k, roots[i]);
      BelowShownIsShown(rows, k, roots[i]);
    }
  }

  /** The comments in the output are those that are shown, each once. */
  lemma EachShownOnce(rows: Rows, reverseTopLevel: bool)
    ensures Distinct(Order(rows, reverseTopLevel))
    ensures forall k: nat :: k < |rows| ==> (k in Order(rows, reverseTopLevel) <==> Shown(rows, k))
  {
    if rows != [] {
      RootsAreSiblings(rows, reverseTopLevel);
      WalkDistinct(rows, Roots(rows, reverseTopLevel), TopLevel, -1);
      forall k: nat | k < |rows| ensures k in Order(rows, reverseTopLevel) <==> Shown(rows, k) {
        InOrderIfShown(rows, reverseTopLevel, k);
      }
    }
  }

  /** The last entry so far that is indented less than `k` will be. */
  function Enclosing(rows: Rows, before: seq<nat>, k: nat): Place {
    if before == [] then TopLevel
    else
      var last := before[|before| - 1];
      if Depth(rows, last) < Depth(rows, k) then Under(last) else Enclosing(rows, before[..|before| - 1], k)
  }

  /** The indentation alone shows where each entry of `out` belongs, when `before` is displayed above. */
  predicate WellIndented(rows: Rows, before: seq<nat>, out: seq<nat>)
    decreases |out|
  {
    out != [] ==>
      PlaceOf(rows, out[0]) == Enclosing(rows, before, out[0]) && WellIndented(rows, before + [out[0]], out[1..])
  }

  lemma {:induction false} WellIndentedConcat(rows: Rows, before: seq<nat>, a: seq<nat>, b: seq<nat>)
    requires WellIndented(rows, before, a) && WellIndented(rows, before + a, b)
    ensures WellIndented(rows, before, a + b)
    decreases |a|
  {
    hide PlaceOf, Enclosing, Depth;
    if a == [] {
      assert before + a == before && a + b == b;
    } else {
      assert (a + b)[1..] == a[1..] + b;
      assert before + a == (before + [a[0]]) + a[1..];
      WellIndentedConcat(rows, before + [a[0]], a[1..], b);
    }
  }

  /** Entries at least as far in do not come between. */
  lemma {:induction false} EnclosingSkips(rows: Rows, before: seq<nat>, block: seq<nat>, k: nat)
    requires forall i :: 0 <= i < |block| ==> Depth(rows, block[i]) >= Depth(rows, k)
    ensures Enclosing(rows, before + block, k) == Enclosing(rows, before, k)
    decreases |block|
  {
    if block == [] {
      assert before + block == before;
    } else {
      assert (before + block)[..|before + block| - 1] == before + block[..|block| - 1];
      EnclosingSkips(rows, before, block[..|block| - 1], k);
    }
  }

  lemma {:induction false} WalkIsDeep(rows: Rows, ks: seq<nat>, above: int, d: nat)
    requires -1 <= above < |rows| && forall i :: 0 <= i < |ks| ==> above < ks[i] < |rows| && Depth(rows, ks[i]) >= d
    ensures forall i :: 0 <= i < |Walk(rows, ks, above)| ==> Depth(rows, Walk(rows, ks, above)[i]) >= d
    decreases |rows| - above, |ks|
  {
    if ks != [] {
      WalkIsDeep(rows, Replies(rows, ks[0]), ks[0], d);
      WalkIsDeep(rows, ks[1..], above, d);
    }
  }

  lemma {:induction false} WalkWellIndented(rows: Rows, before: seq<nat>, ks: seq<nat>, p: Place, above: int)
    requires -1 <= above < |rows| && p != Nowhere
    requires forall i :: 0 <= i < |ks| ==> above < ks[i] < |rows| && PlaceOf(rows, ks[i]) == p
    requires forall i :: 0 <= i < |ks| ==> Enclosing(rows, before, ks[i]) == p
    ensures WellIndented(rows, before, Walk(rows, ks, above))
    decreases |rows| - above, |ks|
  {
    if ks != [] {
      hide PlaceOf, Enclosing, Depth, WellIndented, Replies, Walk;
      var a, rest := ks[0], ks[1..];
      var inner := Walk(rows, Replies(rows, a), a);
      WalkCons(rows, ks, above);
      EnclosedByParent(rows, before, a);
      WalkWellIndented(rows, before + [a], Replies(rows, a), Under(a), a);
      BlockWellIndented(rows, before, a, inner);
      EnclosedAfterBlock(rows, before, a, rest, p);
      WalkWellIndented(rows, before + ([a] + inner), rest, p, above);
      WellIndentedConcat(rows, before, [a] + inner, Walk(rows, rest, above));
    }
  }

  lemma EnclosedByParent(rows: Rows, before: seq<nat>, a: nat)
    requires a < |rows|
    ensures forall i :: 0 <= i < |Replies(rows, a)| ==> Enclosing(rows, before + [a], Replies(rows, a)[i]) == Under(a)
  {}

  lemma EnclosedAfterBlock(rows: Rows, before: seq<nat>, a: nat, rest: seq<nat>, p: Place)
    requires a < |rows| && PlaceOf(rows, a) == p
    requires forall i :: 0 <= i < |rest| ==>
               rest[i] < |rows| && PlaceOf(rows, rest[i]) == p && Enclosing(rows, before, rest[i]) == p
    ensures forall i :: 0 <= i < |rest| ==>
      Enclosing(rows, before + ([a] + Walk(rows, Replies(rows, a), a)), rest[i]) == p
  {
    hide Depth, Enclosing, PlaceOf, Walk, Replies;
    forall i | 0 <= i < |rest|
      ensures Enclosing(rows, before + ([a] + Walk(rows, Replies(rows, a), a)), rest[i]) == p
    {
      var block := [a] + Walk(rows, Replies(rows, a), a);
      BlockIsDeep(rows, a, rest[i], block);
      EnclosingSkips(rows, before, block, rest[i]);
    }
  }

  lemma BlockIsDeep(rows: Rows, a: nat, b: nat, block: seq<nat>)
    requires a < |rows| && b < |rows| && PlaceOf(rows, a) == PlaceOf(rows, b)
    requires block == [a] + Walk(rows, Replies(rows, a), a)
    ensures forall i :: 0 <= i < |block| ==> Depth(rows, block[i]) >= Depth(rows, b)
  {
    RepliesAreDeep(rows, a);
    SamePlaceSameDepth(rows, a, b);
    hide Depth, PlaceOf, Walk, Replies;
    WalkIsDeep(rows, Replies(rows, a), a, Depth(rows, a));
  }

  lemma SamePlaceSameDepth(rows: Rows, a: nat, b: nat)
    requires PlaceOf(rows, a) == PlaceOf(rows, b)
    ensures Depth(rows, a) == Depth(rows, b)
  {}

  lemma RepliesAreDeep(rows: Rows, a: nat)
    requires a < |rows|
    ensures forall i :: 0 <= i < |Replies(rows, a)| ==> Depth(rows, Replies(rows, a)[i]) >= Depth(rows, a)
  {}

  lemma BlockWellIndented(rows: Rows, before: seq<nat>, a: nat, inner: seq<nat>)
    requires PlaceOf(rows, a) == Enclosing(rows, before, a) && WellIndented(rows, before + [a], inner)
    ensures WellIndented(rows, before, [a] + inner)
  {}

  /** Reading the indentation alone recovers where every comment belongs. */
  lemma IndentationShowsParents(rows: Rows, reverseTopLevel: bool)
    ensures WellIndented(rows, [], Order(rows, reverseTopLevel))
  {
    if rows != [] {
      WalkWellIndented(rows, [], Roots(rows, reverseTopLevel), TopLevel, -1);
    }
  }

  ghost predicate Before(s: seq<nat>, x: nat, y: nat) {
    exists i, j :: 0 <= i < j < |s| && s[i] == x && s[j] == y
  }

  lemma BeforeInConcat(a: seq<nat>, b: seq<nat>, x: nat, y: nat)
    requires Before(a, x, y) || Before(b, x, y) || (x in a && y in b)
    ensures Before(a + b, x, y)
  {
    var c := a + b;
    if Before(a, x, y) {
      var i, j :| 0 <= i < j < |a| && a[i] == x && a[j] == y;
      assert c[i] == x && c[j] == y;
    } else if Before(b, x, y) {
      var i, j :| 0 <= i < j < |b| && b[i] == x && b[j] == y;
      assert c[|a| + i] == x && c[|a| + j] == y;
    } else {
      var i :| 0 <= i < |a| && a[i] == x;
      var j :| 0 <= j < |b| && b[j] == y;
      assert c[i] == x && c[|a| + j] == y;
    }
  }

  lemma {:induction false} WalkHasAll(rows: Rows, ks: seq<nat>, above: int, x: nat)
    requires -1 <= above < |rows| && forall i :: 0 <= i < |ks| ==> above < ks[i] < |rows|
    requires x in ks
    ensures x in Walk(rows, ks, above)
    decreases |ks|
  {
    if x != ks[0] {
      assert x in ks[1..];
      WalkHasAll(rows, ks[1..], above, x);
    }
  }

  lemma {:induction false} WalkKeepsOrder(rows: Rows, ks: seq<nat>, above: int, x: nat, y: nat)
    requires -1 <= above < |rows| && forall i :: 0 <= i < |ks| ==> above < ks[i] < |rows|
    requires Before(ks, x, y)
    ensures Before(Walk(rows, ks, above), x, y)
    decreases |ks|
  {
    hide Walk, Replies;
    var i, j :| 0 <= i < j < |ks| && ks[i] == x && ks[j] == y;
    var head, tail := [ks[0]] + Walk(rows, Replies(rows, ks[0]), ks[0]), Walk(rows, ks[1..], above);
    WalkCons(rows, ks, above);
    if i == 0 {
      assert y == ks[1..][j - 1];
      WalkHasAll(rows, ks[1..], above, y);
    } else {
      assert ks[1..][i - 1] == x && ks[1..][j - 1] == y;
      WalkKeepsOrder(rows, ks[1..], above, x, y);
    }
    BeforeInConcat(head, tail, x, y);
  }

  lemma {:induction false} RepliesInOrder(rows: Rows, ks: seq<nat>, above: int, a: nat, x: nat, y: nat)
    requires -1 <= above < |rows| && forall i :: 0 <= i < |ks| ==> above < ks[i] < |rows|
    requires a < |rows| && a in Walk(rows, ks, above) && Before(Replies(rows, a), x, y)
    ensures Before(Walk(rows, ks, above), x, y)
    decreases |rows| - above, |ks|
  {
    if ks != [] {
      hide Walk, Replies, Before;
      var k, rest := ks[0], ks[1..];
      var inner, tail := Walk(rows, Replies(rows, k), k), Walk(rows, rest, above);
      WalkCons(rows, ks, above);
      if a == k {
        WalkKeepsOrder(rows, Replies(rows, k), k, x, y);
        BeforeInConcat([k], inner, x, y);
      } else if a in inner {
        RepliesInOrder(rows, Replies(rows, k), k, a, x, y);
        BeforeInConcat([k], inner, x, y);
      } else {
        RepliesInOrder(rows, rest, above, a, x, y);
      }
      BeforeInConcat([k] + inner, tail, x, y);
    }
  }

  lemma SiblingsBefore(rows: Rows, p: Place, x: nat, y: nat)
    requires x < y < |rows| && PlaceOf(rows, x) == PlaceOf(rows, y) == p
    ensures Before(Children(rows, p, |rows|), x, y)
  {
    var ks := Children(rows, p, |rows|);
    ChildrenComplete(rows, p, |rows|, x);
    ChildrenComplete(rows, p, |rows|, y);
    var i :| 0 <= i < |ks| && ks[i] == x;
    var j :| 0 <= j < |ks| && ks[j] == y;
    assert i < j;
  }

  lemma ReverseTurnsAround(s: seq<nat>, x: nat, y: nat)
    requires Before(s, x, y)
    ensures Before(Reverse(s), y, x)
  {
    var i, j :| 0 <= i < j < |s| && s[i] == x && s[j] == y;
    assert Reverse(s)[|s| - 1 - j] == y && Reverse(s)[|s| - 1 - i] == x;
  }

  /** Comments of one place come in the order of the query, except that the top level may be turned around. */
  lemma SiblingsInOrder(rows: Rows, reverseTopLevel: bool, x: nat, y: nat)
    requires x < y < |rows| && PlaceOf(rows, x) == PlaceOf(rows, y) != Nowhere
    ensures if reverseTopLevel && PlaceOf(rows, x) == TopLevel then Before(Order(rows, reverseTopLevel), y, x)
            else Before(Order(rows, reverseTopLevel), x, y)
  {
    hide Walk, Before, PlaceOf;
    var p, roots := PlaceOf(rows, x), Roots(rows, reverseTopLevel);
    SiblingsBefore(rows, p, x, y);
    if p == TopLevel {
      if reverseTopLevel {
        ReverseTurnsAround(Children(rows, p, |rows|), x, y);
        WalkKeepsOrder(rows, roots, -1, y, x);
      } else {
        WalkKeepsOrder(rows, roots, -1, x, y);
      }
    } else {
      ParentIsShown(rows, x);
      InOrderIfShown(rows, reverseTopLevel, p.k);
      RepliesInOrder(rows, roots, -1, p.k, x, y);
    }
  }

  lemma ParentIsShown(rows: Rows, x: nat)
    requires PlaceOf(rows, x).Under?
    ensures Shown(rows, PlaceOf(rows, x).k)
  {}

  /** A comment is hidden exactly if it or one that it answers, directly or not, is hidden. */
  lemma {:induction false} HiddenWithAncestors(rows: Rows, k: nat)
    requires k < |rows|
    ensures HiddenAt(rows, k) <==> exists a: nat :: a < |rows| && Below(rows, k, a) && rows[a].hidden
    decreases k
  {
    assert Below(rows, k, k);
    if PlaceOf(rows, k).Under? {
      HiddenWithAncestors(rows, PlaceOf(rows, k).k);
      assert forall a: nat :: a < |rows| && a != k ==> (Below(rows, k, a) <==> Below(rows, PlaceOf(rows, k).k, a));
    }
  }

  // ---------- The output by itself ----------

  ghost predicate DistinctIds(rows: Rows) {
    forall i, j :: 0 <= i < j < |rows| ==> rows[i].id != rows[j].id
  }

  /** A comment is shown exactly if it is at the top level or answers one that is shown and comes before it. */
  lemma PlaceExactly(rows: Rows, k: nat, j: nat)
    requires DistinctIds(rows) && k < |rows|
    ensures PlaceOf(rows, k) == TopLevel <==> rows[k].parent == 0
    ensures PlaceOf(rows, k) == Under(j) <==>
              j < k && rows[k].parent != 0 && rows[j].id == rows[k].parent && Shown(rows, j)
    ensures Shown(rows, k) <==>
              rows[k].parent == 0 || exists m: nat :: m < k && rows[m].id == rows[k].parent && Shown(rows, m)
  {
    var found := Find(rows, rows[k].parent, k);
    hide Find;
    assert found.Some? ==> rows[found.value].id == rows[k].parent;
    assert forall m: nat :: m < k && rows[m].id == rows[k].parent ==> found == Some(m);
  }

  lemma {:induction false} WellIndentedAt(rows: Rows, before: seq<nat>, out: seq<nat>, i: nat)
    requires WellIndented(rows, before, out) && i < |out|
    ensures PlaceOf(rows, out[i]) == Enclosing(rows, before + out[..i], out[i])
    decreases |out|
  {
    hide Enclosing, PlaceOf;
    if i == 0 {
      assert before + out[..0] == before;
    } else {
      WellIndentedAt(rows, before + [out[0]], out[1..], i - 1);
      assert before + [out[0]] + out[1..][..i - 1] == before + out[..i];
    }
  }

  lemma {:induction false} EnclosingIsLast(rows: Rows, before: seq<nat>, k: nat) returns (j: nat)
    ensures Enclosing(rows, before, k) == TopLevel || Enclosing(rows, before, k).Under?
    ensures Enclosing(rows, before, k).Under? ==>
              && j < |before| && Enclosing(rows, before, k) == Under(before[j])
              && forall m :: j < m < |before| ==> Depth(rows, before[m]) >= Depth(rows, k)
  {
    hide Depth;
    j := 0;
    if before != [] {
      var last := |before| - 1;
      if Depth(rows, before[last]) < Depth(rows, k) {
        j := last;
      } else {
        j := EnclosingIsLast(rows, before[..last], k);
      }
    }
  }

  lemma EntryInPlace(rows: Rows, k: nat)
    requires k < |rows|
    ensures PlaceOf(rows, k) == TopLevel ==> Entry(rows, k).indent == 0 && Entry(rows, k).hidden == rows[k].hidden
    ensures match PlaceOf(rows, k)
            case Under(b) =>
              && Entry(rows, k).indent == Entry(rows, b).indent + 1
              && Entry(rows, k).hidden == (rows[k].hidden || Entry(rows, b).hidden)
              && rows[b].id == rows[k].parent
            case _ => true
  {
    hide Find;
  }

  lemma AnswersAbove(rows: Rows, order: seq<nat>, i: nat) returns (j: nat)
    requires WellIndented(rows, [], order) && i < |order|
    ensures PlaceOf(rows, order[i]) == TopLevel || PlaceOf(rows, order[i]).Under?
    ensures PlaceOf(rows, order[i]).Under? ==>
              && j < i && PlaceOf(rows, order[i]) == Under(order[j])
              && forall m :: j < m < i ==> Depth(rows, order[m]) >= Depth(rows, order[i])
  {
    hide *;
    WellIndentedAt(rows, [], order, i);
    assert [] + order[..i] == order[..i];
    j := EnclosingIsLast(rows, order[..i], order[i]);
  }

  /** Every entry of the output is a row; if it is indented, the last entry above it that is indented less is the
      comment that it answers, one step to the left, and hides it if it is hidden. */
  lemma OutputExactly(rows: Rows, reverseTopLevel: bool, i: nat) returns (k: nat, j: nat)
    requires i < |Order(rows, reverseTopLevel)|
    ensures k < |rows|
    ensures var out := Display(rows, Order(rows, reverseTopLevel));
            && out[i].id == rows[k].id && out[i].body == rows[k].body
            && if out[i].indent == 0 then rows[k].parent == 0 && out[i].hidden == rows[k].hidden
               else
                 && j < i && out[j].id == rows[k].parent && out[j].indent + 1 == out[i].indent
                 && (forall m :: j < m < i ==> out[m].indent >= out[i].indent)
                 && (out[i].hidden <==> rows[k].hidden || out[j].hidden)
  {
    hide Order, WellIndented, PlaceOf, HiddenAt, Depth;
    var order := Order(rows, reverseTopLevel);
    k := order[i];
    IndentationShowsParents(rows, reverseTopLevel);
    j := AnswersAbove(rows, order, i);
    EntryInPlace(rows, k);
    TopLevelParent(rows, k);
  }

  lemma TopLevelParent(rows: Rows, k: nat)
    requires k < |rows|
    ensures PlaceOf(rows, k) == TopLevel ==> rows[k].parent == 0
  {
    hide Find;
  }

  // ---------- The program ----------

  /** A comment as the first loop makes it: hidden only if it is so itself. */
  function Draft(rows: Rows, k: nat): Comment
    requires k < |rows|
  {
    Comment(rows[k].id, rows[k].body, Depth(rows, k), rows[k].hidden)
  }

  function Drafts(rows: Rows, ks: seq<nat>): seq<Comment>
    requires forall i :: 0 <= i < |ks| ==> ks[i] < |rows|
  {
    seq(|ks|, i requires 0 <= i < |ks| => Draft(rows, ks[i]))
  }

  datatype Thread = Thread(indent: int, siblings: seq<Comment>)

  /** The entry of `by_parent` for a place, once `n` rows were looked at. */
  function ThreadFor(rows: Rows, p: Place, n: nat): Thread
    requires n <= |rows|
  {
    Thread(if p.Under? then Depth(rows, p.k) else -1, Drafts(rows, Children(rows, p, n)))
  }

  lemma ThreadForNext(rows: Rows, p: Place, n: nat)
    requires n < |rows|
    ensures var t := ThreadFor(rows, p, n);
            ThreadFor(rows, p, n + 1)
            == if PlaceOf(rows, n) == p then Thread(t.indent, t.siblings + [Draft(rows, n)]) else t
  {}

  /** `by_parent` once the first `n` rows were placed. */
  ghost predicate Placed(rows: Rows, n: nat, byParent: map<Option<nat>, Thread>)
    requires n <= |rows|
  {
    && None in byParent && byParent[None] == ThreadFor(rows, TopLevel, n)
    && (forall k: nat :: k < n ==> (Some(rows[k].id) in byParent <==> Shown(rows, k)))
    && (forall k: nat :: k < n && Shown(rows, k) ==>
          byParent[Some(rows[k].id)] == ThreadFor(rows, Under(k), n))
    && (forall id :: Some(id) in byParent ==> Find(rows, id, n).Some?)
  }

  /** The second half of `thread`: comments as they are, or hidden with what they answer. */
  method AddWithDescendants(
    ghost rows: Rows, byParent: map<Option<nat>, Thread>, comments: seq<Comment>, hidden: bool, result: seq<Comment>,
    ghost ks: seq<nat>, ghost p: Place, ghost above: int)
    returns (r: seq<Comment>)
    requires -1 <= above < |rows| && Placed(rows, |rows|, byParent) && p != Nowhere
    requires forall i :: 0 <= i < |ks| ==> above < ks[i] < |rows| && PlaceOf(rows, ks[i]) == p
    requires comments == Drafts(rows, ks)
    requires hidden == (p.Under? && p.k < |rows| && HiddenAt(rows, p.k))
    ensures r == result + Display(rows, Walk(rows, ks, above))
    decreases |rows| - above, |ks|
  {
    hide Walk, Placed, Replies;
    r := result;
    WalkOfNone(rows, above);
    for i := 0 to |comments|
      invariant r + Display(rows, Walk(rows, ks[i..], above)) == result + Display(rows, Walk(rows, ks, above))
    {
      var c := comments[i];
      ghost var k := ks[i];
      if hidden {
        c := c.(hidden := true);
      }
      EntryOf(rows, k, p, c, hidden);
      FindThread(rows, byParent, k);
      ghost var before := r;
      r := AddWithDescendants(
        rows, byParent, byParent[Some(c.id)].siblings, c.hidden, r + [c], Replies(rows, k), Under(k), k);
      DisplayWalk(rows, ks[i..], above);
      assert ks[i..][0] == k && ks[i..][1..] == ks[i + 1..];
    }
    assert ks[|comments|..] == [];
  }

  lemma EntryOf(rows: Rows, k: nat, p: Place, c: Comment, hidden: bool)
    requires k < |rows| && PlaceOf(rows, k) == p != Nowhere
    requires hidden == (p.Under? && p.k < |rows| && HiddenAt(rows, p.k))
    requires c == if hidden then Draft(rows, k).(hidden := true) else Draft(rows, k)
    ensures c == Entry(rows, k)
  {}

  lemma WalkOfNone(rows: Rows, above: int)
    requires -1 <= above < |rows|
    ensures Walk(rows, [], above) == []
  {}

  lemma FindThread(rows: Rows, byParent: map<Option<nat>, Thread>, k: nat)
    requires k < |rows| && Placed(rows, |rows|, byParent) && Shown(rows, k)
    ensures Some(rows[k].id) in byParent && byParent[Some(rows[k].id)].siblings == Drafts(rows, Replies(rows, k))
  {}

  lemma DisplayWalk(rows: Rows, ks: seq<nat>, above: int)
    requires -1 <= above < |rows| && ks != [] && forall i :: 0 <= i < |ks| ==> above < ks[i] < |rows|
    ensures Display(rows, Walk(rows, ks, above))
         == [Entry(rows, ks[0])] + Display(rows, Walk(rows, Replies(rows, ks[0]), ks[0]))
            + Display(rows, Walk(rows, ks[1..], above))
  {
    hide Walk, Replies, Entry;
    WalkCons(rows, ks, above);
  }

  function ParentKey(row: Row): Option<nat> {
    if row.parent == 0 then None else Some(row.parent)
  }

  lemma {:induction false} NoRepliesYet(rows: Rows, n: nat, m: nat)
    requires m <= n + 1 && m <= |rows|
    ensures Children(rows, Under(n), m) == []
  {
    if m > 0 {
      NoRepliesYet(rows, n, m - 1);
    }
  }

  /** A parent that was placed is where the reply belongs; one that was not makes it go nowhere. */
  lemma KeyIsPlace(rows: Rows, n: nat, byParent: map<Option<nat>, Thread>)
    requires n < |rows| && Placed(rows, n, byParent) && DistinctIds(rows)
    ensures ParentKey(rows[n]) in byParent <==> Shown(rows, n)
    ensures Shown(rows, n) ==>
      byParent[ParentKey(rows[n])] == ThreadFor(rows, PlaceOf(rows, n), n)
      && ThreadFor(rows, PlaceOf(rows, n), n).indent + 1 == Depth(rows, n)
    ensures PlaceOf(rows, n).Under? ==> rows[PlaceOf(rows, n).k].id == rows[n].parent
    ensures Some(rows[n].id) !in byParent
  {}

  lemma FindMore(rows: Rows, id: nat, n: nat)
    requires n < |rows| && (Find(rows, id, n).Some? || rows[n].id == id)
    ensures Find(rows, id, n + 1).Some?
  {}

  lemma SameThread(rows: Rows, p: Place, n: nat)
    requires n < |rows| && !Shown(rows, n) && p != Nowhere
    ensures ThreadFor(rows, p, n + 1) == ThreadFor(rows, p, n)
  {}

  lemma PlacedSkip(rows: Rows, n: nat, byParent: map<Option<nat>, Thread>)
    requires n < |rows| && Placed(rows, n, byParent) && DistinctIds(rows) && ParentKey(rows[n]) !in byParent
    ensures Placed(rows, n + 1, byParent)
  {
    hide *;
    KeyIsPlace(rows, n, byParent);
    PlacedTopLevel(rows, n, byParent);
    SameThread(rows, TopLevel, n);
    forall k: nat | k <= n
      ensures Some(rows[k].id) in byParent <==> Shown(rows, k)
      ensures Shown(rows, k) ==> byParent[Some(rows[k].id)] == ThreadFor(rows, Under(k), n + 1)
    {
      if k < n {
        PlacedShown(rows, n, byParent, k);
        if Shown(rows, k) {
          PlacedThread(rows, n, byParent, k);
          SameThread(rows, Under(k), n);
        }
      }
    }
    forall id | Some(id) in byParent ensures Find(rows, id, n + 1).Some? {
      PlacedFound(rows, n, byParent, id);
      FindMore(rows, id, n);
    }
    AssemblePlaced(rows, n + 1, byParent);
  }

  function Append(rows: Rows, n: nat, byParent: map<Option<nat>, Thread>): map<Option<nat>, Thread>
    requires n < |rows| && ParentKey(rows[n]) in byParent
  {
    var t := byParent[ParentKey(rows[n])];
    byParent[ParentKey(rows[n]) := Thread(t.indent, t.siblings + [Draft(rows, n)])]
            [Some(rows[n].id) := Thread(t.indent + 1, [])]
  }

  lemma PlacedAppend(rows: Rows, n: nat, byParent: map<Option<nat>, Thread>)
    requires n < |rows| && Placed(rows, n, byParent) && DistinctIds(rows) && ParentKey(rows[n]) in byParent
    ensures byParent[ParentKey(rows[n])].indent + 1 == Depth(rows, n)
    ensures Placed(rows, n + 1, Append(rows, n, byParent))
  {
    hide *;
    KeyIsPlace(rows, n, byParent);
    var after := Append(rows, n, byParent);
    AppendedTopLevel(rows, n, byParent);
    forall k: nat | k <= n
      ensures Some(rows[k].id) in after <==> Shown(rows, k)
      ensures Shown(rows, k) ==> after[Some(rows[k].id)] == ThreadFor(rows, Under(k), n + 1)
    {
      AppendedShown(rows, n, byParent, k);
      if Shown(rows, k) {
        AppendedThread(rows, n, byParent, k);
      }
    }
    forall id | Some(id) in after ensures Find(rows, id, n + 1).Some? {
      AppendedFound(rows, n, byParent, id);
    }
    AssemblePlaced(rows, n + 1, after);
  }

  lemma AssemblePlaced(rows: Rows, n: nat, byParent: map<Option<nat>, Thread>)
    requires n <= |rows| && None in byParent && byParent[None] == ThreadFor(rows, TopLevel, n)
    requires forall k: nat :: k < n ==> (Some(rows[k].id) in byParent <==> Shown(rows, k))
    requires forall k: nat :: k < n && Shown(rows, k) ==> byParent[Some(rows[k].id)] == ThreadFor(rows, Under(k), n)
    requires forall id :: Some(id) in byParent ==> Find(rows, id, n).Some?
    ensures Placed(rows, n, byParent)
  {}

  lemma AppendedShown(rows: Rows, n: nat, byParent: map<Option<nat>, Thread>, k: nat)
    requires k <= n < |rows| && Placed(rows, n, byParent) && DistinctIds(rows) && ParentKey(rows[n]) in byParent
    ensures Some(rows[k].id) in Append(rows, n, byParent) <==> Shown(rows, k)
  {
    KeyIsPlace(rows, n, byParent);
    hide Append, PlaceOf, ThreadFor, Placed, DistinctIds, Shown, ParentKey;
    AppendedKeys(rows, n, byParent, Some(rows[k].id));
    if k < n {
      PlacedShown(rows, n, byParent, k);
      IdsDiffer(rows, k, n);
    }
  }

  lemma AppendedFound(rows: Rows, n: nat, byParent: map<Option<nat>, Thread>, id: nat)
    requires n < |rows| && Placed(rows, n, byParent) && ParentKey(rows[n]) in byParent
    requires Some(id) in Append(rows, n, byParent)
    ensures Find(rows, id, n + 1).Some?
  {
    hide Append, PlaceOf, ThreadFor;
    AppendedKeys(rows, n, byParent, Some(id));
    FindMore(rows, id, n);
  }

  lemma AppendedKeys(rows: Rows, n: nat, byParent: map<Option<nat>, Thread>, key: Option<nat>)
    requires n < |rows| && ParentKey(rows[n]) in byParent
    ensures key in Append(rows, n, byParent) <==> key in byParent || key == Some(rows[n].id)
  {}

  lemma AppendedTopLevel(rows: Rows, n: nat, byParent: map<Option<nat>, Thread>)
    requires n < |rows| && Placed(rows, n, byParent) && DistinctIds(rows) && ParentKey(rows[n]) in byParent
    ensures None in Append(rows, n, byParent) && Append(rows, n, byParent)[None] == ThreadFor(rows, TopLevel, n + 1)
  {
    KeyIsPlace(rows, n, byParent);
    KeyOfPlace(rows, n);
    hide ThreadFor, PlaceOf, Find, Draft, Depth;
    ThreadForNext(rows, TopLevel, n);
  }

  lemma IdsDiffer(rows: Rows, i: nat, j: nat)
    requires DistinctIds(rows) && i < |rows| && j < |rows| && i != j
    ensures rows[i].id != rows[j].id
  {}

  lemma PlacedTopLevel(rows: Rows, n: nat, byParent: map<Option<nat>, Thread>)
    requires n <= |rows| && Placed(rows, n, byParent)
    ensures None in byParent && byParent[None] == ThreadFor(rows, TopLevel, n)
  {}

  lemma PlacedFound(rows: Rows, n: nat, byParent: map<Option<nat>, Thread>, id: nat)
    requires n <= |rows| && Placed(rows, n, byParent) && Some(id) in byParent
    ensures Find(rows, id, n).Some?
  {}

  lemma PlacedShown(rows: Rows, n: nat, byParent: map<Option<nat>, Thread>, k: nat)
    requires k < n <= |rows| && Placed(rows, n, byParent)
    ensures Some(rows[k].id) in byParent <==> Shown(rows, k)
  {}

  lemma PlacedThread(rows: Rows, n: nat, byParent: map<Option<nat>, Thread>, k: nat)
    requires k < n <= |rows| && Placed(rows, n, byParent) && Shown(rows, k)
    ensures Some(rows[k].id) in byParent && byParent[Some(rows[k].id)] == ThreadFor(rows, Under(k), n)
  {}

  lemma AppendedThread(rows: Rows, n: nat, byParent: map<Option<nat>, Thread>, k: nat)
    requires k <= n < |rows| && Placed(rows, n, byParent) && DistinctIds(rows) && ParentKey(rows[n]) in byParent
    requires Shown(rows, k)
    ensures Some(rows[k].id) in Append(rows, n, byParent)
    ensures Append(rows, n, byParent)[Some(rows[k].id)] == ThreadFor(rows, Under(k), n + 1)
  {
    hide ThreadFor, PlaceOf, Find, Draft, Depth, Placed, DistinctIds;
    KeyIsPlace(rows, n, byParent);
    KeyOfPlace(rows, n);
    if k == n {
      NewThread(rows, n);
    } else {
      IdsDiffer(rows, k, n);
      PlacedThread(rows, n, byParent, k);
      ThreadForNext(rows, Under(k), n);
      if PlaceOf(rows, n).Under? && PlaceOf(rows, n).k != k {
        IdsDiffer(rows, PlaceOf(rows, n).k, k);
      }
    }
  }

  lemma KeyOfPlace(rows: Rows, n: nat)
    requires n < |rows| && Shown(rows, n)
    ensures PlaceOf(rows, n) == TopLevel <==> ParentKey(rows[n]) == None
    ensures PlaceOf(rows, n).Under? ==> ParentKey(rows[n]) == Some(rows[PlaceOf(rows, n).k].id)
  {}

  lemma NewThread(rows: Rows, n: nat)
    requires n < |rows|
    ensures ThreadFor(rows, Under(n), n + 1) == Thread(Depth(rows, n), [])
  {
    NoRepliesYet(rows, n, n + 1);
  }

  /** `thread`, for rows whose ids differ. */
  method ThreadComments(rows: Rows, reverseTopLevel: bool) returns (result: seq<Comment>)
    requires DistinctIds(rows)
    ensures result == Display(rows, Order(rows, reverseTopLevel))
  {
    hide Placed, Walk, PlaceOf, Depth;
    var byParent: map<Option<nat>, Thread> := map[None := Thread(-1, [])];
    PlacedNone(rows);
    for n := 0 to |rows|
      invariant Placed(rows, n, byParent)
    {
      var row := rows[n];
      var parentId := ParentKey(row);
      if parentId !in byParent {
        PlacedSkip(rows, n, byParent);
        continue;
      }
      PlacedAppend(rows, n, byParent);
      ghost var after := Append(rows, n, byParent);
      var t := byParent[parentId];
      var comment := Comment(row.id, row.body, t.indent + 1, row.hidden);
      byParent := byParent[parentId := Thread(t.indent, t.siblings + [comment])];
      byParent := byParent[Some(row.id) := Thread(t.indent + 1, [])];
      assert byParent == after;
    }
    TopLevelPlaced(rows, byParent, reverseTopLevel);
    var top := byParent[None].siblings;
    if |rows| == 0 {
      return [];
    }
    result := AddWithDescendants(
      rows, byParent, if reverseTopLevel then Reverse(top) else top, false, [], Roots(rows, reverseTopLevel),
        TopLevel, -1);
  }

  lemma PlacedNone(rows: Rows)
    ensures Placed(rows, 0, map[None := Thread(-1, [])])
  {}

  lemma DraftsReversed(rows: Rows, ks: seq<nat>)
    requires forall i :: 0 <= i < |ks| ==> ks[i] < |rows|
    ensures forall i :: 0 <= i < |Reverse(ks)| ==> Reverse(ks)[i] < |rows|
    ensures Reverse(Drafts(rows, ks)) == Drafts(rows, Reverse(ks))
  {
    hide Draft;
    var a, b := Reverse(Drafts(rows, ks)), Drafts(rows, Reverse(ks));
    assert |a| == |b|;
    forall i | 0 <= i < |a| ensures a[i] == b[i] {
      assert a[i] == Drafts(rows, ks)[|ks| - 1 - i];
    }
  }

  lemma TopLevelPlaced(rows: Rows, byParent: map<Option<nat>, Thread>, reverseTopLevel: bool)
    requires Placed(rows, |rows|, byParent)
    ensures None in byParent
    ensures var top := byParent[None].siblings;
            (if reverseTopLevel then Reverse(top) else top) == Drafts(rows, Roots(rows, reverseTopLevel))
  {
    var ks := Children(rows, TopLevel, |rows|);
    assert byParent[None].siblings == Drafts(rows, ks);
    DraftsReversed(rows, ks);
    hide PlaceOf, Drafts, Children, Placed, Reverse;
  }
}
