/** Sorting strings. */
module Sorting {

  /** The order of strings. */
  predicate Leq(a: string, b: string) {
    a == "" || (b != "" && (a[0] < b[0] || (a[0] == b[0] && Leq(a[1..], b[1..]))))
  }

  /** The shorter of two first, if it begins the other; else the one that is less where they first differ. */
  lemma {:induction false} LeqExactly(a: string, b: string)
    ensures Leq(a, b) <==> a <= b || exists i :: 0 <= i < |a| && i < |b| && a[..i] == b[..i] && a[i] < b[i]
  {
    if a != "" && b != "" {
      var c, d := a[1..], b[1..];
      LeqExactly(c, d);
      assert a == [a[0]] + c && b == [b[0]] + d;
      if a[0] == b[0] {
        forall i | 0 <= i < |c| && i < |d| ensures c[..i] == d[..i] <==> a[..i + 1] == b[..i + 1] {
          assert a[..i + 1] == [a[0]] + c[..i] && b[..i + 1] == [b[0]] + d[..i];
          assert a[..i + 1][1..] == c[..i] && b[..i + 1][1..] == d[..i];
        }
        assert a <= b <==> c <= d;
        if i :| 0 <= i < |c| && i < |d| && c[..i] == d[..i] && c[i] < d[i] {
          assert a[i + 1] < b[i + 1];
        }
        if i :| 0 <= i < |a| && i < |b| && a[..i] == b[..i] && a[i] < b[i] {
          assert c[..i - 1] == d[..i - 1] && c[i - 1] < d[i - 1];
        }
      }
      assert a[..0] == b[..0];
      forall i | 0 < i <= |a| && i <= |b| && a[..i] == b[..i] ensures a[0] == b[0] {
        assert a[..i][0] == b[..i][0];
      }
    }
  }

  lemma {:induction false} Total(a: string, b: string)
    ensures Leq(a, b) || Leq(b, a)
  {
    if a != "" && b != "" {
      Total(a[1..], b[1..]);
    }
  }

  predicate Ascending(s: seq<string>) {
    forall i :: 0 < i < |s| ==> Leq(s[i - 1], s[i])
  }

  function Insert(x: string, s: seq<string>): (r: seq<string>)
    requires Ascending(s)
    ensures Ascending(r) && r != [] && (r[0] == x || (s != [] && r[0] == s[0]))
    ensures multiset(r) == multiset{x} + multiset(s)
  {
    if s == [] || Leq(x, s[0]) then [x] + s
    else
      Total(x, s[0]);
      assert s == [s[0]] + s[1..];
      [s[0]] + Insert(x, s[1..])
  }

  function Sort(s: seq<string>): (r: seq<string>)
    ensures Ascending(r) && multiset(r) == multiset(s)
  {
    if s == [] then []
    else
      assert s == [s[0]] + s[1..];
      Insert(s[0], Sort(s[1..]))
  }

  /** `sorted` of a set. */
  ghost function Sorted(s: set<string>): (r: seq<string>)
    ensures Ascending(r) && multiset(r) == multiset(s)
  {
    if s == {} then []
    else
      var x :| x in s;
      assert multiset(s) == multiset{x} + multiset(s - {x});
      Insert(x, Sorted(s - {x}))
  }

  lemma SortedElements(s: set<string>)
    ensures forall x :: x in Sorted(s) <==> x in s
  {
    assert forall x :: x in Sorted(s) <==> x in multiset(s);
  }

  lemma {:induction false} Antisymmetric(a: string, b: string)
    requires Leq(a, b) && Leq(b, a)
    ensures a == b
  {
    if a != "" && b != "" {
      Antisymmetric(a[1..], b[1..]);
      assert a == [a[0]] + a[1..] && b == [b[0]] + b[1..];
    }
  }

  lemma {:induction false} Transitive(a: string, b: string, c: string)
    requires Leq(a, b) && Leq(b, c)
    ensures Leq(a, c)
  {
    if a != "" && b != "" && c != "" && a[0] == b[0] == c[0] {
      Transitive(a[1..], b[1..], c[1..]);
    }
  }

  lemma {:induction false} FirstIsLeast(s: seq<string>, i: nat)
    requires Ascending(s) && i < |s|
    ensures Leq(s[0], s[i])
  {
    if i == 0 {
      Total(s[0], s[0]);
    } else {
      FirstIsLeast(s, i - 1);
      Transitive(s[0], s[i - 1], s[i]);
    }
  }

  lemma FirstInOther(a: seq<string>, b: seq<string>)
    requires a != [] && multiset(a) == multiset(b)
    ensures b != [] && a[0] in b
  {
    assert a[0] in multiset(a);
  }

  lemma SameFirst(a: seq<string>, b: seq<string>)
    requires a != [] && Ascending(a) && Ascending(b) && multiset(a) == multiset(b)
    ensures b != [] && a[0] == b[0]
  {
    hide Leq, Ascending;
    FirstInOther(a, b);
    FirstInOther(b, a);
    var i :| 0 <= i < |b| && b[i] == a[0];
    var j :| 0 <= j < |a| && a[j] == b[0];
    FirstIsLeast(b, i);
    FirstIsLeast(a, j);
    Antisymmetric(a[0], b[0]);
  }

  lemma MultisetOfRest(a: seq<string>)
    requires a != []
    ensures multiset(a[1..]) == multiset(a) - multiset{a[0]}
  {
    assert a == [a[0]] + a[1..];
  }

  /** There is one way only to list the same strings in ascending order. */
  lemma {:induction false} AscendingIsUnique(a: seq<string>, b: seq<string>)
    requires Ascending(a) && Ascending(b) && multiset(a) == multiset(b)
    ensures a == b
  {
    hide Leq;
    if a != [] {
      SameFirst(a, b);
      MultisetOfRest(a);
      MultisetOfRest(b);
      AscendingIsUnique(a[1..], b[1..]);
      assert a == [a[0]] + a[1..] && b == [b[0]] + b[1..];
    } else if b != [] {
      FirstInOther(b, a);
    }
  }
}
