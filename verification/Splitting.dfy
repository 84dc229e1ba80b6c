/** Strings cut at, and joined by, one character. */
module Splitting {

  /** The position of the first `c`, or the length. */
  function IndexOf(s: string, c: char): (i: nat)
    ensures i <= |s| && (i < |s| ==> s[i] == c) && forall k :: 0 <= k < i ==> s[k] != c
  {
    if s == "" || s[0] == c then 0 else 1 + IndexOf(s[1..], c)
  }

  /** The pieces between the separators. */
  function Split(s: string, c: char): (parts: seq<string>)
    ensures parts != []
    decreases |s|
  {
    var i := IndexOf(s, c);
    if i == |s| then [s] else [s[..i]] + Split(s[i + 1..], c)
  }

  function Join(parts: seq<string>, c: char): string {
    if parts == [] then ""
    else if |parts| == 1 then parts[0] else parts[0] + [c] + Join(parts[1..], c)
  }

  lemma IndexOfFirst(a: string, c: char, rest: string)
    requires c !in a
    ensures IndexOf(a + [c] + rest, c) == |a| && IndexOf(a, c) == |a|
  {
    var s := a + [c] + rest;
    assert s[|a|] == c;
    assert forall k :: 0 <= k < |a| ==> s[k] == a[k] && a[k] in a;
  }

  lemma SplitFirst(a: string, c: char, rest: string)
    requires c !in a
    ensures Split(a + [c] + rest, c) == [a] + Split(rest, c)
  {
    var s := a + [c] + rest;
    IndexOfFirst(a, c, rest);
    assert s[..|a|] == a;
    assert s[|a| + 1..] == rest;
  }

  lemma {:induction false} SplitJoin(parts: seq<string>, c: char)
    requires parts != [] && forall i :: 0 <= i < |parts| ==> c !in parts[i]
    ensures Split(Join(parts, c), c) == parts
  {
    if |parts| == 1 {
      IndexOfFirst(parts[0], c, "");
    } else {
      hide Split;
      SplitJoin(parts[1..], c);
      SplitFirst(parts[0], c, Join(parts[1..], c));
    }
  }

  lemma SplitCases(s: string, c: char)
    ensures var i := IndexOf(s, c);
            Split(s, c) == if i == |s| then [s] else [s[..i]] + Split(s[i + 1..], c)
  {
    hide IndexOf;
    if IndexOf(s, c) == |s| {
      assert Split(s, c) == [s];
    }
  }

  lemma JoinMore(first: string, rest: seq<string>, c: char)
    requires rest != []
    ensures Join([first] + rest, c) == first + [c] + Join(rest, c)
  {
    assert ([first] + rest)[1..] == rest;
  }

  lemma JoinOne(s: string, c: char)
    ensures Join([s], c) == s
  {}

  lemma {:induction false} JoinSplit(s: string, c: char)
    ensures Join(Split(s, c), c) == s
    decreases |s|
  {
    hide *;
    var i := IndexOf(s, c);
    SplitCases(s, c);
    if i == |s| {
      JoinOne(s, c);
    } else {
      JoinSplit(s[i + 1..], c);
      JoinMore(s[..i], Split(s[i + 1..], c), c);
      assert s == s[..i] + [c] + s[i + 1..];
    }
  }

  lemma {:induction false} SplitPieces(s: string, c: char, k: nat)
    requires k < |Split(s, c)|
    ensures c !in Split(s, c)[k] && forall x <- Split(s, c)[k] :: x in s
    decreases |s|
  {
    var i := IndexOf(s, c);
    if i < |s| && k > 0 {
      SplitPieces(s[i + 1..], c, k - 1);
    }
  }

  // ---------- Words ----------

  function LowerChar(c: char): char {
    if 'A' <= c <= 'Z' then c + ('a' - 'A') else c
  }

  /** `str.lower` of ASCII. */
  function Lower(s: string): (r: string)
    ensures |r| == |s|
  {
    seq(|s|, i requires 0 <= i < |s| => LowerChar(s[i]))
  }

  function NonEmpty(parts: seq<string>): (r: seq<string>)
    ensures forall i :: 0 <= i < |r| ==> r[i] != ""
  {
    if parts == [] then []
    else if parts[0] == "" then NonEmpty(parts[1..])
    else [parts[0]] + NonEmpty(parts[1..])
  }

  lemma {:induction false} NonEmptyParts(parts: seq<string>, k: nat)
    requires k < |NonEmpty(parts)|
    ensures NonEmpty(parts)[k] in parts
  {
    if parts[0] == "" {
      NonEmptyParts(parts[1..], k);
    } else if k > 0 {
      NonEmptyParts(parts[1..], k - 1);
    }
  }

  lemma {:induction false} AllNonEmpty(parts: seq<string>)
    requires forall i :: 0 <= i < |parts| ==> parts[i] != ""
    ensures NonEmpty(parts) == parts
  {
    if parts != [] {
      AllNonEmpty(parts[1..]);
    }
  }

  /** Unicode whitespace: `\s`, and what `str.strip` and `str.split` take for whitespace. */
  predicate IsSpace(c: char) {
    || '\U{09}' <= c <= '\U{0D}' || '\U{1C}' <= c <= ' ' || c == '\U{85}' || c == '\U{A0}' || c == '\U{1680}'
    || '\U{2000}' <= c <= '\U{200A}' || c == '\U{2028}' || c == '\U{2029}' || c == '\U{202F}'
    || c == '\U{205F}' || c == '\U{3000}'
  }

  /** The number of characters before the first one with `p(c) == stop`. */
  function Span(s: string, p: char -> bool, stop: bool): (i: nat)
    ensures i <= |s| && (i < |s| ==> p(s[i]) == stop) && forall k :: 0 <= k < i ==> p(s[k]) != stop
  {
    if s == "" || p(s[0]) == stop then 0 else 1 + Span(s[1..], p, stop)
  }

  function StripEnd(s: string): string {
    if s != "" && IsSpace(s[|s| - 1]) then StripEnd(s[..|s| - 1]) else s
  }

  function Strip(s: string): string {
    StripEnd(s[Span(s, IsSpace, false)..])
  }

  /** `re.split` at every run of characters with `p`. */
  function CutAtRuns(s: string, p: char -> bool): seq<string>
    decreases |s|
  {
    var i := Span(s, p, true);
    if i == |s| then [s]
    else
      var rest := s[i..];
      [s[..i]] + CutAtRuns(rest[Span(rest, p, false)..], p)
  }

  /** The longest pieces without `p`. */
  function Words(s: string, p: char -> bool): seq<string> {
    NonEmpty(CutAtRuns(s, p))
  }

  predicate Word(w: string, p: char -> bool) {
    w != "" && forall i :: 0 <= i < |w| ==> !p(w[i])
  }

  lemma {:induction false} CutPieces(s: string, p: char -> bool)
    ensures forall piece <- CutAtRuns(s, p) :: piece == "" || Word(piece, p)
    decreases |s|
  {
    var i := Span(s, p, true);
    if i < |s| {
      CutPieces(s[i..][Span(s[i..], p, false)..], p);
    }
  }

  lemma WordsAreWords(s: string, p: char -> bool)
    ensures forall w <- Words(s, p) :: Word(w, p)
  {
    hide Word, CutAtRuns;
    var pieces := CutAtRuns(s, p);
    CutPieces(s, p);
    forall k | 0 <= k < |Words(s, p)| ensures Word(Words(s, p)[k], p) {
      NonEmptyParts(pieces, k);
    }
  }

  lemma SpanOver(a: string, rest: string, p: char -> bool, stop: bool)
    requires forall i :: 0 <= i < |a| ==> p(a[i]) != stop
    requires rest != "" && p(rest[0]) == stop
    ensures Span(a + rest, p, stop) == |a|
  {
    var s := a + rest;
    assert s[|a|] == rest[0] && forall k :: 0 <= k < |a| ==> s[k] == a[k];
  }

  lemma CutFirst(word: string, rest: string, p: char -> bool)
    requires p(' ')
    requires Word(word, p) && rest != "" && !p(rest[0])
    ensures CutAtRuns(word + [' '] + rest, p) == [word] + CutAtRuns(rest, p)
  {
    hide Span;
    var s, after := word + [' '] + rest, [' '] + rest;
    assert s == word + after;
    SpanOver(word, after, p, true);
    SpanOver([' '], rest, p, false);
    assert s[|word|..] == after && after[1..] == rest && s[..|word|] == word;
  }

  lemma CutOne(word: string, p: char -> bool)
    requires Word(word, p)
    ensures CutAtRuns(word, p) == [word]
  {}

  lemma {:induction false} CutJoined(words: seq<string>, p: char -> bool)
    requires p(' ')
    requires words != [] && forall c <- words :: Word(c, p)
    ensures CutAtRuns(Join(words, ' '), p) == words
  {
    hide CutAtRuns, Word;
    if |words| == 1 {
      CutOne(words[0], p);
    } else {
      CutJoined(words[1..], p);
      JoinStarts(words[1..], p);
      CutFirst(words[0], Join(words[1..], ' '), p);
    }
  }

  lemma {:induction false} JoinStarts(words: seq<string>, p: char -> bool)
    requires words != [] && forall c <- words :: Word(c, p)
    ensures var s := Join(words, ' '); s != "" && !p(s[0]) && !p(s[|s| - 1])
  {
    if |words| > 1 {
      JoinStarts(words[1..], p);
      assert Join(words, ' ') == words[0] + [' '] + Join(words[1..], ' ');
    }
    assert Word(words[0], p);
  }

  /** Words put together with spaces are cut apart again. */
  lemma WordsOfJoined(words: seq<string>, p: char -> bool)
    requires p(' ') && forall w <- words :: Word(w, p)
    ensures Words(Join(words, ' '), p) == words
  {
    if words != [] {
      hide Word, CutAtRuns;
      CutJoined(words, p);
      forall k | 0 <= k < |words| ensures words[k] != "" { WordNotEmpty(words[k], p); }
      AllNonEmpty(words);
    } else {
      assert CutAtRuns("", p) == [""];
      assert [""][1..] == [];
    }
  }

  lemma WordNotEmpty(w: string, p: char -> bool)
    requires Word(w, p)
    ensures w != ""
  {}

  lemma WordsSkip(s: string, p: char -> bool)
    ensures Words(s, p) == Words(s[Span(s, p, false)..], p)
  {
    var k := Span(s, p, false);
    if k > 0 {
      assert Span(s, p, true) == 0 && s[0..] == s;
      assert CutAtRuns(s, p) == [""] + CutAtRuns(s[k..], p);
      assert ([""] + CutAtRuns(s[k..], p))[1..] == CutAtRuns(s[k..], p);
    } else {
      assert s[0..] == s;
    }
  }

  lemma WordsAfter(s: string, p: char -> bool)
    requires s != "" && p(s[0])
    ensures Words(s, p) == Words(s[1..], p)
  {
    hide Words;
    WordsSkip(s, p);
    WordsSkip(s[1..], p);
    var k := Span(s, p, false);
    assert Span(s[1..], p, false) == k - 1;
    assert s[1..][k - 1..] == s[k..];
  }

  lemma WordsFirst(s: string, p: char -> bool)
    requires s != "" && !p(s[0])
    ensures var i := Span(s, p, true); i > 0 && Words(s, p) == [s[..i]] + Words(s[i..], p)
  {
    var i := Span(s, p, true);
    if i == |s| {
      assert s[i..] == "" && s[..i] == s;
      assert CutAtRuns(s, p) == [s] && CutAtRuns("", p) == [""];
      assert [s][1..] == [] && [""][1..] == [];
    } else {
      WordsSkip(s[i..], p);
      var rest := CutAtRuns(s[i..][Span(s[i..], p, false)..], p);
      assert CutAtRuns(s, p) == [s[..i]] + rest;
      assert ([s[..i]] + rest)[1..] == rest;
    }
  }

  lemma WordsConcatFirst(a: string, d: char, b: string, p: char -> bool) returns (i: nat)
    requires p(d) && a != "" && !p(a[0])
    ensures 0 < i <= |a| && Words(a, p) == [a[..i]] + Words(a[i..], p)
    ensures Words(a + [d] + b, p) == [a[..i]] + Words(a[i..] + [d] + b, p)
  {
    hide Words, Span;
    i := Span(a, p, true);
    var s := a + [d] + b;
    WordsFirst(a, p);
    assert s == a + ([d] + b);
    SpanEarlier(a, [d] + b, p);
    WordsFirst(s, p);
    assert s[..i] == a[..i] && s[i..] == a[i..] + [d] + b;
  }

  lemma WordsConcatAfter(a: string, d: char, b: string, p: char -> bool)
    requires p(d) && (a != "" ==> p(a[0]))
    ensures if a == "" then Words(a, p) == [] && Words(a + [d] + b, p) == Words(b, p)
            else Words(a, p) == Words(a[1..], p) && Words(a + [d] + b, p) == Words(a[1..] + [d] + b, p)
  {
    if a == "" {
      assert CutAtRuns("", p) == [""] && [""][1..] == [];
    }
    hide Words;
    var s := a + [d] + b;
    WordsAfter(s, p);
    if a == "" {
      assert s[1..] == b;
    } else {
      WordsAfter(a, p);
      assert s[1..] == a[1..] + [d] + b;
    }
  }

  /** A separator cuts, whatever is around it. */
  lemma {:induction false} WordsConcat(a: string, d: char, b: string, p: char -> bool)
    requires p(d)
    ensures Words(a + [d] + b, p) == Words(a, p) + Words(b, p)
    decreases |a|
  {
    hide *;
    if a == "" || p(a[0]) {
      WordsConcatAfter(a, d, b, p);
      if a != "" {
        WordsConcat(a[1..], d, b, p);
      }
    } else {
      var i := WordsConcatFirst(a, d, b, p);
      WordsConcat(a[i..], d, b, p);
      assert [a[..i]] + (Words(a[i..], p) + Words(b, p)) == [a[..i]] + Words(a[i..], p) + Words(b, p);
    }
  }

  lemma {:induction false} SpanEarlier(a: string, rest: string, p: char -> bool)
    requires rest != "" && p(rest[0])
    ensures Span(a + rest, p, true) == Span(a, p, true)
  {
    var s, i, j := a + rest, Span(a, p, true), Span(a + rest, p, true);
    assert s[|a|] == rest[0] && forall k :: 0 <= k < |a| ==> s[k] == a[k];
    assert p(s[i]);
  }

  // ---------- Stripping ----------

  predicate Blank(s: string) {
    forall i :: 0 <= i < |s| ==> IsSpace(s[i])
  }

  predicate Bare(t: string) {
    t != "" && !IsSpace(t[0]) && !IsSpace(t[|t| - 1])
  }

  lemma {:induction false} StripEndIs(t: string, d: string)
    requires Blank(d) && (t == "" || !IsSpace(t[|t| - 1]))
    ensures StripEnd(t + d) == t
  {
    if d == "" {
      assert t + d == t;
    } else {
      assert (t + d)[|t + d| - 1] == d[|d| - 1];
      assert (t + d)[..|t + d| - 1] == t + d[..|d| - 1];
      hide IsSpace;
      StripEndIs(t, d[..|d| - 1]);
    }
  }

  lemma StripIs(a: string, t: string, d: string)
    requires Blank(a) && Blank(d) && Bare(t)
    ensures Strip(a + t + d) == t
  {
    var s := a + t + d;
    assert s == a + (t + d) && (t + d)[0] == t[0];
    SpanOver(a, t + d, IsSpace, false);
    assert s[|a|..] == t + d;
    hide IsSpace;
    StripEndIs(t, d);
  }

  lemma {:induction false} StripEndPieces(s: string) returns (d: string)
    ensures s == StripEnd(s) + d && Blank(d)
    ensures StripEnd(s) != "" ==> !IsSpace(StripEnd(s)[|StripEnd(s)| - 1])
  {
    hide IsSpace;
    if s != "" && IsSpace(s[|s| - 1]) {
      d := StripEndPieces(s[..|s| - 1]);
      d := d + [s[|s| - 1]];
    } else {
      d := "";
    }
  }

  lemma StripPieces(s: string) returns (a: string, d: string)
    ensures s == a + Strip(s) + d && Blank(a) && Blank(d)
    ensures Strip(s) != "" ==> Bare(Strip(s))
  {
    hide IsSpace, Span, StripEnd;
    var i := Span(s, IsSpace, false);
    var rest := s[i..];
    a := s[..i];
    d := StripEndPieces(rest);
    assert s == a + rest && Strip(s) == StripEnd(rest);
    if StripEnd(rest) != "" {
      assert StripEnd(rest)[0] == rest[0] == s[i];
    }
  }
}
