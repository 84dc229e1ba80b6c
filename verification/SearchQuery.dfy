/** Search queries (weasyl/search.py, with `parse_tag`, `expect_tag` and `parse_sysname` of weasyl/forms.py).

    Unicode normalisation and case folding are a function `fold`, of which only this is
    known: it leaves strings of ASCII letters and digits in lower case alone. */
module SearchQuery {
  import opened Options
  import opened Splitting
  import opened Sorting

  const TAG_MAX_LENGTH := 162
  const USERNAME_MAX_LENGTH := 25

  // ---------- Tags and names ----------

  /** `[0-9a-z]`. */
  predicate IsPlain(c: char) { '0' <= c <= '9' || 'a' <= c <= 'z' }

  /** `\w` within ASCII. */
  predicate IsWord(c: char) { IsPlain(c) || 'A' <= c <= 'Z' || c == '_' }

  predicate Plain(s: string) { forall i :: 0 <= i < |s| ==> IsPlain(s[i]) }

  ghost predicate Folds(fold: string -> string) {
    forall s :: Plain(s) ==> fold(s) == s
  }

  function Keep(s: string, p: char -> bool): (r: string)
    ensures |r| <= |s| && forall i :: 0 <= i < |r| ==> p(r[i])
  {
    if s == "" then "" else if p(s[0]) then [s[0]] + Keep(s[1..], p) else Keep(s[1..], p)
  }

  lemma {:induction false} KeepAll(s: string, p: char -> bool)
    requires forall i :: 0 <= i < |s| ==> p(s[i])
    ensures Keep(s, p) == s
  {
    if s != "" {
      KeepAll(s[1..], p);
    }
  }

  datatype Reading = TooLong | Nothing | Tag(name: string)

  function ParseTag(s: string): Reading {
    var t := Join(NonEmpty(Split(Keep(s, IsWord), '_')), '_');
    if |t| > TAG_MAX_LENGTH then TooLong else if t == "" then Nothing else Tag(Lower(t))
  }

  function ParseSysname(s: string, fold: string -> string): Option<string> {
    var t := Keep(fold(s), IsPlain);
    if 0 < |t| <= USERNAME_MAX_LENGTH then Some(t) else None
  }

  /** What `expect_tag` accepts: groups of letters and digits, joined by single underscores. */
  predicate Normalized(t: string) {
    && 0 < |t| <= TAG_MAX_LENGTH
    && forall i :: 0 <= i < |Split(t, '_')| ==> Split(t, '_')[i] != "" && Plain(Split(t, '_')[i])
  }

  predicate Sysname(s: string) { Plain(s) && 0 < |s| <= USERNAME_MAX_LENGTH }

  function LowerAll(parts: seq<string>): seq<string> {
    seq(|parts|, i requires 0 <= i < |parts| => Lower(parts[i]))
  }

  lemma {:induction false} LowerJoin(parts: seq<string>)
    ensures Lower(Join(parts, '_')) == Join(LowerAll(parts), '_')
  {
    if |parts| > 1 {
      LowerJoin(parts[1..]);
      assert LowerAll(parts)[1..] == LowerAll(parts[1..]);
    }
  }

  lemma {:induction false} WordsOfJoin(s: string, i: nat)
    requires i < |Split(s, '_')|
    requires forall j :: 0 <= j < |s| ==> IsWord(s[j])
    ensures '_' !in Split(s, '_')[i] && Plain(Lower(Split(s, '_')[i]))
  {
    SplitPieces(s, '_', i);
    var piece := Split(s, '_')[i];
    forall j | 0 <= j < |piece| ensures IsPlain(Lower(piece)[j]) {
      assert piece[j] in piece;
    }
  }

  /** A tag that is read is in normal form. */
  lemma ParseTagNormalizes(s: string)
    requires ParseTag(s).Tag?
    ensures Normalized(ParseTag(s).name)
  {
    var kept := Keep(s, IsWord);
    var pieces := Split(kept, '_');
    var parts := NonEmpty(pieces);
    var lower := LowerAll(parts);
    forall i | 0 <= i < |parts| ensures lower[i] != "" && Plain(lower[i]) && '_' !in lower[i] {
      NonEmptyParts(pieces, i);
      var k :| 0 <= k < |pieces| && pieces[k] == parts[i];
      WordsOfJoin(kept, k);
      assert forall j :: 0 <= j < |lower[i]| ==> IsPlain(lower[i][j]);
    }
    LowerJoin(parts);
    SplitJoin(lower, '_');
  }

  lemma {:induction false} NormalizedChars(t: string)
    requires Normalized(t)
    ensures forall x <- t :: IsPlain(x) || x == '_'
  {
    JoinSplit(t, '_');
    JoinChars(Split(t, '_'));
  }

  lemma {:induction false} JoinChars(parts: seq<string>)
    requires forall i :: 0 <= i < |parts| ==> Plain(parts[i])
    ensures forall x <- Join(parts, '_') :: IsPlain(x) || x == '_'
  {
    if |parts| > 1 {
      JoinChars(parts[1..]);
      assert Plain(parts[0]);
    } else if parts != [] {
      assert Join(parts, '_') == parts[0];
    }
  }

  /** A tag in normal form is read as itself. */
  lemma NormalizedIsRead(t: string)
    requires Normalized(t)
    ensures ParseTag(t) == Tag(t)
  {
    hide Keep, Split, Join, NonEmpty, Plain;
    NormalizedChars(t);
    assert forall i :: 0 <= i < |t| ==> t[i] in t;
    KeepAll(t, IsWord);
    AllNonEmpty(Split(t, '_'));
    JoinSplit(t, '_');
    assert Lower(t) == t;
  }

  /** The results of reading tags are exactly the tags in normal form. */
  lemma TagsAreNormalForms(t: string)
    ensures (exists s :: ParseTag(s) == Tag(t)) <==> Normalized(t)
  {
    if Normalized(t) {
      NormalizedIsRead(t);
    }
    forall s | ParseTag(s) == Tag(t) ensures Normalized(t) {
      ParseTagNormalizes(s);
    }
  }

  lemma SysnameIsRead(s: string, fold: string -> string)
    requires Sysname(s) && Folds(fold)
    ensures ParseSysname(s, fold) == Some(s)
  {
    assert fold(s) == s;
    KeepAll(s, IsPlain);
  }

  // ---------- What reading a tag takes no notice of ----------

  lemma {:induction false} KeepConcat(a: string, b: string, p: char -> bool)
    ensures Keep(a + b, p) == Keep(a, p) + Keep(b, p)
  {
    if a == "" {
      assert a + b == b;
    } else {
      assert (a + b)[1..] == a[1..] + b;
      KeepConcat(a[1..], b, p);
    }
  }

  function Groups(s: string): seq<string> { NonEmpty(Split(s, '_')) }

  lemma {:induction false} NonEmptyConcat(a: seq<string>, b: seq<string>)
    ensures NonEmpty(a + b) == NonEmpty(a) + NonEmpty(b)
  {
    if a == [] {
      assert a + b == b;
    } else {
      assert (a + b)[1..] == a[1..] + b;
      NonEmptyConcat(a[1..], b);
    }
  }

  lemma {:induction false} SplitConcat(a: string, b: string)
    ensures Split(a + ['_'] + b, '_') == Split(a, '_') + Split(b, '_')
    decreases |a|
  {
    var i := IndexOf(a, '_');
    SplitCases(a, '_');
    hide Split, IndexOf;
    if i == |a| {
      assert '_' !in a;
      SplitFirst(a, '_', b);
    } else {
      var rest := a[i + 1..];
      assert '_' !in a[..i];
      SplitConcat(rest, b);
      SplitFirst(a[..i], '_', rest + ['_'] + b);
      assert a + ['_'] + b == a[..i] + ['_'] + (rest + ['_'] + b);
    }
  }

  lemma GroupsConcat(a: string, b: string)
    ensures Groups(a + ['_'] + b) == Groups(a) + Groups(b)
  {
    SplitConcat(a, b);
    NonEmptyConcat(Split(a, '_'), Split(b, '_'));
  }

  lemma NoGroups()
    ensures Groups("") == []
  {
    assert Split("", '_') == [""];
    assert [""][1..] == [];
  }

  /** Characters other than ASCII letters, digits and underscores do not count. */
  lemma OthersDoNotCount(a: string, c: char, b: string)
    requires !IsWord(c)
    ensures ParseTag(a + [c] + b) == ParseTag(a + b)
  {
    KeepConcat(a + [c], b, IsWord);
    KeepConcat(a, [c], IsWord);
    KeepConcat(a, b, IsWord);
    assert Keep([c], IsWord) == [] by { assert [c][1..] == ""; }
    hide Keep;
    assert Keep(a + [c] + b, IsWord) == Keep(a + b, IsWord);
  }

  /** Of underscores in a row one counts, and none at the ends. */
  lemma UnderscoresCollapse(a: string, b: string)
    ensures ParseTag(a + ['_'] + ['_'] + b) == ParseTag(a + ['_'] + b)
    ensures ParseTag(['_'] + b) == ParseTag(b) && ParseTag(a + ['_']) == ParseTag(a)
  {
    KeptUnderscore(a, ['_'] + b);
    KeptUnderscore(a, b);
    KeptUnderscore("", b);
    KeptUnderscore(a, "");
    var x, y := Keep(a, IsWord), Keep(b, IsWord);
    assert a + ['_'] + ['_'] + b == a + ['_'] + (['_'] + b);
    assert "" + ['_'] + b == ['_'] + b && a + ['_'] + "" == a + ['_'];
    GroupsConcat(x, ['_'] + y);
    GroupsConcat(x, y);
    GroupsConcat("", y);
    GroupsConcat(x, "");
    NoGroups();
    assert "" + ['_'] + y == ['_'] + y && x + ['_'] + "" == x + ['_'];
    SameGroups(a + ['_'] + ['_'] + b, a + ['_'] + b);
    SameGroups(['_'] + b, b);
    SameGroups(a + ['_'], a);
    hide *;
  }

  lemma SameGroups(s: string, t: string)
    ensures Groups(Keep(s, IsWord)) == Groups(Keep(t, IsWord)) ==> ParseTag(s) == ParseTag(t)
  {}

  lemma KeptUnderscore(a: string, b: string)
    ensures Keep(a + ['_'] + b, IsWord) == Keep(a, IsWord) + ['_'] + Keep(b, IsWord)
  {
    KeepConcat(a + ['_'], b, IsWord);
    KeepConcat(a, ['_'], IsWord);
    assert Keep(['_'], IsWord) == ['_'] by { assert ['_'][1..] == ""; }
  }

  lemma {:induction false} KeepLower(s: string)
    ensures Keep(Lower(s), IsWord) == Lower(Keep(s, IsWord))
  {
    if s != "" {
      assert Lower(s)[1..] == Lower(s[1..]);
      KeepLower(s[1..]);
      var rest := Keep(s[1..], IsWord);
      assert IsWord(s[0]) ==> Lower([s[0]] + rest) == [LowerChar(s[0])] + Lower(rest);
    }
  }

  lemma {:induction false} SplitLower(s: string)
    ensures Split(Lower(s), '_') == LowerAll(Split(s, '_'))
    decreases |s|
  {
    var i := IndexOf(s, '_');
    IndexOfLower(s);
    SplitCases(s, '_');
    SplitCases(Lower(s), '_');
    if i == |s| {
      assert LowerAll([s]) == [Lower(s)];
    } else {
      SplitLower(s[i + 1..]);
      hide Split, IndexOf;
      assert Lower(s)[..i] == Lower(s[..i]) && Lower(s)[i + 1..] == Lower(s[i + 1..]);
      LowerAllFirst(s[..i], Split(s[i + 1..], '_'));
    }
  }

  lemma LowerAllFirst(s: string, parts: seq<string>)
    ensures LowerAll([s] + parts) == [Lower(s)] + LowerAll(parts)
  {}

  lemma {:induction false} IndexOfLower(s: string)
    ensures IndexOf(Lower(s), '_') == IndexOf(s, '_')
  {
    if s != "" {
      assert Lower(s)[1..] == Lower(s[1..]);
      IndexOfLower(s[1..]);
    }
  }

  lemma {:induction false} NonEmptyLower(parts: seq<string>)
    ensures NonEmpty(LowerAll(parts)) == LowerAll(NonEmpty(parts))
  {
    if parts != [] {
      var rest := parts[1..];
      assert parts == [parts[0]] + rest;
      LowerAllFirst(parts[0], rest);
      NonEmptyLower(rest);
      LowerAllFirst(parts[0], NonEmpty(rest));
      assert |Lower(parts[0])| == |parts[0]|;
      hide Lower;
      assert LowerAll(parts)[1..] == LowerAll(rest);
    }
  }

  /** Case does not count. */
  lemma CaseDoesNotCount(s: string)
    ensures ParseTag(Lower(s)) == ParseTag(s)
  {
    var kept := Keep(s, IsWord);
    KeepLower(s);
    SplitLower(kept);
    NonEmptyLower(Split(kept, '_'));
    var t := Join(Groups(kept), '_');
    LowerJoin(Groups(kept));
    assert Lower(Lower(t)) == Lower(t);
    hide Keep, Split, Join, NonEmpty, LowerAll;
  }

  /** Groups of lower-case letters and digits, joined by single underscores, are read as they are unless that is too
      long: the laws above bring everything to this. */
  lemma GroupsAreRead(groups: seq<string>)
    requires forall i :: 0 <= i < |groups| ==> groups[i] != "" && Plain(groups[i])
    ensures var t := Join(groups, '_');
            ParseTag(t) == if groups == [] then Nothing else if |t| > TAG_MAX_LENGTH then TooLong else Tag(t)
  {
    var t := Join(groups, '_');
    hide Keep, Split, NonEmpty;
    JoinChars(groups);
    assert forall i :: 0 <= i < |t| ==> t[i] in t;
    KeepAll(t, IsWord);
    if groups == [] {
      NoGroups();
    } else {
      assert forall i :: 0 <= i < |groups| ==> '_' !in groups[i];
      SplitJoin(groups, '_');
      AllNonEmpty(groups);
      JoinNotEmpty(groups);
      assert Lower(t) == t;
    }
  }

  lemma JoinNotEmpty(groups: seq<string>)
    requires groups != [] && groups[0] != ""
    ensures Join(groups, '_') != ""
  {}

  /** A name is folded; then characters other than letters and digits do not count, and what is left is the name unless
      it is empty or too long. */
  lemma SysnameExactly(s: string, fold: string -> string, r: string, a: string, c: char, b: string, d: string)
    ensures fold(s) == a + [c] + b && !IsPlain(c) && fold(r) == a + b ==>
              ParseSysname(s, fold) == ParseSysname(r, fold)
    ensures fold(s) == d && Plain(d) ==> ParseSysname(s, fold) == if d == "" || |d| > 25 then None else Some(d)
  {
    KeepConcat(a + [c], b, IsPlain);
    KeepConcat(a, [c], IsPlain);
    KeepConcat(a, b, IsPlain);
    assert [c][1..] == "";
    assert !IsPlain(c) ==> Keep([c], IsPlain) == [];
    if Plain(d) {
      KeepAll(d, IsPlain);
    }
    hide Keep;
    assert !IsPlain(c) ==> Keep(a + [c] + b, IsPlain) == Keep(a + b, IsPlain);
  }

  // ---------- Cutting a query into criteria ----------

  predicate IsDelimiter(c: char) { IsSpace(c) || c == ',' || c == ';' }

  function CriteriaOf(s: string): seq<string> {
    Words(Strip(s), IsDelimiter)
  }

  predicate Criterion(c: string) { Word(c, IsDelimiter) }

  /** Every criterion is without delimiters, so the assertion in `parse_tag` holds. */
  lemma CriteriaAreClean(s: string)
    ensures forall c <- CriteriaOf(s) :: Criterion(c) && ' ' !in c
  {
    WordsAreWords(Strip(s), IsDelimiter);
    assert IsDelimiter(' ');
  }

  /** Criteria put together with spaces are cut apart again. */
  lemma CriteriaOfJoined(words: seq<string>)
    requires forall c <- words :: Criterion(c)
    ensures CriteriaOf(Join(words, ' ')) == words
  {
    var s := Join(words, ' ');
    assert IsDelimiter(' ');
    WordsOfJoined(words, IsDelimiter);
    if words == [] {
      assert Strip(s) == s;
    } else {
      hide Words, Join;
      JoinStarts(words, IsDelimiter);
      assert Span(s, IsSpace, false) == 0;
      assert s[0..] == s && Strip(s) == s;
    }
  }

  lemma {:induction false} BlankBefore(a: string, s: string)
    requires Blank(a)
    ensures Words(a + s, IsDelimiter) == Words(s, IsDelimiter)
    decreases |a|
  {
    hide Words;
    if a == "" {
      assert a + s == s;
    } else {
      assert (a + s)[0] == a[0] && (a + s)[1..] == a[1..] + s;
      assert IsSpace(a[0]);
      WordsAfter(a + s, IsDelimiter);
      BlankBefore(a[1..], s);
    }
  }

  lemma NoWords()
    ensures Words("", IsDelimiter) == []
  {
    assert CutAtRuns("", IsDelimiter) == [""] && [""][1..] == [];
  }

  lemma {:induction false} BlankAfter(s: string, d: string)
    requires Blank(d)
    ensures Words(s + d, IsDelimiter) == Words(s, IsDelimiter)
  {
    if d == "" {
      assert s + d == s;
    } else {
      assert s + d == s + [d[0]] + d[1..] && d[1..] + "" == d[1..];
      assert IsSpace(d[0]);
      WordsConcat(s, d[0], d[1..], IsDelimiter);
      BlankBefore(d[1..], "");
      NoWords();
    }
  }

  lemma CriteriaAreWords(s: string)
    ensures CriteriaOf(s) == Words(s, IsDelimiter)
  {
    var a, d := StripPieces(s);
    hide *;
    BlankBefore(a, Strip(s) + d);
    BlankAfter(Strip(s), d);
    assert a + (Strip(s) + d) == s;
    assert CriteriaOf(s) == Words(Strip(s), IsDelimiter) by { CriteriaOfStripped(s); }
  }

  lemma CriteriaOfStripped(s: string)
    ensures CriteriaOf(s) == Words(Strip(s), IsDelimiter)
  {}

  /** A query is cut at every space, tab, line break, comma and semicolon, and at nothing else that can be seen. */
  lemma CriteriaSplit(a: string, d: char, b: string, c: string)
    requires d in {' ', '\t', '\n', '\r', ',', ';'}
    ensures CriteriaOf(a + [d] + b) == CriteriaOf(a) + CriteriaOf(b)
    ensures CriteriaOf("") == []
    ensures c != "" && (forall x <- c :: '!' <= x <= '~' && x !in {',', ';'}) ==> CriteriaOf(c) == [c]
  {
    assert IsDelimiter(d);
    if c != "" && forall x <- c :: '!' <= x <= '~' && x !in {',', ';'} {
      assert forall i :: 0 <= i < |c| ==> c[i] in c;
      assert Criterion(c);
      CriteriaOfJoined([c]);
      assert Join([c], ' ') == c;
    }
    CriteriaOfJoined([]);
    CriteriaAreWords(a + [d] + b);
    CriteriaAreWords(a);
    CriteriaAreWords(b);
    hide CriteriaOf;
    WordsConcat(a, d, b, IsDelimiter);
  }

  // ---------- Queries ----------

  datatype SearchType = Submission | Character | Journal | User

  const FIND_MODIFIERS := map["#submission" := Submission, "#character" := Character, "#journal" := Journal,
    "#user" := User]

  const RATING_MODIFIERS := map["#general" := 10, "#mature" := 30, "#explicit" := 40]

  datatype Criteria = Criteria(
    possible: set<string>,
    required: set<string>,
    excluded: set<string>,
    users: set<string>,
    notUsers: set<string>,
    ratings: set<int>,
    find: Option<SearchType>)

  const EMPTY := Criteria({}, {}, {}, {}, {}, {}, None)

  /** The five collections, in the order of `get_terms_string`. */
  datatype Kind = Required | Possible | Excluded | ByUser | NotByUser

  function Get(q: Criteria, kind: Kind): set<string> {
    match kind
    case Required => q.required
    case Possible => q.possible
    case Excluded => q.excluded
    case ByUser => q.users
    case NotByUser => q.notUsers
  }

  function Put(q: Criteria, kind: Kind, items: set<string>): Criteria {
    match kind
    case Required => q.(required := q.required + items)
    case Possible => q.(possible := q.possible + items)
    case Excluded => q.(excluded := q.excluded + items)
    case ByUser => q.(users := q.users + items)
    case NotByUser => q.(notUsers := q.notUsers + items)
  }

  /** `None` is the error `tagTooLong`. */
  function PutTag(q: Criteria, kind: Kind, reading: Reading): Option<Criteria> {
    match reading
    case TooLong => None
    case Nothing => Some(q)
    case Tag(t) => Some(Put(q, kind, {t}))
  }

  function PutUser(q: Criteria, kind: Kind, user: Option<string>): Criteria {
    if user.None? then q else Put(q, kind, {user.value})
  }

  function AfterColon(c: string): string {
    var i := IndexOf(c, ':');
    if i < |c| then c[i + 1..] else ""
  }

  function Added(q: Criteria, c: string, fold: string -> string): Option<Criteria> {
    if c in FIND_MODIFIERS then Some(q.(find := Some(FIND_MODIFIERS[c])))
    else if c in RATING_MODIFIERS then Some(q.(ratings := q.ratings + {RATING_MODIFIERS[c]}))
    else if "user:" <= c || "+user:" <= c || "-user:" <= c then
      Some(PutUser(q, if "-user:" <= c then NotByUser else ByUser, ParseSysname(AfterColon(c), fold)))
    else if "+" <= c then PutTag(q, Required, ParseTag(c[1..]))
    else if "-" <= c then PutTag(q, Excluded, ParseTag(c[1..]))
    else if "|" <= c then PutTag(q, Possible, ParseTag(c[1..]))
    else PutTag(q, Required, ParseTag(c))
  }

  function AddAll(q: Criteria, criteria: seq<string>, fold: string -> string): Option<Criteria>
    decreases |criteria|
  {
    if criteria == [] then Some(q)
    else
      match Added(q, criteria[0], fold)
      case None => None
      case Some(next) => AddAll(next, criteria[1..], fold)
  }

  /** The clean-up after all criteria have been collected. */
  function Normalize(q: Criteria): Criteria {
    var excluded := q.excluded - q.required;
    var possible := q.possible - q.required - excluded;
    if |possible| == 1 then q.(excluded := excluded, possible := {}, required := q.required + possible)
    else q.(excluded := excluded, possible := possible)
  }

  /** `Query.parse`; `None` is the error `tagTooLong`. */
  function Parsed(s: string, default: SearchType, fold: string -> string): Option<Criteria> {
    match AddAll(EMPTY, CriteriaOf(s), fold)
    case None => None
    case Some(q) => Some(WithDefault(Normalize(q), default))
  }

  function WithDefault(q: Criteria, default: SearchType): Criteria {
    if q.find.None? then q.(find := Some(default)) else q
  }

  predicate Clean(q: Criteria) {
    && (forall t <- q.required + q.possible + q.excluded :: Normalized(t))
    && (forall u <- q.users + q.notUsers :: Sysname(u))
  }

  /** What every parsed query satisfies. */
  predicate WellFormed(q: Criteria) {
    && Clean(q)
    && q.required !! q.possible && q.required !! q.excluded && q.possible !! q.excluded
    && |q.possible| != 1
  }

  lemma SysnameIsPlain(s: string, fold: string -> string)
    requires ParseSysname(s, fold).Some?
    ensures Sysname(ParseSysname(s, fold).value)
  {}

  lemma AddedClean(q: Criteria, c: string, fold: string -> string)
    requires Clean(q) && Added(q, c, fold).Some?
    ensures Clean(Added(q, c, fold).value)
  {
    hide ParseTag, ParseSysname, Normalized, Sysname;
    forall s | ParseTag(s).Tag? ensures Normalized(ParseTag(s).name) { ParseTagNormalizes(s); }
    forall s | ParseSysname(s, fold).Some? ensures Sysname(ParseSysname(s, fold).value) { SysnameIsPlain(s, fold); }
  }

  lemma {:induction false} AddAllClean(q: Criteria, criteria: seq<string>, fold: string -> string)
    requires Clean(q) && AddAll(q, criteria, fold).Some?
    ensures Clean(AddAll(q, criteria, fold).value)
    decreases |criteria|
  {
    if criteria != [] {
      AddedClean(q, criteria[0], fold);
      AddAllClean(Added(q, criteria[0], fold).value, criteria[1..], fold);
    }
  }

  lemma OneElement(s: set<string>)
    requires |s| == 1
    ensures exists x :: s == {x}
  {
    var x :| x in s;
    assert |s - {x}| == 0;
  }

  lemma Popped(s: set<string>, t: string)
    requires |s| == 1 && t in s
    ensures s == {t} && s - {t} == {}
  {
    OneElement(s);
  }

  lemma NormalizeSeparates(q: Criteria)
    requires Clean(q)
    ensures WellFormed(Normalize(q))
  {}

  /** Every query that is parsed is well-formed. */
  lemma ParsedIsWellFormed(s: string, default: SearchType, fold: string -> string)
    requires Parsed(s, default, fold).Some?
    ensures WellFormed(Parsed(s, default, fold).value)
  {
    hide AddAll, Normalize, CriteriaOf, Normalized, Sysname;
    AddAllClean(EMPTY, CriteriaOf(s), fold);
    var q := AddAll(EMPTY, CriteriaOf(s), fold).value;
    NormalizeSeparates(q);
    var r := Normalize(q);
    assert WellFormed(r) ==> WellFormed(r.(find := Some(default)));
  }

  // ---------- What criteria ask for ----------

  ghost predicate FindIs(c: string, find: SearchType) {
    match find
    case Submission => c == "#submission"
    case Character => c == "#character"
    case Journal => c == "#journal"
    case User => c == "#user"
  }

  ghost predicate RatingIs(c: string, rating: int) {
    (c == "#general" && rating == 10) || (c == "#mature" && rating == 30) || (c == "#explicit" && rating == 40)
  }

  /** A criterion that is about a tag. */
  ghost predicate OfTag(c: string) {
    && (forall find :: !FindIs(c, find)) && (forall rating :: !RatingIs(c, rating))
    && !("user:" <= c) && !("+user:" <= c) && !("-user:" <= c)
  }

  /** What of a criterion is the tag: what follows the sign, if there is one. */
  ghost predicate TagText(c: string, kind: Kind, rest: string) {
    && OfTag(c)
    && match kind
       case Required => c == "+" + rest || (c == rest && !("+" <= c) && !("-" <= c) && !("|" <= c))
       case Possible => c == "|" + rest
       case Excluded => c == "-" + rest
       case _ => false
  }

  /** What a criterion asks for. */
  ghost predicate Says(c: string, kind: Kind, x: string, fold: string -> string) {
    match kind
    case ByUser => exists rest :: (c == "user:" + rest || c == "+user:" + rest) && ParseSysname(rest, fold) == Some(x)
    case NotByUser => exists rest :: c == "-user:" + rest && ParseSysname(rest, fold) == Some(x)
    case _ => exists rest :: TagText(c, kind, rest) && ParseTag(rest) == Tag(x)
  }

  ghost predicate Overlong(c: string) {
    exists kind, rest :: TagText(c, kind, rest) && ParseTag(rest) == TooLong
  }

  lemma ModifiersAre(c: string)
    ensures c in FIND_MODIFIERS <==> exists find :: FindIs(c, find)
    ensures c in RATING_MODIFIERS <==> exists rating :: RatingIs(c, rating)
    ensures forall find :: FindIs(c, find) ==> FIND_MODIFIERS[c] == find
    ensures forall rating :: RatingIs(c, rating) ==> RATING_MODIFIERS[c] == rating
  {
    assert FindIs("#submission", Submission) && FindIs("#character", Character)
        && FindIs("#journal", Journal) && FindIs("#user", User);
    assert RatingIs("#general", 10) && RatingIs("#mature", 30) && RatingIs("#explicit", 40);
  }

  /** What follows the colon of a user criterion. */
  lemma UserText(c: string, rest: string)
    requires c == "user:" + rest || c == "+user:" + rest || c == "-user:" + rest
    ensures AfterColon(c) == rest
  {
    var prefix := c[..|c| - |rest|];
    assert c == prefix + rest && prefix in {"user:", "+user:", "-user:"};
    IndexOfFirst(prefix[..|prefix| - 1], ':', rest);
    assert prefix[..|prefix| - 1] + [':'] + rest == c;
  }

  lemma UserCriteria(c: string)
    ensures "user:" <= c ==> c == "user:" + AfterColon(c)
    ensures "+user:" <= c ==> c == "+user:" + AfterColon(c)
    ensures "-user:" <= c ==> c == "-user:" + AfterColon(c)
  {
    hide AfterColon;
    if "user:" <= c {
      assert c == "user:" + c[5..];
      UserText(c, c[5..]);
      assert c[0] == 'u';
    }
    if "+user:" <= c || "-user:" <= c {
      assert c == c[..6] + c[6..];
      UserText(c, c[6..]);
    }
  }

  lemma SpecialCriteria(c: string)
    ensures (exists find :: FindIs(c, find)) || (exists rating :: RatingIs(c, rating)) ==>
              !("user:" <= c) && !("+user:" <= c) && !("-user:" <= c)
    ensures !OfTag(c) <==> || c in FIND_MODIFIERS || c in RATING_MODIFIERS
                           || "user:" <= c || "+user:" <= c || "-user:" <= c
  {
    ModifiersAre(c);
    hide FIND_MODIFIERS, RATING_MODIFIERS;
    assert "user:" <= c ==> c[0] == 'u';
    assert "+user:" <= c ==> c[0] == '+';
    assert "-user:" <= c ==> c[0] == '-';
    assert forall find :: FindIs(c, find) ==> c[0] == '#';
    assert forall rating :: RatingIs(c, rating) ==> c[0] == '#';
  }

  lemma UsersSaid(c: string, x: string, fold: string -> string)
    ensures Says(c, ByUser, x, fold) <==>
              ("user:" <= c || "+user:" <= c) && ParseSysname(AfterColon(c), fold) == Some(x)
    ensures Says(c, NotByUser, x, fold) <==> "-user:" <= c && ParseSysname(AfterColon(c), fold) == Some(x)
  {
    hide ParseSysname, AfterColon;
    UserCriteria(c);
    forall rest | c == "user:" + rest || c == "+user:" + rest || c == "-user:" + rest ensures AfterColon(c) == rest {
      UserText(c, rest);
    }
  }

  /** The sign of a criterion, and the tag. */
  function Sign(c: string): Kind {
    if "-" <= c then Excluded else if "|" <= c then Possible else Required
  }

  function Unsigned(c: string): string {
    if "+" <= c || "-" <= c || "|" <= c then c[1..] else c
  }

  lemma TagTextExactly(c: string, kind: Kind, rest: string)
    ensures TagText(c, kind, rest) <==> OfTag(c) && kind == Sign(c) && rest == Unsigned(c)
  {
    hide OfTag;
    assert "+" <= c ==> c == "+" + c[1..];
    assert "-" <= c ==> c == "-" + c[1..];
    assert "|" <= c ==> c == "|" + c[1..];
    assert c == "+" + rest ==> c[1..] == rest && c[0] == '+';
    assert c == "-" + rest ==> c[1..] == rest && c[0] == '-';
    assert c == "|" + rest ==> c[1..] == rest && c[0] == '|';
  }

  lemma TagsSaid(c: string, kind: Kind, x: string, fold: string -> string)
    requires !kind.ByUser? && !kind.NotByUser?
    ensures Says(c, kind, x, fold) <==> OfTag(c) && kind == Sign(c) && ParseTag(Unsigned(c)) == Tag(x)
    ensures Overlong(c) <==> OfTag(c) && ParseTag(Unsigned(c)) == TooLong
  {
    hide ParseTag, OfTag, TagText, Sign, Unsigned;
    TagTextExactly(c, Sign(c), Unsigned(c));
    forall k, rest ensures TagText(c, k, rest) <==> OfTag(c) && k == Sign(c) && rest == Unsigned(c) {
      TagTextExactly(c, k, rest);
    }
  }

  /** A criterion adds just what it asks for. */
  lemma AddedExactly(q: Criteria, c: string, fold: string -> string, kind: Kind, x: string, rating: int)
    ensures Added(q, c, fold).None? <==> Overlong(c)
    ensures Added(q, c, fold).Some? ==>
              var r := Added(q, c, fold).value;
              && (x in Get(r, kind) <==> x in Get(q, kind) || Says(c, kind, x, fold))
              && (rating in r.ratings <==> rating in q.ratings || RatingIs(c, rating))
              && (r.find == q.find || exists find :: FindIs(c, find))
              && forall find | FindIs(c, find) :: r.find == Some(find)
  {
    SpecialCriteria(c);
    ModifiersAre(c);
    UsersSaid(c, x, fold);
    TagsSaid(c, Required, x, fold);
    TagsSaid(c, Possible, x, fold);
    TagsSaid(c, Excluded, x, fold);
    hide ParseTag, ParseSysname, FIND_MODIFIERS, RATING_MODIFIERS, FindIs, RatingIs, Says, Overlong, AfterColon, OfTag;
  }

  /** All criteria together add what any of them asks for, and fail exactly if one has a tag that is too long. */
  lemma {:induction false} AddAllExactly(
    q: Criteria, criteria: seq<string>, fold: string -> string, kind: Kind, x: string, rating: int)
    ensures AddAll(q, criteria, fold).None? <==> exists c <- criteria :: Overlong(c)
    ensures AddAll(q, criteria, fold).Some? ==>
              var r := AddAll(q, criteria, fold).value;
              && (x in Get(r, kind) <==> x in Get(q, kind) || exists c <- criteria :: Says(c, kind, x, fold))
              && (rating in r.ratings <==> rating in q.ratings || exists c <- criteria :: RatingIs(c, rating))
    decreases |criteria|
  {
    hide Added, Overlong, Says, RatingIs, Get;
    if criteria != [] {
      var c, rest := criteria[0], criteria[1..];
      AddedExactly(q, c, fold, kind, x, rating);
      assert criteria == [c] + rest;
      if Added(q, c, fold).Some? {
        AddAllExactly(Added(q, c, fold).value, rest, fold, kind, x, rating);
      }
    }
  }

  /** The last of the criteria that ask for a kind of works. */
  ghost predicate LastFind(criteria: seq<string>, find: SearchType) {
    exists i :: 0 <= i < |criteria| && FindIs(criteria[i], find) && NoFind(criteria[i + 1..])
  }

  ghost predicate NoFind(criteria: seq<string>) {
    forall c <- criteria, find :: !FindIs(c, find)
  }

  lemma {:induction false} AddAllFinds(q: Criteria, criteria: seq<string>, fold: string -> string, find: SearchType)
    requires AddAll(q, criteria, fold).Some?
    ensures NoFind(criteria) ==> AddAll(q, criteria, fold).value.find == q.find
    ensures LastFind(criteria, find) ==> AddAll(q, criteria, fold).value.find == Some(find)
    ensures NoFind(criteria) || exists f :: LastFind(criteria, f)
    decreases |criteria|
  {
    hide Added, FindIs;
    if criteria != [] {
      var c, rest := criteria[0], criteria[1..];
      AddedExactly(q, c, fold, Required, "", 0);
      AddAllFinds(Added(q, c, fold).value, rest, fold, find);
      LastFindFirst(c, rest, find);
      assert criteria == [c] + rest;
      hide NoFind, LastFind;
      if exists f :: LastFind(rest, f) {
        var f :| LastFind(rest, f);
        LastFindFirst(c, rest, f);
      } else if exists f :: FindIs(c, f) {
        var f :| FindIs(c, f);
        LastFindFirst(c, rest, f);
      }
    }
  }

  lemma LastFindFirst(c: string, rest: seq<string>, find: SearchType)
    ensures LastFind([c] + rest, find) <==> LastFind(rest, find) || (FindIs(c, find) && NoFind(rest))
    ensures NoFind([c] + rest) <==> NoFind(rest) && forall f :: !FindIs(c, f)
  {
    hide FindIs, NoFind;
    var all := [c] + rest;
    if LastFind(all, find) {
      var i :| 0 <= i < |all| && FindIs(all[i], find) && NoFind(all[i + 1..]);
      if i > 0 {
        assert all[i] == rest[i - 1] && all[i + 1..] == rest[i - 1 + 1..];
      } else {
        assert all[1..] == rest;
      }
    }
    if LastFind(rest, find) {
      var i :| 0 <= i < |rest| && FindIs(rest[i], find) && NoFind(rest[i + 1..]);
      assert all[i + 1] == rest[i] && all[i + 1 + 1..] == rest[i + 1..];
    }
    if FindIs(c, find) && NoFind(rest) {
      assert all[0] == c && all[0 + 1..] == rest;
    }
    assert NoFind(all) <==> NoFind(rest) && forall f :: !FindIs(c, f) by { NoFindFirst(c, rest); }
  }

  lemma NoFindFirst(c: string, rest: seq<string>)
    ensures NoFind([c] + rest) <==> NoFind(rest) && forall f :: !FindIs(c, f)
  {
    hide FindIs;
    assert ([c] + rest)[0] == c;
    assert forall d :: d in [c] + rest <==> d == c || d in rest;
  }

  ghost predicate Asked(s: string, kind: Kind, x: string, fold: string -> string) {
    exists c <- CriteriaOf(s) :: Says(c, kind, x, fold)
  }

  /** A tag that is possible and neither required nor excluded. */
  ghost predicate Open(s: string, t: string, fold: string -> string) {
    Asked(s, Possible, t, fold) && !Asked(s, Required, t, fold) && !Asked(s, Excluded, t, fold)
  }

  lemma OnlyElement(s: set<string>, t: string)
    ensures |s| == 1 && t in s <==> s == {t}
    ensures |s| != 1 && t in s ==> exists u :: u in s && u != t
  {
    if |s| == 1 && t in s {
      Popped(s, t);
    }
    if |s| != 1 && t in s {
      assert |{t}| == 1 && s != {t};
      assert (forall u <- s :: u == t) ==> s == {t};
    }
  }

  /** What a query string asks for: users and ratings as the criteria say; the last kind of works, or the default;
      required tags before excluded ones before possible ones, and an only possible tag required. */
  lemma ParsedExactly(s: string, default: SearchType, fold: string -> string, x: string, rating: int, find: SearchType)
    ensures Parsed(s, default, fold).None? <==> exists c <- CriteriaOf(s) :: Overlong(c)
    ensures Parsed(s, default, fold).Some? ==>
              var r := Parsed(s, default, fold).value;
              && (x in r.users <==> Asked(s, ByUser, x, fold))
              && (x in r.notUsers <==> Asked(s, NotByUser, x, fold))
              && (rating in r.ratings <==> exists c <- CriteriaOf(s) :: RatingIs(c, rating))
              && (LastFind(CriteriaOf(s), find) ==> r.find == Some(find))
              && (NoFind(CriteriaOf(s)) ==> r.find == Some(default))
              && (x in r.required <==> || Asked(s, Required, x, fold)
                                       || (Open(s, x, fold) && forall t | Open(s, t, fold) :: t == x))
              && (x in r.excluded <==> Asked(s, Excluded, x, fold) && !Asked(s, Required, x, fold))
              && (x in r.possible <==> Open(s, x, fold) && exists t :: Open(s, t, fold) && t != x)
  {
    hide AddAll, CriteriaOf, Says, Overlong, RatingIs, LastFind, NoFind;
    var criteria := CriteriaOf(s);
    forall k: Kind, t
      ensures AddAll(EMPTY, criteria, fold).Some? ==>
                (t in Get(AddAll(EMPTY, criteria, fold).value, k) <==> Asked(s, k, t, fold))
    {
      AddAllExactly(EMPTY, criteria, fold, k, t, rating);
    }
    AddAllExactly(EMPTY, criteria, fold, Required, x, rating);
    if AddAll(EMPTY, criteria, fold).Some? {
      var q := AddAll(EMPTY, criteria, fold).value;
      AddAllFinds(EMPTY, criteria, fold, find);
      NormalizeExactly(q, x);
      assert forall t :: t in OpenTags(q) <==> Open(s, t, fold) by {
        assert forall t :: t in q.possible <==> t in Get(q, Possible);
        assert forall t :: t in q.required <==> t in Get(q, Required);
        assert forall t :: t in q.excluded <==> t in Get(q, Excluded);
      }
      hide Open, Asked, Normalize;
      ParsedIs(s, default, fold);
    }
  }

  function OpenTags(q: Criteria): set<string> {
    q.possible - q.required - q.excluded
  }

  lemma NormalizeExactly(q: Criteria, x: string)
    ensures var r := Normalize(q);
            && (x in r.required <==> x in q.required || (x in OpenTags(q) && forall t <- OpenTags(q) :: t == x))
            && (x in r.excluded <==> x in q.excluded && x !in q.required)
            && (x in r.possible <==> x in OpenTags(q) && exists t <- OpenTags(q) :: t != x)
            && r.users == q.users && r.notUsers == q.notUsers && r.ratings == q.ratings && r.find == q.find
  {
    var possible := q.possible - q.required - (q.excluded - q.required);
    assert possible == OpenTags(q);
    OnlyElement(possible, x);
  }

  lemma ParsedIs(s: string, default: SearchType, fold: string -> string)
    requires AddAll(EMPTY, CriteriaOf(s), fold).Some?
    ensures var n := Normalize(AddAll(EMPTY, CriteriaOf(s), fold).value);
            && Parsed(s, default, fold).Some?
            && Parsed(s, default, fold).value.(find := n.find) == n
            && Parsed(s, default, fold).value.find == if n.find.None? then Some(default) else n.find
  {
    hide AddAll, CriteriaOf, Normalize;
  }

  // ---------- Printing ----------

  function Prefix(kind: Kind): string {
    match kind
    case Required => ""
    case Possible => "|"
    case Excluded => "-"
    case ByUser => "user:"
    case NotByUser => "-user:"
  }

  function Prefixed(kind: Kind, items: seq<string>): (r: seq<string>)
    ensures |r| == |items|
  {
    seq(|items|, i requires 0 <= i < |items| => Prefix(kind) + items[i])
  }

  ghost function Terms(q: Criteria, kind: Kind): seq<string> {
    Prefixed(kind, Sorted(Get(q, kind)))
  }

  ghost function AllTerms(q: Criteria): seq<string> {
    Terms(q, Required) + (Terms(q, Possible) + (Terms(q, Excluded) + (Terms(q, ByUser) + Terms(q, NotByUser))))
  }

  /** `get_terms_string`. */
  ghost function TermsString(q: Criteria): string {
    Join(AllTerms(q), ' ')
  }

  lemma PlainCriterion(q: Criteria, c: string, fold: string -> string)
    requires c != "" && c[0] != '#' && ':' !in c
    ensures Added(q, c, fold) ==
      if c[0] == '+' then PutTag(q, Required, ParseTag(c[1..]))
      else if c[0] == '-' then PutTag(q, Excluded, ParseTag(c[1..]))
      else if c[0] == '|' then PutTag(q, Possible, ParseTag(c[1..]))
      else PutTag(q, Required, ParseTag(c))
  {
    hide ParseTag, PutTag, ParseSysname;
    assert "user:"[4] == ':' && "+user:"[5] == ':' && "-user:"[5] == ':';
    assert c !in FIND_MODIFIERS && c !in RATING_MODIFIERS;
  }

  lemma TagTerm(q: Criteria, kind: Kind, t: string, fold: string -> string)
    requires !kind.ByUser? && !kind.NotByUser? && Normalized(t)
    ensures Added(q, Prefix(kind) + t, fold) == Some(Put(q, kind, {t}))
    ensures Criterion(Prefix(kind) + t)
  {
    hide Normalized, ParseTag, Added;
    var c := Prefix(kind) + t;
    NonEmptyTag(t);
    NormalizedChars(t);
    assert forall i :: 0 <= i < |c| ==> c[i] in Prefix(kind) || c[i] in t;
    assert t[0] in t;
    NormalizedIsRead(t);
    PlainCriterion(q, c, fold);
    assert if kind.Required? then c == t else c[0] == Prefix(kind)[0] && c[1..] == t;
  }

  lemma NonEmptyTag(t: string)
    requires Normalized(t)
    ensures t != ""
  {}

  lemma UserTerm(q: Criteria, kind: Kind, u: string, fold: string -> string)
    requires (kind.ByUser? || kind.NotByUser?) && Sysname(u) && Folds(fold)
    ensures Added(q, Prefix(kind) + u, fold) == Some(Put(q, kind, {u}))
    ensures Criterion(Prefix(kind) + u)
  {
    hide ParseSysname, ParseTag, IndexOf, Plain;
    var c := Prefix(kind) + u;
    assert Criterion(c) by { UserCriterion(kind, u); }
    assert c !in FIND_MODIFIERS && c !in RATING_MODIFIERS by { assert c[0] != '#'; }
    assert IndexOf(c, ':') == |Prefix(kind)| - 1 by { FirstColon(Prefix(kind), u); }
    assert AfterColon(c) == u;
    SysnameIsRead(u, fold);
    assert kind.ByUser? ==> c[0] == 'u';
  }

  lemma UserCriterion(kind: Kind, u: string)
    requires (kind.ByUser? || kind.NotByUser?) && Sysname(u)
    ensures Criterion(Prefix(kind) + u)
  {}

  lemma FirstColon(prefix: string, u: string)
    requires prefix == "user:" || prefix == "-user:"
    ensures IndexOf(prefix + u, ':') == |prefix| - 1
  {
    var s := prefix + u;
    assert s[|prefix| - 1] == ':' && forall k :: 0 <= k < |prefix| - 1 ==> s[k] == prefix[k];
  }

  predicate Fits(kind: Kind, item: string) {
    if kind.ByUser? || kind.NotByUser? then Sysname(item) else Normalized(item)
  }

  lemma PrefixedFirst(kind: Kind, items: seq<string>)
    requires items != []
    ensures Prefixed(kind, items) == [Prefix(kind) + items[0]] + Prefixed(kind, items[1..])
  {}

  lemma PutFirst(q: Criteria, kind: Kind, items: seq<string>)
    requires items != []
    ensures Put(Put(q, kind, {items[0]}), kind, set x <- items[1..]) == Put(q, kind, set x <- items)
  {}

  lemma PutNone(q: Criteria, kind: Kind)
    ensures Put(q, kind, {}) == q
  {}

  lemma FittingTerm(q: Criteria, kind: Kind, item: string, fold: string -> string)
    requires Folds(fold) && Fits(kind, item)
    ensures Added(q, Prefix(kind) + item, fold) == Some(Put(q, kind, {item}))
    ensures Criterion(Prefix(kind) + item)
  {
    hide Added, Normalized, Sysname, Criterion;
    if kind.ByUser? || kind.NotByUser? {
      UserTerm(q, kind, item, fold);
    } else {
      TagTerm(q, kind, item, fold);
    }
  }

  lemma {:induction false} AddTerms(q: Criteria, kind: Kind, items: seq<string>, more: seq<string>,
      fold: string -> string)
    requires Folds(fold) && forall x <- items :: Fits(kind, x)
    ensures AddAll(q, Prefixed(kind, items) + more, fold) == AddAll(Put(q, kind, set x <- items), more, fold)
    ensures forall c <- Prefixed(kind, items) :: Criterion(c)
    decreases |items|
  {
    hide Added, Criterion, Fits, Put, Prefix, Prefixed, Folds;
    if items == [] {
      assert Prefixed(kind, items) + more == more;
      assert (set x <- items) == {};
      PutNone(q, kind);
    } else {
      var item, rest := items[0], items[1..];
      FittingTerm(q, kind, item, fold);
      PrefixedFirst(kind, items);
      PutFirst(q, kind, items);
      AddTerms(Put(q, kind, {item}), kind, rest, more, fold);
      AddFirst(q, Prefix(kind) + item, Prefixed(kind, rest) + more, fold);
      assert Prefixed(kind, items) + more == [Prefix(kind) + item] + (Prefixed(kind, rest) + more);
    }
  }

  lemma AddFirst(q: Criteria, c: string, more: seq<string>, fold: string -> string)
    requires Added(q, c, fold).Some?
    ensures AddAll(q, [c] + more, fold) == AddAll(Added(q, c, fold).value, more, fold)
  {}

  lemma AddKind(q: Criteria, from: Criteria, kind: Kind, more: seq<string>, fold: string -> string)
    requires Folds(fold) && Clean(q)
    ensures AddAll(from, Terms(q, kind) + more, fold) == AddAll(Put(from, kind, Get(q, kind)), more, fold)
    ensures forall c <- Terms(q, kind) :: Criterion(c)
  {
    hide AddAll, Normalized, Sysname, Criterion, Sorted;
    var items := Sorted(Get(q, kind));
    SortedElements(Get(q, kind));
    assert (set x <- items) == Get(q, kind);
    AddTerms(from, kind, items, more, fold);
  }

  /** The terms of a query, taken one after the other, collect the same five sets. */
  lemma TermsCollect(q: Criteria, fold: string -> string)
    requires Folds(fold) && Clean(q)
    ensures AddAll(EMPTY, AllTerms(q), fold) == Some(q.(ratings := {}, find := None))
    ensures forall c <- AllTerms(q) :: Criterion(c)
  {
    hide Added, Clean, Criterion, Terms;
    var fifth := Terms(q, NotByUser);
    var fourth := Terms(q, ByUser) + fifth;
    var third := Terms(q, Excluded) + fourth;
    var second := Terms(q, Possible) + third;
    var q1 := Put(EMPTY, Required, q.required);
    var q2 := Put(q1, Possible, q.possible);
    var q3 := Put(q2, Excluded, q.excluded);
    var q4 := Put(q3, ByUser, q.users);
    AddKind(q, EMPTY, Required, second, fold);
    AddKind(q, q1, Possible, third, fold);
    AddKind(q, q2, Excluded, fourth, fold);
    AddKind(q, q3, ByUser, fifth, fold);
    AddKind(q, q4, NotByUser, [], fold);
    assert fifth + [] == fifth;
    assert Put(q4, NotByUser, q.notUsers) == q.(ratings := {}, find := None) by { PutEverything(q); }
    hide Put;
  }

  lemma PutEverything(q: Criteria)
    ensures Put(Put(Put(Put(Put(EMPTY, Required, q.required), Possible, q.possible), Excluded, q.excluded),
                    ByUser, q.users), NotByUser, q.notUsers) == q.(ratings := {}, find := None)
  {}

  /** The printed terms of a well-formed query are read back as the same tags and users. */
  lemma TermsRoundTrip(q: Criteria, default: SearchType, fold: string -> string)
    requires Folds(fold) && WellFormed(q)
    ensures Parsed(TermsString(q), default, fold) == Some(q.(ratings := {}, find := Some(default)))
  {
    hide AllTerms, CriteriaOf, AddAll, Clean, Criterion;
    TermsCollect(q, fold);
    CriteriaOfJoined(AllTerms(q));
    var r := q.(ratings := {}, find := None);
    assert q.excluded - q.required == q.excluded;
    assert q.possible - q.required - q.excluded == q.possible;
    assert Normalize(r) == r;
  }

  /** Printing is a normal form: parsing and printing again changes nothing more. */
  lemma TermsAreNormal(s: string, default: SearchType, fold: string -> string)
    requires Folds(fold) && Parsed(s, default, fold).Some?
    ensures var q := Parsed(s, default, fold).value;
            && Parsed(TermsString(q), default, fold).Some?
            && (forall kind :: Get(Parsed(TermsString(q), default, fold).value, kind) == Get(q, kind))
            && TermsString(Parsed(TermsString(q), default, fold).value) == TermsString(q)
  {
    var q := Parsed(s, default, fold).value;
    ParsedIsWellFormed(s, default, fold);
    hide *;
    TermsRoundTrip(q, default, fold);
    SameTerms(q, q.(ratings := {}, find := Some(default)));
  }

  lemma SameTerms(q: Criteria, r: Criteria)
    requires q.(ratings := r.ratings, find := r.find) == r
    ensures (forall kind :: Get(r, kind) == Get(q, kind)) && TermsString(r) == TermsString(q)
  {
    hide Join, Prefixed, Sorted;
    assert forall kind :: Get(r, kind) == Get(q, kind);
    hide Get;
  }

  // ---------- What a query means ----------

  /** Whether a work with these tags is found, as far as tags go. */
  predicate Matches(q: Criteria, tags: set<string>) {
    && q.required <= tags
    && (q.possible == {} || q.possible * tags != {})
    && q.excluded * tags == {}
  }

  lemma SomethingMatches(q: Criteria)
    ensures Matches(Normalize(q), Normalize(q).required + Normalize(q).possible)
  {}

  /** A cleaned-up query is never contradictory: some set of tags meets it. */
  lemma NormalizedIsSatisfiable(q: Criteria)
    ensures exists tags :: Matches(Normalize(q), tags)
  {
    SomethingMatches(q);
  }

  /** The guard: no tag both required and excluded, and the possible tags are redundant exactly when one is required. */
  predicate KeepsMeaning(q: Criteria) {
    && q.required !! q.excluded
    && (q.possible == {} || (q.possible * q.required != {} <==> q.possible <= q.required + q.excluded))
  }

  /** The clean-up keeps what the criteria said for exactly the queries that `KeepsMeaning`. */
  lemma CleanUpMeaning(q: Criteria)
    ensures (forall tags :: Matches(q, tags) <==> Matches(Normalize(q), tags)) <==> KeepsMeaning(q)
  {
    if KeepsMeaning(q) {
      forall tags ensures Matches(q, tags) <==> Matches(Normalize(q), tags) {
        SameMeaning(q, tags);
      }
    } else {
      DifferentMeaning(q);
    }
  }

  /** Requiring the only possible tag is the same as leaving it possible. */
  lemma MatchesNormalized(q: Criteria, tags: set<string>)
    ensures var excluded := q.excluded - q.required;
            Matches(Normalize(q), tags) <==>
            Matches(q.(excluded := excluded, possible := q.possible - q.required - excluded), tags)
  {
    var possible := q.possible - q.required - (q.excluded - q.required);
    if |possible| == 1 {
      OneElement(possible);
    }
  }

  lemma SameMeaning(q: Criteria, tags: set<string>)
    requires KeepsMeaning(q)
    ensures Matches(q, tags) <==> Matches(Normalize(q), tags)
  {
    MatchesNormalized(q, tags);
    hide Normalize;
    assert q.excluded - q.required == q.excluded;
    var possible := q.possible - q.required - q.excluded;
    if q.possible != {} && q.possible * q.required == {} {
      forall t <- q.possible ensures t !in q.required {
        assert t in q.possible * q.required <==> t in q.required;
      }
      var t :| t in q.possible && t !in q.required + q.excluded;
      assert t in possible;
      forall t <- tags * q.possible ensures t in q.excluded * tags || t in possible * tags {}
    } else if q.required <= tags {
      assert possible == {};
      assert q.possible * q.required <= q.possible * tags;
    }
  }

  lemma DifferentMeaning(q: Criteria)
    requires !KeepsMeaning(q)
    ensures exists tags :: Matches(q, tags) != Matches(Normalize(q), tags)
  {
    if q.possible * q.required != {} && q.required !! q.excluded {
      MatchesNormalized(q, q.required);
      hide Normalize;
      NarrowedBy(q);
    } else {
      NothingMatched(q);
      SomethingMatches(q);
    }
  }

  lemma NarrowedBy(q: Criteria)
    requires q.possible * q.required != {} && q.required !! q.excluded && !KeepsMeaning(q)
    ensures Matches(q, q.required)
    ensures var possible := q.possible - q.required - (q.excluded - q.required);
            possible != {} && possible * q.required == {}
  {
    var t :| t in q.possible && t !in q.required + q.excluded;
    assert t in q.possible - q.required - (q.excluded - q.required);
  }

  lemma NothingMatched(q: Criteria)
    requires !KeepsMeaning(q) && (q.possible * q.required == {} || !(q.required !! q.excluded))
    ensures var n := Normalize(q); !Matches(q, n.required + n.possible)
  {}

  lemma OneLetterTag(t: string)
    requires t == "a" || t == "b"
    ensures Normalized(t)
  {
    IndexOfFirst(t, '_', "");
    assert Split(t, '_') == [t];
  }

  lemma ExampleCriteria()
    ensures CriteriaOf("a |a |b") == ["a", "|a", "|b"]
  {
    var words := ["a", "|a", "|b"];
    assert words[1..] == ["|a", "|b"] && ["|a", "|b"][1..] == ["|b"];
    assert Join(["|a", "|b"], ' ') == "|a |b";
    assert Join(words, ' ') == "a |a |b";
    hide Join, CriteriaOf;
    CriteriaOfJoined(words);
  }

  lemma AddThree(q: Criteria, a: string, b: string, c: string, fold: string -> string)
    requires Added(q, a, fold).Some? && Added(Added(q, a, fold).value, b, fold).Some?
    ensures AddAll(q, [a, b, c], fold) == Added(Added(Added(q, a, fold).value, b, fold).value, c, fold)
  {
    hide Added;
    assert [a, b, c] == [a] + [b, c] && [b, c] == [b] + [c] && [c] == [c] + [];
    AddFirst(q, a, [b, c], fold);
    AddFirst(Added(q, a, fold).value, b, [c], fold);
    if Added(Added(Added(q, a, fold).value, b, fold).value, c, fold).Some? {
      AddFirst(Added(Added(q, a, fold).value, b, fold).value, c, [], fold);
    }
  }

  lemma PrefixesOfExample()
    ensures Prefix(Required) + "a" == "a" && Prefix(Possible) + "a" == "|a" && Prefix(Possible) + "b" == "|b"
  {}

  /** What the criteria of "a |a |b" collect. */
  lemma CollectedExample(fold: string -> string)
    ensures AddAll(EMPTY, CriteriaOf("a |a |b"), fold) == Some(EMPTY.(required := {"a"}, possible := {"a", "b"}))
  {
    var q1 := Put(EMPTY, Required, {"a"});
    var q2 := Put(q1, Possible, {"a"});
    assert Put(q2, Possible, {"b"}) == EMPTY.(required := {"a"}, possible := {"a", "b"});
    hide *;
    OneLetterTag("a");
    OneLetterTag("b");
    PrefixesOfExample();
    TagTerm(EMPTY, Required, "a", fold);
    TagTerm(q1, Possible, "a", fold);
    TagTerm(q2, Possible, "b", fold);
    ExampleCriteria();
    AddThree(EMPTY, "a", "|a", "|b", fold);
  }

  /** "a |a |b" asks for a, and for a or b; what is left of it asks for a and b. */
  lemma CleanUpCanNarrow(default: SearchType, fold: string -> string)
    ensures var q, r := AddAll(EMPTY, CriteriaOf("a |a |b"), fold), Parsed("a |a |b", default, fold);
            q.Some? && r.Some? && Matches(q.value, {"a"}) && !Matches(r.value, {"a"})
  {
    CollectedExample(fold);
    var q := EMPTY.(required := {"a"}, possible := {"a", "b"});
    hide AddAll, CriteriaOf;
    assert q.possible - q.required - (q.excluded - q.required) == {"b"};
    assert "a" in q.possible * {"a"};
    assert Normalize(q).required == {"a", "b"};
    assert "b" !in {"a"};
  }

  // ---------- The program ----------

  class Query {
    var possible: set<string>
    var required: set<string>
    var excluded: set<string>
    var users: set<string>
    var notUsers: set<string>
    var ratings: set<int>
    var find: Option<SearchType>

    constructor ()
      ensures Value() == EMPTY
    {
      possible, required, excluded, users, notUsers, ratings, find := {}, {}, {}, {}, {}, {}, None;
    }

    ghost function Value(): Criteria
      reads this
    {
      Criteria(possible, required, excluded, users, notUsers, ratings, find)
    }

    /** `add_criterion`; false is the error `tagTooLong`, raised before anything changes. */
    method AddCriterion(c: string, fold: string -> string) returns (ok: bool)
      requires ' ' !in c
      modifies this
      ensures ok == Added(old(Value()), c, fold).Some?
      ensures Value() == if ok then Added(old(Value()), c, fold).value else old(Value())
    {
      hide ParseTag, ParseSysname;
      ok := true;
      if c in FIND_MODIFIERS {
        find := Some(FIND_MODIFIERS[c]);
        return;
      }
      if c in RATING_MODIFIERS {
        ratings := ratings + {RATING_MODIFIERS[c]};
        return;
      }
      if "user:" <= c || "+user:" <= c {
        var user := ParseSysname(AfterColon(c), fold);
        users := users + if user.Some? then {user.value} else {};
      } else if "-user:" <= c {
        var user := ParseSysname(AfterColon(c), fold);
        notUsers := notUsers + if user.Some? then {user.value} else {};
      } else if "+" <= c {
        var tag := ParseTag(c[1..]);
        ok := !tag.TooLong?;
        required := required + if tag.Tag? then {tag.name} else {};
      } else if "-" <= c {
        var tag := ParseTag(c[1..]);
        ok := !tag.TooLong?;
        excluded := excluded + if tag.Tag? then {tag.name} else {};
      } else if "|" <= c {
        var tag := ParseTag(c[1..]);
        ok := !tag.TooLong?;
        possible := possible + if tag.Tag? then {tag.name} else {};
      } else {
        var tag := ParseTag(c);
        ok := !tag.TooLong?;
        required := required + if tag.Tag? then {tag.name} else {};
      }
    }

    /** The updates of `parse` after its loop. */
    method CleanUp(default: SearchType)
      modifies this
      ensures Value() == WithDefault(Normalize(old(Value())), default)
    {
      possible := possible - required;
      excluded := excluded - required;
      possible := possible - excluded;
      TakeOnly();
      if find.None? {
        find := Some(default);
      }
    }

    method TakeOnly()
      modifies this`possible, this`required
      ensures if |old(possible)| == 1 then possible == {} && required == old(required + possible)
              else possible == old(possible) && required == old(required)
    {
      if |possible| == 1 {
        var t :| t in possible;
        Popped(possible, t);
        possible := possible - {t};
        required := required + {t};
      }
    }

    static method Parse(s: string, default: SearchType, fold: string -> string) returns (ok: bool, query: Query)
      ensures fresh(query)
      ensures ok == Parsed(s, default, fold).Some?
      ensures ok ==> query.Value() == Parsed(s, default, fold).value
    {
      query := new Query();
      ok := true;
      var pieces := CutAtRuns(Strip(s), IsDelimiter);
      CutPieces(Strip(s), IsDelimiter);
      hide CutAtRuns, Added, Normalize;
      for i := 0 to |pieces|
        invariant fresh(query)
        invariant AddAll(EMPTY, CriteriaOf(s), fold) == AddAll(query.Value(), NonEmpty(pieces[i..]), fold)
      {
        assert pieces[i..][1..] == pieces[i + 1..];
        if pieces[i] != "" {
          assert Criterion(pieces[i]) && IsDelimiter(' ');
          ok := query.AddCriterion(pieces[i], fold);
          if !ok {
            return;
          }
        }
      }
      query.CleanUp(default);
    }
  }
}
