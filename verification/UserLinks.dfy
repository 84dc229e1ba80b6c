/** Links to users in rendered Markdown (libweasyl/text.py, `add_user_links`).

    `ExpandItems` says what the links mean on content in document order.  `AddUserLinks` is
    the surgery on text, tails and child lists that the program does. */
module UserLinks {
  import opened Options
  import opened Markup

  // ---------- Tokens (the pattern `USER_LINK`) ----------

  /** What content is read as: a character, an escaped character, a link, or a child element. */
  datatype Piece = Plain(c: char) | Escape(c: char) | Link(sigil: string, name: string) | Child(node: Item)

  /** `[a-z0-9_]` without regard to case.  For `str` patterns that takes in four letters outside ASCII. */
  predicate NameChar(c: char) {
    'a' <= c <= 'z' || 'A' <= c <= 'Z' || '0' <= c <= '9' || c == '_'
    || c in {'\U{0130}', '\U{0131}', '\U{017F}', '\U{212A}'}
  }

  function NameLength(s: string): (n: nat)
    ensures n <= |s| && (forall i :: 0 <= i < n ==> NameChar(s[i])) && (n < |s| ==> !NameChar(s[n]))
  {
    if s == "" || !NameChar(s[0]) then 0 else 1 + NameLength(s[1..])
  }

  function LinkAt(s: string, sigil: string): (p: Option<Piece>)
    ensures p.Some? ==> p.value.Link? && |Source(p.value)| <= |s| && Source(p.value) == Letters(s)[..|Source(p.value)|]
  {
    var start := 1 + |sigil|;
    if start <= |s| && s[..start] == "<" + sigil then
      var n := NameLength(s[start..]);
      if n > 0 && start + n < |s| && s[start + n] == '>' then
        assert s[..start + n + 1] == "<" + sigil + s[start..start + n] + ">";
        assert Letters(s)[..start + n + 1] == Letters(s[..start + n + 1]);
        Some(Link(sigil, s[start..start + n]))
      else None
    else
      None
  }

  /** The match of the pattern at the start of `s`, its alternatives tried in order. */
  function TokenAt(s: string): (p: Option<Piece>)
    ensures p.Some? ==> p.value.Escape? || p.value.Link?
    ensures p.Some? ==> 0 < |Source(p.value)| <= |s| && Source(p.value) == Letters(s)[..|Source(p.value)|]
  {
    if |s| >= 2 && s[0] == '\\' && s[1] in {'\\', '<'} then
      Some(Escape(s[1]))
    else if LinkAt(s, "!~").Some? then
      LinkAt(s, "!~")
    else if LinkAt(s, "!").Some? then
      LinkAt(s, "!")
    else
      LinkAt(s, "~")
  }

  /** What a piece was written as. */
  function Source(p: Piece): seq<Item> {
    match p
    case Plain(c) => [Letter(c)]
    case Escape(c) => [Letter('\\'), Letter(c)]
    case Link(sigil, name) => Letters("<" + sigil + name + ">")
    case Child(node) => [node]
  }

  // ---------- The meaning ----------

  /** `create_link`; `sysname` stands for `parse_sysname`. */
  function CreateLink(sysname: string -> Option<string>, t: string, username: string): (e: Element)
    ensures e.tail == ""
  {
    match sysname(username)
    case None =>
      Element("span", [("class", "invalid-markup"), ("title", "invalid username")], "<" + t + username + ">", [], "")
    case Some(name) =>
      var href := ("href", "/~" + name);
      if t == "~" then
        Element("a", [href], username, [], "")
      else
        var src := ("src", "/~" + name + "/avatar");
        if t == "!" then
          Element("a", [href, ("class", "user-icon")], "", [Element("img", [src, ("alt", username)], "", [], "")], "")
        else
          Element("a", [href, ("class", "user-icon")], "",
                  [Element("img", [src, ("alt", "")], "", [], " "), Element("span", [], username, [], "")], "")
  }

  const VERBATIM := {"a", "pre", "code"}

  /** The letters before the first element. */
  function Run(items: seq<Item>): (s: string)
    ensures |s| <= |items| && Letters(s) == items[..|s|]
    ensures |s| < |items| ==> items[|s|].Node?
  {
    if items == [] || items[0].Node? then "" else [items[0].c] + Run(items[1..])
  }

  function First(items: seq<Item>): (p: Piece)
    requires items != []
    ensures 0 < |Source(p)| && Source(p) <= items
    ensures p.Child? ==> items[0] == p.node
  {
    if items[0].Node? then Child(items[0])
    else
      match TokenAt(Run(items))
      case Some(p) => p
      case None => Plain(items[0].c)
  }

  /** Content with its links in place: outside `a`, `pre` and `code` elements every token becomes what it stands for. */
  function ExpandItems(sysname: string -> Option<string>, items: seq<Item>): seq<Item>
    decreases items
  {
    if items == [] then []
    else
      var p := First(items);
      (if p.Child? then [ExpandNode(sysname, items[0])] else Produce(sysname, p))
      + ExpandItems(sysname, items[|Source(p)|..])
  }

  function ExpandNode(sysname: string -> Option<string>, node: Item): Item
    requires node.Node?
    decreases node
  {
    if node.tag in VERBATIM then node else node.(content := ExpandItems(sysname, node.content))
  }

  function Produce(sysname: string -> Option<string>, p: Piece): seq<Item>
    requires !p.Child?
  {
    match p
    case Plain(c) => [Letter(c)]
    case Escape(c) => [Letter(c)]
    case Link(sigil, name) => [View(CreateLink(sysname, sigil, name))]
  }

  /** The pieces that `ExpandItems` replaces, in order. */
  function Read(items: seq<Item>): seq<Piece> {
    if items == [] then [] else [First(items)] + Read(items[|Source(First(items))|..])
  }

  function Sources(ps: seq<Piece>): seq<Item> {
    if ps == [] then [] else Source(ps[0]) + Sources(ps[1..])
  }

  function Expansions(sysname: string -> Option<string>, ps: seq<Piece>): seq<Item> {
    if ps == [] then []
    else
      (match ps[0]
       case Child(node) => if node.Node? then [ExpandNode(sysname, node)] else [node]
       case _ => Produce(sysname, ps[0]))
      + Expansions(sysname, ps[1..])
  }

  lemma ReadStep(items: seq<Item>, p: Piece, rest: seq<Item>)
    requires items != [] && p == First(items) && rest == items[|Source(p)|..]
    ensures Read(items) == [p] + Read(rest) && items == Source(p) + rest
  {
    hide First, Source;
    SourceIsStart(items);
  }

  lemma SourceIsStart(items: seq<Item>)
    requires items != []
    ensures Source(First(items)) <= items
  {
    hide TokenAt, Run;
  }

  lemma ExpansionStep(sysname: string -> Option<string>, p: Piece, ps: seq<Piece>)
    ensures Sources([p] + ps) == Source(p) + Sources(ps)
    ensures Expansions(sysname, [p] + ps) == Expansions(sysname, [p]) + Expansions(sysname, ps)
  {
    assert ([p] + ps)[1..] == ps && [p][1..] == [];
  }

  /** Nothing is dropped, repeated or moved: the pieces spell out the content, and the result is their expansions in
      turn. */
  lemma {:induction false} PieceByPiece(sysname: string -> Option<string>, items: seq<Item>)
    ensures Sources(Read(items)) == items
    ensures ExpandItems(sysname, items) == Expansions(sysname, Read(items))
    decreases |items|
  {
    if items != [] {
      var p := First(items);
      var rest := items[|Source(p)|..];
      PieceByPiece(sysname, rest);
      ReadStep(items, p, rest);
      ExpansionStep(sysname, p, Read(rest));
      assert Expansions(sysname, [p]) == if p.Child? then [ExpandNode(sysname, items[0])] else Produce(sysname, p);
    }
  }

  function EscapeLetter(c: char): string {
    if c in {'\\', '<'} then ['\\', c] else [c]
  }

  function EscapeText(s: string): string {
    if s == "" then "" else EscapeLetter(s[0]) + EscapeText(s[1..])
  }

  lemma RunOfLetters(s: string)
    ensures Run(Letters(s)) == s
  {
    var t := Run(Letters(s));
    assert |t| == |s|;
    forall i | 0 <= i < |s| ensures t[i] == s[i] {
      assert Letters(t)[i] == Letters(s)[i];
    }
  }

  lemma ExpandStep(sysname: string -> Option<string>, s: string, p: Piece, rest: string)
    requires s != "" && (TokenAt(s) == Some(p) || (TokenAt(s).None? && p == Plain(s[0])))
    requires Letters(s) == Source(p) + Letters(rest)
    ensures ExpandItems(sysname, Letters(s)) == Produce(sysname, p) + ExpandItems(sysname, Letters(rest))
  {
    RunOfLetters(s);
    assert First(Letters(s)) == p;
    assert Letters(s)[|Source(p)|..] == Letters(rest);
  }

  lemma TokenAtEscape(c: char, rest: string)
    requires c in {'\\', '<'}
    ensures TokenAt(['\\', c] + rest) == Some(Escape(c))
  {}

  lemma NoTokenAt(s: string)
    requires s != "" && s[0] !in {'\\', '<'}
    ensures TokenAt(s).None?
  {
    forall sigil: string ensures LinkAt(s, sigil).None? {
      assert ("<" + sigil)[0] == '<';
    }
  }

  lemma EscapedLetter(sysname: string -> Option<string>, c: char, rest: string)
    ensures ExpandItems(sysname, Letters(EscapeLetter(c) + rest)) == [Letter(c)] + ExpandItems(sysname, Letters(rest))
  {
    var t := EscapeLetter(c) + rest;
    if c in {'\\', '<'} {
      TokenAtEscape(c, rest);
      assert Letters(t) == Source(Escape(c)) + Letters(rest);
      ExpandStep(sysname, t, Escape(c), rest);
    } else {
      NoTokenAt(t);
      assert Letters(t) == Source(Plain(c)) + Letters(rest);
      ExpandStep(sysname, t, Plain(c), rest);
    }
  }

  /** Any text can be written so that it comes out as itself. */
  lemma {:induction false} EscapedTextIsLiteral(sysname: string -> Option<string>, s: string)
    ensures ExpandItems(sysname, Letters(EscapeText(s))) == Letters(s)
  {
    if s == "" {
      assert Letters(EscapeText(s)) == [];
    } else {
      EscapedTextIsLiteral(sysname, s[1..]);
      EscapedLetter(sysname, s[0], EscapeText(s[1..]));
      assert Letters(s) == [Letter(s[0])] + Letters(s[1..]);
    }
  }

  // ---------- Text runs ----------

  lemma {:induction false} RunThen(s: string, rest: seq<Item>)
    requires rest == [] || rest[0].Node?
    ensures Run(Letters(s) + rest) == s
  {
    var items := Letters(s) + rest;
    if s == "" {
      assert items == rest;
    } else {
      assert items[0] == Letter(s[0]) && items[1..] == Letters(s[1..]) + rest;
      RunThen(s[1..], rest);
    }
  }

  lemma SameFirst(s: string, rest: seq<Item>)
    requires s != "" && (rest == [] || rest[0].Node?)
    ensures First(Letters(s) + rest) == First(Letters(s))
    ensures !First(Letters(s)).Child? && |Source(First(Letters(s)))| <= |s|
  {
    RunThen(s, rest);
    RunOfLetters(s);
    assert (Letters(s) + rest)[0] == Letters(s)[0] == Letter(s[0]);
  }

  lemma ExpandFirst(sysname: string -> Option<string>, items: seq<Item>, p: Piece, rest: seq<Item>)
    requires items != [] && p == First(items) && !p.Child? && rest == items[|Source(p)|..]
    ensures ExpandItems(sysname, items) == Produce(sysname, p) + ExpandItems(sysname, rest)
  {}

  /** Whether a run ends its content or an element follows, it is read the same way. */
  lemma RunStep(sysname: string -> Option<string>, s: string, rest: seq<Item>) returns (p: Piece, n: nat)
    requires s != "" && (rest == [] || rest[0].Node?)
    ensures !p.Child? && 0 < n <= |s|
    ensures ExpandItems(sysname, Letters(s)) == Produce(sysname, p) + ExpandItems(sysname, Letters(s[n..]))
    ensures ExpandItems(sysname, Letters(s) + rest)
        == Produce(sysname, p) + ExpandItems(sysname, Letters(s[n..]) + rest)
  {
    SameFirst(s, rest);
    p := First(Letters(s));
    n := |Source(p)|;
    DropLetters(s, n, rest);
    ExpandFirst(sysname, Letters(s), p, Letters(s[n..]));
    ExpandFirst(sysname, Letters(s) + rest, p, Letters(s[n..]) + rest);
  }

  lemma DropLetters(s: string, n: nat, rest: seq<Item>)
    requires n <= |s|
    ensures Letters(s)[n..] == Letters(s[n..])
    ensures (Letters(s) + rest)[n..] == Letters(s[n..]) + rest
  {}

  /** Tokens cannot reach across an element: a text run expands by itself. */
  lemma {:induction false} ExpandRunThen(sysname: string -> Option<string>, s: string, rest: seq<Item>)
    requires rest == [] || rest[0].Node?
    ensures ExpandItems(sysname, Letters(s) + rest) == ExpandItems(sysname, Letters(s)) + ExpandItems(sysname, rest)
    decreases |s|
  {
    if s == "" {
      EmptyRunThen(sysname, s, rest);
    } else {
      var p, n := RunStep(sysname, s, rest);
      ExpandRunThen(sysname, s[n..], rest);
      ThreeInARow(Produce(sysname, p), ExpandItems(sysname, Letters(s[n..])), ExpandItems(sysname, rest));
    }
  }

  lemma EmptyRunThen(sysname: string -> Option<string>, s: string, rest: seq<Item>)
    requires s == ""
    ensures ExpandItems(sysname, Letters(s) + rest) == ExpandItems(sysname, Letters(s)) + ExpandItems(sysname, rest)
  {
    assert Letters(s) == [];
    assert Letters(s) + rest == rest;
    assert ExpandItems(sysname, []) == [];
  }

  // ---------- What is read as what ----------

  const SIGILS := {"~", "!", "!~"}

  predicate IsName(name: string) {
    name != "" && forall i :: 0 <= i < |name| ==> NameChar(name[i])
  }

  /** Of ASCII, exactly the letters, the digits and the underscore make names. */
  lemma AsciiNames(name: string)
    requires forall c <- name :: c < '\U{0080}'
    ensures IsName(name) <==>
              && name != ""
              && forall c <- name :: c == '_' || 'a' <= c <= 'z' || 'A' <= c <= 'Z' || '0' <= c <= '9'
  {
    assert forall i :: 0 <= i < |name| ==> name[i] in name;
  }

  function Token(sigil: string, name: string): string {
    "<" + sigil + name + ">"
  }

  lemma NameLengthIs(s: string, name: string)
    requires IsName(name) && name + ">" <= s
    ensures NameLength(s) == |name|
  {
    assert s[|name|] == '>' && !NameChar('>');
    assert forall i :: 0 <= i < |name| ==> s[i] == (name + ">")[i] == name[i];
  }

  lemma TokenParts(s: string, sigil: string, name: string)
    requires Token(sigil, name) <= s
    ensures 1 + |sigil| + |name| < |s| && s[..1 + |sigil|] == "<" + sigil
    ensures s[1 + |sigil|..1 + |sigil| + |name|] == name && s[1 + |sigil| + |name|] == '>'
    ensures name + ">" <= s[1 + |sigil|..]
  {
    var start, token := 1 + |sigil|, Token(sigil, name);
    var rest := s[|token|..];
    assert s == token + rest;
    assert s[..start] == token[..start] == "<" + sigil;
    assert s[start..] == token[start..] + rest;
    assert token[start..] == name + ">";
    assert s[start..start + |name|] == s[start..][..|name|] == name;
    assert s[start + |name|] == s[start..][|name|] == '>';
  }

  lemma LinkAtIf(s: string, sigil: string, name: string)
    requires IsName(name) && Token(sigil, name) <= s
    ensures LinkAt(s, sigil) == Some(Link(sigil, name))
  {
    TokenParts(s, sigil, name);
    NameLengthIs(s[1 + |sigil|..], name);
    hide Token, NameLength, IsName;
  }

  lemma LinkAtOnlyIf(s: string, sigil: string, name: string)
    requires LinkAt(s, sigil) == Some(Link(sigil, name))
    ensures IsName(name) && Token(sigil, name) <= s
  {
    var start := 1 + |sigil|;
    var n := NameLength(s[start..]);
    assert name == s[start..start + n] && n == |name|;
    assert s[..start + n + 1] == s[..start] + name + [s[start + n]] == Token(sigil, name);
  }

  lemma LinkAtExactly(s: string, sigil: string, name: string)
    ensures LinkAt(s, sigil) == Some(Link(sigil, name)) <==> IsName(name) && Token(sigil, name) <= s
  {
    hide *;
    if IsName(name) && Token(sigil, name) <= s {
      LinkAtIf(s, sigil, name);
    }
    if LinkAt(s, sigil) == Some(Link(sigil, name)) {
      LinkAtOnlyIf(s, sigil, name);
    }
  }

  lemma LinkAtIsLink(s: string, sigil: string)
    requires LinkAt(s, sigil).Some?
    ensures LinkAt(s, sigil).value.Link? && LinkAt(s, sigil).value.sigil == sigil
  {}

  lemma LinkAtStarts(s: string, sigil: string)
    requires LinkAt(s, sigil).Some?
    ensures |s| > 1 + |sigil| && s[0] == '<' && s[1..1 + |sigil|] == sigil && NameChar(s[1 + |sigil|])
  {
    var start := 1 + |sigil|;
    assert s[..start] == "<" + sigil;
    assert s[1..start] == (s[..start])[1..] == ("<" + sigil)[1..] == sigil;
    assert s[0] == (s[..start])[0] == '<';
  }

  /** Only one of the three can begin anywhere. */
  lemma SigilsExclude(s: string, sigil: string, other: string)
    requires sigil in SIGILS && other in SIGILS && LinkAt(s, sigil).Some? && LinkAt(s, other).Some?
    ensures sigil == other
  {
    LinkAtStarts(s, sigil);
    LinkAtStarts(s, other);
    assert s[1] == sigil[0] == other[0];
    assert |sigil| == 2 ==> s[2] == '~';
    assert |other| == 2 ==> s[2] == '~';
  }

  lemma TokenAtOf(s: string, sigil: string)
    requires sigil in SIGILS && LinkAt(s, sigil).Some?
    ensures TokenAt(s) == LinkAt(s, sigil)
  {
    hide LinkAt;
    LinkAtStarts(s, sigil);
    forall other <- SIGILS | LinkAt(s, other).Some? ensures other == sigil {
      SigilsExclude(s, sigil, other);
    }
  }

  /** A token begins exactly where an escape or a link of one of the three kinds is written. */
  lemma TokenAtExactly(s: string, c: char, sigil: string, name: string)
    ensures TokenAt(s) == Some(Escape(c)) <==> c in {'\\', '<'} && ['\\', c] <= s
    ensures TokenAt(s) == Some(Link(sigil, name)) <==> sigil in SIGILS && IsName(name) && Token(sigil, name) <= s
  {
    hide LinkAt, NameChar;
    if sigil in SIGILS {
      LinkAtExactly(s, sigil, name);
      if LinkAt(s, sigil).Some? {
        TokenAtOf(s, sigil);
      }
    }
    forall other <- SIGILS | LinkAt(s, other).Some?
      ensures LinkAt(s, other).value.Link? && LinkAt(s, other).value.sigil == other
    {
      LinkAtIsLink(s, other);
    }
  }

  lemma {:induction false} RunIsPrefix(s: string, items: seq<Item>)
    ensures Letters(s) <= items <==> s <= Run(items)
  {
    var run := Run(items);
    if s <= run {
      assert Letters(s) == Letters(run)[..|s|] == items[..|s|];
    }
    if Letters(s) <= items {
      assert forall i :: 0 <= i < |s| ==> items[i] == Letters(s)[i];
      assert |s| <= |run|;
      forall i | 0 <= i < |s| ensures run[i] == s[i] {
        assert Letters(run)[i] == items[i] == Letters(s)[i];
      }
    }
  }

  lemma FirstAtRun(items: seq<Item>)
    requires items != [] && items[0].Letter?
    ensures First(items) == if TokenAt(Run(items)).Some? then TokenAt(Run(items)).value else Plain(items[0].c)
  {}

  /** A link that is written becomes one node, whatever follows. */
  lemma LinkExpands(sysname: string -> Option<string>, sigil: string, name: string, rest: seq<Item>)
    requires sigil in SIGILS && IsName(name)
    ensures ExpandItems(sysname, Letters(Token(sigil, name)) + rest)
         == [View(CreateLink(sysname, sigil, name))] + ExpandItems(sysname, rest)
  {
    var token := Token(sigil, name);
    var items := Letters(token) + rest;
    assert items[0] == Letters(token)[0] == Letter('<');
    RunIsPrefix(token, items);
    TokenAtExactly(Run(items), 'x', sigil, name);
    FirstAtRun(items);
    hide First, Run, TokenAt, View, CreateLink;
    ExpandFirst(sysname, items, Link(sigil, name), rest);
  }

  /** An escaped character becomes that character. */
  lemma EscapeExpands(sysname: string -> Option<string>, c: char, rest: seq<Item>)
    requires c in {'\\', '<'}
    ensures ExpandItems(sysname, Letters(['\\', c]) + rest) == [Letter(c)] + ExpandItems(sysname, rest)
  {
    var items := Letters(['\\', c]) + rest;
    assert items[0] == Letter('\\');
    RunIsPrefix(['\\', c], items);
    TokenAtExactly(Run(items), c, "", "");
    FirstAtRun(items);
    hide First, Run, TokenAt;
    ExpandFirst(sysname, items, Escape(c), rest);
  }

  /** What is neither stays as it is, letter by letter. */
  lemma LetterExpands(sysname: string -> Option<string>, c: char, rest: seq<Item>)
    requires forall d | d in {'\\', '<'} :: !(Letters(['\\', d]) <= [Letter(c)] + rest)
    requires forall sigil <- SIGILS, name: string | IsName(name) ::
               !(Letters(Token(sigil, name)) <= [Letter(c)] + rest)
    ensures ExpandItems(sysname, [Letter(c)] + rest) == [Letter(c)] + ExpandItems(sysname, rest)
  {
    var items := [Letter(c)] + rest;
    var run := Run(items);
    if TokenAt(run).Some? {
      var p := TokenAt(run).value;
      match p
      case Escape(d) => TokenAtExactly(run, d, "", ""); RunIsPrefix(['\\', d], items);
      case Link(sigil, name) => TokenAtExactly(run, 'x', sigil, name); RunIsPrefix(Token(sigil, name), items);
    }
    FirstAtRun(items);
    hide First, Run, TokenAt;
    ExpandFirst(sysname, items, Plain(c), rest);
  }

  function Icon(sysname: string, alt: string): Item {
    Node("img", [("src", "/~" + sysname + "/avatar"), ("alt", alt)], [])
  }

  /** What the links show: the name, the icon, or both, on a link to the user; what was written, if that is no name. */
  lemma LinkShows(sysname: string -> Option<string>, sigil: string, username: string)
    requires sigil in SIGILS
    ensures var shown := View(CreateLink(sysname, sigil, username));
            match sysname(username)
            case None =>
              shown == Node("span", [("class", "invalid-markup"), ("title", "invalid username")],
                            Letters(Token(sigil, username)))
            case Some(name) =>
              && shown.tag == "a"
              && shown.attributes
                 == [("href", "/~" + name)] + (if sigil == "~" then [] else [("class", "user-icon")])
              && shown.content == if sigil == "~" then Letters(username)
                                  else if sigil == "!" then [Icon(name, username)]
                                  else [Icon(name, ""), Letter(' '), Node("span", [], Letters(username))]
  {
    if sysname(username).Some? {
      var name := sysname(username).value;
      if sigil == "!" {
        var img := Element("img", [("src", "/~" + name + "/avatar"), ("alt", username)], "", [], "");
        OneChild(img);
      } else if sigil == "!~" {
        var img := Element("img", [("src", "/~" + name + "/avatar"), ("alt", "")], "", [], " ");
        TwoChildren(img, Element("span", [], username, [], ""));
      }
    }
    ChildlessContent(CreateLink(sysname, sigil, username));
    hide Content, Flow;
  }

  lemma ChildlessContent(e: Element)
    ensures e.children == [] ==> Content(e) == Letters(e.text)
    ensures e.text == "" ==> Content(e) == Flow(e.children)
  {}

  lemma OneChild(img: Element)
    requires img.children == [] && img.text == img.tail == ""
    ensures Flow([img]) == [Node(img.tag, img.attributes, [])]
  {
    ChildlessContent(img);
    FlowOne(img);
    EmptyText();
    hide Content, Flow;
  }

  lemma TwoChildren(img: Element, span: Element)
    requires img.children == span.children == [] && img.text == span.tail == "" && img.tail == " "
    ensures Flow([img, span])
         == [Node(img.tag, img.attributes, []), Letter(' '), Node(span.tag, span.attributes, Letters(span.text))]
  {
    ChildlessContent(img);
    ChildlessContent(span);
    FlowOne(img);
    FlowOne(span);
    FlowConcat([img], [span]);
    assert [img] + [span] == [img, span];
    EmptyText();
    assert Letters(" ") == [Letter(' ')];
    hide Content, Flow, Letters;
  }

  /** Nothing changes inside of links and of verbatim text; other elements keep tag and attributes. */
  lemma NodeExpands(sysname: string -> Option<string>, node: Item)
    requires node.Node?
    ensures node.tag in {"a", "pre", "code"} ==> ExpandNode(sysname, node) == node
    ensures node.tag !in {"a", "pre", "code"} ==>
              ExpandNode(sysname, node) == Node(node.tag, node.attributes, ExpandItems(sysname, node.content))
  {}

  lemma PlainStep(sysname: string -> Option<string>, s: string)
    requires s != "" && TokenAt(s).None?
    ensures ExpandItems(sysname, Letters(s)) == [Letter(s[0])] + ExpandItems(sysname, Letters(s[1..]))
  {
    assert Letters(s) == Source(Plain(s[0])) + Letters(s[1..]);
    ExpandStep(sysname, s, Plain(s[0]), s[1..]);
  }

  lemma MatchStep(sysname: string -> Option<string>, s: string)
    requires TokenAt(s).Some?
    ensures var p := TokenAt(s).value;
            ExpandItems(sysname, Letters(s)) == Produce(sysname, p) + ExpandItems(sysname, Letters(s[|Source(p)|..]))
  {
    var p := TokenAt(s).value;
    var rest := s[|Source(p)|..];
    assert s != "" by { assert 0 < |Source(p)| <= |s|; }
    assert Letters(s) == Source(p) + Letters(rest) by {
      assert Letters(s)[|Source(p)|..] == Letters(rest);
    }
    ExpandStep(sysname, s, p, rest);
  }

  /** `USER_LINK.finditer`: the first match at or after `from`, and where it starts; the text before it has no token. */
  method NextMatch(ghost sysname: string -> Option<string>, text: string, from: nat)
    returns (at: nat, p: Option<Piece>)
    requires from <= |text|
    ensures from <= at <= |text|
    ensures p.None? ==>
      at == |text| && ExpandItems(sysname, Letters(text[from..])) == Letters(text[from..])
    ensures p.Some? ==>
      && (p.value.Escape? || p.value.Link?)
      && at < at + |Source(p.value)| <= |text|
      && ExpandItems(sysname, Letters(text[from..]))
         == Letters(text[from..at]) + Produce(sysname, p.value)
            + ExpandItems(sysname, Letters(text[at + |Source(p.value)|..]))
  {
    hide ExpandItems, TokenAt, Produce;
    at := from;
    NothingPassed(sysname, text, from);
    while at < |text|
      invariant from <= at <= |text|
      invariant ExpandItems(sysname, Letters(text[from..]))
                == Letters(text[from..at]) + ExpandItems(sysname, Letters(text[at..]))
    {
      p := TokenAt(text[at..]);
      if p.Some? {
        MatchPassed(sysname, text, from, at);
        return;
      }
      LetterPassed(sysname, text, from, at);
      at := at + 1;
    }
    p := None;
    AllPassed(sysname, text, from);
  }

  lemma AllPassed(sysname: string -> Option<string>, text: string, from: nat)
    requires from <= |text|
    ensures Letters(text[from..|text|]) + ExpandItems(sysname, Letters(text[|text|..])) == Letters(text[from..])
  {}

  lemma NothingPassed(sysname: string -> Option<string>, text: string, from: nat)
    requires from <= |text|
    ensures ExpandItems(sysname, Letters(text[from..]))
         == Letters(text[from..from]) + ExpandItems(sysname, Letters(text[from..]))
  {}

  lemma LetterPassed(sysname: string -> Option<string>, text: string, from: nat, at: nat)
    requires from <= at < |text| && TokenAt(text[at..]).None?
    ensures Letters(text[from..at]) + ExpandItems(sysname, Letters(text[at..]))
         == Letters(text[from..at + 1]) + ExpandItems(sysname, Letters(text[at + 1..]))
  {
    hide ExpandItems, TokenAt;
    PlainStep(sysname, text[at..]);
    assert text[at..][1..] == text[at + 1..];
    assert text[from..at + 1] == text[from..at] + [text[at]];
    LettersConcat(text[from..at], [text[at]]);
    assert Letters([text[at]]) == [Letter(text[at])];
    ThreeInARow(Letters(text[from..at]), [Letter(text[at])], ExpandItems(sysname, Letters(text[at + 1..])));
  }

  lemma MatchPassed(sysname: string -> Option<string>, text: string, from: nat, at: nat)
    requires from <= at < |text| && TokenAt(text[at..]).Some?
    ensures var p := TokenAt(text[at..]).value;
            && (p.Escape? || p.Link?)
            && at < at + |Source(p)| <= |text|
            && Letters(text[from..at]) + ExpandItems(sysname, Letters(text[at..]))
               == Letters(text[from..at]) + Produce(sysname, p)
                 + ExpandItems(sysname, Letters(text[at + |Source(p)|..]))
  {
    hide *;
    var p := TokenAt(text[at..]).value;
    MatchStep(sysname, text[at..]);
    assert text[at..][|Source(p)|..] == text[at + |Source(p)|..];
    ThreeInARow(Letters(text[from..at]), Produce(sysname, p), ExpandItems(sysname, Letters(text[at + |Source(p)|..])));
  }

  // ---------- The surgery ----------

  lemma EmptyText()
    ensures Letters("") == []
  {}

  /** The variables shared by `add_matches` and its two callbacks, and the text and child list they edit. */
  class Surgery {
    const sysname: string -> Option<string>
    const inTail: bool
    var text: string
    var children: seq<Element>
    /** The child that receives text next, or -1 for the text before the first child. */
    var previous: int
    var insertIndex: nat
    var previousText: string
    /** The children before those that are edited. */
    ghost const untouched: seq<Element>

    constructor AtText(sysname: string -> Option<string>, text: string, children: seq<Element>)
      ensures Valid() && !inTail && this.sysname == sysname && this.children == children
      ensures Point() == 0 && Written() == [] && previousText == ""
    {
      untouched := [];
      this.sysname, inTail := sysname, false;
      this.text, this.children := text, children;
      previous, insertIndex, previousText := -1, 0, "";
    }

    constructor AtTail(sysname: string -> Option<string>, children: seq<Element>, index: nat)
      requires index < |children|
      ensures Valid() && inTail && this.sysname == sysname && this.children == children && text == ""
      ensures Point() == index + 1 && Written() == Flow(children[..index]) + [View(children[index])]
      ensures previousText == "" && untouched == children[..index]
    {
      untouched := children[..index];
      this.sysname, inTail := sysname, true;
      text, this.children := "", children;
      previous, insertIndex, previousText := index, index, "";
    }

    /** Where the next child goes. */
    ghost function Point(): nat
      reads this
    {
      if inTail then insertIndex + 1 else insertIndex
    }

    ghost predicate Valid()
      reads this
    {
      && previous == Point() - 1 && Point() <= |children|
      && (inTail ==> text == "")
      && |untouched| <= (if previous < 0 then 0 else previous) && untouched == children[..|untouched|]
    }

    /** The content up to the point, counting the text that waits to be stored. */
    ghost function Written(): seq<Item>
      requires Valid()
      reads this
    {
      (if previous < 0 then [] else Letters(text) + Flow(children[..previous]) + [View(children[previous])])
      + Letters(previousText)
    }

    method Store()
      requires Valid()
      modifies `text, `children, `previousText
      ensures previousText == "" && Valid() && Letters(text) + Flow(children[..Point()]) == old(Written())
      ensures children[Point()..] == old(children[Point()..])
    {
      if previous < 0 {
        text := previousText;
        assert children[..0] == [];
      } else {
        var e := children[previous].(tail := previousText);
        children := children[previous := e];
        assert children[..previous + 1] == children[..previous] + [e];
        FlowConcat(children[..previous], [e]);
        FlowOne(e);
        assert View(e) == View(old(children[previous]));
        assert children[..previous] == old(children[..previous]);
      }
      previousText := "";
    }

    /** `got_text_link` and `got_tail_link`. */
    method GotLink(t: string, username: string)
      requires Valid()
      modifies this
      ensures Valid() && Written() == old(Written()) + [View(CreateLink(sysname, t, username))]
      ensures children[Point()..] == old(children[Point()..])
    {
      hide Letters, Flow, View, CreateLink;
      Store();
      ghost var at := Point();
      ghost var kept := children;
      var link := CreateLink(sysname, t, username);
      if inTail {
        insertIndex := insertIndex + 1;
        children := children[..insertIndex] + [link] + children[insertIndex..];
        previous := insertIndex;
      } else {
        children := children[..insertIndex] + [link] + children[insertIndex..];
        insertIndex := insertIndex + 1;
        previous := insertIndex - 1;
      }
      assert children[..at] == kept[..at] && children[at] == link && children[at + 1..] == kept[at..];
      assert previousText == "";
      EmptyText();
    }

    method Append(t: string)
      requires Valid()
      modifies `previousText
      ensures Valid() && Written() == old(Written()) + Letters(t)
      ensures t == "" ==> previousText == old(previousText)
    {
      LettersConcat(previousText, t);
      previousText := previousText + t;
    }

    /** What a match adds after the text before it. */
    method GotMatch(p: Piece)
      requires Valid() && (p.Escape? || p.Link?)
      modifies this
      ensures Valid() && Written() == old(Written()) + Produce(sysname, p)
      ensures children[Point()..] == old(children[Point()..])
    {
      if p.Escape? {
        Append([p.c]);
        assert Letters([p.c]) == [Letter(p.c)];
      } else {
        GotLink(p.sigil, p.name);
      }
    }

    method AddMatches(run: string) returns (found: bool)
      requires Valid() && previousText == ""
      modifies this
      ensures Valid() && children[Point()..] == old(children[Point()..])
      ensures found ==> Written() == old(Written()) + ExpandItems(sysname, Letters(run))
      ensures !found ==> ExpandItems(sysname, Letters(run)) == Letters(run)
      ensures !found ==> text == old(text) && children == old(children) && Point() == old(Point())
    {
      hide ExpandItems, Produce, Written, Letters, Source;
      var textStart := 0;
      ghost var goal := Written() + ExpandItems(sysname, Letters(run));
      assert run[0..] == run;
      found := false;
      while true
        invariant Valid() && children[Point()..] == old(children[Point()..])
        invariant textStart <= |run| && found == (textStart > 0)
        invariant Written() + ExpandItems(sysname, Letters(run[textStart..])) == goal
        invariant !found ==> text == old(text) && children == old(children) && Point() == old(Point())
        decreases |run| - textStart
      {
        var at, p := NextMatch(sysname, run, textStart);
        if p.None? {
          break;
        }
        ghost var before := Written();
        ghost var rest := ExpandItems(sysname, Letters(run[at + |Source(p.value)|..]));
        Append(run[textStart..at]);
        GotMatch(p.value);
        FourInARow(before, Letters(run[textStart..at]), Produce(sysname, p.value), rest);
        textStart := at + |Source(p.value)|;
        found := true;
      }
      if found {
        Append(run[textStart..]);
      }
    }
  }

  /** An element's own expansion, when its content may hold links. */
  function Expanded(sysname: string -> Option<string>, e: Element, canContain: bool): Item {
    if canContain then Node(e.tag, e.attributes, ExpandItems(sysname, Content(e))) else View(e)
  }

  /** Siblings expand one by one, each followed by its tail. */
  lemma ExpandSiblings(sysname: string -> Option<string>, es: seq<Element>, k: nat)
    requires k < |es|
    ensures ExpandItems(sysname, Flow(es[k..]))
         == [Expanded(sysname, es[k], es[k].tag !in VERBATIM)] + ExpandItems(sysname, Letters(es[k].tail))
            + ExpandItems(sysname, Flow(es[k + 1..]))
  {
    hide ExpandItems, First, Letters, View, ExpandNode;
    var e, after := es[k], Flow(es[k + 1..]);
    assert es[k..][0] == e && es[k..][1..] == es[k + 1..];
    assert Flow(es[k..]) == [View(e)] + Letters(e.tail) + after;
    ThreeInARow([View(e)], Letters(e.tail), after);
    ExpandChild(sysname, View(e), Letters(e.tail) + after);
    ExpandedElement(sysname, e);
    ExpandRunThen(sysname, e.tail, after);
    ThreeInARow(
      [Expanded(sysname, e, e.tag !in VERBATIM)], ExpandItems(sysname, Letters(e.tail)), ExpandItems(sysname, after));
  }

  lemma ExpandChild(sysname: string -> Option<string>, node: Item, rest: seq<Item>)
    requires node.Node?
    ensures ExpandItems(sysname, [node] + rest) == [ExpandNode(sysname, node)] + ExpandItems(sysname, rest)
  {
    hide ExpandNode;
    var items := [node] + rest;
    assert items[1..] == rest;
    assert First(items) == Child(node);
  }

  lemma ExpandedElement(sysname: string -> Option<string>, e: Element)
    ensures ExpandNode(sysname, View(e)) == Expanded(sysname, e, e.tag !in VERBATIM)
  {
    hide ExpandItems, Content;
  }

  lemma FlowSplit(es: seq<Element>, at: nat, end: nat)
    requires at <= end <= |es|
    ensures Flow(es[..end]) == Flow(es[..at]) + Flow(es[at..end])
  {
    assert es[..end] == es[..at] + es[at..end];
    FlowConcat(es[..at], es[at..end]);
  }

  lemma ExpandContent(sysname: string -> Option<string>, e: Element)
    ensures ExpandItems(sysname, Content(e))
        == ExpandItems(sysname, Letters(e.text)) + ExpandItems(sysname, Flow(e.children))
  {
    ExpandRunThen(sysname, e.text, Flow(e.children));
  }

  lemma NothingLeft(sysname: string -> Option<string>)
    ensures Letters("") == [] && ExpandItems(sysname, []) == []
  {}

  /** One more sibling done: `done` precedes it, `rest` is what the ones after it come to. */
  lemma SiblingDone(
    sysname: string -> Option<string>, es: seq<Element>, k: nat, children: seq<Element>, was: nat, at: nat)
    requires k < |es| && was <= at <= |children|
    requires Flow(children[was..at])
          == [Expanded(sysname, es[k], es[k].tag !in VERBATIM)] + ExpandItems(sysname, Letters(es[k].tail))
    ensures Flow(children[..at]) + ExpandItems(sysname, Flow(es[k + 1..]))
         == Flow(children[..was]) + ExpandItems(sysname, Flow(es[k..]))
  {
    hide ExpandItems, Letters, Expanded, Flow;
    ExpandSiblings(sysname, es, k);
    FlowSplit(children, was, at);
    ThreeInARow(Flow(children[..was]), Flow(children[was..at]), ExpandItems(sysname, Flow(es[k + 1..])));
  }

  /** The loop over `list(fragment)`. */
  method ExpandChildren(sysname: string -> Option<string>, e: Element) returns (children: seq<Element>)
    ensures Flow(children) == ExpandItems(sysname, Flow(e.children))
    decreases e, 0
  {
    hide ExpandItems, Letters, Expanded;
    children := e.children;
    var at := 0;
    assert Flow(children[..0]) == [] by { assert children[..0] == []; }
    assert e.children[0..] == e.children;
    for k := 0 to |e.children|
      invariant at <= |children| && children[at..] == e.children[k..]
      invariant Flow(children[..at]) + ExpandItems(sysname, Flow(e.children[k..]))
          == ExpandItems(sysname, Flow(e.children))
    {
      assert children[at] == children[at..][0] == e.children[k];
      ghost var was := at;
      children, at := AddUserLinks(sysname, children, at, children[at].tag !in VERBATIM);
      SiblingDone(sysname, e.children, k, children, was, at);
    }
    assert children[..at] == children;
    assert e.children[|e.children|..] == [];
    NothingLeft(sysname);
  }

  /** The part of `add_user_links` that is under `can_contain`: the children, then the element's own text. */
  method ExpandInside(sysname: string -> Option<string>, e: Element) returns (r: Element)
    ensures View(r) == Expanded(sysname, e, true) && r.tail == e.tail
    decreases e, 1
  {
    var children := ExpandChildren(sysname, e);
    var text;
    text, children := ExpandText(sysname, e.text, children);
    hide ExpandItems, Letters, Flow;
    ExpandContent(sysname, e);
    r := e.(text := text, children := children);
  }

  /** An element's own text, when it has children already. */
  method ExpandText(sysname: string -> Option<string>, text: string, children: seq<Element>)
    returns (text': string, children': seq<Element>)
    ensures Letters(text') + Flow(children') == ExpandItems(sysname, Letters(text)) + Flow(children)
  {
    hide ExpandItems, Letters, Flow;
    text', children' := text, children;
    if text != "" {
      var surgery := new Surgery.AtText(sysname, text, children);
      var found := surgery.AddMatches(text);
      if found {
        surgery.Store();
        text', children' := surgery.text, surgery.children;
        FlowSplit(children', surgery.Point(), |children'|);
        assert children'[..|children'|] == children';
        ThreeInARow(Letters(text'), Flow(children'[..surgery.Point()]), Flow(children));
      }
    } else {
      NothingLeft(sysname);
    }
  }

  /** `add_user_links(children[at], parent, canContain)`, for the parent's list of children: the element is rewritten
      in place and the links of its tail are inserted after it, up to `end`. */
  method AddUserLinks(sysname: string -> Option<string>, children: seq<Element>, at: nat, canContain: bool)
    returns (r: seq<Element>, end: nat)
    requires at < |children|
    ensures at < end <= |r| && r[..at] == children[..at] && r[end..] == children[at + 1..]
    ensures Flow(r[at..end])
         == [Expanded(sysname, children[at], canContain)] + ExpandItems(sysname, Letters(children[at].tail))
    decreases children[at], 2
  {
    var expanded := children;
    if canContain {
      var e := ExpandInside(sysname, children[at]);
      expanded := expanded[at := e];
    }
    hide ExpandItems, Letters, Flow;
    assert View(expanded[at]) == Expanded(sysname, children[at], canContain);
    r, end := ExpandTail(sysname, expanded, at);
  }

  /** The tail of a child: its links become siblings of the child, up to `end`. */
  method ExpandTail(sysname: string -> Option<string>, children: seq<Element>, at: nat)
    returns (r: seq<Element>, end: nat)
    requires at < |children|
    ensures at < end <= |r| && r[..at] == children[..at] && r[end..] == children[at + 1..]
    ensures Flow(r[at..end]) == [View(children[at])] + ExpandItems(sysname, Letters(children[at].tail))
  {
    hide ExpandItems, Letters, Flow;
    r, end := children, at + 1;
    assert r[at..at + 1] == [r[at]];
    FlowOne(r[at]);
    NothingLeft(sysname);
    if r[at].tail != "" {
      var surgery := new Surgery.AtTail(sysname, r, at);
      var found := surgery.AddMatches(r[at].tail);
      if found {
        surgery.Store();
        ghost var goal := [View(r[at])] + ExpandItems(sysname, Letters(r[at].tail));
        ThreeInARow(Flow(r[..at]), [View(r[at])], ExpandItems(sysname, Letters(r[at].tail)));
        r, end := surgery.children, surgery.insertIndex + 1;
        FlowSplit(r, at, end);
        ConcatCancels(Flow(r[..at]), Flow(r[at..end]), goal);
      }
    }
  }
}
