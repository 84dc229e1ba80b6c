/** Defanging HTML (libweasyl/defang.py, `defang`).

    `Defanged` says on content in document order what is left; `DefangIn` is the program's
    work on attributes, texts, tails and child lists.  How a URL is cleaned (`CleanHref.try_from`)
    and in which order Python lists a set are parameters. */
module Defang {
  import opened Options
  import opened Splitting
  import opened Markup

  // ---------- What is allowed ----------

  const ALLOWED_TAGS := {
    "section", "nav", "article", "aside",
    "h1", "h2", "h3", "h4", "h5", "h6",
    "header", "footer", "address",
    "p", "hr", "pre", "blockquote", "ol", "ul", "li",
    "dl", "dt", "dd", "figure", "figcaption", "div",
    "em", "strong", "small", "s", "cite", "q", "dfn",
    "abbr", "time", "code", "var", "samp", "kbd",
    "sub", "sup", "i", "b", "u", "mark",
    "ruby", "rt", "rp", "bdi", "bdo", "span", "br", "wbr",
    "del",
    "table", "caption",
    "tbody", "thead", "tfoot", "tr", "td", "th",
    "a", "img"}

  const ALLOWED_ATTRIBUTES := {"title", "alt", "colspan", "rowspan", "start", "type", "width", "height"}

  const ALLOWED_CLASSES := {"align-left", "align-center", "align-right", "align-justify", "user-icon", "invalid-markup"}

  const OWN_HOSTS := {None, Some("www.weasyl.com"), Some("weasyl.com")}

  datatype CleanHref = CleanHref(value: string, hostname: Option<string>)

  /** `CleanHref.try_from`, and the order in which the elements of a set of strings come. */
  datatype Context = Context(tryFrom: string -> Option<CleanHref>, listed: set<string> -> seq<string>)

  ghost predicate Lists(c: Context) {
    forall s: set<string> :: forall x :: x in c.listed(s) <==> x in s
  }

  predicate HexDigit(c: char) { '0' <= c <= '9' || 'a' <= c <= 'f' || 'A' <= c <= 'F' }

  predicate ColourDeclaration(t: string) {
    && |t| >= 6 && Lower(t[..6]) == "color:"
    && var color := Strip(t[6..]);
       && |color| in {4, 7} && color[0] == '#' && forall i :: 1 <= i < |color| ==> HexDigit(color[i])
  }

  function WithoutSemicolon(t: string): string {
    if t != "" && t[|t| - 1] == ';' then StripEnd(t[..|t| - 1]) else t
  }

  /** `ALLOWED_STYLE`: a declaration of a colour in hexadecimal, and nothing else. */
  predicate AllowedStyle(value: string) {
    ColourDeclaration(WithoutSemicolon(Strip(value)))
  }

  /** A colour declared in so many pieces. */
  predicate Declares(
    value: string, a: string, name: string, b: string, hex: string, c: string, semicolon: string, d: string)
  {
    && value == a + name + b + "#" + hex + c + semicolon + d
    && Blank(a) && Blank(b) && Blank(c) && Blank(d)
    && Lower(name) == "color:"
    && |hex| in {3, 6} && (forall i :: 0 <= i < |hex| ==> HexDigit(hex[i]))
    && (semicolon == ";" || (semicolon == "" && c == ""))
  }

  ghost predicate DeclaresColour(value: string) {
    exists a, name, b, hex, c, semicolon, d :: Declares(value, a, name, b, hex, c, semicolon, d)
  }

  lemma ColourIsBare(hex: string)
    requires |hex| in {3, 6} && forall i :: 0 <= i < |hex| ==> HexDigit(hex[i])
    ensures Bare("#" + hex)
  {
    assert HexDigit(hex[|hex| - 1]);
  }

  lemma NameIsBare(name: string)
    requires Lower(name) == "color:"
    ensures |name| == 6 && !IsSpace(name[0])
  {
    assert Lower(name)[0] == LowerChar(name[0]) == 'c';
  }

  lemma DeclarationIf(name: string, b: string, hex: string)
    requires Blank(b) && Lower(name) == "color:" && |hex| in {3, 6} && forall i :: 0 <= i < |hex| ==> HexDigit(hex[i])
    ensures var t := name + b + "#" + hex;
            ColourDeclaration(t) && Bare(t) && t[|t| - 1] == hex[|hex| - 1] != ';'
  {
    var t := name + b + "#" + hex;
    NameIsBare(name);
    ColourIsBare(hex);
    assert t[..6] == name;
    assert t[6..] == b + ("#" + hex) + "";
    StripIs(b, "#" + hex, "");
    hide IsSpace, Strip;
  }

  lemma NothingToStrip(t: string, core: string, d: string)
    requires t == core + d && Blank(d) && core != ""
    requires !IsSpace(t[|t| - 1]) && !IsSpace(core[|core| - 1])
    ensures t == core
  {
    StripEndIs(core, d);
    assert StripEnd(t) == t;
  }

  lemma ColourPieces(color: string) returns (hex: string)
    requires |color| in {4, 7} && color[0] == '#' && forall i :: 1 <= i < |color| ==> HexDigit(color[i])
    ensures color == "#" + hex && Bare(color)
    ensures |hex| in {3, 6} && forall i :: 0 <= i < |hex| ==> HexDigit(hex[i])
  {
    hex := color[1..];
    hide HexDigit, IsSpace;
    forall i | 0 <= i < |hex| ensures HexDigit(hex[i]) {
      assert hex[i] == color[i + 1];
    }
    ColourIsBare(hex);
    assert color == "#" + hex;
  }

  lemma DeclarationOnlyIf(t: string) returns (name: string, b: string, hex: string)
    requires ColourDeclaration(t) && !IsSpace(t[|t| - 1])
    ensures t == name + b + "#" + hex
    ensures Blank(b) && Lower(name) == "color:" && |hex| in {3, 6} && forall i :: 0 <= i < |hex| ==> HexDigit(hex[i])
  {
    name := t[..6];
    var rest := t[6..];
    var color, d := Strip(rest), "";
    b, d := StripPieces(rest);
    hex := ColourPieces(color);
    hide *;
    LastOfCore(t, name, b, color, d);
    NothingToStrip(t, name + b + color, d);
    ColourAfter(name + b, hex);
  }

  lemma ColourAfter(s: string, hex: string)
    ensures s + ("#" + hex) == s + "#" + hex
  {}

  lemma LastOfCore(t: string, name: string, b: string, color: string, d: string)
    requires t == name + (b + color + d) && Bare(color)
    ensures var core := name + b + color; t == core + d && core != "" && !IsSpace(core[|core| - 1])
  {
    hide IsSpace;
    var core := name + b + color;
    assert core[|core| - 1] == color[|color| - 1];
  }

  lemma AllowedStyleIf(
    value: string, a: string, name: string, b: string, hex: string, c: string, semicolon: string, d: string)
    requires Declares(value, a, name, b, hex, c, semicolon, d)
    ensures AllowedStyle(value)
  {
    var t := name + b + "#" + hex;
    var core := t + c + semicolon;
    DeclarationIf(name, b, hex);
    hide ColourDeclaration, Strip, StripEnd;
    StyleInPieces(a, name, b, hex, c, semicolon, d);
    assert Bare(core) by { assert core[0] == t[0]; }
    StripIs(a, core, d);
    if semicolon == ";" {
      assert core[..|core| - 1] == t + c;
      StripEndIs(t, c);
    } else {
      assert core == t;
    }
  }

  lemma SemicolonPieces(t: string) returns (c: string, semicolon: string)
    requires t != "" && !IsSpace(t[|t| - 1]) && WithoutSemicolon(t) != ""
    ensures t == WithoutSemicolon(t) + c + semicolon
    ensures Blank(c) && (semicolon == ";" || (semicolon == "" && c == ""))
    ensures !IsSpace(WithoutSemicolon(t)[|WithoutSemicolon(t)| - 1])
  {
    c, semicolon := "", "";
    if t[|t| - 1] == ';' {
      c := StripEndPieces(t[..|t| - 1]);
      semicolon := ";";
      assert t == t[..|t| - 1] + ";";
    }
    hide StripEnd, IsSpace;
  }

  lemma StyleInPieces(a: string, name: string, b: string, hex: string, c: string, semicolon: string, d: string)
    ensures a + (name + b + "#" + hex + c + semicolon) + d == a + name + b + "#" + hex + c + semicolon + d
  {
    var rest := b + "#" + hex + c + semicolon;
    assert name + b + "#" + hex + c + semicolon == name + rest;
    assert a + name + b + "#" + hex + c + semicolon + d == a + name + rest + d;
  }

  lemma AllowedStyleOnlyIf(value: string)
    requires AllowedStyle(value)
    ensures DeclaresColour(value)
  {
    var a, d := StripPieces(value);
    var t := Strip(value);
    assert t != "";
    var c, semicolon := SemicolonPieces(t);
    var name, b, hex := DeclarationOnlyIf(WithoutSemicolon(t));
    StyleInPieces(a, name, b, hex, c, semicolon, d);
    hide IsSpace, Strip, StripEnd, ColourDeclaration, WithoutSemicolon, Blank, HexDigit, Lower;
    assert Declares(value, a, name, b, hex, c, semicolon, d);
  }

  /** A style is allowed exactly if it declares a colour in three or six hexadecimal digits and nothing else. */
  lemma AllowedStyleExactly(value: string)
    ensures AllowedStyle(value) <==> DeclaresColour(value)
  {
    hide AllowedStyle, Declares;
    if AllowedStyle(value) {
      AllowedStyleOnlyIf(value);
    }
    if DeclaresColour(value) {
      var a, name, b, hex, c, semicolon, d :| Declares(value, a, name, b, hex, c, semicolon, d);
      AllowedStyleIf(value, a, name, b, hex, c, semicolon, d);
    }
  }

  type Attributes = seq<(string, string)>

  function Keys(attributes: Attributes): set<string> {
    set a <- attributes :: a.0
  }

  predicate Distinct(attributes: Attributes) {
    forall i, j :: 0 <= i < j < |attributes| ==> attributes[i].0 != attributes[j].0
  }

  /** What an attribute of a defanged element may be. */
  ghost predicate Permitted(c: Context, tag: string, a: (string, string)) {
    || a.0 in ALLOWED_ATTRIBUTES
    || (a.0 == "class" && forall w <- Words(a.1, IsSpace) :: w in ALLOWED_CLASSES)
    || (a.0 == "style" && DeclaresColour(a.1))
    || (a.0 == "href" && tag == "a" && exists url :: c.tryFrom(url).Some? && c.tryFrom(url).value.value == a.1)
    || (a.0 == "src" && tag == "img" && exists url :: c.tryFrom(url).Some? && c.tryFrom(url).value.value == a.1)
    || (a == NOFOLLOW && tag == "a")
  }

  const NOFOLLOW := ("rel", "nofollow ugc")

  // ---------- Attributes ----------

  function HrefOf(c: Context, tag: string, a: (string, string)): Option<CleanHref> {
    if (a.0 == "href" && tag == "a") || (a.0 == "src" && tag == "img") then c.tryFrom(a.1) else None
  }

  function Classes(c: Context, value: string): string {
    Join(c.listed((set w <- Words(value, IsSpace)) * ALLOWED_CLASSES), ' ')
  }

  /** What is left of one attribute. */
  function Left(c: Context, tag: string, a: (string, string)): Attributes {
    if HrefOf(c, tag, a).Some? then [(a.0, HrefOf(c, tag, a).value.value)]
    else if a.0 == "style" && AllowedStyle(a.1) then [a]
    else if a.0 == "class" then [("class", Classes(c, a.1))]
    else if a.0 in ALLOWED_ATTRIBUTES then [a]
    else []
  }

  function LeftOfAll(c: Context, tag: string, attributes: Attributes): Attributes {
    if attributes == [] then [] else Left(c, tag, attributes[0]) + LeftOfAll(c, tag, attributes[1..])
  }

  predicate LeadsOut(c: Context, tag: string, a: (string, string)) {
    a.0 == "href" && HrefOf(c, tag, a).Some? && HrefOf(c, tag, a).value.hostname !in OWN_HOSTS
  }

  /** The attributes of a defanged element: in their order what is left of each, and a mark on links that lead out. */
  function CleanAttributes(c: Context, tag: string, attributes: Attributes): Attributes {
    LeftOfAll(c, tag, attributes)
    + if exists a <- attributes :: LeadsOut(c, tag, a) then [NOFOLLOW] else []
  }

  lemma AllowedClassesAreWords()
    ensures forall w <- ALLOWED_CLASSES :: Word(w, IsSpace)
  {
    assert forall x: char :: x == '-' || 'a' <= x <= 'z' ==> !IsSpace(x);
    hide IsSpace;
  }

  lemma ClassesPermitted(c: Context, value: string)
    requires Lists(c)
    ensures forall w <- Words(Classes(c, value), IsSpace) :: w in ALLOWED_CLASSES
  {
    hide Words, Join, Word;
    var listed := c.listed((set w <- Words(value, IsSpace)) * ALLOWED_CLASSES);
    AllowedClassesAreWords();
    hide ALLOWED_CLASSES;
    assert IsSpace(' ');
    WordsOfJoined(listed, IsSpace);
  }

  lemma {:induction false} LeftPermitted(c: Context, tag: string, attributes: Attributes)
    requires Lists(c)
    ensures forall a <- LeftOfAll(c, tag, attributes) :: Permitted(c, tag, a)
  {
    if attributes != [] {
      var a := attributes[0];
      if a.0 == "class" {
        ClassesPermitted(c, a.1);
      }
      if a.0 == "style" {
        AllowedStyleExactly(a.1);
      }
      hide Words, AllowedStyle, DeclaresColour, Classes;
      LeftPermitted(c, tag, attributes[1..]);
      assert forall b <- Left(c, tag, a) :: Permitted(c, tag, b);
    }
  }

  /** Only permitted attributes are left, and every link that leads out is marked. */
  lemma AttributesPermitted(c: Context, tag: string, attributes: Attributes)
    requires Lists(c)
    ensures forall a <- CleanAttributes(c, tag, attributes) :: Permitted(c, tag, a)
  {
    LeftPermitted(c, tag, attributes);
    hide LeftOfAll, Words, DeclaresColour;
  }

  /** Every link that is left has a cleaned address, and is marked if that leads out. */
  lemma LinksOutAreMarked(c: Context, attributes: Attributes, link: (string, string))
    requires link in CleanAttributes(c, "a", attributes) && link.0 == "href"
    ensures exists url :: (c.tryFrom(url).Some? && c.tryFrom(url).value.value == link.1
                           && (c.tryFrom(url).value.hostname in OWN_HOSTS
                             || NOFOLLOW in CleanAttributes(c, "a", attributes)))
  {
    var a := LeftFrom(c, "a", attributes, link);
    hide LeftOfAll;
    if !LeadsOut(c, "a", a) {
      assert c.tryFrom(a.1).value.hostname in OWN_HOSTS;
    }
  }

  lemma {:induction false} LeftFrom(c: Context, tag: string, attributes: Attributes, b: (string, string))
      returns (a: (string, string))
    requires b in LeftOfAll(c, tag, attributes)
    ensures a in attributes && b in Left(c, tag, a)
  {
    hide Left;
    if b in Left(c, tag, attributes[0]) {
      a := attributes[0];
    } else {
      a := LeftFrom(c, tag, attributes[1..], b);
    }
  }

  /** An attribute that leaves something. */
  ghost predicate Stays(c: Context, tag: string, a: (string, string)) {
    || a.0 in ALLOWED_ATTRIBUTES || a.0 == "class"
    || (a.0 == "style" && DeclaresColour(a.1))
    || (((a.0 == "href" && tag == "a") || (a.0 == "src" && tag == "img")) && c.tryFrom(a.1).Some?)
  }

  /** What it leaves: the cleaned address, the classes that are allowed, or itself. */
  ghost predicate Becomes(c: Context, a: (string, string), b: (string, string)) {
    && b.0 == a.0
    && if a.0 in {"href", "src"} then c.tryFrom(a.1).Some? && b.1 == c.tryFrom(a.1).value.value
       else if a.0 == "class" then
         forall w :: w in Words(b.1, IsSpace) <==> w in Words(a.1, IsSpace) && w in ALLOWED_CLASSES
       else b == a
  }

  ghost predicate Leads(c: Context, tag: string, a: (string, string)) {
    && tag == "a" && a.0 == "href" && c.tryFrom(a.1).Some?
    && c.tryFrom(a.1).value.hostname !in {None, Some("www.weasyl.com"), Some("weasyl.com")}
  }

  lemma ClassesAreKept(c: Context, value: string)
    requires Lists(c)
    ensures Becomes(c, ("class", value), ("class", Classes(c, value)))
  {
    hide Words, Join, Word;
    AllowedClassesAreWords();
    hide ALLOWED_CLASSES;
    assert IsSpace(' ');
    WordsOfJoined(c.listed((set w <- Words(value, IsSpace)) * ALLOWED_CLASSES), IsSpace);
  }

  lemma AddressesAreOthers()
    ensures "href" !in ALLOWED_ATTRIBUTES && "src" !in ALLOWED_ATTRIBUTES
  {}

  lemma LeftIs(c: Context, tag: string, a: (string, string))
    requires Lists(c)
    ensures if Stays(c, tag, a) then |Left(c, tag, a)| == 1 && Becomes(c, a, Left(c, tag, a)[0])
            else Left(c, tag, a) == []
  {
    hide AllowedStyle, DeclaresColour, Classes, Words;
    AllowedStyleExactly(a.1);
    AddressesAreOthers();
    hide ALLOWED_ATTRIBUTES, ALLOWED_CLASSES;
    if a.0 == "class" {
      ClassesAreKept(c, a.1);
      assert a == ("class", a.1);
      hide Becomes;
    } else {
      hide Lists;
    }
  }

  /** Every attribute that may stay is still there, as what it becomes. */
  lemma {:induction false} AttributeStays(c: Context, tag: string, attributes: Attributes, a: (string, string))
      returns (b: (string, string))
    requires Lists(c) && a in attributes && Stays(c, tag, a)
    ensures Becomes(c, a, b) && b in LeftOfAll(c, tag, attributes) && b in CleanAttributes(c, tag, attributes)
  {
    hide Stays, Becomes, Left, LeadsOut, Lists;
    if a == attributes[0] {
      LeftIs(c, tag, a);
      b := Left(c, tag, a)[0];
    } else {
      b := AttributeStays(c, tag, attributes[1..], a);
    }
  }

  /** Nothing else is: apart from the mark on links, what is there comes from an attribute that may stay. */
  lemma AttributeComesFrom(c: Context, tag: string, attributes: Attributes, b: (string, string))
      returns (a: (string, string))
    requires Lists(c) && b in CleanAttributes(c, tag, attributes) && b != NOFOLLOW
    ensures a in attributes && Stays(c, tag, a) && Becomes(c, a, b)
  {
    hide Stays, Becomes, Left, LeadsOut, Lists, LeftOfAll;
    a := LeftFrom(c, tag, attributes, b);
    LeftIs(c, tag, a);
  }

  lemma AtMostOne(a: Attributes, k: string)
    requires |a| <= 1 && Keys(a) <= {k}
    ensures Distinct(a)
  {}

  lemma DistinctConcat(a: Attributes, b: Attributes)
    requires Distinct(a) && Distinct(b) && Keys(a) !! Keys(b)
    ensures Distinct(a + b)
  {
    forall i, j | 0 <= i < j < |a + b| ensures (a + b)[i].0 != (a + b)[j].0 {
      if i < |a| <= j {
        assert a[i].0 in Keys(a) && b[j - |a|].0 in Keys(b);
      }
    }
  }

  lemma KeysOfLeft(c: Context, tag: string, a: (string, string))
    ensures |Left(c, tag, a)| <= 1 && Keys(Left(c, tag, a)) <= {a.0} - {"rel"}
  {}

  lemma {:induction false} KeysLeft(c: Context, tag: string, attributes: Attributes)
    requires Distinct(attributes)
    ensures Distinct(LeftOfAll(c, tag, attributes))
    ensures Keys(LeftOfAll(c, tag, attributes)) <= Keys(attributes) - {"rel"}
  {
    if attributes != [] {
      var a, rest := attributes[0], attributes[1..];
      assert a.0 !in Keys(rest);
      KeysLeft(c, tag, rest);
      KeysOfLeft(c, tag, a);
      AtMostOne(Left(c, tag, a), a.0);
      KeysConcat(Left(c, tag, a), LeftOfAll(c, tag, rest));
      OneKey(a);
      KeysConcat([a], rest);
      assert attributes == [a] + rest;
      hide Left, Keys, Distinct;
      DistinctConcat(Left(c, tag, a), LeftOfAll(c, tag, rest));
    }
  }

  /** A link is marked exactly if it leads out, nothing else has a `rel`, and no name is there twice. */
  lemma LinksMarkedExactly(c: Context, tag: string, attributes: Attributes)
    requires Distinct(attributes)
    ensures var r := CleanAttributes(c, tag, attributes);
            && Distinct(r)
            && (NOFOLLOW in r <==> exists a <- attributes :: Leads(c, tag, a))
            && forall b <- r | b.0 == "rel" :: b == NOFOLLOW
  {
    hide Left, LeftOfAll;
    KeysLeft(c, tag, attributes);
    var left := LeftOfAll(c, tag, attributes);
    OneKey(NOFOLLOW);
    NoKeys([]);
    assert forall b <- left :: b.0 in Keys(left);
    assert Distinct([NOFOLLOW]) && "rel" !in Keys(left);
    DistinctConcat(left, [NOFOLLOW]);
    assert left + [] == left;
    hide Distinct, Keys;
    assert forall a <- attributes :: LeadsOut(c, tag, a) <==> Leads(c, tag, a);
  }

  // ---------- Content ----------

  /** What is left of content: an element that is not allowed gives way to what is left of its content. */
  function Defanged(c: Context, items: seq<Item>): seq<Item>
    decreases items
  {
    if items == [] then []
    else
      (match items[0]
       case Letter(_) => [items[0]]
       case Node(tag, attributes, content) =>
         if tag in ALLOWED_TAGS then [Node(tag, CleanAttributes(c, tag, attributes), Defanged(c, content))]
         else Defanged(c, content))
      + Defanged(c, items[1..])
  }

  /** Every element in the content, at any depth, is allowed and has permitted attributes only. */
  ghost predicate Safe(c: Context, items: seq<Item>)
    decreases items
  {
    forall i :: 0 <= i < |items| && items[i].Node? ==>
      && items[i].tag in ALLOWED_TAGS
      && (forall a <- items[i].attributes :: Permitted(c, items[i].tag, a))
      && Safe(c, items[i].content)
  }

  datatype Mark = Text(c: char) | Open(tag: string, attributes: Attributes) | Close(tag: string)

  /** The text and the starts and ends of elements with certain tags, in document order. */
  function Marks(items: seq<Item>, tags: set<string>): seq<Mark>
    decreases items
  {
    if items == [] then []
    else
      (match items[0]
       case Letter(x) => [Text(x)]
       case Node(tag, attributes, content) =>
         if tag in tags then [Open(tag, attributes)] + Marks(content, tags) + [Close(tag)] else Marks(content, tags))
      + Marks(items[1..], tags)
  }

  /** Only the attributes are cleaned. */
  function Cleaned(c: Context, marks: seq<Mark>): (r: seq<Mark>)
    ensures |r| == |marks|
  {
    seq(|marks|, i requires 0 <= i < |marks| =>
      if marks[i].Open? then Open(marks[i].tag, CleanAttributes(c, marks[i].tag, marks[i].attributes)) else marks[i])
  }

  lemma CleanedConcat(c: Context, a: seq<Mark>, b: seq<Mark>)
    ensures Cleaned(c, a + b) == Cleaned(c, a) + Cleaned(c, b)
  {
    hide CleanAttributes;
  }

  lemma CleanedOne(c: Context, m: Mark)
    ensures Cleaned(c, [m]) == [if m.Open? then Open(m.tag, CleanAttributes(c, m.tag, m.attributes)) else m]
  {
    hide CleanAttributes;
  }

  lemma SafeConcat(c: Context, a: seq<Item>, b: seq<Item>)
    requires Safe(c, a) && Safe(c, b)
    ensures Safe(c, a + b)
  {}

  /** Nothing is left that is not allowed. */
  lemma {:induction false} DefangedIsSafe(c: Context, items: seq<Item>)
    requires Lists(c)
    ensures Safe(c, Defanged(c, items))
    decreases items
  {
    if items != [] {
      hide CleanAttributes, Permitted;
      DefangedIsSafe(c, items[1..]);
      if items[0].Node? {
        DefangedIsSafe(c, items[0].content);
        AttributesPermitted(c, items[0].tag, items[0].attributes);
        if items[0].tag !in ALLOWED_TAGS {
          SafeConcat(c, Defanged(c, items[0].content), Defanged(c, items[1..]));
        }
      }
    }
  }

  lemma {:induction false} MarksConcat(a: seq<Item>, b: seq<Item>, tags: set<string>)
    ensures Marks(a + b, tags) == Marks(a, tags) + Marks(b, tags)
  {
    if a == [] {
      assert a + b == b;
    } else {
      assert (a + b)[1..] == a[1..] + b;
      MarksConcat(a[1..], b, tags);
    }
  }

  lemma MarksOne(item: Item, tags: set<string>)
    ensures Marks([item], tags) ==
      if item.Letter? then [Text(item.c)]
      else if item.tag in tags then [Open(item.tag, item.attributes)] + Marks(item.content, tags) + [Close(item.tag)]
      else Marks(item.content, tags)
  {
    assert [item][1..] == [];
  }

  /** What is left of one item. */
  lemma OneItemKeepsMarks(c: Context, item: Item, tags: set<string>, r: seq<Item>)
    requires ALLOWED_TAGS <= tags
    requires item.Node? ==>
      && Marks(Defanged(c, item.content), tags) == Cleaned(c, Marks(item.content, ALLOWED_TAGS))
      && r == if item.tag in ALLOWED_TAGS then
                [Node(item.tag, CleanAttributes(c, item.tag, item.attributes), Defanged(c, item.content))]
              else Defanged(c, item.content)
    requires item.Letter? ==> r == [item]
    ensures Marks(r, tags) == Cleaned(c, Marks([item], ALLOWED_TAGS))
  {
    hide *;
    MarksOne(item, ALLOWED_TAGS);
    if item.Letter? {
      MarksOne(item, tags);
      CleanedOne(c, Text(item.c));
    } else if item.tag in ALLOWED_TAGS {
      MarksOne(r[0], tags);
      var open, inside, end := Open(item.tag, item.attributes), Marks(item.content, ALLOWED_TAGS), Close(item.tag);
      CleanedConcat(c, [open] + inside, [end]);
      CleanedConcat(c, [open], inside);
      CleanedOne(c, open);
      CleanedOne(c, end);
    }
  }

  /** The text, and the order and nesting of the elements that are kept, stay the same; their attributes are
      cleaned. */
  lemma {:induction false} DefangedKeepsMarks(c: Context, items: seq<Item>, tags: set<string>)
    requires ALLOWED_TAGS <= tags
    ensures Marks(Defanged(c, items), tags) == Cleaned(c, Marks(items, ALLOWED_TAGS))
    decreases items
  {
    if items != [] {
      DefangedKeepsMarks(c, items[1..], tags);
      var item, rest := items[0], items[1..];
      if item.Node? {
        DefangedKeepsMarks(c, item.content, tags);
      }
      var r := DefangedFirst(c, items);
      hide CleanAttributes, Defanged, Cleaned, Marks, ALLOWED_TAGS;
      OneItemKeepsMarks(c, item, tags, r);
      MarksConcat(r, Defanged(c, rest), tags);
      MarksConcat([item], rest, ALLOWED_TAGS);
      assert items == [item] + rest;
      CleanedConcat(c, Marks([item], ALLOWED_TAGS), Marks(rest, ALLOWED_TAGS));
    }
  }

  lemma DefangedFirst(c: Context, items: seq<Item>) returns (r: seq<Item>)
    requires items != []
    ensures Defanged(c, items) == r + Defanged(c, items[1..])
    ensures items[0].Letter? ==> r == [items[0]]
    ensures items[0].Node? ==>
      r == if items[0].tag in ALLOWED_TAGS then
             [Node(items[0].tag, CleanAttributes(c, items[0].tag, items[0].attributes), Defanged(c, items[0].content))]
           else Defanged(c, items[0].content)
  {
    hide CleanAttributes, ALLOWED_TAGS;
    match items[0]
    case Letter(_) => r := [items[0]];
    case Node(tag, attributes, content) =>
      r := if tag in ALLOWED_TAGS then [Node(tag, CleanAttributes(c, tag, attributes), Defanged(c, content))]
           else Defanged(c, content);
  }

  // ---------- The program: attributes ----------

  /** `set` of an lxml element. */
  function Put(attributes: Attributes, key: string, value: string): Attributes {
    if attributes == [] then [(key, value)]
    else if attributes[0].0 == key then [(key, value)] + attributes[1..]
    else [attributes[0]] + Put(attributes[1..], key, value)
  }

  /** `del` of an attribute. */
  function Remove(attributes: Attributes, key: string): Attributes {
    if attributes == [] then []
    else if attributes[0].0 == key then attributes[1..]
    else [attributes[0]] + Remove(attributes[1..], key)
  }

  lemma {:induction false} AtKey(before: Attributes, a: (string, string), after: Attributes, value: string)
    requires a.0 !in Keys(before)
    ensures Put(before + [a] + after, a.0, value) == before + [(a.0, value)] + after
    ensures Remove(before + [a] + after, a.0) == before + after
  {
    if before == [] {
      assert [] + [a] + after == [a] + after;
    } else {
      assert before[0].0 in Keys(before);
      assert before + [a] + after == [before[0]] + (before[1..] + [a] + after);
      AtKey(before[1..], a, after, value);
    }
  }

  lemma {:induction false} NewKey(attributes: Attributes, key: string, value: string)
    requires key !in Keys(attributes)
    ensures Put(attributes, key, value) == attributes + [(key, value)]
  {
    if attributes != [] {
      assert attributes[0].0 in Keys(attributes);
      NewKey(attributes[1..], key, value);
    }
  }

  function PutAll(attributes: Attributes, more: Attributes): Attributes
    decreases |more|
  {
    if more == [] then attributes else PutAll(Put(attributes, more[0].0, more[0].1), more[1..])
  }

  lemma {:induction false} PutBehind(a: (string, string), attributes: Attributes, more: Attributes)
    requires a.0 !in Keys(more)
    ensures PutAll([a] + attributes, more) == [a] + PutAll(attributes, more)
    decreases |more|
  {
    if more != [] {
      assert more[0].0 in Keys(more);
      PutBehind(a, Put(attributes, more[0].0, more[0].1), more[1..]);
    }
  }

  /** What the first loop leaves of an attribute, and what it puts aside for the second. */
  function Kept(c: Context, tag: string, a: (string, string)): Attributes {
    if HrefOf(c, tag, a).Some? then [a] else Left(c, tag, a)
  }

  function KeptOfAll(c: Context, tag: string, attributes: Attributes): Attributes {
    if attributes == [] then [] else Kept(c, tag, attributes[0]) + KeptOfAll(c, tag, attributes[1..])
  }

  function Aside(c: Context, tag: string, a: (string, string)): Attributes {
    if HrefOf(c, tag, a).Some? then
      [(a.0, HrefOf(c, tag, a).value.value)] + if LeadsOut(c, tag, a) then [NOFOLLOW] else []
    else []
  }

  function AsideOfAll(c: Context, tag: string, attributes: Attributes): Attributes {
    if attributes == [] then [] else Aside(c, tag, attributes[0]) + AsideOfAll(c, tag, attributes[1..])
  }

  lemma KeysConcat(a: Attributes, b: Attributes)
    ensures Keys(a + b) == Keys(a) + Keys(b)
  {}

  lemma KeysOfOne(c: Context, tag: string, a: (string, string))
    ensures Keys(Kept(c, tag, a)) <= {a.0} - {"rel"}
    ensures Keys(Aside(c, tag, a)) <= {a.0, "rel"}
  {}

  lemma {:induction false} KeysKept(c: Context, tag: string, attributes: Attributes)
    ensures Keys(KeptOfAll(c, tag, attributes)) <= Keys(attributes) - {"rel"}
    ensures Keys(AsideOfAll(c, tag, attributes)) <= Keys(attributes) + {"rel"}
  {
    if attributes != [] {
      var a, rest := attributes[0], attributes[1..];
      KeysKept(c, tag, rest);
      KeysOfOne(c, tag, a);
      KeysConcat(Kept(c, tag, a), KeptOfAll(c, tag, rest));
      KeysConcat(Aside(c, tag, a), AsideOfAll(c, tag, rest));
      KeysConcat([a], rest);
      assert attributes == [a] + rest;
      hide Kept, Aside;
    }
  }

  lemma {:induction false} NoOtherLink(c: Context, tag: string, a: (string, string), rest: Attributes)
    requires HrefOf(c, tag, a).Some? && a.0 !in Keys(rest)
    ensures AsideOfAll(c, tag, rest) == [] && KeptOfAll(c, tag, rest) == LeftOfAll(c, tag, rest)
    ensures forall b <- rest :: !LeadsOut(c, tag, b)
  {
    if rest != [] {
      assert rest[0].0 in Keys(rest);
      NoOtherLink(c, tag, a, rest[1..]);
    }
  }

  lemma PutOne(attributes: Attributes, a: (string, string))
    ensures PutAll(attributes, [a]) == Put(attributes, a.0, a.1)
  {}

  lemma PutTwo(attributes: Attributes, a: (string, string), b: (string, string))
    ensures PutAll(attributes, [a, b]) == Put(Put(attributes, a.0, a.1), b.0, b.1)
  {
    assert [a, b][1..] == [b];
    PutOne(Put(attributes, a.0, a.1), b);
  }

  lemma LinkFirst(c: Context, tag: string, a: (string, string), kept: Attributes)
    requires HrefOf(c, tag, a).Some? && a.0 !in Keys(kept) && "rel" !in Keys(kept)
    ensures PutAll([a] + kept, Aside(c, tag, a))
         == Left(c, tag, a) + kept + if LeadsOut(c, tag, a) then [NOFOLLOW] else []
  {
    hide Put, PutAll;
    var b := (a.0, HrefOf(c, tag, a).value.value);
    var linked := [b] + kept;
    assert Put([a] + kept, b.0, b.1) == linked by {
      assert [] + [a] + kept == [a] + kept && [] + [b] + kept == [b] + kept;
      AtKey([], a, kept, b.1);
    }
    assert "rel" !in Keys(linked) by { KeysConcat([b], kept); }
    NewKey(linked, "rel", NOFOLLOW.1);
    PutOne([a] + kept, b);
    PutTwo([a] + kept, b, NOFOLLOW);
    assert Left(c, tag, a) == [b];
    assert Aside(c, tag, a) == if LeadsOut(c, tag, a) then [b, NOFOLLOW] else [b];
    assert linked + [] == linked;
  }

  lemma LinkLoops(c: Context, tag: string, a: (string, string), rest: Attributes)
    requires Distinct([a] + rest) && HrefOf(c, tag, a).Some?
    ensures PutAll([a] + KeptOfAll(c, tag, rest), Aside(c, tag, a) + AsideOfAll(c, tag, rest))
         == CleanAttributes(c, tag, [a] + rest)
  {
    KeyIsFirst(a, rest);
    KeysKept(c, tag, rest);
    LinkFirst(c, tag, a, KeptOfAll(c, tag, rest));
    NoOtherLink(c, tag, a, rest);
    hide Left, KeptOfAll, HrefOf, LeadsOut;
    assert Aside(c, tag, a) + [] == Aside(c, tag, a);
    assert ([a] + rest)[1..] == rest;
    assert forall b <- [a] + rest :: LeadsOut(c, tag, b) ==> b == a;
    assert a in [a] + rest;
  }

  lemma LeftOfOther(c: Context, tag: string, a: (string, string))
    requires HrefOf(c, tag, a).None?
    ensures |Left(c, tag, a)| <= 1 && Keys(Left(c, tag, a)) <= {a.0} - {"rel"} && !LeadsOut(c, tag, a)
  {}

  lemma CleanLater(c: Context, tag: string, a: (string, string), rest: Attributes)
    requires !LeadsOut(c, tag, a)
    ensures CleanAttributes(c, tag, [a] + rest) == Left(c, tag, a) + CleanAttributes(c, tag, rest)
  {}

  lemma LeftBehind(left: Attributes, kept: Attributes, aside: Attributes)
    requires |left| <= 1 && Keys(left) !! Keys(aside)
    ensures PutAll(left + kept, aside) == left + PutAll(kept, aside)
  {
    hide PutAll;
    if left != [] {
      FirstKey(left);
      PutBehind(left[0], kept, aside);
      assert left == [left[0]];
    } else {
      assert left + kept == kept && left + PutAll(kept, aside) == PutAll(kept, aside);
    }
  }

  lemma OtherLoops(c: Context, tag: string, a: (string, string), rest: Attributes)
    requires Distinct([a] + rest) && HrefOf(c, tag, a).None?
    requires PutAll(KeptOfAll(c, tag, rest), AsideOfAll(c, tag, rest)) == CleanAttributes(c, tag, rest)
    ensures PutAll(Left(c, tag, a) + KeptOfAll(c, tag, rest), AsideOfAll(c, tag, rest))
        == CleanAttributes(c, tag, [a] + rest)
  {
    hide *;
    var kept, aside, left := KeptOfAll(c, tag, rest), AsideOfAll(c, tag, rest), Left(c, tag, a);
    KeyIsFirst(a, rest);
    KeysKept(c, tag, rest);
    LeftOfOther(c, tag, a);
    CleanLater(c, tag, a, rest);
    LeftBehind(left, kept, aside);
  }

  lemma FirstKey(attributes: Attributes)
    requires attributes != []
    ensures attributes[0].0 in Keys(attributes)
  {}

  lemma KeyIsFirst(a: (string, string), rest: Attributes)
    requires Distinct([a] + rest)
    ensures Distinct(rest) && a.0 !in Keys(rest)
  {
    assert ([a] + rest)[0] == a;
    forall i | 0 <= i < |rest| ensures rest[i].0 != a.0 {
      assert ([a] + rest)[i + 1] == rest[i];
    }
    forall i, j | 0 <= i < j < |rest| ensures rest[i].0 != rest[j].0 {
      assert ([a] + rest)[i + 1] == rest[i] && ([a] + rest)[j + 1] == rest[j];
    }
  }

  /** Setting what was put aside completes the attributes. */
  lemma {:induction false} TwoLoops(c: Context, tag: string, attributes: Attributes)
    requires Distinct(attributes)
    ensures PutAll(KeptOfAll(c, tag, attributes), AsideOfAll(c, tag, attributes)) == CleanAttributes(c, tag, attributes)
  {
    if attributes != [] {
      var a, rest := attributes[0], attributes[1..];
      assert attributes == [a] + rest;
      KeyIsFirst(a, rest);
      hide CleanAttributes, PutAll, Left, HrefOf, LeadsOut, Distinct;
      if HrefOf(c, tag, a).Some? {
        LinkLoops(c, tag, a, rest);
      } else {
        TwoLoops(c, tag, rest);
        OtherLoops(c, tag, a, rest);
        assert [] + AsideOfAll(c, tag, rest) == AsideOfAll(c, tag, rest);
      }
    }
  }

  /** One turn of the loop over the attributes: what happens to `a`, and what is put aside. */
  method CleanAttribute(c: Context, tag: string, attributes: Attributes, a: (string, string),
                        ghost before: Attributes, ghost after: Attributes)
    returns (r: Attributes, extend: Attributes)
    requires attributes == before + [a] + after && a.0 !in Keys(before)
    ensures r == before + Kept(c, tag, a) + after && extend == Aside(c, tag, a)
  {
    r, extend := attributes, [];
    var (key, value) := a;
    AtKey(before, a, after, Classes(c, value));
    hide AllowedStyle, Classes, Put, Remove;
    if key == "href" && tag == "a" && c.tryFrom(value).Some? {
      extend := [(key, c.tryFrom(value).value.value)];
      if c.tryFrom(value).value.hostname !in OWN_HOSTS {
        extend := extend + [NOFOLLOW];
      }
    } else if key == "src" && tag == "img" && c.tryFrom(value).Some? {
      extend := [(key, c.tryFrom(value).value.value)];
    } else if key == "style" && AllowedStyle(value) {
    } else if key == "class" {
      r := Put(r, "class", Classes(c, value));
    } else if key !in ALLOWED_ATTRIBUTES {
      r := Remove(r, key);
    }
  }

  lemma SiftNext(c: Context, tag: string, attributes: Attributes, i: nat, done: Attributes)
    requires Distinct(attributes) && i < |attributes| && Keys(done) <= Keys(attributes[..i])
    ensures attributes[i].0 !in Keys(done)
    ensures Keys(done + Kept(c, tag, attributes[i])) <= Keys(attributes[..i + 1])
    ensures attributes[i..] == [attributes[i]] + attributes[i + 1..]
    ensures KeptOfAll(c, tag, attributes[i..]) == Kept(c, tag, attributes[i]) + KeptOfAll(c, tag, attributes[i + 1..])
    ensures AsideOfAll(c, tag, attributes[i..])
        == Aside(c, tag, attributes[i]) + AsideOfAll(c, tag, attributes[i + 1..])
  {
    hide Kept, Aside, Keys, Distinct;
    var a := attributes[i];
    assert attributes[i..] == [a] + attributes[i + 1..] && attributes[..i + 1] == attributes[..i] + [a];
    KeyIsNew(attributes, i);
    KeysOfOne(c, tag, a);
    KeysConcat(done, Kept(c, tag, a));
    KeysConcat(attributes[..i], [a]);
    OneKey(a);
  }

  /** The loop over the attributes of a child. */
  method SiftAttributes(c: Context, tag: string, attributes: Attributes) returns (r: Attributes, extend: Attributes)
    requires Distinct(attributes)
    ensures r == KeptOfAll(c, tag, attributes) && extend == AsideOfAll(c, tag, attributes)
  {
    hide Kept, Aside, Keys, Distinct, KeptOfAll, AsideOfAll;
    r, extend := attributes, [];
    ghost var done := [];
    assert attributes[0..] == attributes;
    assert Keys(done) <= Keys(attributes[..0]) by { NoKeys(attributes[..0]); }
    for i := 0 to |attributes|
      invariant r == done + attributes[i..] && Keys(done) <= Keys(attributes[..i])
      invariant done + KeptOfAll(c, tag, attributes[i..]) == KeptOfAll(c, tag, attributes)
      invariant extend + AsideOfAll(c, tag, attributes[i..]) == AsideOfAll(c, tag, attributes)
    {
      var a := attributes[i];
      SiftNext(c, tag, attributes, i, done);
      var more;
      r, more := CleanAttribute(c, tag, r, a, done, attributes[i + 1..]);
      done := done + Kept(c, tag, a);
      extend := extend + more;
    }
    assert attributes[|attributes|..] == [];
    NothingToSift(c, tag);
  }

  lemma NothingToSift(c: Context, tag: string)
    ensures KeptOfAll(c, tag, []) == [] && AsideOfAll(c, tag, []) == []
  {}

  lemma NoKeys(attributes: Attributes)
    ensures Keys([]) <= Keys(attributes)
  {}

  /** Both loops over the attributes of a child. */
  method CleanAttributesOf(c: Context, tag: string, attributes: Attributes) returns (r: Attributes)
    requires Distinct(attributes)
    ensures r == CleanAttributes(c, tag, attributes)
  {
    hide CleanAttributes, Distinct;
    var extend;
    r, extend := SiftAttributes(c, tag, attributes);
    TwoLoops(c, tag, attributes);
    assert extend[0..] == extend;
    for j := 0 to |extend|
      invariant PutAll(r, extend[j..]) == CleanAttributes(c, tag, attributes)
    {
      assert extend[j..][1..] == extend[j + 1..];
      r := Put(r, extend[j].0, extend[j].1);
    }
  }

  lemma OneKey(a: (string, string))
    ensures Keys([a]) == {a.0}
  {}

  lemma KeyIsNew(attributes: Attributes, i: nat)
    requires Distinct(attributes) && i < |attributes|
    ensures attributes[i].0 !in Keys(attributes[..i])
  {}

  // ---------- The program: elements ----------

  lemma {:induction false} TailGrows(es: seq<Element>, t: string)
    requires es != []
    ensures var k := |es| - 1; Flow(es[k := es[k].(tail := es[k].tail + t)]) == Flow(es) + Letters(t)
  {
    var k := |es| - 1;
    var e, before := es[k], es[..k];
    var f := e.(tail := e.tail + t);
    assert es == before + [e] && es[k := f] == before + [f];
    FlowConcat(before, [e]);
    FlowConcat(before, [f]);
    FlowOne(e);
    FlowOne(f);
    LettersConcat(e.tail, t);
    assert View(e) == View(f);
    hide Flow, Letters, View;
    FourInARow(Flow(before), [View(e)], Letters(e.tail), Letters(t));
  }

  /** Text added just before the child at `index`: to the tail before it, or to the parent's text. */
  method AddText(text: string, children: seq<Element>, index: nat, t: string)
      returns (text': string, children': seq<Element>)
    requires index <= |children|
    ensures |children'| == |children| && children'[index..] == children[index..]
    ensures Letters(text') + Flow(children'[..index]) == Letters(text) + Flow(children[..index]) + Letters(t)
  {
    hide Flow, Letters;
    if index == 0 {
      text', children' := text + t, children;
      LettersConcat(text, t);
      assert Flow([]) == [] by { EmptyFlow(); }
      assert children[..0] == [];
    } else {
      var e := children[index - 1];
      text', children' := text, children[index - 1 := e.(tail := e.tail + t)];
      TailGrows(children[..index], t);
      assert children[..index][index - 1 := e.(tail := e.tail + t)] == children'[..index];
    }
  }

  lemma EmptyFlow()
    ensures Flow([]) == [] && Letters("") == []
  {}

  /** lxml's `drop_tag`: the child at `index` gives way to its content, which reaches up to `end`. */
  method DropTag(text: string, children: seq<Element>, index: nat)
    returns (text': string, children': seq<Element>, end: nat)
    requires index < |children|
    ensures end == index + |children[index].children| <= |children'| && children'[end..] == children[index + 1..]
    ensures Letters(text') + Flow(children'[..end])
         == Letters(text) + Flow(children[..index]) + (Content(children[index]) + Letters(children[index].tail))
  {
    hide Flow, Letters, Content;
    var e := children[index];
    text', children' := text, children;
    var inner := e.children;
    EmptyFlow();
    if e.text != "" {
      text', children' := AddText(text', children', index, e.text);
    }
    ghost var written := Letters(text') + Flow(children'[..index]);
    if e.tail != "" {
      if inner != [] {
        var last := inner[|inner| - 1];
        TailGrows(inner, e.tail);
        inner := inner[|inner| - 1 := last.(tail := last.tail + e.tail)];
      } else {
        text', children' := AddText(text', children', index, e.tail);
      }
    }
    ghost var before := children'[..index];
    end := index + |inner|;
    assert children'[index + 1..] == children[index + 1..] by {
      assert children'[index..][1..] == children[index..][1..];
    }
    children' := children'[..index] + inner + children'[index + 1..];
    assert children'[..end] == before + inner;
    FlowConcat(before, inner);
    DroppedContent(text, children[..index], e, written, inner, Letters(text') + Flow(before));
  }

  lemma DroppedContent(
    text: string, before: seq<Element>, e: Element, written: seq<Item>, inner: seq<Element>, now: seq<Item>)
    requires written == Letters(text) + Flow(before) + Letters(e.text)
    requires now + Flow(inner) == written + Flow(e.children) + Letters(e.tail)
    ensures now + Flow(inner) == Letters(text) + Flow(before) + (Content(e) + Letters(e.tail))
  {}

  /** Every element's attributes have distinct names. */
  predicate WellFormed(e: Element) {
    Distinct(e.attributes) && forall i :: 0 <= i < |e.children| ==> WellFormed(e.children[i])
  }

  /** Content in which those of the elements that are not allowed have been unwrapped. */
  function Unwrapped(es: seq<Element>): seq<Item> {
    if es == [] then []
    else
      var first := if es[0].tag in ALLOWED_TAGS then [View(es[0])] else Content(es[0]);
      first + Letters(es[0].tail) + Unwrapped(es[1..])
  }

  predicate CleanCopy(c: Context, e: Element, r: Element) {
    && r.tag == e.tag && r.tail == e.tail && r.attributes == CleanAttributes(c, e.tag, e.attributes)
    && Content(r) == Defanged(c, Content(e))
  }

  lemma {:induction false} DefangedLetters(c: Context, s: string, rest: seq<Item>)
    ensures Defanged(c, Letters(s) + rest) == Letters(s) + Defanged(c, rest)
  {
    if s == "" {
      assert Letters(s) + rest == rest;
    } else {
      hide CleanAttributes;
      var items := Letters(s) + rest;
      assert Letters(s) == [Letter(s[0])] + Letters(s[1..]);
      assert items[0] == Letter(s[0]) && items[1..] == Letters(s[1..]) + rest;
      DefangedLetters(c, s[1..], rest);
    }
  }

  lemma DefangedElement(c: Context, e: Element, r: Element, rest: seq<Item>)
    requires CleanCopy(c, e, r)
    ensures Defanged(c, [View(e)] + rest)
        == (if e.tag in ALLOWED_TAGS then [View(r)] else Content(r)) + Defanged(c, rest)
  {
    hide CleanAttributes, Content;
    assert ([View(e)] + rest)[0] == View(e) && ([View(e)] + rest)[1..] == rest;
  }

  /** Cleaned children, unwrapped where they are not allowed, are the defanged content. */
  lemma {:induction false} UnwrappedIsDefanged(c: Context, es: seq<Element>, rs: seq<Element>)
    requires |es| == |rs| && forall i :: 0 <= i < |es| ==> CleanCopy(c, es[i], rs[i])
    ensures Unwrapped(rs) == Defanged(c, Flow(es))
  {
    if es != [] {
      hide CleanCopy, Letters, Defanged, Flow, View, Content;
      var rest := Letters(es[0].tail) + Flow(es[1..]);
      FlowFirst(es);
      SameTail(c, es[0], rs[0]);
      DefangedElement(c, es[0], rs[0], rest);
      DefangedLetters(c, es[0].tail, Flow(es[1..]));
      UnwrappedIsDefanged(c, es[1..], rs[1..]);
      hide Unwrapped;
      UnwrapNext(rs, 0);
      assert rs[0..] == rs;
      var first := if es[0].tag in ALLOWED_TAGS then [View(rs[0])] else Content(rs[0]);
      ThreeInARow(first, Letters(es[0].tail), Unwrapped(rs[1..]));
    }
  }

  lemma FlowFirst(es: seq<Element>)
    requires es != []
    ensures Flow(es) == [View(es[0])] + (Letters(es[0].tail) + Flow(es[1..]))
  {}

  lemma SameTail(c: Context, e: Element, r: Element)
    requires CleanCopy(c, e, r)
    ensures r.tail == e.tail && r.tag == e.tag
  {}

  /** The first loop of `defang`: the attributes and the insides of the children. */
  method DefangChildren(c: Context, e: Element) returns (children: seq<Element>, unwrap: set<nat>)
    requires WellFormed(e)
    ensures |children| == |e.children| && forall i :: 0 <= i < |children| ==> CleanCopy(c, e.children[i], children[i])
    ensures unwrap == set i | 0 <= i < |children| && children[i].tag !in ALLOWED_TAGS
    decreases e, 0
  {
    hide CleanAttributes, Defanged;
    children, unwrap := e.children, {};
    for k := 0 to |e.children|
      invariant |children| == |e.children| && children[k..] == e.children[k..]
      invariant forall i :: 0 <= i < k ==> CleanCopy(c, e.children[i], children[i])
      invariant unwrap == set i | 0 <= i < k && children[i].tag !in ALLOWED_TAGS
    {
      var child := children[k];
      assert child == e.children[k..][0];
      if child.tag !in ALLOWED_TAGS {
        unwrap := unwrap + {k};
      }
      var attributes := CleanAttributesOf(c, child.tag, child.attributes);
      var inside := DefangIn(c, child);
      children := children[k := inside.(attributes := attributes)];
    }
  }

  /** `defang`: the element itself keeps its tag and attributes. */
  method DefangIn(c: Context, e: Element) returns (r: Element)
    requires WellFormed(e)
    ensures Content(r) == Defanged(c, Content(e)) && r.tag == e.tag && r.attributes == e.attributes && r.tail == e.tail
    decreases e, 1
  {
    hide *;
    var cleaned, unwrap := DefangChildren(c, e);
    var text, children := e.text, cleaned;
    var at: nat := 0;
    assert children[..0] == [] && cleaned[0..] == cleaned;
    EmptyFlow();
    ghost var goal := Letters(e.text) + Unwrapped(cleaned);
    for i := 0 to |cleaned|
      invariant at <= |children| && children[at..] == cleaned[i..]
      invariant Letters(text) + Flow(children[..at]) + Unwrapped(cleaned[i..]) == goal
    {
      var child := cleaned[i];
      assert children[at] == children[at..][0] == child && children[at + 1..] == children[at..][1..]
          == cleaned[i + 1..];
      UnwrapNext(cleaned, i);
      ghost var written := Letters(text) + Flow(children[..at]);
      if i in unwrap {
        text, children, at := DropTag(text, children, at);
        FourInARow(written, Content(child), Letters(child.tail), Unwrapped(cleaned[i + 1..]));
      } else {
        FlowNext(children, at);
        FourInARow(written, [View(child)], Letters(child.tail), Unwrapped(cleaned[i + 1..]));
        FourInARow(Letters(text), Flow(children[..at]), [View(child)], Letters(child.tail));
        at := at + 1;
      }
    }
    assert children[..at] == children && cleaned[|cleaned|..] == [];
    NothingUnwrapped();
    r := e.(text := text, children := children);
    WholeContent(c, e, cleaned);
    ContentIs(r);
  }

  lemma UnwrapNext(es: seq<Element>, i: nat)
    requires i < |es|
    ensures Unwrapped(es[i..])
         == (if es[i].tag in ALLOWED_TAGS then [View(es[i])] else Content(es[i])) + Letters(es[i].tail)
           + Unwrapped(es[i + 1..])
  {}

  lemma NothingUnwrapped()
    ensures Unwrapped([]) == []
  {}

  lemma FlowNext(es: seq<Element>, i: nat)
    requires i < |es|
    ensures Flow(es[..i + 1]) == Flow(es[..i]) + ([View(es[i])] + Letters(es[i].tail))
  {
    assert es[..i + 1] == es[..i] + [es[i]];
    FlowConcat(es[..i], [es[i]]);
    FlowOne(es[i]);
  }

  lemma ContentIs(e: Element)
    ensures Content(e) == Letters(e.text) + Flow(e.children)
  {}

  lemma WholeContent(c: Context, e: Element, cleaned: seq<Element>)
    requires |cleaned| == |e.children| && forall i :: 0 <= i < |cleaned| ==> CleanCopy(c, e.children[i], cleaned[i])
    ensures Letters(e.text) + Unwrapped(cleaned) == Defanged(c, Content(e))
  {
    hide CleanCopy, Defanged, Letters, Flow, Unwrapped;
    DefangedLetters(c, e.text, Flow(e.children));
    UnwrappedIsDefanged(c, e.children, cleaned);
  }
}
