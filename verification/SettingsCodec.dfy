/** Settings packed into a string (libweasyl/models/helpers.py, `CharSettingsColumn`), and the
    reader that takes one file type out of such a string (weasyl/define.py, `url_type`). */
module SettingsCodec {
  import opened Options
  import opened Splitting
  import opened Sorting

  /** One entry of a settings value: a file type, a setting that is on, or a choice from an enumeration. */
  datatype Token = File(thing: string, kind: string) | Flag(name: string) | Choice(enum: string, value: string)

  /** `CharSettings`. */
  datatype Value = Value(settings: set<string>, fileTypes: map<string, string>, enums: map<string, string>)

  const EMPTY := Value({}, map[], map[])

  const THINGS := map['~' := "cover", '-' := "thumb", '=' := "submit", '>' := "avatar", '<' := "banner",
    '#' := "propic", '$' := "ad"]

  const KINDS := map['J' := "jpg", 'P' := "png", 'G' := "gif", 'W' := "webp", 'T' := "txt", 'H' := "htm",
    'M' := "mp3", 'F' := "swf", 'A' := "pdf"]

  const THING_SYMBOLS := map["cover" := '~', "thumb" := '-', "submit" := '=', "avatar" := '>', "banner" := '<',
    "propic" := '#', "ad" := '$']

  const KIND_SYMBOLS := map["jpg" := 'J', "png" := 'P', "gif" := 'G', "webp" := 'W', "txt" := 'T', "htm" := 'H',
    "mp3" := 'M', "swf" := 'F', "pdf" := 'A']

  /** The two directions of a column's map.  Where two characters mean the same, the reverse map has one of them. */
  datatype Column = Column(meaning: map<char, Token>, symbol: map<Token, char>)

  /** `reverse_dict`, and no character that is a symbol of a file type. */
  ghost predicate Usable(c: Column) {
    && c.symbol.Keys == c.meaning.Values
    && (forall t <- c.symbol :: c.symbol[t] in c.meaning && c.meaning[c.symbol[t]] == t)
    && (forall x <- c.meaning :: x !in THINGS && !c.meaning[x].File?)
  }

  // ---------- Values as sets of entries ----------

  ghost predicate Has(v: Value, t: Token) {
    match t
    case File(thing, kind) => thing in v.fileTypes && v.fileTypes[thing] == kind
    case Flag(name) => name in v.settings
    case Choice(enum, value) => enum in v.enums && v.enums[enum] == value
  }

  /** What decoding does with an entry. */
  function Apply(v: Value, t: Token): Value {
    match t
    case File(thing, kind) => v.(fileTypes := v.fileTypes[thing := kind])
    case Flag(name) => v.(settings := v.settings + {name})
    case Choice(enum, value) => v.(enums := v.enums[enum := value])
  }

  function ApplyAll(v: Value, ts: seq<Token>): Value
    decreases |ts|
  {
    if ts == [] then v else ApplyAll(Apply(v, ts[0]), ts[1..])
  }

  /** Whether two entries would overwrite one another. */
  predicate Clash(t: Token, u: Token) {
    t != u && ((t.File? && u.File? && t.thing == u.thing) || (t.Choice? && u.Choice? && t.enum == u.enum))
  }

  lemma SameEntries(v: Value, w: Value)
    requires forall t :: Has(v, t) <==> Has(w, t)
    ensures v == w
  {
    assert forall name :: name in v.settings <==> Has(v, Flag(name));
    assert forall name :: name in w.settings <==> Has(w, Flag(name));
    assert forall x <- v.fileTypes :: Has(v, File(x, v.fileTypes[x]));
    assert forall x <- w.fileTypes :: Has(w, File(x, w.fileTypes[x]));
    assert forall x <- v.enums :: Has(v, Choice(x, v.enums[x]));
    assert forall x <- w.enums :: Has(w, Choice(x, w.enums[x]));
    assert v.settings == w.settings && v.fileTypes == w.fileTypes && v.enums == w.enums;
  }

  lemma {:induction false} ApplyAllHas(v: Value, ts: seq<Token>, t: Token)
    requires forall u <- ts, w <- ts :: !Clash(u, w)
    requires forall u <- ts, w: Token :: Has(v, w) ==> !Clash(u, w)
    ensures Has(ApplyAll(v, ts), t) <==> Has(v, t) || t in ts
    decreases |ts|
  {
    if ts != [] {
      var w := Apply(v, ts[0]);
      assert forall u: Token :: Has(w, u) <==> Has(v, u) || u == ts[0] by {
        forall u: Token ensures Has(w, u) <==> Has(v, u) || u == ts[0] {
          assert ts[0] in ts;
          assert Has(v, u) ==> !Clash(ts[0], u);
        }
      }
      ApplyAllHas(w, ts[1..], t);
      assert ts == [ts[0]] + ts[1..];
    }
  }

  lemma NoClash(v: Value)
    ensures forall t, u :: Has(v, t) && Has(v, u) ==> !Clash(t, u)
  {}

  /** Any list of exactly the entries of a value builds that value up from nothing. */
  lemma EntriesRebuild(v: Value, ts: seq<Token>)
    requires forall t :: t in ts <==> Has(v, t)
    ensures ApplyAll(EMPTY, ts) == v
  {
    NoClash(v);
    forall t ensures Has(ApplyAll(EMPTY, ts), t) <==> Has(v, t) {
      ApplyAllHas(EMPTY, ts, t);
    }
    SameEntries(ApplyAll(EMPTY, ts), v);
  }

  /** Nothing from `i` on would overwrite `t`. */
  predicate Lasts(ts: seq<Token>, i: nat, t: Token) {
    forall j :: i <= j < |ts| ==> !Clash(ts[j], t)
  }

  /** Whatever the entries, the last for a file type or a choice counts, and settings add up. */
  lemma {:induction false} LastEntryCounts(v: Value, ts: seq<Token>, t: Token)
    ensures Has(ApplyAll(v, ts), t) <==>
              (Has(v, t) && Lasts(ts, 0, t)) || exists i :: 0 <= i < |ts| && ts[i] == t && Lasts(ts, i, t)
    decreases |ts|
  {
    if ts != [] {
      var u, rest := ts[0], ts[1..];
      assert Has(Apply(v, u), t) <==> t == u || (Has(v, t) && !Clash(u, t));
      LastEntryCounts(Apply(v, u), rest, t);
      hide Has, Apply, Clash;
      LastsLater(ts, t);
      if i :| 0 <= i < |rest| && rest[i] == t && Lasts(rest, i, t) {
        assert ts[i + 1] == t && Lasts(ts, i + 1, t);
      }
      if i :| 0 <= i < |ts| && ts[i] == t && Lasts(ts, i, t) {
        if i > 0 {
          assert rest[i - 1] == t && Lasts(rest, i - 1, t);
        }
      }
    }
  }

  lemma LastsLater(ts: seq<Token>, t: Token)
    requires ts != []
    ensures forall i: nat :: Lasts(ts, i + 1, t) <==> Lasts(ts[1..], i, t)
    ensures Lasts(ts, 0, t) <==> !Clash(ts[0], t) && Lasts(ts[1..], 0, t)
    ensures ts[0] == t ==> !Clash(ts[0], t)
  {
    var rest := ts[1..];
    forall i: nat ensures Lasts(ts, i + 1, t) <==> Lasts(rest, i, t) {
      assert forall j :: i <= j < |rest| ==> rest[j] == ts[j + 1];
      if Lasts(rest, i, t) {
        forall j | i + 1 <= j < |ts| ensures !Clash(ts[j], t) {
          assert ts[j] == rest[j - 1];
        }
      }
    }
    assert Lasts(ts, 1, t) <==> Lasts(rest, 0, t) by { assert Lasts(ts, 0 + 1, t) <==> Lasts(rest, 0, t); }
  }

  // ---------- Decoding ----------

  /** The errors: an unknown kind or character, and a symbol of a file type at the end (`StopIteration`). */
  datatype Decoded = Ok(value: Value) | UnknownKind(c: char) | UnknownCharacter(c: char) | Stopped

  function DecodeOnto(c: Column, s: string, v: Value): Decoded {
    if s == "" then Ok(v)
    else if s[0] in THINGS then
      if |s| == 1 then Stopped
      else if s[1] !in KINDS then UnknownKind(s[1])
      else DecodeOnto(c, s[2..], Apply(v, File(THINGS[s[0]], KINDS[s[1]])))
    else if s[0] !in c.meaning then UnknownCharacter(s[0])
    else DecodeOnto(c, s[1..], Apply(v, c.meaning[s[0]]))
  }

  /** `process_result_value`. */
  function Decode(c: Column, s: string): Decoded {
    DecodeOnto(c, s, EMPTY)
  }

  method ProcessResultValue(c: Column, s: string) returns (r: Decoded)
    requires Usable(c)
    ensures r == Decode(c, s)
  {
    var i := 0;
    var settings, fileTypes, enums := {}, map[], map[];
    while i < |s|
      invariant i <= |s|
      invariant Decode(c, s) == DecodeOnto(c, s[i..], Value(settings, fileTypes, enums))
    {
      var x := s[i];
      i := i + 1;
      if x in THINGS {
        if i == |s| { return Stopped; }
        var kind := s[i];
        i := i + 1;
        if kind !in KINDS { return UnknownKind(kind); }
        fileTypes := fileTypes[THINGS[x] := KINDS[kind]];
      } else if x !in c.meaning {
        return UnknownCharacter(x);
      } else {
        match c.meaning[x]
        case Flag(name) => settings := settings + {name};
        case Choice(enum, value) => enums := enums[enum := value];
      }
    }
    r := Ok(Value(settings, fileTypes, enums));
  }

  function Concat(ss: seq<string>): string {
    if ss == [] then "" else ss[0] + Concat(ss[1..])
  }

  /** A code, and what it means. */
  predicate Means(c: Column, code: string, t: Token) {
    || (|code| == 2 && code[0] in THINGS && code[1] in KINDS && t == File(THINGS[code[0]], KINDS[code[1]]))
    || (|code| == 1 && code[0] !in THINGS && code[0] in c.meaning && t == c.meaning[code[0]])
  }

  predicate AllMean(c: Column, codes: seq<string>, ts: seq<Token>) {
    |ts| == |codes| && forall i :: 0 <= i < |ts| ==> Means(c, codes[i], ts[i])
  }

  lemma FirstCodeDecoded(c: Column, code: string, t: Token, rest: string, v: Value)
    requires Means(c, code, t)
    ensures DecodeOnto(c, code + rest, v) == DecodeOnto(c, rest, Apply(v, t))
  {
    assert (code + rest)[|code|..] == rest;
  }

  /** Every string is codes one after another up to its end, or up to what gives the error; the value is what the codes
      mean, each applied in turn. */
  lemma {:induction false} DecodeExactly(c: Column, s: string, v: Value)
      returns (codes: seq<string>, ts: seq<Token>, rest: string)
    ensures s == Concat(codes) + rest && AllMean(c, codes, ts)
    ensures match DecodeOnto(c, s, v)
            case Ok(w) => rest == "" && w == ApplyAll(v, ts)
            case Stopped => |rest| == 1 && rest[0] in THINGS
            case UnknownKind(x) => |rest| > 1 && rest[0] in THINGS && rest[1] == x && x !in KINDS
            case UnknownCharacter(x) => rest != "" && rest[0] == x && x !in THINGS && x !in c.meaning
    decreases |s|
  {
    hide THINGS, KINDS;
    var n := if s != "" && s[0] in THINGS then 2 else 1;
    if |s| < n || (n == 2 && s[1] !in KINDS) || (n == 1 && s[0] !in c.meaning) {
      codes, ts, rest := [], [], s;
    } else {
      var t := if n == 2 then File(THINGS[s[0]], KINDS[s[1]]) else c.meaning[s[0]];
      assert Means(c, s[..n], t);
      codes, ts, rest := DecodeExactly(c, s[n..], Apply(v, t));
      MeansFirst(c, s[..n], t, codes, ts, rest);
      assert s == s[..n] + s[n..];
      FirstCodeDecoded(c, s[..n], t, s[n..], v);
      codes, ts := [s[..n]] + codes, [t] + ts;
      hide DecodeOnto;
    }
  }

  lemma MeansFirst(c: Column, code: string, t: Token, codes: seq<string>, ts: seq<Token>, rest: string)
    requires Means(c, code, t) && AllMean(c, codes, ts)
    ensures AllMean(c, [code] + codes, [t] + ts)
    ensures Concat([code] + codes) + rest == code + (Concat(codes) + rest)
    ensures forall v :: ApplyAll(v, [t] + ts) == ApplyAll(Apply(v, t), ts)
  {
    assert ([code] + codes)[1..] == codes && ([t] + ts)[1..] == ts;
  }

  // ---------- Encoding ----------

  /** The code of an entry; `None` is a `KeyError`. */
  function Code(c: Column, t: Token): Option<string> {
    if t.File? then
      if t.thing in THING_SYMBOLS && t.kind in KIND_SYMBOLS then
        Some([THING_SYMBOLS[t.thing], KIND_SYMBOLS[t.kind]])
      else None
    else if t in c.symbol then Some([c.symbol[t]])
    else None
  }

  ghost predicate Encodable(c: Column, v: Value) {
    forall t :: Has(v, t) ==> Code(c, t).Some?
  }

  function Entries(v: Value): (r: set<Token>)
    ensures forall t :: t in r <==> Has(v, t)
  {
    (set name <- v.settings :: Flag(name))
    + (set x <- v.fileTypes :: File(x, v.fileTypes[x]))
    + (set x <- v.enums :: Choice(x, v.enums[x]))
  }

  ghost function Codes(c: Column, v: Value): set<string>
    requires Encodable(c, v)
  {
    set t <- Entries(v) :: Code(c, t).value
  }

  /** `process_bind_param`: it depends on the value only, not on the order in which sets and dictionaries list their
      elements. */
  ghost function Encode(c: Column, v: Value): Option<string> {
    if Encodable(c, v) then Some(Concat(Sorted(Codes(c, v)))) else None
  }

  lemma SymbolsInvert(t: Token)
    requires t.File? && t.thing in THING_SYMBOLS && t.kind in KIND_SYMBOLS
    ensures THING_SYMBOLS[t.thing] in THINGS && THINGS[THING_SYMBOLS[t.thing]] == t.thing
    ensures KIND_SYMBOLS[t.kind] in KINDS && KINDS[KIND_SYMBOLS[t.kind]] == t.kind
  {}

  /** Reading a code gives back its entry. */
  lemma DecodeCode(c: Column, t: Token, rest: string, v: Value)
    requires Usable(c) && Code(c, t).Some?
    ensures DecodeOnto(c, Code(c, t).value + rest, v) == DecodeOnto(c, rest, Apply(v, t))
  {
    var code := Code(c, t).value;
    if t.File? {
      SymbolsInvert(t);
      assert (code + rest)[2..] == rest;
    } else {
      assert (code + rest)[1..] == rest;
    }
  }

  lemma CodeLength(c: Column, t: Token)
    requires Code(c, t).Some?
    ensures |Code(c, t).value| == if t.File? then 2 else 1
  {}

  lemma CodesDiffer(c: Column, t: Token, u: Token)
    requires Usable(c) && Code(c, t).Some? && Code(c, t) == Code(c, u)
    ensures t == u
  {
    CodeLength(c, t);
    CodeLength(c, u);
    if t.File? {
      SymbolsInvert(t);
      SymbolsInvert(u);
      assert Code(c, t).value[1] == Code(c, u).value[1];
    }
    assert Code(c, t).value[0] == Code(c, u).value[0];
  }

  ghost predicate Spells(c: Column, codes: seq<string>, ts: seq<Token>) {
    |ts| == |codes| && forall i :: 0 <= i < |ts| ==> Code(c, ts[i]) == Some(codes[i])
  }

  lemma {:induction false} DecodeCodes(c: Column, codes: seq<string>, ts: seq<Token>, v: Value)
    requires Usable(c) && Spells(c, codes, ts)
    ensures DecodeOnto(c, Concat(codes), v) == Ok(ApplyAll(v, ts))
    decreases |codes|
  {
    if codes != [] {
      DecodeCode(c, ts[0], Concat(codes[1..]), v);
      DecodeCodes(c, codes[1..], ts[1..], Apply(v, ts[0]));
    }
  }

  lemma SpellsFirst(c: Column, codes: seq<string>, t: Token, rest: seq<Token>)
    requires codes != [] && Code(c, t) == Some(codes[0]) && Spells(c, codes[1..], rest)
    ensures Spells(c, codes, [t] + rest)
  {}

  lemma TokenOf(c: Column, v: Value, code: string) returns (t: Token)
    requires Encodable(c, v) && code in Codes(c, v)
    ensures Has(v, t) && Code(c, t) == Some(code)
  {
    t :| t in Entries(v) && Code(c, t).value == code;
  }

  lemma {:induction false} TokensOf(c: Column, v: Value, codes: seq<string>) returns (ts: seq<Token>)
    requires Usable(c) && Encodable(c, v) && forall x <- codes :: x in Codes(c, v)
    ensures Spells(c, codes, ts) && forall t <- ts :: Has(v, t)
  {
    if codes == [] {
      ts := [];
    } else {
      hide Code, Codes, Encodable, Has, Usable, Spells;
      assert codes[0] in codes;
      var t := TokenOf(c, v, codes[0]);
      var rest := TokensOf(c, v, codes[1..]);
      ts := [t] + rest;
      SpellsFirst(c, codes, t, rest);
    }
  }

  /** The codes of a value, in ascending order, stand for its entries. */
  lemma SortedTokens(c: Column, v: Value) returns (ts: seq<Token>)
    requires Usable(c) && Encodable(c, v)
    ensures Spells(c, Sorted(Codes(c, v)), ts) && forall t :: t in ts <==> Has(v, t)
  {
    var codes := Sorted(Codes(c, v));
    SortedElements(Codes(c, v));
    ts := TokensOf(c, v, codes);
    forall t | Has(v, t) ensures t in ts {
      assert t in Entries(v);
      assert Code(c, t).value in codes;
      var i :| 0 <= i < |codes| && codes[i] == Code(c, t).value;
      CodesDiffer(c, t, ts[i]);
    }
  }

  /** The encoding is the codes of the entries in ascending order, each once. */
  lemma EncodedAscending(c: Column, v: Value) returns (codes: seq<string>)
    requires Encodable(c, v)
    ensures Encode(c, v) == Some(Concat(codes)) && Ascending(codes)
    ensures forall x :: x in codes <==> exists t :: Has(v, t) && Code(c, t) == Some(x)
    ensures forall i, j :: 0 <= i < j < |codes| ==> codes[i] != codes[j]
  {
    codes := Sorted(Codes(c, v));
    SortedElements(Codes(c, v));
    assert forall x :: x in Codes(c, v) <==> exists t <- Entries(v) :: Code(c, t).value == x;
    forall i, j | 0 <= i < j < |codes| ensures codes[i] != codes[j] {
      Once(codes, Codes(c, v), i, j);
    }
  }

  lemma Once(s: seq<string>, elements: set<string>, i: nat, j: nat)
    requires multiset(s) == multiset(elements) && i < j < |s|
    ensures s[i] != s[j]
  {
    assert s == s[..i] + [s[i]] + s[i + 1..j] + [s[j]] + s[j + 1..];
    assert multiset(s)[s[i]] <= 1;
  }

  /** Decoding undoes encoding. */
  lemma RoundTrip(c: Column, v: Value)
    requires Usable(c) && Encodable(c, v)
    ensures Decode(c, Encode(c, v).value) == Ok(v)
  {
    var ts := SortedTokens(c, v);
    EntriesRebuild(v, ts);
    DecodeCodes(c, Sorted(Codes(c, v)), ts, EMPTY);
  }

  /** What can be decoded can be encoded again. */
  lemma {:induction false} DecodedIsEncodable(c: Column, s: string, v: Value)
    requires Usable(c) && Encodable(c, v) && DecodeOnto(c, s, v).Ok?
    ensures Encodable(c, DecodeOnto(c, s, v).value)
  {
    if s != "" {
      KindsInvert();
      hide Code;
      if s[0] in THINGS {
        var t := File(THINGS[s[0]], KINDS[s[1]]);
        assert Code(c, t).Some? by { KnownFile(c, s[0], s[1]); }
        ApplyEncodable(c, v, t);
        DecodedIsEncodable(c, s[2..], Apply(v, t));
      } else {
        assert Code(c, c.meaning[s[0]]).Some? by { KnownMeaning(c, s[0]); }
        ApplyEncodable(c, v, c.meaning[s[0]]);
        DecodedIsEncodable(c, s[1..], Apply(v, c.meaning[s[0]]));
      }
    }
  }

  lemma KindsInvert()
    ensures forall x <- THINGS :: THINGS[x] in THING_SYMBOLS && THING_SYMBOLS[THINGS[x]] == x
    ensures forall x <- KINDS :: KINDS[x] in KIND_SYMBOLS && KIND_SYMBOLS[KINDS[x]] == x
  {}

  lemma KnownFile(c: Column, x: char, kind: char)
    requires x in THINGS && kind in KINDS
    ensures Code(c, File(THINGS[x], KINDS[kind])).Some?
  {}

  lemma KnownMeaning(c: Column, x: char)
    requires Usable(c) && x in c.meaning
    ensures Code(c, c.meaning[x]).Some?
  {}

  lemma ApplyEncodable(c: Column, v: Value, t: Token)
    requires Encodable(c, v) && Code(c, t).Some?
    ensures Encodable(c, Apply(v, t))
  {}

  /** Reencoding a stored string gives its normal form: it means the same, and reencoding it changes nothing. */
  lemma ReencodingIsNormal(c: Column, s: string)
    requires Usable(c) && Decode(c, s).Ok?
    ensures var v := Decode(c, s).value;
            && Encode(c, v).Some?
            && Decode(c, Encode(c, v).value) == Ok(v)
            && Encode(c, Decode(c, Encode(c, v).value).value) == Encode(c, v)
  {
    DecodedIsEncodable(c, s, EMPTY);
    RoundTrip(c, Decode(c, s).value);
  }

  /** `process_bind_param`, listing file types, settings and choices in any order; false is a `KeyError`. */
  method ProcessBindParam(c: Column, v: Value) returns (ok: bool, r: string)
    requires Usable(c)
    ensures if ok then Encode(c, v) == Some(r) else Encode(c, v) == None
  {
    var ret: seq<string> := [];
    ghost var done: set<Token> := {};
    var todo := Entries(v);
    ok, r := true, "";
    while todo != {}
      invariant done + todo == Entries(v) && done !! todo
      invariant forall t <- done :: Code(c, t).Some?
      invariant forall x :: x in ret <==> exists t <- done :: Code(c, t) == Some(x)
      invariant forall i, j :: 0 <= i < j < |ret| ==> ret[i] != ret[j]
    {
      hide Code;
      var t :| t in todo;
      if Code(c, t).None? {
        assert Has(v, t);
        return false, "";
      }
      var code := Code(c, t).value;
      forall u <- done ensures Code(c, u) != Some(code) {
        if Code(c, u) == Some(code) { CodesDiffer(c, u, t); }
      }
      ret := ret + [code];
      done, todo := done + {t}, todo - {t};
    }
    assert Encodable(c, v);
    DistinctMultiset(ret, Codes(c, v));
    AscendingIsUnique(Sort(ret), Sorted(Codes(c, v)));
    r := Concat(Sort(ret));
  }

  lemma {:induction false} DistinctMultiset(s: seq<string>, elements: set<string>)
    requires forall i, j :: 0 <= i < j < |s| ==> s[i] != s[j]
    requires forall x :: x in s <==> x in elements
    ensures multiset(s) == multiset(elements)
  {
    if s == [] {
      assert elements == {};
    } else {
      assert s == [s[0]] + s[1..];
      assert forall x :: x in s[1..] <==> x in elements - {s[0]};
      DistinctMultiset(s[1..], elements - {s[0]});
      assert multiset(elements) == multiset(elements - {s[0]}) + multiset{s[0]};
    }
  }

  // ---------- `url_type` ----------

  const FEATURES := map["char/thumb" := '-', "char/cover" := '~', "char/submit" := '=']

  const EXTENSIONS := map['J' := ".jpg", 'P' := ".png", 'G' := ".gif", 'W' := ".webp", 'T' := ".txt", 'H' := ".htm",
    'M' := ".mp3", 'F' := ".swf", 'A' := ".pdf"]

  /** `url_type`; `None` is an error. */
  function UrlType(s: string, feature: string): Option<string>
    requires feature in FEATURES
  {
    var i := IndexOf(s, FEATURES[feature]);
    if i + 1 < |s| && s[i + 1] in EXTENSIONS then Some(EXTENSIONS[s[i + 1]]) else None
  }

  function CharAt(s: string, i: nat): Option<char> {
    if i < |s| then Some(s[i]) else None
  }

  function LastIndexOf(s: string, x: char): (i: nat)
    requires x in s
    ensures i < |s| && s[i] == x && x !in s[i + 1..]
  {
    if x in s[1..] then 1 + LastIndexOf(s[1..], x) else 0
  }

  lemma NoKindIsSymbol()
    ensures THINGS.Keys !! KINDS.Keys
  {}

  /** In a string that can be decoded, every symbol of a file type is followed by a kind. */
  lemma {:induction false} SymbolThenKind(c: Column, s: string, v: Value, i: nat)
    requires Usable(c) && DecodeOnto(c, s, v).Ok? && i < |s| && s[i] in THINGS
    ensures i + 1 < |s| && s[i + 1] in KINDS
  {
    NoKindIsSymbol();
    hide THINGS, KINDS, Usable;
    if s[0] in THINGS {
      if i > 0 {
        SymbolThenKind(c, s[2..], Apply(v, File(THINGS[s[0]], KINDS[s[1]])), i - 2);
      }
    } else {
      SymbolThenKind(c, s[1..], Apply(v, c.meaning[s[0]]), i - 1);
    }
  }

  lemma ThingsDiffer(x: char, y: char)
    requires x in THINGS && y in THINGS && THINGS[x] == THINGS[y]
    ensures x == y
  {}

  lemma LastIndexSkips(s: string, x: char, n: nat)
    requires n <= |s| && x in s[n..]
    ensures x in s && LastIndexOf(s, x) == n + LastIndexOf(s[n..], x)
  {}

  /** The decoder keeps the last code of each file type. */
  lemma {:induction false} DecoderKeepsLast(c: Column, s: string, v: Value, x: char)
    requires Usable(c) && DecodeOnto(c, s, v).Ok? && x in THINGS
    ensures var r := DecodeOnto(c, s, v).value;
            if x in s then
              var i := LastIndexOf(s, x);
              i + 1 < |s| && s[i + 1] in KINDS && Has(r, File(THINGS[x], KINDS[s[i + 1]]))
            else
              THINGS[x] in r.fileTypes <==> THINGS[x] in v.fileTypes
    ensures x !in s && THINGS[x] in v.fileTypes
        ==> DecodeOnto(c, s, v).value.fileTypes[THINGS[x]] == v.fileTypes[THINGS[x]]
  {
    if s != "" {
      var n := if s[0] in THINGS then 2 else 1;
      var t := if s[0] in THINGS then File(THINGS[s[0]], KINDS[s[1]]) else c.meaning[s[0]];
      var w, rest := Apply(v, t), s[n..];
      assert DecodeOnto(c, s, v) == DecodeOnto(c, rest, w);
      DecoderKeepsLast(c, rest, w, x);
      if x in rest {
        LastIndexSkips(s, x, n);
      } else {
        OnlyFirst(c, s, x, n);
        if s[0] in THINGS && s[0] != x && THINGS[s[0]] == THINGS[x] {
          ThingsDiffer(s[0], x);
        }
      }
    }
  }

  lemma OnlyFirst(c: Column, s: string, x: char, n: nat)
    requires x in THINGS && s != "" && n <= |s| && x !in s[n..]
    requires n == if s[0] in THINGS then 2 else 1
    requires n == 2 ==> s[1] in KINDS
    ensures x in s <==> s[0] == x
    ensures x in s ==> LastIndexOf(s, x) == 0
  {}

  /** What `url_type` finds: the first code for the feature. */
  lemma UrlTypeIsFirst(c: Column, s: string, feature: string)
    requires Usable(c) && Decode(c, s).Ok? && feature in FEATURES
    ensures var x := FEATURES[feature];
            if x in s then
              var i := IndexOf(s, x);
              i + 1 < |s| && s[i + 1] in KINDS && UrlType(s, feature) == Some("." + KINDS[s[i + 1]])
            else UrlType(s, feature) == None
  {
    hide *;
    FeatureIsThing(feature);
    var x := FEATURES[feature];
    FoundAt(s, x);
    if x in s {
      DecodedSymbol(c, s, IndexOf(s, x));
      UrlTypeOf(s, feature);
    } else {
      UrlTypeOfNone(s, feature);
    }
  }

  /** What the decoder keeps: the last code for the feature. */
  lemma DecodedIsLast(c: Column, s: string, x: char)
    requires Usable(c) && Decode(c, s).Ok? && x in THINGS
    ensures var v := Decode(c, s).value;
            if x in s then
              var j := LastIndexOf(s, x);
              j + 1 < |s| && s[j + 1] in KINDS && THINGS[x] in v.fileTypes && v.fileTypes[THINGS[x]] == KINDS[s[j + 1]]
            else THINGS[x] !in v.fileTypes
  {
    hide THINGS, KINDS, Usable, DecodeOnto;
    DecoderKeepsLast(c, s, EMPTY, x);
  }

  /** `url_type` and the decoder agree on a feature exactly when the first and the last code for it name the same
      kind. */
  lemma UrlTypeAgrees(c: Column, s: string, feature: string)
    requires Usable(c) && Decode(c, s).Ok? && feature in FEATURES
    ensures var v, x := Decode(c, s).value, FEATURES[feature];
            UrlType(s, feature) == (if THINGS[x] in v.fileTypes then Some("." + v.fileTypes[THINGS[x]]) else None)
            <==> (x in s ==> CharAt(s, IndexOf(s, x) + 1) == CharAt(s, LastIndexOf(s, x) + 1))
  {
    hide FEATURES, THINGS, KINDS, EXTENSIONS, Usable, Decode, UrlType;
    FeatureIsThing(feature);
    var x := FEATURES[feature];
    UrlTypeIsFirst(c, s, feature);
    DecodedIsLast(c, s, x);
    if x in s {
      KindsDiffer(s[IndexOf(s, x) + 1], s[LastIndexOf(s, x) + 1]);
    }
  }

  lemma {:induction false} SymbolSpellsFile(c: Column, codes: seq<string>, ts: seq<Token>, i: nat)
    requires Usable(c) && Spells(c, codes, ts) && i < |Concat(codes)| && Concat(codes)[i] in THINGS
    ensures var s := Concat(codes); i + 1 < |s| && s[i + 1] in KINDS && File(THINGS[s[i]], KINDS[s[i + 1]]) in ts
  {
    var rest := Concat(codes[1..]);
    CodeLength(c, ts[0]);
    var n := |codes[0]|;
    if i >= n {
      assert Concat(codes)[i] == rest[i - n];
      SymbolSpellsFile(c, codes[1..], ts[1..], i - n);
      assert Concat(codes)[i + 1] == rest[i - n + 1];
    } else {
      FirstCode(c, ts[0], i);
    }
  }

  lemma FirstCode(c: Column, t: Token, i: nat)
    requires Usable(c) && Code(c, t).Some? && i < |Code(c, t).value| && Code(c, t).value[i] in THINGS
    ensures var s := Code(c, t).value; i + 1 < |s| && s[i + 1] in KINDS && File(THINGS[s[i]], KINDS[s[i + 1]]) == t
  {
    CodeLength(c, t);
    if t.File? {
      SymbolsInvert(t);
      NoKindIsSymbol();
    }
  }

  /** In every string that a value is stored as, `url_type` finds the file types of that value. */
  lemma UrlTypeOfStored(c: Column, v: Value, feature: string)
    requires Usable(c) && Encodable(c, v) && feature in FEATURES
    ensures var thing := THINGS[FEATURES[feature]];
            UrlType(Encode(c, v).value, feature)
              == if thing in v.fileTypes then Some("." + v.fileTypes[thing]) else None
  {
    FeatureIsThing(feature);
    var x := FEATURES[feature];
    RoundTrip(c, v);
    var ts := SortedTokens(c, v);
    var codes := Sorted(Codes(c, v));
    var s := Encode(c, v).value;
    assert s == Concat(codes);
    hide *;
    UrlTypeIsFirst(c, s, feature);
    DecodedIsLast(c, s, x);
    if x in s {
      FoundAt(s, x);
      SymbolSpellsFile(c, codes, ts, IndexOf(s, x));
      HasFile(v, THINGS[x], KINDS[s[IndexOf(s, x) + 1]]);
    }
  }

  lemma HasFile(v: Value, thing: string, kind: string)
    ensures Has(v, File(thing, kind)) <==> thing in v.fileTypes && v.fileTypes[thing] == kind
  {}

  lemma KindsDiffer(k: char, l: char)
    requires k in KINDS && l in KINDS
    ensures "." + KINDS[k] == "." + KINDS[l] <==> k == l
  {
    KindsInvert();
    hide KINDS;
    assert ("." + KINDS[k])[1..] == KINDS[k] && ("." + KINDS[l])[1..] == KINDS[l];
  }

  lemma FeatureIsThing(feature: string)
    requires feature in FEATURES
    ensures FEATURES[feature] in THINGS
  {}

  lemma FoundAt(s: string, x: char)
    ensures if x in s then IndexOf(s, x) < |s| && s[IndexOf(s, x)] == x else IndexOf(s, x) == |s|
  {}

  lemma DecodedSymbol(c: Column, s: string, i: nat)
    requires Usable(c) && Decode(c, s).Ok? && i < |s| && s[i] in THINGS
    ensures i + 1 < |s| && s[i + 1] in KINDS
  {
    SymbolThenKind(c, s, EMPTY, i);
  }

  lemma UrlTypeOf(s: string, feature: string)
    requires feature in FEATURES
    requires var i := IndexOf(s, FEATURES[feature]); i + 1 < |s| && s[i + 1] in KINDS
    ensures UrlType(s, feature) == Some("." + KINDS[s[IndexOf(s, FEATURES[feature]) + 1]])
  {
    Extensions();
    hide FEATURES, KINDS, EXTENSIONS, IndexOf;
  }

  lemma UrlTypeOfNone(s: string, feature: string)
    requires feature in FEATURES && IndexOf(s, FEATURES[feature]) == |s|
    ensures UrlType(s, feature) == None
  {}

  lemma Extensions()
    ensures EXTENSIONS.Keys == KINDS.Keys && forall k <- KINDS :: EXTENSIONS[k] == "." + KINDS[k]
  {}

  /** A string with two codes for the cover: `url_type` takes the first, the decoder the last. */
  lemma UrlTypeCanDiffer(c: Column)
    ensures Decode(c, "~J~P") == Ok(EMPTY.(fileTypes := map["cover" := "png"]))
    ensures UrlType("~J~P", "char/cover") == Some(".jpg")
  {
    var s, v := "~J~P", Apply(EMPTY, File("cover", "jpg"));
    assert s[2..] == "~P" && "~P"[2..] == "";
    assert DecodeOnto(c, s, EMPTY) == DecodeOnto(c, "~P", v);
    assert DecodeOnto(c, "~P", v) == DecodeOnto(c, "", Apply(v, File("cover", "png")));
    assert IndexOf(s, '~') == 0;
  }
}
