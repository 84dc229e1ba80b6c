/** The text protocol between the web application (weasyl/image.py) and the image worker (badgr/worker.c).

    Byte strings are strings here.  A C string is its characters up to the NUL, none of which is NUL. */
module WorkerProtocol {
  import opened Options
  import opened Splitting
  import opened Decimal
  import opened ImageGeometry

  const NUL: char := '\0'

  // ---------- The worker reads coordinates ----------

  /** `s[i]` for a C string. */
  function At(s: string, i: nat): char
    requires i <= |s|
  {
    if i == |s| then NUL else s[i]
  }

  /** The coordinate that a numeral stands for, or -1. */
  function Coord(s: string): int {
    if Canonical(s) && Number(s) <= 0x7fff then Number(s) else -1
  }

  /** Exactly the decimal representations of 0 to 32767 are accepted, each as its number. */
  lemma CoordCorrect(s: string, n: int)
    requires n != -1
    ensures Coord(s) == n <==> 0 <= n <= 0x7fff && s == Dec(n)
  {
    if 0 <= n && s == Dec(n) {
      DecCanonical(n);
      NumberOfDec(n);
    }
    if Canonical(s) {
      DecOfNumber(s);
    }
  }

  /** `parse_coord`; every `At` is within the string or at its NUL. */
  method ParseCoord(s: string) returns (r: int16)
    requires NUL !in s
    ensures r as int == Coord(s)
  {
    if At(s, 0) == '0' && At(s, 1) == NUL {
      assert s == "0";
      return 0;
    }
    if At(s, 0) < '1' || At(s, 0) > '9' {
      return -1;
    }
    var value: int32 := s[0] as int32 - '0' as int32;
    assert s[..1] == [s[0]];
    for i := 1 to 5
      invariant i <= |s| && AllDigits(s[..i])
      invariant value as int == Number(s[..i]) < Pow10(i)
      invariant i <= 5
    {
      if At(s, i) == NUL {
        assert s[..i] == s;
        Below32767(s, i);
        return value as int16;
      }
      if !Digit(At(s, i)) {
        assert !Digit(s[i]);
        return -1;
      }
      ShortPowers();
      assert s[..i + 1][..i] == s[..i];
      value := value * 10 + (s[i] as int32 - '0' as int32);
    }
    if At(s, 5) != NUL || value > 0x7fff {
      TooLong(s);
      return -1;
    }
    assert s[..5] == s;
    return value as int16;
  }

  lemma ShortPowers()
    ensures Pow10(1) == 10 && Pow10(2) == 100 && Pow10(3) == 1000 && Pow10(4) == 10000 && Pow10(5) == 100000
    ensures Pow10(6) == 1000000
  {}

  lemma Below32767(s: string, i: nat)
    requires AllDigits(s) && |s| == i < 5
    ensures Number(s) <= 0x7fff
  {
    NumberBelow(s);
    ShortPowers();
    assert i == 0 ==> Pow10(i) == 1;
  }

  /** More digits than a coordinate can have, none of them a leading zero. */
  lemma {:induction false} LongNumber(s: string)
    requires AllDigits(s) && |s| >= 1 && s[0] != '0'
    ensures Number(s) >= Pow10(|s| - 1)
  {
    if |s| > 1 {
      assert s[..|s| - 1][0] == s[0];
      LongNumber(s[..|s| - 1]);
    }
  }

  lemma TooLong(s: string)
    requires |s| >= 5 && s[0] != '0' && AllDigits(s[..5]) && (|s| > 5 || Number(s[..5]) > 0x7fff)
    ensures Coord(s) == -1
  {
    if |s| == 5 {
      assert s[..5] == s;
    } else if Canonical(s) {
      LongNumber(s);
      PowersGrow(5, |s| - 1);
      ShortPowers();
    }
  }

  lemma {:induction false} PowersGrow(a: nat, b: nat)
    requires a <= b
    ensures Pow10(a) <= Pow10(b)
    decreases b
  {
    if a < b {
      PowersGrow(a, b - 1);
    }
  }

  // ---------- The worker reads its command line ----------

  const ARGV_MAX := 6

  /** Room for "thumbnail 16384 16384 16384 16384", a line feed and the NUL. */
  const CMDLINE_SIZE := 35

  datatype Start = NoInput | BadCommand | Run(op: Operation, image: string)

  function ParsedCrop(args: seq<string>): Option<Crop<int16>>
    requires |args| == 5
  {
    var x, y, w, h := Coord(args[1]), Coord(args[2]), Coord(args[3]), Coord(args[4]);
    if x >= 0 && y >= 0 && w >= 0 && h >= 0 && (x == y == w == h == 0 || (w != 0 && h != 0)) then
      Some(Crop(x as int16, y as int16, w as int16, h as int16))
    else None
  }

  /** The operation that the arguments after the program name ask for. */
  function Parse(args: seq<string>): (op: Option<Operation>)
    ensures op.Some? && (op.value.Thumbnail? || op.value.Avatar?) ==> Parsed(op.value.crop)
  {
    if args == ["cover"] then Some(Cover)
    else if args == ["avatar-source"] then Some(AvatarSource)
    else if args == ["banner"] then Some(Banner)
    else if |args| == 5 && args[0] == "thumbnail" && ParsedCrop(args).Some? then Some(Thumbnail(ParsedCrop(args).value))
    else if |args| == 5 && args[0] == "avatar" && ParsedCrop(args).Some? then Some(Avatar(ParsedCrop(args).value))
    else None
  }

  /** What `fgets` takes from the input. */
  function Line(input: string): (line: string)
    ensures line <= input && |line| < CMDLINE_SIZE
  {
    var n := if |input| < CMDLINE_SIZE - 1 then |input| else CMDLINE_SIZE - 1;
    var i := IndexOf(input[..n], '\n');
    if i < n then input[..i + 1] else input[..n]
  }

  /** The start of the worker: one line of at most five words, then the image. */
  function Started(input: string): Start {
    if input == "" then NoInput
    else
      var line := Line(input);
      var end := IndexOf(line, '\n');
      if end == |line| || end == 0 || NUL in line[..end] then BadCommand
      else
        var words := Split(line[..end], ' ');
        if |words| >= ARGV_MAX || Parse(words).None? then BadCommand
        else Run(Parse(words).value, input[|line|..])
  }

  /** `parse_args`. */
  method ParseArgs(args: seq<string>) returns (op: Option<Operation>)
    requires forall i :: 0 <= i < |args| ==> NUL !in args[i]
    ensures op == Parse(args)
  {
    if |args| < 1 {
      return None;
    }
    var cmd := args[0];
    if cmd == "cover" {
      return if |args| != 1 then None else Some(Cover);
    }
    if cmd == "avatar-source" {
      return if |args| != 1 then None else Some(AvatarSource);
    }
    if cmd == "banner" {
      return if |args| != 1 then None else Some(Banner);
    }
    var isThumbnail := cmd == "thumbnail";
    if isThumbnail || cmd == "avatar" {
      if |args| != 5 {
        return None;
      }
      var x := ParseCoord(args[1]);
      var y := ParseCoord(args[2]);
      var width := ParseCoord(args[3]);
      var height := ParseCoord(args[4]);
      var crop := Crop(x, y, width, height);
      return
        if x >= 0 && y >= 0 && width >= 0 && height >= 0
           && (crop == Crop(0, 0, 0, 0) || (width != 0 && height != 0))
        then Some(if isThumbnail then Thumbnail(crop) else Avatar(crop))
        else None;
    }
    return None;
  }

  /** `word` lies at `start` in the buffer, ended by a NUL before `limit`. */
  ghost predicate WordAt(buf: seq<char>, start: nat, word: string, limit: nat) {
    && start + |word| < limit <= |buf|
    && buf[start..start + |word|] == word && buf[start + |word|] == NUL && NUL !in word
  }

  /** `strchr`, in a buffer whose C string at `from` ends at `end`. */
  method FindChar(buf: array<char>, from: nat, c: char, ghost end: nat) returns (found: bool, i: nat)
    requires from <= end < buf.Length && c != NUL
    requires buf[end] == NUL && NUL !in buf[from..end]
    ensures found == (c in buf[from..end])
    ensures from <= i <= end && i == from + IndexOf(buf[from..end], c)
  {
    i := from;
    ghost var s := buf[from..end];
    while buf[i] != NUL && buf[i] != c
      invariant from <= i <= end && c !in s[..i - from]
      decreases end - i
    {
      assert i < end;
      assert s[..i + 1 - from] == s[..i - from] + [s[i - from]];
      i := i + 1;
    }
    found := buf[i] != NUL;
    if buf[i] != NUL {
      assert buf[i] == s[i - from] && s[i - from] in s;
    } else {
      assert s[..i - from] == s;
    }
    FirstAt(s, c, i - from);
  }

  lemma FirstAt(s: string, c: char, i: nat)
    requires i <= |s| && c !in s[..i] && (i < |s| ==> s[i] == c)
    ensures IndexOf(s, c) == i
  {}

  /** The arguments found so far lie before `limit`. */
  ghost predicate Words(buf: seq<char>, argv: seq<nat>, words: seq<string>, limit: nat) {
    |words| == |argv| && forall j :: 0 <= j < |argv| ==> WordAt(buf, argv[j], words[j], limit)
  }

  lemma WordsKept(before: seq<char>, after: seq<char>, argv: seq<nat>, words: seq<string>, limit: nat, more: nat)
    requires Words(before, argv, words, limit) && limit <= more <= |after| == |before|
    requires forall k :: 0 <= k < limit <= |before| ==> after[k] == before[k]
    ensures Words(after, argv, words, more)
  {}

  lemma WordsAppend(buf: seq<char>, argv: seq<nat>, words: seq<string>, start: nat, word: string, limit: nat)
    requires Words(buf, argv, words, limit) && WordAt(buf, start, word, limit)
    ensures Words(buf, argv + [start], words + [word], limit)
  {}

  /** One step of the loop: the word at `arg` is cut off at the next space, if there is one. */
  method Cut(buf: array<char>, end: nat, arg: nat, ghost argv: seq<nat>, ghost words: seq<string>)
    returns (found: bool, next: nat, ghost word: string)
    requires arg <= end < buf.Length && buf[end] == NUL && NUL !in buf[arg..end] && Words(buf[..], argv, words, arg)
    modifies buf
    ensures buf[end] == NUL && arg <= next && NUL !in word
    ensures found == (' ' in old(buf[arg..end]))
    ensures var rest := old(buf[arg..end]); word == rest[..IndexOf(rest, ' ')]
    ensures found ==> next == arg + |word| + 1 <= end && buf[next..end] == old(buf[next..end])
    ensures Words(buf[..], argv + [arg], words + [word], if found then next else end + 1)
  {
    hide Words, IndexOf;
    ghost var before, rest := buf[..], buf[arg..end];
    var argEnd;
    found, argEnd := FindChar(buf, arg, ' ', end);
    word := rest[..argEnd - arg];
    if !found {
      NotFound(rest, ' ');
      WordsKept(before, before, argv, words, arg, end + 1);
      assert WordAt(before, arg, word, end + 1);
      WordsAppend(before, argv, words, arg, word, end + 1);
      next := end;
    } else {
      FoundWithin(rest, ' ');
      buf[argEnd] := NUL;
      next := argEnd + 1;
      WordsKept(before, buf[..], argv, words, arg, next);
      assert buf[..][arg..argEnd] == word;
      assert WordAt(buf[..], arg, word, next);
      WordsAppend(buf[..], argv, words, arg, word, next);
    }
  }

  lemma NotFound(s: string, c: char)
    requires c !in s
    ensures IndexOf(s, c) == |s|
  {}

  lemma FoundWithin(s: string, c: char)
    requires c in s
    ensures IndexOf(s, c) < |s|
  {}

  /** The words of the C string at the start of the buffer, cut apart in place; none if there are more than five. */
  method Tokenise(buf: array<char>, end: nat) returns (argv: seq<nat>, ghost words: seq<string>)
    requires end < buf.Length && buf[end] == NUL && NUL !in buf[..end]
    modifies buf
    ensures Words(buf[..], argv, words, end + 1)
    ensures argv == [] <==> |Split(old(buf[..end]), ' ')| >= ARGV_MAX
    ensures argv != [] ==> words == Split(old(buf[..end]), ' ') && |argv| < ARGV_MAX
  {
    hide WordAt, Split, IndexOf;
    ghost var text := buf[..end];
    argv, words := [], [];
    var arg := 0;
    assert buf[0..end] == text[0..] == text;
    while true
      invariant arg <= end && |argv| < ARGV_MAX - 1
      invariant buf[end] == NUL && buf[arg..end] == text[arg..]
      invariant words + Split(text[arg..], ' ') == Split(text, ' ')
      invariant Words(buf[..], argv, words, arg)
      decreases end - arg
    {
      ghost var rest := text[arg..];
      NoNulLater(text, arg);
      var found, next;
      ghost var word;
      ghost var before := words;
      found, next, word := Cut(buf, end, arg, argv, words);
      argv, words := argv + [arg], words + [word];
      if !found {
        LastWord(rest, ' ');
        assert word == rest;
        return;
      }
      NextWord(rest, ' ');
      assert rest[next - arg..] == text[next..];
      assert buf[next..end] == text[next..];
      WordsThen(before, word, Split(text[next..], ' '));
      arg := next;
      if |argv| + 1 == ARGV_MAX {
        assert |words + Split(text[arg..], ' ')| >= ARGV_MAX;
        assert |Split(text, ' ')| >= ARGV_MAX && text == old(buf[..end]);
        argv, words := [], [];
        return;
      }
    }
  }

  lemma WordsThen(before: seq<string>, word: string, rest: seq<string>)
    ensures before + ([word] + rest) == (before + [word]) + rest
  {}

  lemma NoNulLater(text: string, from: nat)
    requires from <= |text| && NUL !in text
    ensures NUL !in text[from..]
  {}

  lemma LastWord(s: string, c: char)
    requires c !in s
    ensures Split(s, c) == [s] && IndexOf(s, c) == |s|
  {}

  lemma NextWord(s: string, c: char)
    requires c in s
    ensures var i := IndexOf(s, c); i < |s| && Split(s, c) == [s[..i]] + Split(s[i + 1..], c)
  {}

  /** The characters of a C string in the buffer. */
  method ReadWord(buf: array<char>, start: nat, ghost word: string, ghost limit: nat) returns (s: string)
    requires WordAt(buf[..], start, word, limit)
    ensures s == word
  {
    var i := start;
    while buf[i] != NUL
      invariant start <= i <= start + |word|
      decreases start + |word| - i
    {
      assert buf[i] == buf[..][start..start + |word|][i - start];
      i := i + 1;
    }
    assert forall k :: 0 <= k < |word| ==> buf[..][start..start + |word|][k] == word[k] && word[k] in word;
    return buf[start..i];
  }

  lemma LineFeedInCString(line: string, stop: nat)
    requires stop == IndexOf(line, NUL)
    ensures var end := IndexOf(line, '\n');
            && ('\n' in line[..stop] <==> end < |line| && NUL !in line[..end])
            && ('\n' in line[..stop] ==> end < stop && IndexOf(line[..stop], '\n') == end)
  {
    var end, cut := IndexOf(line, '\n'), line[..stop];
    if '\n' in cut {
      var k :| 0 <= k < |cut| && cut[k] == '\n';
      assert line[k] == '\n';
      assert end <= k < stop;
      assert forall j :: 0 <= j < end ==> line[..end][j] == line[j] && cut[j] == line[j];
      FirstAt(cut, '\n', end);
    }
  }

  /** The arguments as strings. */
  method ReadWords(buf: array<char>, argv: seq<nat>, ghost words: seq<string>, ghost limit: nat)
    returns (args: seq<string>)
    requires Words(buf[..], argv, words, limit)
    ensures args == words && forall i :: 0 <= i < |args| ==> NUL !in args[i]
  {
    args := [];
    for i := 0 to |argv|
      invariant args == words[..i]
    {
      assert WordAt(buf[..], argv[i], words[i], limit);
      var word := ReadWord(buf, argv[i], words[i], limit);
      args := args + [word];
    }
    assert words[..|argv|] == words;
    forall i | 0 <= i < |args| ensures NUL !in args[i] {
      assert WordAt(buf[..], argv[i], words[i], limit);
    }
  }

  /** `main`, until it has the operation. */
  method Begin(input: string) returns (r: Start)
    ensures r == Started(input)
  {
    hide IndexOf, Split, Parse, Words;
    if input == "" {
      return NoInput;
    }
    var line := Line(input);
    var buf := new char[CMDLINE_SIZE](i => if 0 <= i < |line| then line[i] else NUL);
    ghost var stop := IndexOf(line, NUL);
    assert buf[..|line|] == line;
    assert buf[0..stop] == line[..stop];
    assert buf[stop] == NUL;
    assert NUL !in line[..stop] by { NoneBefore(line, NUL); }
    LineFeedInCString(line, stop);
    var found, end := FindChar(buf, 0, '\n', stop);
    if !found || end == 0 {
      return BadCommand;
    }
    buf[end] := NUL;
    assert buf[..end] == line[..end];
    var argv, words := Tokenise(buf, end);
    if argv == [] {
      return BadCommand;
    }
    var args := ReadWords(buf, argv, words, end + 1);
    var op := ParseArgs(args);
    if op.None? {
      return BadCommand;
    }
    return Run(op.value, input[|line|..]);
  }

  lemma NoneBefore(s: string, c: char)
    ensures c !in s[..IndexOf(s, c)]
  {}

  // ---------- The client asks ----------

  /** `create_crop`: a crop that does not make sense is sent as no crop. */
  function CropWords(op: string, x1: int, y1: int, x2: int, y2: int): seq<string> {
    if 0 <= x1 < x2 <= 0x3fff && 0 <= y1 < y2 <= 0x3fff then [op, Dec(x1), Dec(y1), Dec(x2 - x1), Dec(y2 - y1)]
    else [op, Dec(0), Dec(0), Dec(0), Dec(0)]
  }

  function CropCommand(op: string, x1: int, y1: int, x2: int, y2: int): string {
    Join(CropWords(op, x1, y1, x2, y2), ' ') + "\n"
  }

  /** The crop that the client means. */
  function IntendedCrop(x1: int, y1: int, x2: int, y2: int): Crop<int> {
    if 0 <= x1 < x2 <= 0x3fff && 0 <= y1 < y2 <= 0x3fff then Crop(x1, y1, x2 - x1, y2 - y1) else NO_CROP
  }

  lemma {:induction false} JoinHasNo(parts: seq<string>, c: char, x: char)
    requires parts != [] && x != c && forall i :: 0 <= i < |parts| ==> x !in parts[i]
    ensures x !in Join(parts, c)
  {
    if |parts| > 1 {
      JoinHasNo(parts[1..], c, x);
    }
  }

  lemma LineOf(text: string, image: string)
    requires '\n' !in text && |text| < CMDLINE_SIZE - 1
    ensures Line(text + "\n" + image) == text + "\n"
    ensures IndexOf(text + "\n", '\n') == |text|
  {
    var input := text + "\n" + image;
    var n := if |input| < CMDLINE_SIZE - 1 then |input| else CMDLINE_SIZE - 1;
    IndexOfFirst(text, '\n', image[..n - |text| - 1]);
    assert input[..n] == text + ['\n'] + image[..n - |text| - 1];
    assert input[..|text| + 1] == text + "\n";
    IndexOfFirst(text, '\n', "");
    assert text + ['\n'] + "" == text + "\n";
  }

  ghost predicate PlainWord(word: string) {
    ' ' !in word && '\n' !in word && NUL !in word
  }

  /** A line of words that the worker understands reaches it as those words. */
  lemma WordsArrive(words: seq<string>, image: string)
    requires 0 < |words| < ARGV_MAX && (forall i :: 0 <= i < |words| ==> PlainWord(words[i]))
    requires 0 < |Join(words, ' ')| < CMDLINE_SIZE - 1 && Parse(words).Some?
    ensures Started(Join(words, ' ') + "\n" + image) == Run(Parse(words).value, image)
  {
    hide Parse, Split, Join, Line;
    var text := Join(words, ' ');
    SplitJoin(words, ' ');
    JoinHasNo(words, ' ', '\n');
    JoinHasNo(words, ' ', NUL);
    LineOf(text, image);
    assert (text + "\n")[..|text|] == text;
    assert (text + "\n" + image)[|text| + 1..] == image;
  }

  lemma DecIsPlain(n: nat)
    ensures PlainWord(Dec(n))
  {}

  lemma CropLength(op: string, a: nat, b: nat, c: nat, d: nat)
    requires a <= 0x3fff && b <= 0x3fff && c <= 0x3fff && d <= 0x3fff
    ensures |op| < |Join([op, Dec(a), Dec(b), Dec(c), Dec(d)], ' ')| <= |op| + 24
  {
    ShortPowers();
    DecLength(a, 5);
    DecLength(b, 5);
    DecLength(c, 5);
    DecLength(d, 5);
    JoinFive(op, Dec(a), Dec(b), Dec(c), Dec(d));
  }

  lemma JoinFive(a: string, b: string, c: string, d: string, e: string)
    ensures |Join([a, b, c, d, e], ' ')| == |a| + |b| + |c| + |d| + |e| + 4
  {
    assert [a, b, c, d, e][1..] == [b, c, d, e] && [b, c, d, e][1..] == [c, d, e];
    assert [c, d, e][1..] == [d, e] && [d, e][1..] == [e];
    assert Join([d, e], ' ') == d + [' '] + e;
    assert Join([c, d, e], ' ') == c + [' '] + Join([d, e], ' ');
    assert Join([b, c, d, e], ' ') == b + [' '] + Join([c, d, e], ' ');
  }

  lemma CoordOfDec(n: nat)
    requires n <= 0x7fff
    ensures Coord(Dec(n)) == n
  {
    CoordCorrect(Dec(n), n);
  }

  lemma CropOfCoords(args: seq<string>, a: nat, b: nat, c: nat, d: nat)
    requires a <= 0x3fff && b <= 0x3fff && c <= 0x3fff && d <= 0x3fff
    requires a == b == c == d == 0 || (c != 0 && d != 0)
    requires |args| == 5 && Coord(args[1]) == a && Coord(args[2]) == b && Coord(args[3]) == c && Coord(args[4]) == d
    ensures ParsedCrop(args) == Some(Crop(a as int16, b as int16, c as int16, d as int16))
  {}

  lemma CropParsed(args: seq<string>, a: nat, b: nat, c: nat, d: nat)
    requires a <= 0x3fff && b <= 0x3fff && c <= 0x3fff && d <= 0x3fff
    requires a == b == c == d == 0 || (c != 0 && d != 0)
    requires |args| == 5 && args[1] == Dec(a) && args[2] == Dec(b) && args[3] == Dec(c) && args[4] == Dec(d)
    ensures ParsedCrop(args) == Some(Crop(a as int16, b as int16, c as int16, d as int16))
  {
    hide *;
    CoordOfDec(a);
    CoordOfDec(b);
    CoordOfDec(c);
    CoordOfDec(d);
    CropOfCoords(args, a, b, c, d);
  }

  /** Whatever numbers a crop is asked for with, the worker starts on the crop that was meant, or on none. */
  lemma CropArrives(thumbnail: bool, x1: int, y1: int, x2: int, y2: int, image: string)
    ensures var r := Started(CropCommand(if thumbnail then "thumbnail" else "avatar", x1, y1, x2, y2) + image);
            && r.Run? && r.image == image
            && (if thumbnail then r.op.Thumbnail? else r.op.Avatar?)
            && Int(r.op.crop) == IntendedCrop(x1, y1, x2, y2)
  {
    hide Join, Dec, Coord;
    var op := if thumbnail then "thumbnail" else "avatar";
    var c := IntendedCrop(x1, y1, x2, y2);
    var words := [op, Dec(c.x), Dec(c.y), Dec(c.width), Dec(c.height)];
    assert words == CropWords(op, x1, y1, x2, y2);
    CropLength(op, c.x, c.y, c.width, c.height);
    CropParsed(words, c.x, c.y, c.width, c.height);
    DecIsPlain(c.x);
    DecIsPlain(c.y);
    DecIsPlain(c.width);
    DecIsPlain(c.height);
    assert PlainWord(op);
    WordsArrive(words, image);
  }

  /** The commands without numbers. */
  lemma FixedCommandArrives(word: string, image: string)
    requires word in {"cover", "avatar-source", "banner"}
    ensures Started(word + "\n" + image)
         == Run(if word == "cover" then Cover else if word == "banner" then Banner else AvatarSource, image)
  {
    hide Started, Line, Split;
    assert PlainWord(word);
    WordsArrive([word], image);
  }

  // ---------- What the worker starts on ----------

  predicate Sendable(op: Operation) {
    op.Thumbnail? || op.Avatar? ==> Parsed(op.crop)
  }

  function CropArguments(c: Crop<int16>): seq<string>
    requires Parsed(c)
  {
    [Dec(c.x as int), Dec(c.y as int), Dec(c.width as int), Dec(c.height as int)]
  }

  function CommandWords(op: Operation): (words: seq<string>)
    requires Sendable(op)
    ensures 0 < |words| < ARGV_MAX
  {
    match op
    case Cover => ["cover"]
    case AvatarSource => ["avatar-source"]
    case Banner => ["banner"]
    case Thumbnail(c) => ["thumbnail"] + CropArguments(c)
    case Avatar(c) => ["avatar"] + CropArguments(c)
  }

  lemma ParsedCropExactly(args: seq<string>, c: Crop<int16>)
    requires |args| == 5
    ensures ParsedCrop(args) == Some(c) <==> Parsed(c) && args[1..] == CropArguments(c)
  {
    hide Coord, Dec;
    if ParsedCrop(args) == Some(c) {
      CoordCorrect(args[1], c.x as int);
      CoordCorrect(args[2], c.y as int);
      CoordCorrect(args[3], c.width as int);
      CoordCorrect(args[4], c.height as int);
    }
    if Parsed(c) && args[1..] == CropArguments(c) {
      CoordOfDec(c.x as int);
      CoordOfDec(c.y as int);
      CoordOfDec(c.width as int);
      CoordOfDec(c.height as int);
      assert forall i :: 1 <= i < 5 ==> args[i] == args[1..][i - 1];
    }
  }

  /** Each operation has one command. */
  lemma ParseExactly(words: seq<string>, op: Operation)
    ensures Parse(words) == Some(op) <==> Sendable(op) && words == CommandWords(op)
  {
    hide ParsedCrop, CropArguments, Parsed;
    if |words| == 5 && (op.Thumbnail? || op.Avatar?) {
      ParsedCropExactly(words, op.crop);
      assert words == [words[0]] + words[1..];
    }
    if Sendable(op) && (op.Thumbnail? || op.Avatar?) {
      assert |CropArguments(op.crop)| == 4 by { FourArguments(op.crop); }
    }
  }

  lemma FourArguments(c: Crop<int16>)
    requires Parsed(c)
    ensures |CropArguments(c)| == 4 && forall i :: 0 <= i < 4 ==> PlainWord(CropArguments(c)[i])
  {
    hide Dec, PlainWord;
    DecIsPlain(c.x as int);
    DecIsPlain(c.y as int);
    DecIsPlain(c.width as int);
    DecIsPlain(c.height as int);
  }

  lemma CommandIsPlain(op: Operation)
    requires Sendable(op)
    ensures forall i :: 0 <= i < |CommandWords(op)| ==> PlainWord(CommandWords(op)[i])
  {
    hide CropArguments, Parsed;
    match op
    case Thumbnail(c) => FourArguments(c);
    case Avatar(c) => FourArguments(c);
    case _ =>
  }

  lemma LineEnds(input: string)
    ensures var line := Line(input);
            IndexOf(line, '\n') < |line| ==> line == line[..IndexOf(line, '\n')] + "\n"
  {}

  lemma StartedOn(input: string, op: Operation, image: string) returns (words: seq<string>)
    requires Started(input) == Run(op, image)
    ensures Parse(words) == Some(op)
    ensures input == Join(words, ' ') + "\n" + image && |Join(words, ' ')| < CMDLINE_SIZE - 1
  {
    hide Parse, Line, Split, Join;
    var line := Line(input);
    var end := IndexOf(line, '\n');
    LineEnds(input);
    words := Split(line[..end], ' ');
    JoinSplit(line[..end], ' ');
    assert input == line + image;
  }

  /** The worker starts exactly on the line that is the command of an operation and fits its buffer, and takes the rest
      for the image. */
  lemma StartsExactly(input: string, op: Operation, image: string)
    ensures Started(input) == Run(op, image) <==>
              && Sendable(op) && |Join(CommandWords(op), ' ')| <= |"thumbnail 16384 16384 16384 16384"|
              && input == Join(CommandWords(op), ' ') + "\n" + image
  {
    hide Started, Parse, CommandWords, Sendable, Join, PlainWord;
    if Started(input) == Run(op, image) {
      var words := StartedOn(input, op, image);
      ParseExactly(words, op);
    }
    if Sendable(op) && |Join(CommandWords(op), ' ')| < CMDLINE_SIZE - 1
       && input == Join(CommandWords(op), ' ') + "\n" + image
    {
      ParseExactly(CommandWords(op), op);
      CommandIsPlain(op);
      NotEmpty(op);
      WordsArrive(CommandWords(op), image);
    }
  }

  lemma NotEmpty(op: Operation)
    requires Sendable(op)
    ensures Join(CommandWords(op), ' ') != ""
  {
    hide CropArguments, Parsed;
  }

  // ---------- The worker answers ----------

  const TERMINATOR := "\n--END--\n"

  datatype Answer = Answer(
    originalFormat: string, originalWidth: nat, originalHeight: nat,
    outputFormat: string, outputWidth: nat, outputHeight: nat,
    output: string)

  const HEADERS :=
    ["original_format=", "original_width=", "original_height=", "output_format=", "output_width=", "output_height="]

  function PrintFields(headers: seq<string>, values: seq<string>, rest: string): string
    requires |headers| == |values|
  {
    if headers == [] then rest
    else headers[0] + values[0] + "\n" + PrintFields(headers[1..], values[1..], rest)
  }

  /** What the worker prints. */
  function Print(a: Answer): string {
    PrintFields(HEADERS, Values(a), "\n" + a.output + TERMINATOR)
  }

  const FORMATS := {"GIF", "JPEG", "PNG", "WEBP"}

  /** The dimensions that `_check_dim` lets through have one to five digits. */
  ghost predicate Printable(a: Answer) {
    && a.originalFormat in FORMATS && a.outputFormat in FORMATS
    && 0 < a.originalWidth < 100000 && 0 < a.originalHeight < 100000
    && 0 < a.outputWidth < 100000 && 0 < a.outputHeight < 100000
  }

  datatype Received = UnsupportedFormat | RuntimeError | Ok(answer: Answer)

  /** `readline(limit)`. */
  function ReadLine(s: string, limit: nat): (line: string)
    ensures line <= s
  {
    var n := if |s| < limit then |s| else limit;
    var i := IndexOf(s[..n], '\n');
    if i < n then s[..i + 1] else s[..n]
  }

  /** `_expect_header`: the value on a line, without the line feed. */
  function ExpectHeader(header: string, line: string): Option<string> {
    if header <= line && |line| > 0 && line[|line| - 1] == '\n' && |line| > |header| then
      Some(line[|header|..|line| - 1])
    else None
  }

  /** `_check_dim`. */
  function CheckDim(s: string): Option<nat> {
    if 1 <= |s| <= 5 && AllDigits(s) && s[0] != '0' then Some(Number(s)) else None
  }

  lemma CheckDimCorrect(s: string, n: nat)
    ensures CheckDim(s) == Some(n) <==> 0 < n < 100000 && s == Dec(n)
  {
    ShortPowers();
    if 0 < n < 100000 && s == Dec(n) {
      DecCanonical(n);
      NumberOfDec(n);
      DecLength(n, 5);
    }
    if CheckDim(s) == Some(n) {
      DecOfNumber(s);
      NumberBelow(s);
      PowersGrow(|s|, 5);
      PositiveNumber(s);
    }
  }

  const LINE_LIMIT := 32

  /** One header line: its value, and the input after it. */
  function ReadField(s: string, header: string, limit: nat): Option<(string, string)> {
    var line := ReadLine(s, limit);
    match ExpectHeader(header, line)
    case None => None
    case Some(value) => Some((value, s[|line|..]))
  }

  lemma ReadLineShort(line: string, rest: string, limit: nat)
    requires '\n' !in line && |line| < limit
    ensures ReadLine(line + "\n" + rest, limit) == line + "\n"
  {
    var s := line + "\n" + rest;
    var n := if |s| < limit then |s| else limit;
    assert s[..n] == line + ['\n'] + rest[..n - |line| - 1];
    IndexOfFirst(line, '\n', rest[..n - |line| - 1]);
    assert s[..|line| + 1] == line + "\n";
  }

  lemma ReadLineEnds(s: string, limit: nat)
    ensures var line := ReadLine(s, limit);
            line != "" && line[|line| - 1] == '\n' ==> '\n' !in line[..|line| - 1] && |line| <= limit
  {}

  /** A header line is read exactly from where it is printed. */
  lemma ReadFieldExact(s: string, header: string, limit: nat, value: string, rest: string)
    requires '\n' !in header
    ensures ReadField(s, header, limit) == Some((value, rest))
            <==> s == header + value + "\n" + rest && '\n' !in value && |header| + |value| < limit
  {
    hide ReadLine;
    if s == header + value + "\n" + rest && '\n' !in value && |header| + |value| < limit {
      ReadLineShort(header + value, rest, limit);
      assert ReadLine(s, limit) == header + value + "\n";
      assert (header + value + "\n")[|header|..|header| + |value|] == value;
      assert s[|header| + |value| + 1..] == rest;
    }
    if ReadField(s, header, limit) == Some((value, rest)) {
      var line := ReadLine(s, limit);
      ReadLineEnds(s, limit);
      assert line == header + value + "\n";
      assert value == line[..|line| - 1][|header|..];
      assert s == line + rest;
    }
  }

  /** The header lines one after another; the first may have any length. */
  function ReadFields(s: string, headers: seq<string>, limit: nat): Option<(seq<string>, string)>
    decreases |headers|
  {
    if headers == [] then Some(([], s))
    else
      match ReadField(s, headers[0], limit)
      case None => None
      case Some((value, rest)) =>
        match ReadFields(rest, headers[1..], LINE_LIMIT)
        case None => None
        case Some((values, end)) => Some(([value] + values, end))
  }

  ghost predicate Fitting(headers: seq<string>, values: seq<string>) {
    && |values| == |headers|
    && forall i :: 0 <= i < |values| ==> '\n' !in values[i] && |headers[i]| + |values[i]| < LINE_LIMIT
  }

  lemma FittingTail(headers: seq<string>, values: seq<string>)
    requires Fitting(headers, values) && headers != []
    ensures Fitting(headers[1..], values[1..])
    ensures '\n' !in values[0] && |headers[0]| + |values[0]| < LINE_LIMIT
  {}

  lemma {:induction false} ReadPrinted(s: string, headers: seq<string>, limit: nat, values: seq<string>, end: string)
    requires forall i :: 0 <= i < |headers| ==> '\n' !in headers[i]
    requires Fitting(headers, values) && s == PrintFields(headers, values, end)
    requires limit == LINE_LIMIT || limit == |s|
    ensures ReadFields(s, headers, limit) == Some((values, end))
    decreases |headers|
  {
    if headers != [] {
      hide ReadField;
      var rest := PrintFields(headers[1..], values[1..], end);
      assert s == headers[0] + values[0] + "\n" + rest;
      FittingTail(headers, values);
      ReadFieldExact(s, headers[0], limit, values[0], rest);
      hide PrintFields, Fitting;
      ReadPrinted(rest, headers[1..], LINE_LIMIT, values[1..], end);
      assert [values[0]] + values[1..] == values;
    }
  }

  lemma {:induction false} PrintedIfRead(s: string, headers: seq<string>, limit: nat)
    requires forall i :: 0 <= i < |headers| ==> '\n' !in headers[i]
    requires ReadFields(s, headers, limit).Some?
    ensures var (values, end) := ReadFields(s, headers, limit).value;
            |values| == |headers| && s == PrintFields(headers, values, end)
    decreases |headers|
  {
    if headers != [] {
      hide ReadField;
      var (value, rest) := ReadField(s, headers[0], limit).value;
      ReadFieldExact(s, headers[0], limit, value, rest);
      PrintedIfRead(rest, headers[1..], LINE_LIMIT);
      var (values, end) := ReadFields(rest, headers[1..], LINE_LIMIT).value;
      assert ([value] + values)[1..] == values;
    }
  }

  /** The rest of the stream after the headers. */
  function Payload(s: string): Option<string> {
    if |s| > |TERMINATOR| && s[0] == '\n' && s[|s| - |TERMINATOR|..] == TERMINATOR then
      Some(s[1..|s| - |TERMINATOR|])
    else None
  }

  function Checked(values: seq<string>, end: string): Received
    requires |values| == 6
  {
    var w, h, ow, oh := CheckDim(values[1]), CheckDim(values[2]), CheckDim(values[4]), CheckDim(values[5]);
    if && values[0] in FORMATS && w.Some? && h.Some? && values[3] in FORMATS && ow.Some? && oh.Some?
       && Payload(end).Some?
    then
      Ok(Answer(values[0], w.value, h.value, values[3], ow.value, oh.value, Payload(end).value))
    else RuntimeError
  }

  /** `_create`, from the first line of the answer on. */
  function Receive(s: string): Received {
    var firstLine := ReadLine(s, |s|);
    if "error=" <= firstLine then
      if firstLine == "error=unsupported-format\n" then UnsupportedFormat else RuntimeError
    else
      match ReadFields(s, HEADERS, |s|)
      case None => RuntimeError
      case Some((values, end)) => if |values| == 6 then Checked(values, end) else RuntimeError
  }

  /** The client understands exactly what the worker prints, and recovers it whole. */
  lemma AnswerArrives(s: string, a: Answer)
    ensures Receive(s) == Ok(a) <==> Printable(a) && s == Print(a)
  {
    if Printable(a) && s == Print(a) {
      PrintedIsReceived(a);
    }
    if Receive(s) == Ok(a) {
      ReceivedWasPrinted(s, a);
    }
  }

  /** The client reports an unsupported format exactly if the first line says so. */
  lemma UnsupportedExactly(s: string)
    ensures Receive(s) == UnsupportedFormat <==> "error=unsupported-format\n" <= s
  {
    var error := "error=unsupported-format";
    hide ReadFields, ReadLine, CheckDim, Payload;
    assert ReadLine(s, |s|) == error + "\n" ==> error + "\n" <= s;
    if error + "\n" <= s {
      var rest := s[|error| + 1..];
      assert s == error + "\n" + rest;
      ReadLineShort(error, rest, |s|);
    }
  }

  function Values(a: Answer): seq<string> {
    [a.originalFormat, Dec(a.originalWidth), Dec(a.originalHeight),
     a.outputFormat, Dec(a.outputWidth), Dec(a.outputHeight)]
  }

  lemma ValuesFit(a: Answer)
    requires Printable(a)
    ensures Fitting(HEADERS, Values(a))
  {
    hide Dec;
    ShortPowers();
    DecLength(a.originalWidth, 5);
    DecLength(a.originalHeight, 5);
    DecLength(a.outputWidth, 5);
    DecLength(a.outputHeight, 5);
    DecIsPlain(a.originalWidth);
    DecIsPlain(a.originalHeight);
    DecIsPlain(a.outputWidth);
    DecIsPlain(a.outputHeight);
  }

  lemma FirstLineIsNoError(a: Answer)
    ensures !("error=" <= ReadLine(Print(a), |Print(a)|))
  {}

  lemma PayloadIsKept(output: string)
    ensures Payload("\n" + output + TERMINATOR) == Some(output)
  {}

  lemma ValuesAreChecked(a: Answer)
    requires Printable(a)
    ensures Checked(Values(a), "\n" + a.output + TERMINATOR) == Ok(a)
  {
    PayloadIsKept(a.output);
    CheckDimCorrect(Dec(a.originalWidth), a.originalWidth);
    CheckDimCorrect(Dec(a.originalHeight), a.originalHeight);
    CheckDimCorrect(Dec(a.outputWidth), a.outputWidth);
    CheckDimCorrect(Dec(a.outputHeight), a.outputHeight);
    hide CheckDim, Dec, Payload;
  }

  lemma PrintIsFields(a: Answer)
    ensures |Values(a)| == |HEADERS| == 6
    ensures Print(a) == PrintFields(HEADERS, Values(a), "\n" + a.output + TERMINATOR)
  {}

  lemma ReceiveReads(s: string, values: seq<string>, end: string)
    requires !("error=" <= ReadLine(s, |s|))
    requires |values| == 6 && ReadFields(s, HEADERS, |s|) == Some((values, end))
    ensures Receive(s) == Checked(values, end)
  {
    hide ReadFields, ReadLine, Checked;
  }

  lemma PrintedIsReceived(a: Answer)
    requires Printable(a)
    ensures Receive(Print(a)) == Ok(a)
  {
    hide *;
    var s, end, values := Print(a), "\n" + a.output + TERMINATOR, Values(a);
    assert Fitting(HEADERS, values) by { ValuesFit(a); }
    assert !("error=" <= ReadLine(s, |s|)) by { FirstLineIsNoError(a); }
    assert |values| == |HEADERS| == 6 by { PrintIsFields(a); }
    assert s == PrintFields(HEADERS, values, end) by { PrintIsFields(a); }
    assert ReadFields(s, HEADERS, |s|) == Some((values, end)) by {
      HeadersPlain();
      ReadPrinted(s, HEADERS, |s|, values, end);
    }
    ReceiveReads(s, values, end);
    ValuesAreChecked(a);
  }

  lemma ReceivedWasPrinted(s: string, a: Answer)
    requires Receive(s) == Ok(a)
    ensures Printable(a) && s == Print(a)
  {
    hide ReadFields, PrintFields, CheckDim;
    HeadersPlain();
    PrintedIfRead(s, HEADERS, |s|);
    var (values, end) := ReadFields(s, HEADERS, |s|).value;
    CheckDimCorrect(values[1], a.originalWidth);
    CheckDimCorrect(values[2], a.originalHeight);
    CheckDimCorrect(values[4], a.outputWidth);
    CheckDimCorrect(values[5], a.outputHeight);
    assert end == "\n" + a.output + TERMINATOR;
    assert values == Values(a);
  }

  lemma HeadersPlain()
    ensures forall i :: 0 <= i < |HEADERS| ==> '\n' !in HEADERS[i]
  {}
}
