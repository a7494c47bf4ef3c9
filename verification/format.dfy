/**
  The text of one log line: colour escape, bracketed level tag, reset
  escape, message, each argument after one space, then " file:line" and the
  newline written by `std::endl`. `ParseLine` reads such a line back.
 */
module Format {

  import opened Options
  import opened Decimal
  import opened Levels

  /** The ANSI escape character that starts every colour sequence. */
  const Esc: char := 27 as char

  /**
    The Select Graphic Rendition control sequence with parameter `code`
    (section 8.3.117 of ECMA-48): escape, '[', the code, 'm'.
   */
  function Sgr(code: string): (r: string)
    ensures |r| == |code| + 3
    ensures r[0] == Esc && r[1] == '[' && r[|r| - 1] == 'm'
    ensures r[2..|r| - 1] == code
  {
    [Esc] + "[" + code + "m"
  }

  const Reset: string := Sgr("0")
  const Gray: string := Sgr("90")
  const Blue: string := Sgr("34")
  const Red: string := Sgr("31")
  const Yellow: string := Sgr("33")
  const Green: string := Sgr("32")

  /** The colour each entry point passes for its level. */
  function ColourOf(l: Level): (r: string)
    ensures |r| == 5 && r[0] == Esc && r[|r| - 1] == 'm'
    ensures r != Reset
  {
    match l
    case Trace => Gray
    case Debug => Blue
    case Info => Green
    case Warning => Yellow
    case Error => Red
  }

  /** The three-letter tag each entry point passes for its level. */
  function TagOf(l: Level): (r: string)
    ensures |r| == 3
    ensures ']' !in r && '\n' !in r
  {
    match l
    case Trace => "TRC"
    case Debug => "DBG"
    case Info => "NFO"
    case Warning => "WRN"
    case Error => "ERR"
  }

  /** Two levels share a tag only when they are the same level. */
  lemma TagsDistinct(l: Level, m: Level)
    ensures TagOf(l) == TagOf(m) <==> l == m
  {
  }

  /** Two levels share a colour only when they are the same level. */
  lemma ColoursDistinct(l: Level, m: Level)
    ensures ColourOf(l) == ColourOf(m) <==> l == m
  {
  }

  /** Everything written before the message. */
  function Header(colour: string, tag: string): (r: string)
  {
    colour + "[" + tag + "] " + Reset
  }

  function HeaderOf(l: Level): (r: string)
  {
    Header(ColourOf(l), TagOf(l))
  }

  /** Offset, within the argument text, of the space written before argument `i`. */
  function Start(args: seq<string>, i: nat): (offset: nat)
    requires i <= |args|
  {
    if i == 0 then 0 else Start(args, i - 1) + 1 + |args[i - 1]|
  }

  /**
    What the fold over the argument pack writes: each argument, in call
    order, after one space.
   */
  function ArgsText(args: seq<string>): (r: string)
    ensures |r| == Start(args, |args|)
    ensures (forall k :: 0 <= k < |args| ==> '\n' !in args[k]) ==> '\n' !in r
    decreases |args|
  {
    if args == [] then ""
    else
      StartOfPrefix(args, |args| - 1, |args| - 1);
      ArgsText(args[..|args| - 1]) + " " + args[|args| - 1]
  }

  /**
    The line `log` writes for one emitted call, given the colour and tag its
    entry point passed.
   */
  function Compose(colour: string, tag: string, message: string, args: seq<string>,
                   file: string, line: int32): (r: string)
    ensures |Header(colour, tag)| < |r| && r[..|Header(colour, tag)|] == Header(colour, tag)
    ensures r[|r| - 1] == '\n'
  {
    var h := Header(colour, tag);
    var t := message + ArgsText(args) + " " + file + ":" + IntToString(line as int);
    SplitLine(h, t);
    h + t + "\n"
  }

  /** With no arguments the message is followed directly by " file:line". */
  lemma ComposeWithoutArguments(colour: string, tag: string, message: string, file: string, line: int32)
    ensures Compose(colour, tag, message, [], file, line)
            == Header(colour, tag) + message + " " + file + ":" + IntToString(line as int) + "\n"
  {
    assert ArgsText([]) == "";
    assert message + ArgsText([]) == message;
  }

  /**
    When none of the pieces holds a newline, the composed line holds exactly
    one, at its end: one call writes one whole line.
   */
  lemma ComposedLineIsOneLine(colour: string, tag: string, message: string, args: seq<string>,
                              file: string, line: int32)
    requires '\n' !in colour && '\n' !in tag && '\n' !in message && '\n' !in file
    requires forall k :: 0 <= k < |args| ==> '\n' !in args[k]
    ensures var r := Compose(colour, tag, message, args, file, line);
      r[|r| - 1] == '\n' && '\n' !in r[..|r| - 1]
  {
    var h := Header(colour, tag);
    var t := message + ArgsText(args) + " " + file + ":" + IntToString(line as int);
    assert '\n' !in Reset;
    assert '\n' !in h;
    assert '\n' !in ArgsText(args);
    assert '\n' !in t;
    SplitLine(h, t);
  }

  lemma SplitLine(h: string, t: string)
    ensures (h + t + "\n")[..|h|] == h
    ensures (h + t + "\n")[..|h + t + "\n"| - 1] == h + t
  {
    assert (h + t + "\n")[..|h|] == h;
    assert (h + t + "\n")[..|h + t|] == h + t;
  }

  lemma {:induction false} StartOfPrefix(args: seq<string>, k: nat, i: nat)
    requires i <= k <= |args|
    ensures Start(args[..k], i) == Start(args, i)
    decreases i
  {
    if i > 0 {
      StartOfPrefix(args, k, i - 1);
      assert args[..k][i - 1] == args[i - 1];
    }
  }

  /** Argument `i` sits at its offset, after exactly one space, in call order. */
  lemma {:induction false} ArgsInOrder(args: seq<string>, i: nat)
    requires i < |args|
    ensures Start(args, i) + 1 + |args[i]| <= |ArgsText(args)|
    ensures ArgsText(args)[Start(args, i)] == ' '
    ensures ArgsText(args)[Start(args, i) + 1 .. Start(args, i) + 1 + |args[i]|] == args[i]
    decreases |args|
  {
    var n := |args| - 1;
    var init := args[..n];
    var t := ArgsText(init);
    var whole := ArgsText(args);
    assert whole == t + " " + args[n];
    StartOfPrefix(args, n, i);
    var a := Start(args, i);
    var b := a + 1 + |args[i]|;
    if i == n {
      assert a == |t|;
      assert whole[a] == ' ';
      assert whole[a + 1..b] == args[n];
    } else {
      ArgsInOrder(init, i);
      assert init[i] == args[i];
      assert b <= |t|;
      assert whole[a] == t[a];
      assert whole[a + 1..b] == t[a + 1..b];
    }
  }

  /** The position of the last `c` in `s`, if any. */
  function LastIndexOf(s: string, c: char): (r: Option<nat>)
    ensures r.None? ==> c !in s
    ensures r.Some? ==> r.value < |s| && s[r.value] == c && c !in s[r.value + 1..]
    decreases |s|
  {
    if |s| == 0 then None
    else if s[|s| - 1] == c then Some(|s| - 1)
    else
      var r := LastIndexOf(s[..|s| - 1], c);
      assert r.Some? ==> s[r.value + 1..] == s[..|s| - 1][r.value + 1..] + [s[|s| - 1]];
      assert r.None? ==> s == s[..|s| - 1] + [s[|s| - 1]];
      r
  }

  lemma LastIndexOfSplit(a: string, c: char, b: string)
    requires c !in b
    ensures LastIndexOf(a + [c] + b, c) == Some(|a|)
  {
    var s := a + [c] + b;
    assert s[|a|] == c;
    assert s[|a| + 1..] == b;
  }

  /** The first of `candidates` whose header starts `s`, if any. */
  function FindLevel(s: string, candidates: seq<Level>): (r: Option<Level>)
    ensures r.Some? ==> r.value in candidates && HeaderOf(r.value) <= s
    ensures r.None? ==> forall k :: 0 <= k < |candidates| ==> !(HeaderOf(candidates[k]) <= s)
    decreases |candidates|
  {
    if candidates == [] then None
    else if HeaderOf(candidates[0]) <= s then Some(candidates[0])
    else FindLevel(s, candidates[1..])
  }

  /** The level whose header starts the line, if any. */
  function LevelOfLine(s: string): (r: Option<Level>)
    ensures r.Some? ==> HeaderOf(r.value) <= s
  {
    FindLevel(s, AllLevels)
  }

  /** Every header is 15 characters long and carries its tag at offsets 6 to 8. */
  lemma HeaderShape(l: Level)
    ensures |HeaderOf(l)| == 15
    ensures HeaderOf(l)[6..9] == TagOf(l)
  {
    assert |ColourOf(l)| == 5;
  }

  /** The header of a level starts no line of another level. */
  lemma HeadersDiffer(l: Level, m: Level, x: string)
    requires l != m
    ensures !(HeaderOf(m) <= HeaderOf(l) + x)
  {
    HeaderShape(l);
    HeaderShape(m);
    assert TagOf(l) != TagOf(m);
    assert HeaderOf(m) != HeaderOf(l);
    assert (HeaderOf(l) + x)[..15] == HeaderOf(l);
  }

  /** A line that starts with the header of `l` is read as a line of level `l`. */
  lemma LevelOfHeader(l: Level, s: string)
    requires HeaderOf(l) <= s
    ensures LevelOfLine(s) == Some(l)
  {
    assert AllLevels[Rank(l)] == l;
    var r := LevelOfLine(s);
    var h := HeaderOf(l);
    assert s[..|h|] == h;
    assert s == h + s[|h|..];
    if r.value != l {
      HeadersDiffer(l, r.value, s[|HeaderOf(l)|..]);
    }
  }

  /** What can be read back from a line: the message and argument text cannot be told apart. */
  datatype Record = Record(level: Level, body: string, file: string, line: int)

  /** Splits " file:line" text at its last colon. */
  function ParseLocation(loc: string): (r: Option<(string, int)>)
    ensures r.Some? ==> loc == r.value.0 + ":" + IntToString(r.value.1)
  {
    match LastIndexOf(loc, ':')
    case None => None
    case Some(colon) =>
      match ParseInt(loc[colon + 1..])
      case None => None
      case Some(n) =>
        ParseIntIsCanonical(loc[colon + 1..]);
        JoinAt(loc, colon);
        Some((loc[..colon], n))
  }

  /** Splits the text after the header into body and location at its last space. */
  function ParseRest(rest: string): (r: Option<(string, string, int)>)
    ensures r.Some? ==> rest == r.value.0 + " " + r.value.1 + ":" + IntToString(r.value.2)
  {
    match LastIndexOf(rest, ' ')
    case None => None
    case Some(sp) =>
      match ParseLocation(rest[sp + 1..])
      case None => None
      case Some(loc) =>
        JoinLocation(rest, sp, loc.0, IntToString(loc.1));
        Some((rest[..sp], loc.0, loc.1))
  }

  lemma JoinAt(s: string, i: nat)
    requires i < |s|
    ensures s == s[..i] + [s[i]] + s[i + 1..]
  {
  }

  lemma JoinLocation(rest: string, sp: nat, file: string, num: string)
    requires sp < |rest| && rest[sp] == ' ' && rest[sp + 1..] == file + ":" + num
    ensures rest == rest[..sp] + " " + file + ":" + num
  {
    JoinAt(rest, sp);
  }

  lemma ParseLineFrame(s: string, hd: string, body: string, file: string, num: string)
    requires hd <= s && |hd| < |s| && s[|s| - 1] == '\n'
    requires s[|hd|..|s| - 1] == body + " " + file + ":" + num
    ensures s == hd + body + " " + file + ":" + num + "\n"
  {
    var mid := s[|hd|..|s| - 1];
    assert s == s[..|hd|] + mid + "\n";
  }

  /** Reads a line back into its level, body, file and line number. */
  function ParseLine(s: string): (r: Option<Record>)
    ensures r.Some? ==>
      s == HeaderOf(r.value.level) + r.value.body + " " + r.value.file + ":" + IntToString(r.value.line) + "\n"
  {
    if |s| == 0 || s[|s| - 1] != '\n' then None
    else match LevelOfLine(s)
      case None => None
      case Some(l) =>
        var h := |HeaderOf(l)|;
        if h > |s| - 1 then None
        else match ParseRest(s[h..|s| - 1])
          case None => None
          case Some(p) =>
            ParseLineFrame(s, HeaderOf(l), p.0, p.1, IntToString(p.2));
            Some(Record(l, p.0, p.1, p.2))
  }

  lemma ParseLocationOf(file: string, n: int)
    ensures ParseLocation(file + ":" + IntToString(n)) == Some((file, n))
  {
    var num := IntToString(n);
    var loc := file + ":" + num;
    assert ':' !in num;
    LastIndexOfSplit(file, ':', num);
    assert loc[|file| + 1..] == num;
    assert loc[..|file|] == file;
    IntRoundTrip(n);
  }

  lemma ParseRestOf(body: string, file: string, n: int)
    requires ' ' !in file
    ensures ParseRest(body + " " + file + ":" + IntToString(n)) == Some((body, file, n))
  {
    var num := IntToString(n);
    var loc := file + ":" + num;
    var rest := body + " " + loc;
    assert rest == body + " " + file + ":" + num;
    assert ' ' !in loc;
    LastIndexOfSplit(body, ' ', loc);
    assert rest[|body| + 1..] == loc;
    assert rest[..|body|] == body;
    ParseLocationOf(file, n);
  }

  lemma FrameOf(hd: string, rest: string)
    ensures var s := hd + rest + "\n";
      hd <= s && |s| > 0 && s[|s| - 1] == '\n' && |hd| <= |s| - 1 && s[|hd|..|s| - 1] == rest
  {
    var s := hd + rest + "\n";
    assert s[..|hd|] == hd;
    assert s[|hd|..|s| - 1] == rest;
  }

  /** After a level's header, a line reads back exactly as the text up to its newline does. */
  lemma ParseAfterHeader(l: Level, rest: string)
    ensures ParseLine(HeaderOf(l) + rest + "\n")
            == match ParseRest(rest)
               case None => None
               case Some(p) => Some(Record(l, p.0, p.1, p.2))
  {
    var hd := HeaderOf(l);
    var s := hd + rest + "\n";
    FrameOf(hd, rest);
    LevelOfHeader(l, s);
    assert ParseRest(s[|hd|..|s| - 1]) == ParseRest(rest);
  }

  lemma Regroup(hd: string, body: string, file: string, num: string)
    ensures hd + (body + " " + file + ":" + num) + "\n" == hd + body + " " + file + ":" + num + "\n"
  {
  }

  /** Every line in the logger's format reads back as the record it renders. */
  lemma ParseRendered(l: Level, body: string, file: string, n: int)
    requires ' ' !in file
    ensures ParseLine(HeaderOf(l) + body + " " + file + ":" + IntToString(n) + "\n")
            == Some(Record(l, body, file, n))
  {
    var num := IntToString(n);
    var rest := body + " " + file + ":" + num;
    ParseRestOf(body, file, n);
    ParseAfterHeader(l, rest);
    assert ParseLine(HeaderOf(l) + rest + "\n") == Some(Record(l, body, file, n));
    Regroup(HeaderOf(l), body, file, num);
  }

  /**
    A line composed by an entry point reads back as its level, its message
    and argument text, its file and its line number, provided the file name
    holds no space.
   */
  lemma ParseComposedLine(l: Level, message: string, args: seq<string>, file: string, line: int32)
    requires ' ' !in file
    ensures ParseLine(Compose(ColourOf(l), TagOf(l), message, args, file, line))
            == Some(Record(l, message + ArgsText(args), file, line as int))
  {
    var body := message + ArgsText(args);
    assert Compose(ColourOf(l), TagOf(l), message, args, file, line)
           == HeaderOf(l) + body + " " + file + ":" + IntToString(line as int) + "\n";
    ParseRendered(l, body, file, line as int);
  }

  /** The line an INFO call with one argument writes. */
  lemma ComposeExample()
    ensures Compose(Green, "NFO", "user logged in", ["7"], "main.cpp", 42)
            == Green + "[NFO] " + Reset + "user logged in" + " 7" + " " + "main.cpp" + ":" + "42" + "\n"
  {
    assert IntToString(42) == "42" by {
      assert NatToString(4) == "4";
    }
    assert ArgsText(["7"]) == " 7" by {
      assert ["7"][..0] == [];
    }
    ComposeParts(Green, "NFO", "user logged in", ["7"], "main.cpp", 42, Green + "[NFO] " + Reset, " 7", "42");
  }

  lemma ComposeParts(colour: string, tag: string, message: string, args: seq<string>, file: string, line: int32,
                     h: string, a: string, num: string)
    requires Header(colour, tag) == h && ArgsText(args) == a && IntToString(line as int) == num
    ensures Compose(colour, tag, message, args, file, line) == h + message + a + " " + file + ":" + num + "\n"
  {
  }

  /** With a space in the file name, two different calls write the same line. */
  lemma SpaceInFileIsAmbiguous(colour: string, tag: string, line: int32)
    ensures Compose(colour, tag, "a", [], "b c", line) == Compose(colour, tag, "a b", [], "c", line)
  {
  }

  /** The argument text cannot be told apart from a message that ends with it. */
  lemma ArgumentsMergeIntoMessage(colour: string, tag: string, file: string, line: int32)
    ensures Compose(colour, tag, "a", ["b"], file, line) == Compose(colour, tag, "a b", [], file, line)
  {
    assert ArgsText(["b"]) == " b" by {
      assert ["b"][..0] == [];
    }
  }

}
