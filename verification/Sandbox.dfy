/**
 The Seatbelt profile of an official run: path escaping, and what a reader of the profile sees
 (bench-runner, sandbox.rs).
 */
module Sandbox {
  import opened Wrappers

  // ---- escaping -----------------------------------------------------------------------

  /** Every occurrence of `c` replaced. */
  function Replace(s: string, c: char, with: string): string {
    if s == "" then "" else (if s[0] == c then with else [s[0]]) + Replace(s[1..], c, with)
  }

  /** Backslashes first, then double quotes. */
  function SeatbeltEscaped(value: string): string {
    Replace(Replace(value, '\\', "\\\\"), '\"', "\\\"")
  }

  /** What one character becomes, as if both passes were one. */
  function EscapedChar(c: char): string {
    if c == '\\' || c == '\"' then ['\\', c] else [c]
  }

  function EscapedOnce(value: string): string {
    if value == "" then "" else EscapedChar(value[0]) + EscapedOnce(value[1..])
  }

  lemma {:induction false} ReplaceJoins(a: string, b: string, c: char, with: string)
    ensures Replace(a + b, c, with) == Replace(a, c, with) + Replace(b, c, with)
  {
    if a == "" {
      assert a + b == b;
    } else {
      assert (a + b)[1..] == a[1..] + b;
      ReplaceJoins(a[1..], b, c, with);
    }
  }

  /** The order of the passes matters, and this one escapes each character exactly once. */
  lemma {:induction false} TwoPassesAreOne(value: string)
    ensures SeatbeltEscaped(value) == EscapedOnce(value)
  {
    if value != "" {
      var head := if value[0] == '\\' then "\\\\" else [value[0]];
      ReplaceJoins(head, Replace(value[1..], '\\', "\\\\"), '\"', "\\\"");
      TwoPassesAreOne(value[1..]);
      HeadEscapes(head, value[0]);
    }
  }

  lemma HeadEscapes(head: string, c: char)
    requires head == if c == '\\' then "\\\\" else [c]
    ensures Replace(head, '\"', "\\\"") == EscapedChar(c)
  {
    if c == '\\' {
      assert head[1..] == "\\" && "\\"[1..] == "";
      assert Replace("\\", '\"', "\\\"") == "\\";
      assert Replace(head, '\"', "\\\"") == "\\" + "\\";
    } else {
      assert head[1..] == "";
    }
  }

  // ---- a reader -------------------------------------------------------------------------

  datatype Quoted = Quoted(text: string, rest: string)

  /** Read up to the closing quote; a backslash takes the next character as it is. */
  function ReadQuoted(s: string): (r: Option<Quoted>)
    ensures r.Some? ==> |r.value.rest| < |s|
    decreases |s|
  {
    if s == "" then None
    else if s[0] == '\"' then Some(Quoted("", s[1..]))
    else
      var escaped := s[0] == '\\';
      if escaped && |s| < 2 then None
      else
        var taken := if escaped then 2 else 1;
        match ReadQuoted(s[taken..])
        case None => None
        case Some(q) => Some(Quoted([s[taken - 1]] + q.text, q.rest))
  }

  /** A profile as its reader sees it: rule text, and the strings it names. */
  datatype Item = Char(c: char) | Literal(text: string)

  function Read(s: string): Option<seq<Item>>
    decreases |s|
  {
    if s == "" then Some([])
    else if s[0] == '\"' then
      match ReadQuoted(s[1..])
      case None => None
      case Some(q) => Before([Literal(q.text)], Read(q.rest))
    else Before([Char(s[0])], Read(s[1..]))
  }

  function Before(items: seq<Item>, rest: Option<seq<Item>>): Option<seq<Item>> {
    if rest.Some? then Some(items + rest.value) else None
  }

  lemma ReadsOneChar(c: char, more: string)
    ensures ReadQuoted(EscapedChar(c) + more)
            == match ReadQuoted(more) case None => None case Some(q) => Some(Quoted([c] + q.text, q.rest))
  {
    var s := EscapedChar(c) + more;
    assert s[|EscapedChar(c)|..] == more;
    assert s[0] == EscapedChar(c)[0] && s[|EscapedChar(c)| - 1] == c;
  }

  /** Reading an escaped string gives the string back, and stops at its closing quote. */
  lemma {:induction false} ReadsBackEscaped(value: string, rest: string)
    ensures ReadQuoted(EscapedOnce(value) + "\"" + rest) == Some(Quoted(value, rest))
  {
    var s := EscapedOnce(value) + "\"" + rest;
    if value == "" {
      assert s == "\"" + rest && s[1..] == rest;
    } else {
      var more := EscapedOnce(value[1..]) + "\"" + rest;
      assert s == EscapedChar(value[0]) + more;
      ReadsBackEscaped(value[1..], rest);
      ReadsOneChar(value[0], more);
      assert value == [value[0]] + value[1..];
    }
  }

  /** Escaping loses nothing: equal escapes come from equal paths. */
  lemma EscapingIsInjective(a: string, b: string)
    requires SeatbeltEscaped(a) == SeatbeltEscaped(b)
    ensures a == b
  {
    TwoPassesAreOne(a);
    TwoPassesAreOne(b);
    ReadsBackEscaped(a, "");
    ReadsBackEscaped(b, "");
  }

  // ---- the profile ------------------------------------------------------------------------

  function JoinLines(lines: seq<string>): string {
    if lines == [] then ""
    else if |lines| == 1 then lines[0]
    else lines[0] + "\n" + JoinLines(lines[1..])
  }

  function LiteralRule(head: string, path: string): string {
    head + "\"" + SeatbeltEscaped(path) + "\"))"
  }

  function ProfileLines(engine: string, golden: string, privateDir: Option<string>): seq<string> {
    ["(version 1)", "(allow default)", "(deny network*)", "(deny process-fork)", "(deny process-exec*)",
     LiteralRule("(allow process-exec (literal ", engine),
     "(deny file-write*)", "(allow file-write* (literal " + "\"" + "/dev/null" + "\"))",
     LiteralRule("(deny file-read* (literal ", golden)]
    + if privateDir.Some? && privateDir.value != ""
      then [LiteralRule("(deny file-read* (subpath ", privateDir.value)] else []
  }

  method BuildSeatbeltProfile(engine: string, golden: string, privateDir: Option<string>) returns (profile: string)
    ensures profile == JoinLines(ProfileLines(engine, golden, privateDir))
  {
    var deniedReads := [LiteralRule("(deny file-read* (literal ", golden)];
    if privateDir.Some? && privateDir.value != "" {
      deniedReads := deniedReads + [LiteralRule("(deny file-read* (subpath ", privateDir.value)];
    }
    var lines := ["(version 1)", "(allow default)", "(deny network*)", "(deny process-fork)", "(deny process-exec*)",
                  LiteralRule("(allow process-exec (literal ", engine),
                  "(deny file-write*)", "(allow file-write* (literal " + "\"" + "/dev/null" + "\"))"];
    lines := lines + deniedReads;
    assert lines == ProfileLines(engine, golden, privateDir);
    return JoinLines(lines);
  }

  // ---- the reader sees the fixed rules and the raw paths ---------------------------------------

  /** Plain rule text, and perhaps one string between two such texts. */
  datatype Rule = Plain(text: string) | Naming(head: string, path: string, tail: string)

  predicate QuoteFree(s: string) { '\"' !in s }

  predicate WellFormedRule(r: Rule) {
    match r
    case Plain(text) => QuoteFree(text)
    case Naming(head, _, tail) => QuoteFree(head) && QuoteFree(tail)
  }

  function Rendered(r: Rule): string {
    match r
    case Plain(text) => text
    case Naming(head, path, tail) => head + "\"" + SeatbeltEscaped(path) + "\"" + tail
  }

  function Chars(s: string): seq<Item> {
    seq(|s|, i requires 0 <= i < |s| => Char(s[i]))
  }

  function Seen(r: Rule): seq<Item> {
    match r
    case Plain(text) => Chars(text)
    case Naming(head, path, tail) => Chars(head) + [Literal(path)] + Chars(tail)
  }

  function RenderedLines(rules: seq<Rule>): seq<string> {
    seq(|rules|, i requires 0 <= i < |rules| => Rendered(rules[i]))
  }

  function SeenLines(rules: seq<Rule>): seq<Item> {
    if rules == [] then []
    else if |rules| == 1 then Seen(rules[0])
    else Seen(rules[0]) + [Char('\n')] + SeenLines(rules[1..])
  }

  lemma {:induction false} ReadsPlain(text: string, rest: string)
    requires QuoteFree(text)
    ensures Read(text + rest) == Before(Chars(text), Read(rest))
  {
    if text == "" {
      assert text + rest == rest;
      assert Read(rest).Some? ==> Chars(text) + Read(rest).value == Read(rest).value;
    } else {
      assert (text + rest)[1..] == text[1..] + rest;
      ReadsPlain(text[1..], rest);
      assert Chars(text) == [Char(text[0])] + Chars(text[1..]);
      if Read(rest).Some? {
        assert [Char(text[0])] + (Chars(text[1..]) + Read(rest).value) == Chars(text) + Read(rest).value;
      }
    }
  }

  lemma ReadsRule(r: Rule, rest: string)
    requires WellFormedRule(r)
    ensures Read(Rendered(r) + rest) == Before(Seen(r), Read(rest))
  {
    match r
    case Plain(text) => ReadsPlain(text, rest);
    case Naming(head, path, tail) =>
      TwoPassesAreOne(path);
      var afterQuote := EscapedOnce(path) + "\"" + (tail + rest);
      assert Rendered(r) + rest == head + ("\"" + afterQuote);
      ReadsPlain(head, "\"" + afterQuote);
      ReadsBackEscaped(path, tail + rest);
      assert ("\"" + afterQuote)[1..] == afterQuote;
      assert Read("\"" + afterQuote) == Before([Literal(path)], Read(tail + rest));
      ReadsPlain(tail, rest);
      if Read(rest).Some? {
        assert Chars(head) + ([Literal(path)] + (Chars(tail) + Read(rest).value)) == Seen(r) + Read(rest).value;
      }
  }

  lemma {:induction false} ReadsLines(rules: seq<Rule>)
    requires forall i :: 0 <= i < |rules| ==> WellFormedRule(rules[i])
    ensures Read(JoinLines(RenderedLines(rules))) == Some(SeenLines(rules))
  {
    if |rules| == 1 {
      ReadsRule(rules[0], "");
      assert Rendered(rules[0]) + "" == Rendered(rules[0]);
      assert Seen(rules[0]) + [] == Seen(rules[0]);
    } else if rules != [] {
      var rest := JoinLines(RenderedLines(rules[1..]));
      assert RenderedLines(rules)[1..] == RenderedLines(rules[1..]);
      assert JoinLines(RenderedLines(rules)) == Rendered(rules[0]) + ("\n" + rest);
      ReadsLines(rules[1..]);
      assert ("\n" + rest)[1..] == rest;
      ReadsRule(rules[0], "\n" + rest);
      assert Seen(rules[0]) + ([Char('\n')] + SeenLines(rules[1..])) == SeenLines(rules);
    }
  }

  /** The rules a profile means to state. */
  function Rules(engine: string, golden: string, privateDir: Option<string>): seq<Rule> {
    [Plain("(version 1)"), Plain("(allow default)"), Plain("(deny network*)"), Plain("(deny process-fork)"),
     Plain("(deny process-exec*)"), Naming("(allow process-exec (literal ", engine, "))"),
     Plain("(deny file-write*)"), Naming("(allow file-write* (literal ", "/dev/null", "))"),
     Naming("(deny file-read* (literal ", golden, "))")]
    + if privateDir.Some? && privateDir.value != ""
      then [Naming("(deny file-read* (subpath ", privateDir.value, "))")] else []
  }

  lemma {:induction false} NothingToEscape(s: string)
    requires '\\' !in s && '\"' !in s
    ensures EscapedOnce(s) == s
  {
    if s != "" {
      NothingToEscape(s[1..]);
    }
  }

  lemma RuleRendersLine(head: string, path: string)
    ensures Rendered(Naming(head, path, "))")) == LiteralRule(head, path)
  {
    assert head + "\"" + SeatbeltEscaped(path) + "\"" + "))" == head + "\"" + SeatbeltEscaped(path) + "\"))";
  }

  lemma DeviceNeedsNoEscape()
    ensures '\\' !in "/dev/null" && '\"' !in "/dev/null"
  {
  }

  lemma UnescapedRuleRendersLine(head: string, path: string)
    requires '\\' !in path && '\"' !in path
    ensures Rendered(Naming(head, path, "))")) == head + "\"" + path + "\"))"
  {
    hide SeatbeltEscaped;
    RuleRendersLine(head, path);
    TwoPassesAreOne(path);
    NothingToEscape(path);
  }

  lemma RulesRenderLines(engine: string, golden: string, privateDir: Option<string>)
    ensures RenderedLines(Rules(engine, golden, privateDir)) == ProfileLines(engine, golden, privateDir)
  {
    hide SeatbeltEscaped, LiteralRule;
    RuleRendersLine("(allow process-exec (literal ", engine);
    RuleRendersLine("(deny file-read* (literal ", golden);
    DeviceNeedsNoEscape();
    UnescapedRuleRendersLine("(allow file-write* (literal ", "/dev/null");
    if privateDir.Some? && privateDir.value != "" {
      RuleRendersLine("(deny file-read* (subpath ", privateDir.value);
    }
    RenderingIsPointwise(Rules(engine, golden, privateDir), ProfileLines(engine, golden, privateDir));
  }

  lemma RenderingIsPointwise(rules: seq<Rule>, lines: seq<string>)
    requires |rules| == |lines| && forall i :: 0 <= i < |rules| ==> Rendered(rules[i]) == lines[i]
    ensures RenderedLines(rules) == lines
  {
  }

  lemma PreambleIsQuoteFree()
    ensures QuoteFree("(version 1)") && QuoteFree("(allow default)") && QuoteFree("))")
  {
  }

  lemma DenialsAreQuoteFree()
    ensures QuoteFree("(deny network*)") && QuoteFree("(deny process-fork)")
  {
  }

  lemma MoreDenialsAreQuoteFree()
    ensures QuoteFree("(deny process-exec*)") && QuoteFree("(deny file-write*)")
  {
  }

  lemma AllowHeadsAreQuoteFree()
    ensures QuoteFree("(allow process-exec (literal ") && QuoteFree("(allow file-write* (literal ")
  {
  }

  lemma DenyHeadsAreQuoteFree()
    ensures QuoteFree("(deny file-read* (literal ") && QuoteFree("(deny file-read* (subpath ")
  {
  }

  lemma RulesAreWellFormed(engine: string, golden: string, privateDir: Option<string>)
    ensures forall i :: 0 <= i < |Rules(engine, golden, privateDir)| ==>
              WellFormedRule(Rules(engine, golden, privateDir)[i])
  {
    hide QuoteFree;
    PreambleIsQuoteFree();
    DenialsAreQuoteFree();
    MoreDenialsAreQuoteFree();
    AllowHeadsAreQuoteFree();
    DenyHeadsAreQuoteFree();
  }

  /**
   For all paths, newlines, quotes and backslashes included: a quote-aware reader of the profile sees exactly
   the intended rules, with the raw paths in their places and nothing of a path outside its own string.
   */
  lemma ProfileReadsAsRules(engine: string, golden: string, privateDir: Option<string>)
    ensures Read(JoinLines(ProfileLines(engine, golden, privateDir))) == Some(SeenLines(Rules(engine, golden, privateDir)))
  {
    hide Rules, ProfileLines;
    RulesRenderLines(engine, golden, privateDir);
    RulesAreWellFormed(engine, golden, privateDir);
    ReadsLines(Rules(engine, golden, privateDir));
  }

  // ---- recovering the paths ---------------------------------------------------------------------

  function Literals(items: seq<Item>): seq<string> {
    if items == [] then []
    else (if items[0].Literal? then [items[0].text] else []) + Literals(items[1..])
  }

  lemma {:induction false} LiteralsJoin(a: seq<Item>, b: seq<Item>)
    ensures Literals(a + b) == Literals(a) + Literals(b)
  {
    if a == [] {
      assert a + b == b;
    } else {
      assert (a + b)[1..] == a[1..] + b;
      LiteralsJoin(a[1..], b);
    }
  }

  lemma {:induction false} CharsNameNothing(s: string)
    ensures Literals(Chars(s)) == []
  {
    if s != "" {
      CharsNameNothing(s[1..]);
      assert Chars(s)[1..] == Chars(s[1..]);
    }
  }

  function Named(r: Rule): seq<string> {
    if r.Naming? then [r.path] else []
  }

  function NamedByAll(rules: seq<Rule>): seq<string> {
    if rules == [] then [] else Named(rules[0]) + NamedByAll(rules[1..])
  }

  lemma {:induction false} LinesNameTheirPaths(rules: seq<Rule>)
    ensures Literals(SeenLines(rules)) == NamedByAll(rules)
  {
    if rules != [] {
      RuleNamesItsPath(rules[0]);
      if 1 < |rules| {
        LinesNameTheirPaths(rules[1..]);
        LiteralsJoin(Seen(rules[0]) + [Char('\n')], SeenLines(rules[1..]));
        LiteralsJoin(Seen(rules[0]), [Char('\n')]);
        CharsNameNothing("\n");
        assert Chars("\n") == [Char('\n')];
      } else {
        assert rules[1..] == [];
      }
    }
  }

  lemma RuleNamesItsPath(r: Rule)
    ensures Literals(Seen(r)) == Named(r)
  {
    match r
    case Plain(text) => CharsNameNothing(text);
    case Naming(head, path, tail) =>
      CharsNameNothing(head);
      CharsNameNothing(tail);
      LiteralsJoin(Chars(head) + [Literal(path)], Chars(tail));
      LiteralsJoin(Chars(head), [Literal(path)]);
      assert [Literal(path)][1..] == [];
  }

  /** The strings of a profile are the engine, the one writable device, the golden and a nonempty private directory. */
  lemma ProfileNamesItsPaths(engine: string, golden: string, privateDir: Option<string>)
    ensures var seen := Read(JoinLines(ProfileLines(engine, golden, privateDir)));
            seen.Some? && Literals(seen.value)
                          == [engine, "/dev/null", golden]
                             + if privateDir.Some? && privateDir.value != "" then [privateDir.value] else []
  {
    hide ProfileLines, SeenLines, Read;
    var rules := Rules(engine, golden, privateDir);
    ProfileReadsAsRules(engine, golden, privateDir);
    LinesNameTheirPaths(rules);
    RulesName(engine, golden, privateDir);
  }

  lemma {:induction false} NamedJoin(a: seq<Rule>, b: seq<Rule>)
    ensures NamedByAll(a + b) == NamedByAll(a) + NamedByAll(b)
  {
    if a == [] {
      assert a + b == b;
    } else {
      assert (a + b)[1..] == a[1..] + b;
      NamedJoin(a[1..], b);
    }
  }

  lemma {:induction false} PlainRulesNameNothing(rules: seq<Rule>)
    requires forall i :: 0 <= i < |rules| ==> rules[i].Plain?
    ensures NamedByAll(rules) == []
  {
    if rules != [] {
      PlainRulesNameNothing(rules[1..]);
    }
  }

  lemma OneRuleNames(head: string, path: string, tail: string)
    ensures NamedByAll([Naming(head, path, tail)]) == [path]
  {
    assert [Naming(head, path, tail)][1..] == [];
  }

  lemma RulesName(engine: string, golden: string, privateDir: Option<string>)
    ensures NamedByAll(Rules(engine, golden, privateDir))
            == [engine, "/dev/null", golden]
               + if privateDir.Some? && privateDir.value != "" then [privateDir.value] else []
  {
    hide NamedByAll;
    var opening := [Plain("(version 1)"), Plain("(allow default)"), Plain("(deny network*)"), Plain("(deny process-fork)"),
                    Plain("(deny process-exec*)")];
    var run := [Naming("(allow process-exec (literal ", engine, "))")];
    var noWrites := [Plain("(deny file-write*)")];
    var device := [Naming("(allow file-write* (literal ", "/dev/null", "))")];
    var read := [Naming("(deny file-read* (literal ", golden, "))")];
    var last := if privateDir.Some? && privateDir.value != ""
                then [Naming("(deny file-read* (subpath ", privateDir.value, "))")] else [];
    assert Rules(engine, golden, privateDir) == opening + (run + (noWrites + (device + (read + last))));
    NamedJoin(opening, run + (noWrites + (device + (read + last))));
    NamedJoin(run, noWrites + (device + (read + last)));
    NamedJoin(noWrites, device + (read + last));
    NamedJoin(device, read + last);
    NamedJoin(read, last);
    PlainRulesNameNothing(opening);
    PlainRulesNameNothing(noWrites);
    OneRuleNames("(allow process-exec (literal ", engine, "))");
    OneRuleNames("(allow file-write* (literal ", "/dev/null", "))");
    OneRuleNames("(deny file-read* (literal ", golden, "))");
    if last == [] {
      PlainRulesNameNothing(last);
    } else {
      OneRuleNames("(deny file-read* (subpath ", privateDir.value, "))");
    }
  }

  function EffectiveDir(privateDir: Option<string>): Option<string> {
    if privateDir == Some("") then None else privateDir
  }

  /** One profile, one set of paths: no two different paths can be written into the same profile. */
  lemma ProfileDeterminesPaths(engine: string, golden: string, privateDir: Option<string>,
                               engine': string, golden': string, privateDir': Option<string>)
    requires JoinLines(ProfileLines(engine, golden, privateDir)) == JoinLines(ProfileLines(engine', golden', privateDir'))
    ensures engine == engine' && golden == golden' && EffectiveDir(privateDir) == EffectiveDir(privateDir')
  {
    hide ProfileLines, Read, Literals, JoinLines;
    ProfileNamesItsPaths(engine, golden, privateDir);
    ProfileNamesItsPaths(engine', golden', privateDir');
    var named := Literals(Read(JoinLines(ProfileLines(engine, golden, privateDir))).value);
    assert named[0] == engine && named[0] == engine' && named[2] == golden && named[2] == golden';
    assert |named| == 4 ==> named[3] == privateDir.value && named[3] == privateDir'.value;
  }
}
