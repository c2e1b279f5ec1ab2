/**
 What the profile allows: its lines read as Seatbelt clauses, of which the last that matches decides (bench-runner,
 sandbox.rs).
 */
module SandboxPolicy {
  import opened Wrappers
  import opened Sandbox

  // ---- clauses ---------------------------------------------------------------------------

  datatype Filter = Anywhere | At(path: string) | Under(path: string)

  /** A line of a profile: its version, or what it allows or denies of which operations where. */
  datatype Clause = Version | Clause(allow: bool, pattern: string, filter: Filter)

  /** An operation's name, with nothing that would end it. */
  predicate IsPattern(pattern: string) {
    pattern != "" && forall c :: c in pattern ==> c != ' ' && c != '(' && c != ')' && c != '\n'
  }

  function Opening(allow: bool): string {
    if allow then "(allow " else "(deny "
  }

  /** How a clause is written; the path of a filter is a string of its own. */
  ghost predicate Says(line: seq<Item>, clause: Clause) {
    match clause
    case Version => line == Chars("(version 1)")
    case Clause(allow, pattern, filter) =>
      if pattern == "*" then allow && filter == Anywhere && line == Chars("(allow default)")
      else
        && IsPattern(pattern) && (allow ==> pattern != "default")
        && match filter
           case Anywhere => line == Chars(Opening(allow) + pattern + ")")
           case At(path) => line == Chars(Opening(allow) + pattern + " (literal ") + [Literal(path)] + Chars("))")
           case Under(path) => line == Chars(Opening(allow) + pattern + " (subpath ") + [Literal(path)] + Chars("))")
  }

  /** The lines of a profile, as its reader sees them; a newline inside a string ends none. */
  function Lines(items: seq<Item>): (lines: seq<seq<Item>>)
    ensures lines != []
  {
    if items == [] then [[]]
    else
      var rest := Lines(items[1..]);
      if items[0] == Char('\n') then [[]] + rest else [[items[0]] + rest[0]] + rest[1..]
  }

  /** The clauses a profile states, line by line. */
  ghost predicate States(profile: string, clauses: seq<Clause>) {
    && Read(profile).Some?
    && |clauses| == |Lines(Read(profile).value)|
    && forall i :: 0 <= i < |clauses| ==> Says(Lines(Read(profile).value)[i], clauses[i])
  }

  // ---- the decision --------------------------------------------------------------------------

  /** A pattern that ends in a star stands for every operation that begins so. */
  predicate Fits(pattern: string, operation: string) {
    if pattern != "" && pattern[|pattern| - 1] == '*' then pattern[..|pattern| - 1] <= operation else pattern == operation
  }

  predicate Covers(filter: Filter, path: string) {
    match filter
    case Anywhere => true
    case At(p) => path == p
    case Under(p) => path == p || p + "/" <= path
  }

  predicate Matches(clause: Clause, operation: string, path: string) {
    clause.Clause? && Fits(clause.pattern, operation) && Covers(clause.filter, path)
  }

  /** The last clause that matches decides; without one nothing is allowed. */
  predicate Allows(clauses: seq<Clause>, operation: string, path: string) {
    clauses != []
    && var last := clauses[|clauses| - 1];
       if Matches(last, operation, path) then last.allow else Allows(clauses[..|clauses| - 1], operation, path)
  }

  // ---- the profile's clauses -----------------------------------------------------------------

  function Fixed(engine: string, golden: string): seq<Clause> {
    [Version, Clause(true, "*", Anywhere), Clause(false, "network*", Anywhere), Clause(false, "process-fork", Anywhere),
     Clause(false, "process-exec*", Anywhere), Clause(true, "process-exec", At(engine)),
     Clause(false, "file-write*", Anywhere), Clause(true, "file-write*", At("/dev/null")),
     Clause(false, "file-read*", At(golden))]
  }

  function Meant(engine: string, golden: string, privateDir: Option<string>): seq<Clause> {
    Fixed(engine, golden)
    + match EffectiveDir(privateDir)
      case None => []
      case Some(dir) => [Clause(false, "file-read*", Under(dir))]
  }

  predicate NoNewline(line: seq<Item>) {
    Char('\n') !in line
  }

  lemma {:induction false} OneLine(line: seq<Item>)
    requires NoNewline(line)
    ensures Lines(line) == [line]
  {
    if line != [] {
      assert line[0] in line && forall x :: x in line[1..] ==> x in line;
      OneLine(line[1..]);
      assert [line[0]] + line[1..] == line;
    }
  }

  lemma {:induction false} LineThenRest(line: seq<Item>, rest: seq<Item>)
    requires NoNewline(line)
    ensures Lines(line + [Char('\n')] + rest) == [line] + Lines(rest)
  {
    var items := line + [Char('\n')] + rest;
    if line == [] {
      assert items[1..] == rest;
    } else {
      assert line[0] in line && forall x :: x in line[1..] ==> x in line;
      LineThenRest(line[1..], rest);
      assert items[1..] == line[1..] + [Char('\n')] + rest;
      assert items[0] == line[0];
      assert [line[0]] + line[1..] == line;
    }
  }

  lemma {:induction false} LinesOfSeen(rules: seq<Rule>)
    requires rules != [] && forall r :: r in rules ==> NoNewline(Seen(r))
    ensures |Lines(SeenLines(rules))| == |rules|
    ensures forall i :: 0 <= i < |rules| ==> Lines(SeenLines(rules))[i] == Seen(rules[i])
  {
    hide Lines, Seen;
    assert rules[0] in rules;
    if |rules| == 1 {
      OneLine(Seen(rules[0]));
    } else {
      assert forall r :: r in rules[1..] ==> r in rules;
      LinesOfSeen(rules[1..]);
      LineThenRest(Seen(rules[0]), SeenLines(rules[1..]));
    }
  }

  // ---- one reading of a line --------------------------------------------------------------

  lemma CharsAreOne(a: string, b: string)
    requires Chars(a) == Chars(b)
    ensures a == b
  {
    assert |Chars(a)| == |Chars(b)|;
    forall i | 0 <= i < |a| ensures a[i] == b[i] {
      assert Chars(a)[i] == Chars(b)[i];
    }
  }

  predicate EndsPattern(s: string) {
    s != "" && (s[0] == ' ' || s[0] == ')')
  }

  predicate Stops(c: char) {
    c == ' ' || c == ')'
  }

  lemma PatternStops(p: string, x: string)
    requires IsPattern(p) && EndsPattern(x)
    ensures Stops((p + x)[|p|]) && forall i :: 0 <= i < |p| ==> !Stops((p + x)[i])
  {
    forall i | 0 <= i < |p| ensures !Stops((p + x)[i]) {
      assert (p + x)[i] == p[i] && p[i] in p;
    }
  }

  lemma PatternEnds(p: string, x: string, q: string, y: string)
    requires IsPattern(p) && IsPattern(q) && EndsPattern(x) && EndsPattern(y) && p + x == q + y
    ensures p == q && x == y
  {
    PatternStops(p, x);
    PatternStops(q, y);
    assert |p| == |q|;
    assert p == (p + x)[..|p|] && q == (q + y)[..|p|];
    assert x == (p + x)[|p|..] && y == (q + y)[|p|..];
  }

  lemma OpeningIsOne(a: bool, x: string, b: bool, y: string)
    requires Opening(a) + x == Opening(b) + y
    ensures a == b && x == y
  {
    assert (Opening(a) + x)[1] == Opening(a)[1] && (Opening(b) + y)[1] == Opening(b)[1];
    assert Opening(true)[1] == 'a' && Opening(false)[1] == 'd';
    assert x == (Opening(a) + x)[|Opening(a)|..] && y == (Opening(b) + y)[|Opening(a)|..];
  }

  /** What stands behind a clause's pattern, up to its path if it has one. */
  function Ending(filter: Filter): string {
    match filter
    case Anywhere => ")"
    case At(_) => " (literal "
    case Under(_) => " (subpath "
  }

  /** A line's text up to its string, and the string if there is one. */
  predicate Reads(line: seq<Item>, text: string, path: Option<string>) {
    match path
    case None => line == Chars(text)
    case Some(p) => line == Chars(text) + [Literal(p)] + Chars("))")
  }

  function PathOf(filter: Filter): Option<string> {
    match filter
    case Anywhere => None
    case At(p) => Some(p)
    case Under(p) => Some(p)
  }

  predicate HoldsLiteral(line: seq<Item>) {
    exists i :: 0 <= i < |line| && line[i].Literal?
  }

  lemma LiteralsIn(line: seq<Item>, text: string, path: Option<string>)
    requires Reads(line, text, path)
    ensures HoldsLiteral(line) <==> path.Some?
  {
    if path.Some? {
      assert line[|text|].Literal?;
    }
  }

  lemma ReadsOne(line: seq<Item>, a: string, p: Option<string>, b: string, q: Option<string>)
    requires Reads(line, a, p) && Reads(line, b, q)
    ensures p == q && a == b
  {
    LiteralsIn(line, a, p);
    LiteralsIn(line, b, q);
    if p.Some? && q.Some? {
      LiteralPlace(a, p.value, b, q.value);
      CharsAreOne(a, b);
    } else if p.None? && q.None? {
      CharsAreOne(a, b);
    }
  }

  lemma LiteralPlace(a: string, p: string, b: string, q: string)
    requires Chars(a) + [Literal(p)] + Chars("))") == Chars(b) + [Literal(q)] + Chars("))")
    ensures p == q && Chars(a) == Chars(b)
  {
    var x, y := Chars(a) + [Literal(p)] + Chars("))"), Chars(b) + [Literal(q)] + Chars("))");
    assert |x| == |a| + 3 && |y| == |b| + 3;
    assert x[|a|] == Literal(p) && y[|a|] == Literal(q);
    assert Chars(a) == x[..|a|] && Chars(b) == y[..|a|];
  }

  /** How a clause is written, in one piece. */
  function TextOf(clause: Clause): string {
    match clause
    case Version => "(version 1)"
    case Clause(allow, pattern, filter) =>
      if pattern == "*" then "(allow default)" else Opening(allow) + (pattern + Ending(filter))
  }

  predicate IsWritten(clause: Clause) {
    clause.Clause? ==>
      if clause.pattern == "*" then clause.allow && clause.filter == Anywhere
      else IsPattern(clause.pattern) && (clause.allow ==> clause.pattern != "default")
  }

  lemma SaysReads(line: seq<Item>, clause: Clause)
    ensures Says(line, clause)
            <==> IsWritten(clause)
                 && Reads(line, TextOf(clause), if clause.Clause? then PathOf(clause.filter) else None)
  {
    if clause.Clause? {
      var o, e := Opening(clause.allow), Ending(clause.filter);
      assert o + clause.pattern + e == o + (clause.pattern + e);
    }
  }

  lemma TextIsOne(a: Clause, b: Clause)
    requires IsWritten(a) && IsWritten(b) && TextOf(a) == TextOf(b)
    requires a.Clause? && b.Clause? ==> PathOf(a.filter) == PathOf(b.filter)
    ensures a == b
  {
    hide IsPattern;
    DefaultText();
    if a.Clause? && a.pattern != "*" {
      OpensWith(a);
    }
    if b.Clause? && b.pattern != "*" {
      OpensWith(b);
    }
    if a.Clause? && b.Clause? && a.pattern != "*" && b.pattern != "*" {
      OpeningIsOne(a.allow, a.pattern + Ending(a.filter), b.allow, b.pattern + Ending(b.filter));
      PatternEnds(a.pattern, Ending(a.filter), b.pattern, Ending(b.filter));
      EndingIsOne(a.filter, b.filter);
    } else if a.Clause? && a.pattern != "*" && b.Clause? {
      NotDefault(a);
    } else if b.Clause? && b.pattern != "*" && a.Clause? {
      NotDefault(b);
    }
  }

  lemma DefaultText()
    ensures "(version 1)"[1] == 'v' && "(allow default)"[1] == 'a' && "(allow default)" == Opening(true) + ("default" + ")")
    ensures "(allow default)" != "(version 1)"
  {
    assert "(version 1)"[1] != "(allow default)"[1];
  }

  lemma OpensWith(clause: Clause)
    requires clause.Clause? && clause.pattern != "*"
    ensures |TextOf(clause)| > 1 && TextOf(clause)[1] in "ad"
  {
    assert "ad"[0] == 'a' && "ad"[1] == 'd';
    assert TextOf(clause)[1] == Opening(clause.allow)[1];
  }

  lemma NotDefault(clause: Clause)
    requires clause.Clause? && clause.pattern != "*" && IsWritten(clause)
    ensures TextOf(clause) != "(allow default)"
  {
    if TextOf(clause) == "(allow default)" {
      DefaultText();
      OpeningIsOne(clause.allow, clause.pattern + Ending(clause.filter), true, "default" + ")");
      PatternEnds(clause.pattern, Ending(clause.filter), "default", ")");
    }
  }

  lemma EndingIsOne(a: Filter, b: Filter)
    requires Ending(a) == Ending(b) && PathOf(a) == PathOf(b)
    ensures a == b
  {
    assert " (literal "[2] == 'l' && " (subpath "[2] == 's' && |")"| == 1 && |" (literal "| == 10;
  }

  /** A line says one thing. */
  lemma SaysOne(line: seq<Item>, a: Clause, b: Clause)
    requires Says(line, a) && Says(line, b)
    ensures a == b
  {
    hide Says, Reads, TextOf, IsWritten;
    SaysReads(line, a);
    SaysReads(line, b);
    ReadsOne(line, TextOf(a), if a.Clause? then PathOf(a.filter) else None,
             TextOf(b), if b.Clause? then PathOf(b.filter) else None);
    TextIsOne(a, b);
  }

  // ---- the profile states what is meant, and nothing else -----------------------------------------

  lemma PlainSays(text: string, clause: Clause)
    requires IsWritten(clause) && (clause.Clause? ==> clause.filter == Anywhere) && text == TextOf(clause)
    ensures Says(Seen(Plain(text)), clause)
  {
    SaysReads(Seen(Plain(text)), clause);
  }

  lemma NamingSays(head: string, path: string, clause: Clause)
    requires IsWritten(clause) && clause.Clause? && PathOf(clause.filter) == Some(path) && head == TextOf(clause)
    ensures Says(Seen(Naming(head, path, "))")), clause)
  {
    SaysReads(Seen(Naming(head, path, "))")), clause);
  }

  lemma WrittenPlain(allow: bool, pattern: string, text: string)
    requires IsPattern(pattern) && pattern != "*" && !allow && text == "(deny " + (pattern + ")")
    ensures Says(Seen(Plain(text)), Clause(allow, pattern, Anywhere))
  {
    hide Says, Seen;
    PlainSays(text, Clause(allow, pattern, Anywhere));
  }

  lemma PatternsAre()
    ensures IsPattern("network*") && IsPattern("process-fork") && IsPattern("process-exec*")
    ensures IsPattern("process-exec") && IsPattern("file-write*") && IsPattern("file-read*")
    ensures "network*" != "*" && "process-fork" != "*" && "process-exec*" != "*" && "process-exec" != "*"
    ensures "file-write*" != "*" && "file-read*" != "*" && "process-exec" != "default" && "file-write*" != "default"
  {
    assert "process-exec"[0] == 'p' && "file-write*"[0] == 'f' && "default"[0] == 'd';
  }

  lemma OpeningSays()
    ensures Says(Seen(Plain("(version 1)")), Version)
    ensures Says(Seen(Plain("(allow default)")), Clause(true, "*", Anywhere))
  {
    hide Says, Seen, IsPattern;
    PlainSays("(version 1)", Version);
    PlainSays("(allow default)", Clause(true, "*", Anywhere));
  }

  lemma DenialsSay()
    ensures Says(Seen(Plain("(deny network*)")), Clause(false, "network*", Anywhere))
    ensures Says(Seen(Plain("(deny process-fork)")), Clause(false, "process-fork", Anywhere))
  {
    hide Says, Seen, IsPattern;
    PatternsAre();
    WrittenPlain(false, "network*", "(deny network*)");
    WrittenPlain(false, "process-fork", "(deny process-fork)");
  }

  lemma MoreDenialsSay()
    ensures Says(Seen(Plain("(deny process-exec*)")), Clause(false, "process-exec*", Anywhere))
    ensures Says(Seen(Plain("(deny file-write*)")), Clause(false, "file-write*", Anywhere))
  {
    hide Says, Seen, IsPattern;
    PatternsAre();
    WrittenPlain(false, "process-exec*", "(deny process-exec*)");
    WrittenPlain(false, "file-write*", "(deny file-write*)");
  }

  lemma PathsSay(engine: string, golden: string, dir: string)
    ensures Says(Seen(Naming("(allow process-exec (literal ", engine, "))")), Clause(true, "process-exec", At(engine)))
    ensures Says(Seen(Naming("(allow file-write* (literal ", "/dev/null", "))")),
                 Clause(true, "file-write*", At("/dev/null")))
    ensures Says(Seen(Naming("(deny file-read* (literal ", golden, "))")), Clause(false, "file-read*", At(golden)))
    ensures Says(Seen(Naming("(deny file-read* (subpath ", dir, "))")), Clause(false, "file-read*", Under(dir)))
  {
    hide Says, Seen, IsPattern;
    PatternsAre();
    ExecHeadIs();
    WriteHeadIs();
    LiteralHeadIs();
    SubpathHeadIs();
    NamingSays("(allow process-exec (literal ", engine, Clause(true, "process-exec", At(engine)));
    NamingSays("(allow file-write* (literal ", "/dev/null", Clause(true, "file-write*", At("/dev/null")));
    NamingSays("(deny file-read* (literal ", golden, Clause(false, "file-read*", At(golden)));
    NamingSays("(deny file-read* (subpath ", dir, Clause(false, "file-read*", Under(dir)));
  }

  lemma ExecHeadIs()
    ensures "(allow process-exec (literal " == Opening(true) + ("process-exec" + " (literal ")
  {
  }

  lemma WriteHeadIs()
    ensures "(allow file-write* (literal " == Opening(true) + ("file-write*" + " (literal ")
  {
  }

  lemma LiteralHeadIs()
    ensures "(deny file-read* (literal " == Opening(false) + ("file-read*" + " (literal ")
  {
  }

  lemma SubpathHeadIs()
    ensures "(deny file-read* (subpath " == Opening(false) + ("file-read*" + " (subpath ")
  {
  }

  /** Rule by rule, the profile says what is meant. */
  lemma RulesSay(engine: string, golden: string, privateDir: Option<string>)
    ensures |Rules(engine, golden, privateDir)| == |Meant(engine, golden, privateDir)|
    ensures forall i :: 0 <= i < |Meant(engine, golden, privateDir)| ==>
              Says(Seen(Rules(engine, golden, privateDir)[i]), Meant(engine, golden, privateDir)[i])
  {
    hide Says, Seen;
    OpeningSays();
    DenialsSay();
    MoreDenialsSay();
    PathsSay(engine, golden, if privateDir.Some? then privateDir.value else "");
    assert privateDir == Some("") <==> privateDir.Some? && privateDir.value == "";
  }

  lemma {:induction false} NoNewlineInChars(text: string)
    requires '\n' !in text
    ensures NoNewline(Chars(text))
  {
    forall i | 0 <= i < |text| ensures Chars(text)[i] != Char('\n') {
      assert text[i] in text;
    }
  }

  lemma RuleIsOneLine(head: string, path: string, tail: string)
    requires '\n' !in head && '\n' !in tail
    ensures NoNewline(Seen(Plain(head))) && NoNewline(Seen(Naming(head, path, tail)))
  {
    NoNewlineInChars(head);
    NoNewlineInChars(tail);
  }

  lemma RulesAreLines(engine: string, golden: string, privateDir: Option<string>)
    ensures forall r :: r in Rules(engine, golden, privateDir) ==> NoNewline(Seen(r))
  {
    hide NoNewline, Seen;
    forall r | r in Rules(engine, golden, privateDir) ensures NoNewline(Seen(r)) {
      if r.Plain? {
        PlainTextsAreLines(r.text);
        RuleIsOneLine(r.text, "", "");
      } else {
        HeadsAreLines(r.head);
        RuleIsOneLine(r.head, r.path, r.tail);
      }
    }
  }

  lemma PlainTextsAreLines(text: string)
    requires text in {"(version 1)", "(allow default)", "(deny network*)", "(deny process-fork)", "(deny process-exec*)",
                      "(deny file-write*)"}
    ensures '\n' !in text
  {
  }

  lemma HeadsAreLines(head: string)
    requires head in {"(allow process-exec (literal ", "(allow file-write* (literal ", "(deny file-read* (literal ",
                      "(deny file-read* (subpath "}
    ensures '\n' !in head && '\n' !in "))"
  {
  }

  lemma ProfileStates(engine: string, golden: string, privateDir: Option<string>)
    ensures States(JoinLines(ProfileLines(engine, golden, privateDir)), Meant(engine, golden, privateDir))
  {
    hide Says, Read, Lines, SeenLines, ProfileLines, JoinLines, Rules, Meant, NoNewline;
    var rules := Rules(engine, golden, privateDir);
    ProfileReadsAsRules(engine, golden, privateDir);
    RulesSay(engine, golden, privateDir);
    RulesAreLines(engine, golden, privateDir);
    SomeRules(engine, golden, privateDir);
    LinesOfSeen(rules);
  }

  lemma SomeRules(engine: string, golden: string, privateDir: Option<string>)
    ensures Rules(engine, golden, privateDir) != []
  {
  }

  /** However a reader takes the profile apart, it finds these clauses. */
  lemma ProfileStatesOnly(engine: string, golden: string, privateDir: Option<string>, clauses: seq<Clause>)
    ensures States(JoinLines(ProfileLines(engine, golden, privateDir)), clauses)
            <==> clauses == Meant(engine, golden, privateDir)
  {
    hide Says, Read, Lines, ProfileLines, JoinLines, Meant;
    var profile, meant := JoinLines(ProfileLines(engine, golden, privateDir)), Meant(engine, golden, privateDir);
    ProfileStates(engine, golden, privateDir);
    if States(profile, clauses) {
      forall i | 0 <= i < |clauses| ensures clauses[i] == meant[i] {
        SaysOne(Lines(Read(profile).value)[i], clauses[i], meant[i]);
      }
    }
  }

  // ---- what is allowed ------------------------------------------------------------------------

  predicate Starts(operation: string, prefix: string) {
    prefix <= operation
  }

  lemma StarFits(prefix: string, operation: string)
    ensures Fits(prefix + "*", operation) <==> Starts(operation, prefix)
  {
    var pattern := prefix + "*";
    assert pattern[|pattern| - 1] == '*' && pattern[..|pattern| - 1] == prefix;
  }

  lemma PatternsFit(operation: string)
    ensures Fits("*", operation)
    ensures Fits("network*", operation) <==> Starts(operation, "network")
    ensures Fits("process-fork", operation) <==> operation == "process-fork"
    ensures Fits("process-exec*", operation) <==> Starts(operation, "process-exec")
    ensures Fits("process-exec", operation) <==> operation == "process-exec"
    ensures Fits("file-write*", operation) <==> Starts(operation, "file-write")
    ensures Fits("file-read*", operation) <==> Starts(operation, "file-read")
  {
    hide Fits;
    StarFits("", operation);
    assert "" + "*" == "*";
    StarFits("network", operation);
    assert "network" + "*" == "network*";
    StarFits("process-exec", operation);
    assert "process-exec" + "*" == "process-exec*";
    StarFits("file-write", operation);
    assert "file-write" + "*" == "file-write*";
    StarFits("file-read", operation);
    assert "file-read" + "*" == "file-read*";
    WholeFits(operation);
  }

  lemma WholeFits(operation: string)
    ensures Fits("process-fork", operation) <==> operation == "process-fork"
    ensures Fits("process-exec", operation) <==> operation == "process-exec"
  {
    assert "process-fork"[11] == 'k' && "process-exec"[11] == 'c';
  }

  lemma PrefixesAreApart(operation: string)
    ensures Starts(operation, "network") ==>
              operation != "process-fork" && !Starts(operation, "process-exec") && !Starts(operation, "file-write")
              && !Starts(operation, "file-read")
    ensures Starts(operation, "process-exec") ==>
              operation != "process-fork" && !Starts(operation, "file-write") && !Starts(operation, "file-read")
    ensures operation == "process-fork" ==> !Starts(operation, "file-write") && !Starts(operation, "file-read")
    ensures Starts(operation, "file-write") ==> !Starts(operation, "file-read")
    ensures operation == "process-exec" ==> Starts(operation, "process-exec")
  {
    assert "network"[0] == 'n' && "process-exec"[0] == 'p' && "process-fork"[0] == 'p' && "file-write"[0] == 'f'
           && "file-read"[0] == 'f';
    assert "process-exec"[8] == 'e' && "process-fork"[8] == 'f' && "file-write"[5] == 'w' && "file-read"[5] == 'r';
  }

  lemma AllowsOneMore(clauses: seq<Clause>, last: Clause, operation: string, path: string)
    ensures Allows(clauses + [last], operation, path)
            <==> if Matches(last, operation, path) then last.allow else Allows(clauses, operation, path)
  {
    assert (clauses + [last])[..|clauses|] == clauses;
  }

  /** The nine fixed clauses, decided from the last. */
  lemma FixedAllows(engine: string, golden: string, operation: string, path: string)
    ensures Allows(Fixed(engine, golden), operation, path)
            <==> if Starts(operation, "file-read") && path == golden then false
                 else if Starts(operation, "file-write") then path == "/dev/null"
                 else if Starts(operation, "process-exec") then operation == "process-exec" && path == engine
                 else !(operation == "process-fork" || Starts(operation, "network"))
  {
    hide Fits, Starts, Allows;
    PatternsFit(operation);
    PrefixesAreApart(operation);
    var c := Fixed(engine, golden);
    NoneAllowed(operation, path);
    AllowsOneMore([], c[0], operation, path);
    AllowsOneMore([] + [c[0]], c[1], operation, path);
    AllowsOneMore([] + [c[0]] + [c[1]], c[2], operation, path);
    AllowsOneMore([] + [c[0]] + [c[1]] + [c[2]], c[3], operation, path);
    AllowsOneMore([] + [c[0]] + [c[1]] + [c[2]] + [c[3]], c[4], operation, path);
    AllowsOneMore([] + [c[0]] + [c[1]] + [c[2]] + [c[3]] + [c[4]], c[5], operation, path);
    AllowsOneMore([] + [c[0]] + [c[1]] + [c[2]] + [c[3]] + [c[4]] + [c[5]], c[6], operation, path);
    AllowsOneMore([] + [c[0]] + [c[1]] + [c[2]] + [c[3]] + [c[4]] + [c[5]] + [c[6]], c[7], operation, path);
    AllowsOneMore([] + [c[0]] + [c[1]] + [c[2]] + [c[3]] + [c[4]] + [c[5]] + [c[6]] + [c[7]], c[8], operation, path);
    assert c == [] + [c[0]] + [c[1]] + [c[2]] + [c[3]] + [c[4]] + [c[5]] + [c[6]] + [c[7]] + [c[8]];
  }

  lemma NoneAllowed(operation: string, path: string)
    ensures !Allows([], operation, path)
  {
  }

  predicate Hidden(privateDir: Option<string>, path: string) {
    privateDir.Some? && privateDir.value != "" && (path == privateDir.value || privateDir.value + "/" <= path)
  }

  /**
   For all paths, whatever a reader makes of the profile's text: no network and no fork; one executable and one writable
   file; everything may be read but the golden and what lies at or under a private directory; and nothing else is denied.
   */
  lemma ProfileConfines(engine: string, golden: string, privateDir: Option<string>, clauses: seq<Clause>,
                        operation: string, path: string)
    requires States(JoinLines(ProfileLines(engine, golden, privateDir)), clauses)
    ensures Allows(clauses, operation, path)
            <==> if Starts(operation, "network") || operation == "process-fork" then false
                 else if Starts(operation, "process-exec") then operation == "process-exec" && path == engine
                 else if Starts(operation, "file-write") then path == "/dev/null"
                 else if Starts(operation, "file-read") then path != golden && !Hidden(privateDir, path)
                 else true
  {
    hide States, Allows, Starts, Fits, Fixed;
    ProfileStatesOnly(engine, golden, privateDir, clauses);
    FixedAllows(engine, golden, operation, path);
    PrefixesAreApart(operation);
    PatternsFit(operation);
    var dir := EffectiveDir(privateDir);
    if dir.Some? {
      AllowsOneMore(Fixed(engine, golden), Clause(false, "file-read*", Under(dir.value)), operation, path);
    } else {
      assert clauses == Fixed(engine, golden) + [] == Fixed(engine, golden);
    }
    assert privateDir == Some("") <==> privateDir.Some? && privateDir.value == "";
  }
}
