/**
 The line scrubber: what an engine said passes through it before anything is persisted, and paths, URLs, hosts,
 identities and credentials come out as sentinels (bench-runner, scrub.rs).
 */
module Scrub {
  import opened Wrappers
  import opened Text

  const PATH_SENTINEL := "<path>"
  const URL_SENTINEL := "<url>"
  const USERHOST_SENTINEL := "<user@host>"
  const SECRET_SENTINEL := "<redacted>"
  const HOST_SENTINEL := "<host>"

  const READABLE_HOSTS: set<string> := {"localhost", "localhost.localdomain"}

  const FILE_EXTENSIONS: set<string> := {
    "json", "safetensors", "txt", "log", "py", "rs", "swift", "toml", "yaml", "yml", "md", "sh", "so",
    "dylib", "bin", "npz", "gguf", "csv", "tsv", "sha256", "lock", "cfg", "ini", "plist", "sb", "h",
    "c", "cpp", "hpp", "o", "a", "gz", "zip", "tar", "png", "jpg", "svg", "html", "xml", "metallib",
    "metal", "air", "npy", "jsonl", "framework", "mlpackage", "gputrace"}

  const CREDENTIAL_KEY_MARKERS: set<string> := {
    "SECRET", "PASSWORD", "PASSWD", "TOKEN", "CREDENTIAL", "AUTH", "BEARER", "SIGNATURE", "SESSION",
    "COOKIE", "PRIVATE", "ENDPOINT", "URL", "URI", "HOST", "KEY", "HOME", "USER", "LOGNAME", "ACCOUNT",
    "EMAIL", "PATH", "DIR"}

  // ---- character classes --------------------------------------------------------

  predicate IsQuote(c: char) { c == '\"' || c == '\'' }

  predicate IsSeparator(c: char) { c == ' ' || c == '\t' }

  predicate IsWrapper(c: char) {
    c == '(' || c == ')' || c == '[' || c == ']' || c == '{' || c == '}' || c == ',' || c == ';' || c == '`'
  }

  predicate IsDelimiter(c: char) { c == '=' || c == ':' }

  predicate IsColon(c: char) { c == ':' }

  predicate IsDigit(c: char) { '0' <= c <= '9' }

  predicate IsAlpha(c: char) { 'a' <= c <= 'z' || 'A' <= c <= 'Z' }

  predicate IsAlnum(c: char) { IsDigit(c) || IsAlpha(c) }

  function UpperChar(c: char): char {
    if 'a' <= c <= 'z' then c - 'a' + 'A' else c
  }

  function Upper(s: string): string {
    seq(|s|, i requires 0 <= i < |s| => UpperChar(s[i]))
  }

  predicate AllDigits(s: string) {
    forall c :: c in s ==> IsDigit(c)
  }

  // ---- shapes -------------------------------------------------------------------

  function StripQuotes(s: string): string {
    Trim(s, IsQuote)
  }

  predicate IsReadableHost(s: string) {
    Lower(s) in READABLE_HOSTS
  }

  /** Dotted labels whose last one is alphabetic and not a file extension. */
  predicate IsFqdn(s: string) {
    && s != "" && !IsReadableHost(s)
    && (forall c :: c in s ==> IsAlnum(c) || c == '.' || c == '-')
    && var labels := Split(s, '.');
    && 2 <= |labels| && "" !in labels
    && var last := Lower(labels[|labels| - 1]);
    && !AllDigits(last)
    && (forall c :: c in last ==> IsAlpha(c))
    && 2 <= |last| <= 24
    && last !in FILE_EXTENSIONS
  }

  predicate IsPathLike(core: string) {
    && '/' in core
    && (|| StartsWith(core, "/") || StartsWith(core, "~") || StartsWith(core, "./") || StartsWith(core, "../")
        || 3 <= |Components(core, '/')|)
  }

  predicate LooksLikeAssignmentKey(key: string) {
    && (forall c :: c in key ==> IsAlnum(c) || c == '_' || c == '-' || c == '.')
    && exists c :: c in key && IsAlpha(c)
  }

  predicate IsCredentialKey(key: string) {
    exists marker :: marker in CREDENTIAL_KEY_MARKERS && Contains(Upper(key), marker)
  }

  // ---- one core -----------------------------------------------------------------

  /** Where the first `=` makes `core` an assignment, if it does. */
  function AssignmentAt(core: string): (r: Option<nat>)
    ensures r.Some? ==> 0 < r.value < |core| && core[r.value] == '=' && '=' !in core[..r.value]
                        && LooksLikeAssignmentKey(StripQuotes(core[..r.value]))
  {
    match FindChar(core, '=')
    case None => None
    case Some(eq) =>
      if eq != 0 && LooksLikeAssignmentKey(StripQuotes(core[..eq])) then Some(eq) else None
  }

  /** A user@host shape: something on both sides of the first `@`. */
  predicate IsUserHost(core: string) {
    match FindChar(core, '@')
    case None => false
    case Some(at) => 0 < at && at + 1 < |core|
  }

  /** Where the first `:` opens a nonempty credential value, if it does. */
  function SecretColonAt(core: string): (r: Option<nat>)
    ensures r.Some? ==> r.value < |core| && core[r.value] == ':' && ':' !in core[..r.value]
                        && LooksLikeAssignmentKey(StripQuotes(core[..r.value]))
  {
    match FindChar(core, ':')
    case None => None
    case Some(colon) =>
      var key, value := core[..colon], core[colon + 1..];
      if key != "" && value != "" && !IsReadableHost(StripQuotes(key))
         && LooksLikeAssignmentKey(StripQuotes(key)) && IsCredentialKey(StripQuotes(key))
      then Some(colon) else None
  }

  function ScrubHostLike(core: string): Option<string> {
    var withPort :=
      match FindLast(core, ':')
      case None => None
      case Some(colon) =>
        var host, port := core[..colon], core[colon + 1..];
        if port != "" && AllDigits(port) && IsFqdn(host) then Some(HOST_SENTINEL + ":" + port) else None;
    if withPort.Some? then withPort
    else if IsFqdn(core) then Some(HOST_SENTINEL)
    else None
  }

  /** Scrub one piece: its surrounding quotes are set aside first. */
  function ScrubCore(core: string): string
    decreases |core|, 3
  {
    var unquoted := TrimStart(core, IsQuote);
    var inner := TrimEnd(unquoted, IsQuote);
    if |inner| < |core| && inner != "" then
      core[..|core| - |unquoted|] + ScrubCore(inner) + unquoted[|inner|..]
    else ScrubBare(core)
  }

  function ScrubBare(core: string): string
    decreases |core|, 2
  {
    if Contains(core, "://") then URL_SENTINEL
    else
      match AssignmentAt(core)
      case Some(eq) =>
        if IsCredentialKey(StripQuotes(core[..eq])) then core[..eq] + "=" + SECRET_SENTINEL
        else core[..eq] + "=" + ScrubCore(core[eq + 1..])
      case None => ScrubPlain(core)
  }

  function ScrubPlain(core: string): string
    decreases |core|, 1
  {
    if IsUserHost(core) then USERHOST_SENTINEL
    else if IsPathLike(core) then AbbreviatePath(core)
    else
      match ScrubHostLike(core)
      case Some(host) => host
      case None =>
        match SecretColonAt(core)
        case Some(colon) => core[..colon] + ":" + SECRET_SENTINEL
        case None => core
  }

  predicate IsNamedComponent(part: string) {
    part != "." && part != ".." && !StartsWith(part, "~")
  }

  /** The last component that names something, and how many do. */
  datatype Named = Named(last: string, count: nat)

  function NamedComponents(parts: seq<string>): Named {
    if parts == [] then Named("", 0)
    else
      var before := NamedComponents(parts[..|parts| - 1]);
      if IsNamedComponent(parts[|parts| - 1]) then Named(parts[|parts| - 1], before.count + 1) else before
  }

  lemma {:induction false} NamedIsComponent(parts: seq<string>)
    ensures var named := NamedComponents(parts); 0 < named.count ==> named.last in parts
  {
    if parts != [] {
      NamedIsComponent(parts[..|parts| - 1]);
    }
  }

  lemma BasenameShorter(path: string)
    requires '/' in path
    ensures var named := NamedComponents(Components(path, '/'));
            0 < named.count ==> |named.last| < |path| && '/' !in named.last && forall c :: c in named.last ==> c in path
  {
    var parts := Components(path, '/');
    NamedIsComponent(parts);
    var named := NamedComponents(parts);
    if 0 < named.count {
      var i :| 0 <= i < |parts| && parts[i] == named.last;
      ComponentsSmaller(path, '/', i);
    }
  }

  /** Keep only the scrubbed basename of a deep path, and nothing of a shallow one. */
  function AbbreviatePath(path: string): string
    requires '/' in path
    decreases |path|, 0
  {
    var named := NamedComponents(Components(path, '/'));
    BasenameShorter(path);
    if 2 < named.count then PATH_SENTINEL + "/" + ScrubCore(named.last) else PATH_SENTINEL
  }

  // ---- one token ------------------------------------------------------------------

  function ScrubPiece(piece: string): string {
    if piece == "" then "" else ScrubCore(piece)
  }

  /** Scrub the pieces between wrapper characters, keeping the wrappers. */
  function ScrubTokenSpec(token: string): string {
    match FindFirst(token, IsWrapper)
    case None => ScrubPiece(token)
    case Some(i) => ScrubPiece(token[..i]) + [token[i]] + ScrubTokenSpec(token[i + 1..])
  }

  lemma Associate(a: string, b: string, c: string)
    ensures (a + b) + c == a + (b + c)
  {
  }

  /** From `start`, the piece before the first wrapper, the wrapper, and the rest. */
  lemma TokenUnfolds(token: string, start: nat, i: nat)
    requires start <= i < |token| && IsWrapper(token[i]) && forall k :: start <= k < i ==> !IsWrapper(token[k])
    ensures ScrubTokenSpec(token[start..])
            == ScrubPiece(token[start..i]) + [token[i]] + ScrubTokenSpec(token[i + 1..])
  {
    hide ScrubPiece;
    var rest := token[start..];
    FirstIs(rest, IsWrapper, i - start);
    assert rest[..i - start] == token[start..i] && rest[i - start + 1..] == token[i + 1..];
  }

  method ScrubToken(token: string) returns (out: string)
    ensures out == ScrubTokenSpec(token)
  {
    hide ScrubCore, ScrubTokenSpec;
    out := "";
    var pieceStart := 0;
    assert token[0..] == token;
    for i := 0 to |token|
      invariant 0 <= pieceStart <= i
      invariant forall k :: pieceStart <= k < i ==> !IsWrapper(token[k])
      invariant ScrubTokenSpec(token) == out + ScrubTokenSpec(token[pieceStart..])
    {
      if IsWrapper(token[i]) {
        TokenUnfolds(token, pieceStart, i);
        Associate(out, ScrubPiece(token[pieceStart..i]) + [token[i]], ScrubTokenSpec(token[i + 1..]));
        Associate(out, ScrubPiece(token[pieceStart..i]), [token[i]]);
        if pieceStart < i {
          out := out + ScrubCore(token[pieceStart..i]);
        }
        out := out + [token[i]];
        pieceStart := i + 1;
      }
    }
    LastPiece(token[pieceStart..]);
    if pieceStart < |token| {
      out := out + ScrubCore(token[pieceStart..]);
    }
  }

  lemma LastPiece(rest: string)
    requires forall k :: 0 <= k < |rest| ==> !IsWrapper(rest[k])
    ensures ScrubTokenSpec(rest) == ScrubPiece(rest)
  {
    hide ScrubPiece;
    NoneIs(rest, IsWrapper);
  }

  // ---- one line ---------------------------------------------------------------------

  /** The next whitespace-delimited token. */
  function NextToken(rest: string): string {
    TakeToken(TrimStart(rest, IsSeparator))
  }

  /** The leading run of characters that are not separators. */
  function TakeToken(s: string): (t: string)
    ensures t <= s && (forall c :: c in t ==> !IsSeparator(c))
    ensures |t| < |s| ==> IsSeparator(s[|t|])
    ensures s != "" && !IsSeparator(s[0]) ==> t != ""
  {
    match FindFirst(s, IsSeparator)
    case None => s
    case Some(i) => s[..i]
  }

  /** The leading slice to keep, its bridge to the sentinel, and the value it introduces. */
  datatype Slot = Slot(prefix: string, bridge: string, value: string)

  function SlotParts(token: string, remainder: string): Option<Slot> {
    match FindFirst(token, IsDelimiter)
    case Some(i) =>
      if i + 1 == |token| then Some(Slot(token, " ", NextToken(remainder)))
      else Some(Slot(token[..i + 1], "", token[i + 1..]))
    case None =>
      if NextToken(remainder) == ":" then
        Some(Slot(token, ": ", NextToken(TrimStart(TrimStart(remainder, IsSeparator), IsColon))))
      else None
  }

  function SlotKey(slot: Slot): string {
    StripQuotes(TrimEnd(slot.prefix, IsDelimiter))
  }

  /** Does the token open a credential value slot? If so, everything after its prefix is sealed. */
  function CredentialSlot(token: string, remainder: string): Option<Slot> {
    if Contains(token, "://") then None
    else
      match SlotParts(token, remainder)
      case None => None
      case Some(slot) =>
        var key := SlotKey(slot);
        if key == "" || IsReadableHost(key) || !LooksLikeAssignmentKey(key) || !IsCredentialKey(key) then None
        else if slot.value == "" || slot.value == SECRET_SENTINEL then None
        else if IsFqdn(key) && AllDigits(slot.value) then None
        else Some(slot)
  }

  function SealedSlot(slot: Slot): string {
    slot.prefix + slot.bridge + SECRET_SENTINEL
  }

  /** Scrub what is left of a line, token by token, up to the first credential slot. */
  function ScrubRest(rest: string): string
    decreases |rest|
  {
    var after := TrimStart(rest, IsSeparator);
    var gap := rest[..|rest| - |after|];
    if after == "" then gap
    else
      var token := TakeToken(after);
      var remainder := after[|token|..];
      match CredentialSlot(token, remainder)
      case Some(slot) => gap + SealedSlot(slot)
      case None => gap + ScrubTokenSpec(token) + ScrubRest(remainder)
  }

  function HexDigit(n: nat): char
    requires n < 16
  {
    "0123456789abcdef"[n]
  }

  predicate IsControl(c: char) {
    c != '\t' && (c < ' ' || c == '\U{7F}')
  }

  function EscapeControl(c: char): string {
    if IsControl(c) then "\\x" + [HexDigit(c as int / 16), HexDigit(c as int % 16)] else [c]
  }

  function Controlled(line: string): string {
    if line == "" then "" else EscapeControl(line[0]) + Controlled(line[1..])
  }

  method StripControlBytes(line: string) returns (out: string)
    ensures out == Controlled(line)
  {
    hide EscapeControl;
    out := "";
    assert line[0..] == line;
    for i := 0 to |line|
      invariant out + Controlled(line[i..]) == Controlled(line)
    {
      assert line[i..][1..] == line[i + 1..];
      Associate(out, EscapeControl(line[i]), Controlled(line[i + 1..]));
      out := out + EscapeControl(line[i]);
    }
    assert Controlled(line[|line|..]) == "" && out + "" == out;
  }

  /** One token of a line: its gap, then either a sealed slot or its scrubbed form and the rest. */
  lemma RestUnfolds(rest: string, gap: string, token: string, remainder: string)
    requires rest == gap + (token + remainder) && token != ""
    requires AllIn(gap, IsSeparator) && !IsSeparator(token[0]) && token == TakeToken(token + remainder)
    ensures CredentialSlot(token, remainder).Some? ==>
              ScrubRest(rest) == gap + SealedSlot(CredentialSlot(token, remainder).value)
    ensures CredentialSlot(token, remainder).None? ==>
              ScrubRest(rest) == gap + (ScrubTokenSpec(token) + ScrubRest(remainder))
  {
    hide ScrubCore, ScrubTokenSpec, CredentialSlot;
    var after := token + remainder;
    TrimStartStopsAt(after, IsSeparator);
    TrimStartSkips(gap, after, IsSeparator);
    assert after[|token|..] == remainder && rest[..|gap|] == gap;
    Associate(gap, ScrubTokenSpec(token), ScrubRest(remainder));
  }

  lemma OnlyGap(gap: string)
    requires AllIn(gap, IsSeparator)
    ensures ScrubRest(gap) == gap && ScrubRest("") == ""
  {
    TrimStartSkips(gap, "", IsSeparator);
    assert gap + "" == gap;
  }

  lemma OneTokenFurther(before: string, gap: string, scrubbed: string, tail: string)
    ensures before + (gap + (scrubbed + tail)) == before + gap + scrubbed + tail
  {
  }

  method ScrubEngineText(line: string) returns (out: string)
    ensures out == ScrubRest(Controlled(line))
  {
    hide ScrubRest, ScrubTokenSpec, CredentialSlot, SealedSlot, TrimStart, TakeToken, Controlled;
    OnlyGap("");
    var rest := StripControlBytes(line);
    ghost var whole := ScrubRest(rest);
    out := "";
    while rest != ""
      invariant whole == out + ScrubRest(rest)
      decreases |rest|
    {
      ghost var before, here := out, rest;
      var after := TrimStart(rest, IsSeparator);
      var gap := rest[..|rest| - |after|];
      TrimStartCuts(rest, IsSeparator);
      out, rest := out + gap, after;
      assert here == gap + after;
      if rest == "" {
        assert gap == here;
        OnlyGap(gap);
        break;
      }
      var token := TakeToken(rest);
      var remainder := rest[|token|..];
      assert rest == token + remainder;
      RestUnfolds(here, gap, token, remainder);
      var slot := CredentialSlot(token, remainder);
      if slot.Some? {
        Associate(before, gap, SealedSlot(slot.value));
        return out + SealedSlot(slot.value);
      }
      var scrubbed := ScrubToken(token);
      OneTokenFurther(before, gap, scrubbed, ScrubRest(remainder));
      out, rest := out + scrubbed, remainder;
    }
  }
}
