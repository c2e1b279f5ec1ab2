/** The paths a workspace is hashed under, name by name, and the bytes they give (bench-core, harness_hash.rs). */
module HarnessLaws {
  import opened Wrappers
  import opened Sorting
  import opened Utf8
  import opened HarnessHash
  import opened HarnessIdentity

  // ---- the walk, name by name ----------------------------------------------------------

  /** A name that does not begin with a dot. */
  predicate IsVisible(name: string) {
    !("." <= name)
  }

  /** These names lead from a directory through directories to a file with this content, and none of them is hidden. */
  ghost predicate Leads(node: Node, names: seq<string>, content: Option<seq<Byte>>)
    decreases |names|
  {
    && names != [] && node.Directory? && IsVisible(names[0])
    && exists i :: 0 <= i < |node.listing| && node.listing[i].name == names[0]
                   && if |names| == 1 then node.listing[i].node == File(content)
                      else Leads(node.listing[i].node, names[1..], content)
  }

  /** Names joined to a directory by slashes. */
  function PathTo(dir: string, names: seq<string>): string
    requires names != []
    decreases |names|
  {
    if |names| == 1 then dir + "/" + names[0] else PathTo(dir + "/" + names[0], names[1..])
  }

  /** A directory's own name, as a path: not empty, and not ending in a slash. */
  predicate IsDirName(dir: string) {
    dir != "" && dir[|dir| - 1] != '/'
  }

  lemma JoinsWithSlash(dir: string, name: string)
    requires IsDirName(dir)
    ensures Join(dir, name) == dir + "/" + name
    ensures ValidEntryName(name) ==> IsDirName(Join(dir, name))
  {
  }

  lemma HiddenIs(name: string)
    requires name != ""
    ensures IsHidden(name) <==> !IsVisible(name)
  {
    assert "." <= name <==> name[0] == '.';
  }

  lemma LeadsOneMore(node: Node, i: nat, names: seq<string>, content: Option<seq<Byte>>)
    requires node.Directory? && i < |node.listing| && Leads(node.listing[i].node, names, content)
    requires IsVisible(node.listing[i].name)
    ensures Leads(node, [node.listing[i].name] + names, content)
  {
    assert ([node.listing[i].name] + names)[1..] == names;
  }

  lemma {:induction false} ReachesLeads(dir: string, node: Node, f: Found) returns (names: seq<string>)
    requires WellFormed(node) && IsDirName(dir) && Reaches(dir, node, f)
    ensures Leads(node, names, f.content) && f.path == PathTo(dir, names)
    decreases node
  {
    hide IsVisible;
    var i :| 0 <= i < |node.listing| && !IsHidden(node.listing[i].name) && EntryReaches(dir, node.listing[i], f);
    var e := node.listing[i];
    JoinsWithSlash(dir, e.name);
    HiddenIs(e.name);
    if e.node.File? {
      names := [e.name];
    } else {
      var rest := ReachesLeads(Join(dir, e.name), e.node, f);
      names := [e.name] + rest;
      LeadsOneMore(node, i, rest, f.content);
      assert names[1..] == rest;
    }
  }

  lemma {:induction false} LeadsReaches(dir: string, node: Node, names: seq<string>, content: Option<seq<Byte>>)
    requires WellFormed(node) && IsDirName(dir) && Leads(node, names, content)
    ensures Reaches(dir, node, Found(PathTo(dir, names), content))
    decreases |names|
  {
    hide IsVisible;
    var i :| 0 <= i < |node.listing| && node.listing[i].name == names[0]
             && if |names| == 1 then node.listing[i].node == File(content)
                else Leads(node.listing[i].node, names[1..], content);
    var e := node.listing[i];
    JoinsWithSlash(dir, e.name);
    HiddenIs(e.name);
    if |names| != 1 {
      LeadsReaches(Join(dir, e.name), e.node, names[1..], content);
      assert EntryReaches(dir, e, Found(PathTo(dir, names), content));
    }
  }

  /** Exactly the files that visible names lead to are collected, each under those names joined by slashes. */
  lemma WalkFollowsNames(dir: string, node: Node, f: Found)
    requires WellFormed(node) && IsDirName(dir)
    ensures f in WalkFound(dir, node) <==> exists names :: Leads(node, names, f.content) && f.path == PathTo(dir, names)
  {
    hide Reaches, WalkFound, PathTo;
    WalkIsExact(dir, node, f);
    if Reaches(dir, node, f) {
      var names := ReachesLeads(dir, node, f);
    }
    if exists names :: Leads(node, names, f.content) && f.path == PathTo(dir, names) {
      var names :| Leads(node, names, f.content) && f.path == PathTo(dir, names);
      LeadsReaches(dir, node, names, f.content);
    }
  }

  // ---- the roots -------------------------------------------------------------------------

  /** A root on disk, directly or behind one link: what is collected under it, and whether it is missing. */
  lemma RootKinds(base: string, ws: Workspace, root: string, node: Node)
    requires root in ws && IsDirName(base) && (ws[root] == node || ws[root] == Link(node)) && !node.Link?
    ensures Present(ws, root) <==> !node.BrokenLink?
    ensures node.File? ==> RootFound(base, ws, root) == [Found(base + "/" + root, node.content)]
    ensures node.Special? ==> RootFound(base, ws, root) == [Found(base + "/" + root, None)]
    ensures node.Directory? ==>
              RootFound(base, ws, root) == if ws[root] == node then WalkFound(base + "/" + root, node) else []
    ensures node.Unlistable? ==> RootFound(base, ws, root) == []
  {
    hide WalkListing, Join;
    JoinsWithSlash(base, root);
    LinkIsFollowed(node);
  }

  /** Links are followed however many there are. */
  lemma {:induction false} LinkIsFollowed(node: Node)
    ensures Followed(Link(node)) == Followed(node)
    ensures Followed(node).Some? ==> !Followed(node).value.Link? && !Followed(node).value.BrokenLink?
  {
    if node.Link? {
      LinkIsFollowed(node.target);
    }
  }

  /** The fixed roots. */
  lemma RootsAre(root: string)
    ensures root in ROOTS
            <==> root in {"Package.swift", "Sources", "Tests", "benchmark.json", "benchmark.sh", "setup.sh", "tools",
                          "README.md", "TASK.md"}
  {
    var r := ROOTS;
    assert r[0] == "Package.swift" && r[1] == "Sources" && r[2] == "Tests" && r[3] == "benchmark.json";
    assert r[4] == "benchmark.sh" && r[5] == "setup.sh" && r[6] == "tools" && r[7] == "README.md" && r[8] == "TASK.md";
  }

  // ---- the bytes ---------------------------------------------------------------------------

  /** What one path adds: its own encoding and its content, or nothing when it cannot be read. */
  function BytesOf(path: string, content: Option<seq<Byte>>): seq<Byte> {
    match content
    case None => []
    case Some(bytes) => Encode(path) + bytes
  }

  /** The paths' bytes stand one behind the other, in order. */
  lemma {:induction false} BytesStandInOrder(a: seq<string>, b: seq<string>, read: string -> Option<seq<Byte>>)
    ensures HashedBytes(a + b, read) == HashedBytes(a, read) + HashedBytes(b, read)
    decreases |b|
  {
    if b == [] {
      assert a + b == a;
    } else {
      var shorter := b[..|b| - 1];
      assert (a + b)[..|a + b| - 1] == a + shorter;
      BytesStandInOrder(a, shorter, read);
    }
  }

  lemma OnePathsBytes(path: string, read: string -> Option<seq<Byte>>)
    ensures HashedBytes([path], read) == BytesOf(path, read(path))
  {
    assert [path][..0] == [];
    assert HashedBytes([], read) == [];
  }

  /** Six more bits, from a continuation byte. */
  function Tail(lead: int, next: Byte): int {
    lead * 64 + (next as int - 0x80)
  }

  /** The value written in the bytes of one character. */
  function CodePoint(bytes: seq<Byte>): int {
    match |bytes|
    case 1 => bytes[0]
    case 2 => Tail(bytes[0] as int - 0xC0, bytes[1])
    case 3 => Tail(Tail(bytes[0] as int - 0xE0, bytes[1]), bytes[2])
    case 4 => Tail(Tail(Tail(bytes[0] as int - 0xF0, bytes[1]), bytes[2]), bytes[3])
    case _ => -1
  }

  /** A character reads back from its bytes, and is written in as few as its value allows. */
  lemma CharReadsBack(c: char)
    ensures var bytes, n := EncodeChar(c), c as int;
            && CodePoint(bytes) == n
            && |bytes| == (if n <= 0x7F then 1 else if n <= 0x7FF then 2 else if n <= 0xFFFF then 3 else 4)
  {
    var n := c as int;
    assert n == n / 64 * 64 + n % 64;
    assert n / 64 == n / 4096 * 64 + n / 64 % 64;
    assert n / 4096 == n / 262144 * 64 + n / 4096 % 64;
  }
}
