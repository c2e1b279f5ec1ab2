/**
 The harness identity of a workspace: which files it covers, and the byte string that is hashed
 (bench-core, harness_hash.rs).
 */
module HarnessHash {
  import opened Wrappers
  import opened Sorting
  import opened Utf8

  // ---- a filesystem ----------------------------------------------------------------

  /** What a path names, before any link is followed. */
  datatype Node =
    | File(content: Option<seq<Byte>>)  // None: exists but cannot be read
    | Directory(listing: seq<Entry>)
    | Unlistable                        // a directory that cannot be enumerated
    | Link(target: Node)
    | BrokenLink
    | Special                           // socket, pipe, device, or an entry of unknown type

  datatype Entry = Entry(name: string, node: Node)

  predicate IsHidden(name: string) {
    name != "" && name[0] == '.'
  }

  predicate ValidEntryName(name: string) {
    name != "" && '/' !in name
  }

  predicate DistinctNames(listing: seq<Entry>) {
    forall i, j :: 0 <= i < j < |listing| ==> listing[i].name != listing[j].name
  }

  /** Every directory lists proper names, each once. */
  predicate WellFormed(node: Node) {
    match node
    case Directory(listing) =>
      DistinctNames(listing)
      && forall i :: 0 <= i < |listing| ==> ValidEntryName(listing[i].name) && WellFormed(listing[i].node)
    case _ => true
  }

  /** A directory with the separator that a joined name needs in front of it: none behind `/` or an empty base. */
  function Lead(dir: string): string {
    if dir == "" || dir[|dir| - 1] == '/' then dir else dir + "/"
  }

  function Join(dir: string, name: string): string {
    Lead(dir) + name
  }

  lemma JoinedLeads(dir: string, name: string)
    requires ValidEntryName(name)
    ensures Lead(Join(dir, name)) == Join(dir, name) + "/"
  {
    assert Join(dir, name)[|Join(dir, name)| - 1] == name[|name| - 1];
  }

  datatype Found = Found(path: string, content: Option<seq<Byte>>)

  // ---- what counts as covered ---------------------------------------------------------

  /** `path` leads from directory `dir` through visible real directories to a regular file. */
  ghost predicate Reaches(dir: string, node: Node, f: Found)
    decreases node
  {
    match node
    case Directory(listing) =>
      exists i :: 0 <= i < |listing| && !IsHidden(listing[i].name) && EntryReaches(dir, listing[i], f)
    case _ => false
  }

  ghost predicate EntryReaches(dir: string, entry: Entry, f: Found)
    decreases entry
  {
    match entry.node
    case File(content) => f == Found(Join(dir, entry.name), content)
    case Directory(_) => Reaches(Join(dir, entry.name), entry.node, f)
    case _ => false
  }

  // ---- the walk --------------------------------------------------------------------------

  function WalkFound(dir: string, node: Node): seq<Found>
    decreases node, 0
  {
    match node
    case Directory(listing) => WalkListing(dir, listing)
    case _ => []
  }

  function WalkListing(dir: string, listing: seq<Entry>): seq<Found>
    decreases listing, 1
  {
    if listing == [] then []
    else WalkEntry(dir, listing[0]) + WalkListing(dir, listing[1..])
  }

  function WalkEntry(dir: string, entry: Entry): seq<Found>
    decreases entry, 0
  {
    if IsHidden(entry.name) then []
    else
      match entry.node
      case Directory(_) => WalkFound(Join(dir, entry.name), entry.node)
      case File(content) => [Found(Join(dir, entry.name), content)]
      case _ => []
  }

  function Paths(found: seq<Found>): seq<string> {
    seq(|found|, i requires 0 <= i < |found| => found[i].path)
  }

  lemma PathsJoin(a: seq<Found>, b: seq<Found>)
    ensures Paths(a + b) == Paths(a) + Paths(b)
  {
  }

  lemma {:induction false} WalkListingSplits(dir: string, listing: seq<Entry>, i: nat)
    requires i < |listing|
    ensures WalkListing(dir, listing[..i + 1]) == WalkListing(dir, listing[..i]) + WalkEntry(dir, listing[i])
  {
    if i == 0 {
      assert listing[..1][1..] == [] && listing[..0] == [];
    } else {
      WalkListingSplits(dir, listing[1..], i - 1);
      assert listing[..i + 1][1..] == listing[1..][..i] && listing[..i][1..] == listing[1..][..i - 1];
    }
  }

  /** Append the regular files under `dir`; an entry that is hidden, a link or special adds nothing. */
  method WalkDirectory(dir: string, node: Node, files: seq<string>) returns (out: seq<string>)
    ensures out == files + Paths(WalkFound(dir, node))
    decreases node
  {
    out := files;
    if !node.Directory? {
      return;
    }
    var listing := node.listing;
    for i := 0 to |listing|
      invariant out == files + Paths(WalkListing(dir, listing[..i]))
    {
      WalkListingSplits(dir, listing, i);
      PathsJoin(WalkListing(dir, listing[..i]), WalkEntry(dir, listing[i]));
      var entry := listing[i];
      if IsHidden(entry.name) {
        continue;
      }
      if entry.node.Directory? {
        out := WalkDirectory(Join(dir, entry.name), entry.node, out);
      } else if entry.node.File? {
        out := out + [Join(dir, entry.name)];
      }
    }
    assert listing[..|listing|] == listing;
  }

  // ---- the walk is exact -------------------------------------------------------------------

  lemma {:induction false} WalkIsExact(dir: string, node: Node, f: Found)
    ensures f in WalkFound(dir, node) <==> Reaches(dir, node, f)
    decreases node
  {
    match node
    case Directory(listing) =>
      forall i | 0 <= i < |listing|
        ensures f in WalkEntry(dir, listing[i])
                <==> !IsHidden(listing[i].name) && EntryReaches(dir, listing[i], f)
      {
        if listing[i].node.Directory? {
          WalkIsExact(Join(dir, listing[i].name), listing[i].node, f);
        }
      }
      InSomeEntry(dir, listing, f);
    case _ =>
  }

  lemma InListing(dir: string, listing: seq<Entry>, f: Found)
    requires listing != []
    ensures f in WalkListing(dir, listing)
            <==> f in WalkEntry(dir, listing[0]) || f in WalkListing(dir, listing[1..])
  {
    hide WalkEntry;
  }

  lemma {:induction false} EntryOf(dir: string, listing: seq<Entry>, f: Found) returns (i: nat)
    requires f in WalkListing(dir, listing)
    ensures i < |listing| && f in WalkEntry(dir, listing[i])
  {
    hide WalkEntry;
    InListing(dir, listing, f);
    if f in WalkEntry(dir, listing[0]) {
      i := 0;
    } else {
      var k := EntryOf(dir, listing[1..], f);
      i := k + 1;
    }
  }

  lemma {:induction false} EntryInListing(dir: string, listing: seq<Entry>, i: nat, f: Found)
    requires i < |listing| && f in WalkEntry(dir, listing[i])
    ensures f in WalkListing(dir, listing)
  {
    hide WalkEntry, WalkListing;
    InListing(dir, listing, f);
    if 0 < i {
      EntryInListing(dir, listing[1..], i - 1, f);
    }
  }

  lemma InSomeEntry(dir: string, listing: seq<Entry>, f: Found)
    ensures f in WalkListing(dir, listing) <==> exists i :: 0 <= i < |listing| && f in WalkEntry(dir, listing[i])
  {
    hide WalkEntry, WalkListing;
    if f in WalkListing(dir, listing) {
      var i := EntryOf(dir, listing, f);
    }
    if i :| 0 <= i < |listing| && f in WalkEntry(dir, listing[i]) {
      EntryInListing(dir, listing, i, f);
    }
  }

  predicate NoRepeat(s: seq<string>) {
    forall i, j :: 0 <= i < j < |s| ==> s[i] != s[j]
  }

  /** `path` lies at or below `Join(dir, name)`. */
  predicate Below(path: string, dir: string, name: string) {
    path == Join(dir, name) || Join(dir, name) + "/" <= path
  }

  lemma BelowIsTransitive(path: string, dir: string, name: string, inner: string)
    requires ValidEntryName(name) && Below(path, Join(dir, name), inner)
    ensures Below(path, dir, name)
  {
    hide Join;
    JoinedLeads(dir, name);
    JoinIs(Join(dir, name), inner);
    var lead := Join(dir, name) + "/";
    assert Join(Join(dir, name), inner) == lead + inner;
    if path == lead + inner {
      assert lead <= path;
    } else {
      assert (lead + inner + "/")[..|lead|] == lead;
      assert path[..|lead|] == (lead + inner + "/")[..|lead|];
    }
  }

  lemma JoinIs(dir: string, name: string)
    ensures Join(dir, name) == Lead(dir) + name
  {
  }

  function UpToSlash(s: string): string {
    if s == "" || s[0] == '/' then "" else [s[0]] + UpToSlash(s[1..])
  }

  lemma {:induction false} UpToSlashIsName(name: string, rest: string)
    requires '/' !in name && (rest == "" || rest[0] == '/')
    ensures UpToSlash(name + rest) == name
  {
    if name != "" {
      assert (name + rest)[1..] == name[1..] + rest;
      UpToSlashIsName(name[1..], rest);
    } else {
      assert name + rest == rest;
    }
  }

  lemma NameOfPath(path: string, dir: string, name: string)
    requires '/' !in name && Below(path, dir, name)
    ensures |Lead(dir)| <= |path| && UpToSlash(path[|Lead(dir)|..]) == name
  {
    hide Lead;
    var rest := path[|Join(dir, name)|..];
    assert path == Join(dir, name) + rest;
    assert rest == "" || rest[0] == (Join(dir, name) + "/")[|Join(dir, name)|];
    assert path[|Lead(dir)|..] == name + rest;
    UpToSlashIsName(name, rest);
  }

  /** Paths below differently named entries of one directory differ. */
  lemma BelowApart(path: string, dir: string, a: string, b: string)
    requires '/' !in a && '/' !in b && Below(path, dir, a) && Below(path, dir, b)
    ensures a == b
  {
    NameOfPath(path, dir, a);
    NameOfPath(path, dir, b);
  }

  lemma {:induction false} WalkStaysBelow(dir: string, entry: Entry)
    requires ValidEntryName(entry.name) && WellFormed(entry.node)
    ensures forall p :: p in Paths(WalkEntry(dir, entry)) ==> Below(p, dir, entry.name)
    decreases entry
  {
    if !IsHidden(entry.name) && entry.node.Directory? {
      var inner, listing := Join(dir, entry.name), entry.node.listing;
      forall p | p in Paths(WalkEntry(dir, entry)) ensures Below(p, dir, entry.name) {
        var k :| 0 <= k < |WalkListing(inner, listing)| && WalkListing(inner, listing)[k].path == p;
        var f := WalkListing(inner, listing)[k];
        InSomeEntry(inner, listing, f);
        var i :| 0 <= i < |listing| && f in WalkEntry(inner, listing[i]);
        WalkStaysBelow(inner, listing[i]);
        PathOfFound(WalkEntry(inner, listing[i]), f);
        BelowIsTransitive(p, dir, entry.name, listing[i].name);
      }
    }
  }

  lemma PathOfFound(found: seq<Found>, f: Found)
    requires f in found
    ensures f.path in Paths(found)
  {
    var k :| 0 <= k < |found| && found[k] == f;
    assert Paths(found)[k] == f.path;
  }

  /** Each file once: no two collected paths are the same. */
  lemma {:induction false} WalkRepeatsNothing(dir: string, node: Node)
    requires WellFormed(node)
    ensures NoRepeat(Paths(WalkFound(dir, node)))
    decreases node, 0
  {
    match node
    case Directory(listing) =>
      forall i | 0 <= i < |listing| ensures NoRepeat(Paths(WalkEntry(dir, listing[i]))) {
        if !IsHidden(listing[i].name) && listing[i].node.Directory? {
          WalkRepeatsNothing(Join(dir, listing[i].name), listing[i].node);
        }
      }
      ListingRepeatsNothing(dir, listing);
    case _ =>
  }

  lemma {:induction false} ListingRepeatsNothing(dir: string, listing: seq<Entry>)
    requires DistinctNames(listing)
    requires forall i :: 0 <= i < |listing| ==> ValidEntryName(listing[i].name) && WellFormed(listing[i].node)
    requires forall i :: 0 <= i < |listing| ==> NoRepeat(Paths(WalkEntry(dir, listing[i])))
    ensures NoRepeat(Paths(WalkListing(dir, listing)))
    ensures forall p :: p in Paths(WalkListing(dir, listing)) ==>
              exists i :: 0 <= i < |listing| && Below(p, dir, listing[i].name)
  {
    if listing != [] {
      var head, tail := Paths(WalkEntry(dir, listing[0])), Paths(WalkListing(dir, listing[1..]));
      ListingRepeatsNothing(dir, listing[1..]);
      PathsJoin(WalkEntry(dir, listing[0]), WalkListing(dir, listing[1..]));
      WalkStaysBelow(dir, listing[0]);
      forall p | p in tail ensures exists i :: 1 <= i < |listing| && Below(p, dir, listing[i].name) {
        var i :| 0 <= i < |listing[1..]| && Below(p, dir, listing[1..][i].name);
        assert Below(p, dir, listing[i + 1].name);
      }
      forall i, j | 0 <= i < |head| && 0 <= j < |tail| ensures head[i] != tail[j] {
        assert head[i] in head && tail[j] in tail;
        var k :| 1 <= k < |listing| && Below(tail[j], dir, listing[k].name);
        if head[i] == tail[j] {
          BelowApart(head[i], dir, listing[0].name, listing[k].name);
        }
      }
      JoinRepeatsNothing(head, tail);
    }
  }

  lemma JoinRepeatsNothing(a: seq<string>, b: seq<string>)
    requires NoRepeat(a) && NoRepeat(b) && forall i, j :: 0 <= i < |a| && 0 <= j < |b| ==> a[i] != b[j]
    ensures NoRepeat(a + b)
  {
  }

  // ---- the roots -----------------------------------------------------------------------------

  const ROOTS: seq<string> := [
    "Package.swift", "Sources", "Tests", "benchmark.json", "benchmark.sh", "setup.sh", "tools", "README.md", "TASK.md"]

  /** A workspace names its entries by map; what it does not name is absent from disk. */
  type Workspace = map<string, Node>

  /** What a node is once links are followed; nothing behind a broken one. */
  function Followed(node: Node): Option<Node> {
    match node
    case Link(target) => Followed(target)
    case BrokenLink => None
    case _ => Some(node)
  }

  function ContentOf(node: Node): Option<seq<Byte>> {
    if node.File? then node.content else None
  }

  predicate Present(ws: Workspace, root: string) {
    root in ws && Followed(ws[root]).Some?
  }

  predicate IsDirectoryNode(node: Node) {
    node.Directory? || node.Unlistable?
  }

  /** A present root adds its walk if it resolves to a directory, else itself, read through any link. */
  function RootFound(base: string, ws: Workspace, root: string): seq<Found>
    requires Present(ws, root)
  {
    var followed := Followed(ws[root]).value;
    if IsDirectoryNode(followed) then WalkFound(Join(base, root), ws[root])
    else [Found(Join(base, root), ContentOf(followed))]
  }

  function AllFound(base: string, ws: Workspace, roots: seq<string>): seq<Found>
    requires forall r :: r in roots ==> Present(ws, r)
  {
    if roots == [] then []
    else AllFound(base, ws, roots[..|roots| - 1]) + RootFound(base, ws, roots[|roots| - 1])
  }

  /** Collect every root's files, or refuse at the first root that is missing. */
  method HarnessHashRootFiles(base: string, ws: Workspace, roots: seq<string>) returns (r: Result<seq<string>, string>)
    ensures r.Ok? <==> forall root :: root in roots ==> Present(ws, root)
    ensures r.Ok? ==> r.value == Paths(AllFound(base, ws, roots))
    ensures r.Err? ==> exists i :: 0 <= i < |roots| && roots[i] == r.error && !Present(ws, roots[i])
                                   && forall j :: 0 <= j < i ==> Present(ws, roots[j])
  {
    var files := [];
    for i := 0 to |roots|
      invariant forall root :: root in roots[..i] ==> Present(ws, root)
      invariant files == Paths(AllFound(base, ws, roots[..i]))
    {
      var root := roots[i];
      if root !in ws || Followed(ws[root]).None? {
        assert root in roots;
        assert forall j :: 0 <= j < i ==> roots[j] in roots[..i];
        return Err(root);
      }
      assert roots[..i + 1] == roots[..i] + [root];
      assert roots[..i + 1][..i] == roots[..i];
      PathsJoin(AllFound(base, ws, roots[..i]), RootFound(base, ws, root));
      var followed := Followed(ws[root]).value;
      if IsDirectoryNode(followed) {
        files := WalkDirectory(Join(base, root), ws[root], files);
      } else {
        files := files + [Join(base, root)];
      }
    }
    assert roots[..|roots|] == roots;
    return Ok(files);
  }

  // ---- the hashed bytes ------------------------------------------------------------------------

  function HashedBytes(paths: seq<string>, read: string -> Option<seq<Byte>>): seq<Byte> {
    if paths == [] then []
    else
      var last := paths[|paths| - 1];
      HashedBytes(paths[..|paths| - 1], read)
      + match read(last) case None => [] case Some(content) => Encode(last) + content
  }

  /** Sort, then feed each readable path and its content; an unreadable path leaves no bytes at all. */
  method HarnessHashOver(paths: seq<string>, read: string -> Option<seq<Byte>>, digest: seq<Byte> -> string)
    returns (hash: string)
    ensures hash == digest(HashedBytes(Sort(paths, TextAtMost), read))
  {
    var sorted := Sort(paths, TextAtMost);
    var hasher: seq<Byte> := [];
    for i := 0 to |sorted|
      invariant hasher == HashedBytes(sorted[..i], read)
    {
      assert sorted[..i + 1][..i] == sorted[..i];
      var content := read(sorted[i]);
      if content.None? {
        continue;
      }
      hasher := hasher + Encode(sorted[i]);
      hasher := hasher + content.value;
    }
    assert sorted[..|sorted|] == sorted;
    return digest(hasher);
  }

  /** The identity of a workspace: every covered path with its content, under one digest. */
  method HarnessHash(base: string, ws: Workspace, roots: seq<string>, read: string -> Option<seq<Byte>>,
                     digest: seq<Byte> -> string) returns (r: Result<string, string>)
    ensures r.Ok? <==> forall root :: root in roots ==> Present(ws, root)
    ensures r.Ok? ==> r.value == digest(HashedBytes(Sort(Paths(AllFound(base, ws, roots)), TextAtMost), read))
  {
    var files := HarnessHashRootFiles(base, ws, roots);
    if files.Err? {
      return Err(files.error);
    }
    var hash := HarnessHashOver(files.value, read, digest);
    return Ok(hash);
  }
}
