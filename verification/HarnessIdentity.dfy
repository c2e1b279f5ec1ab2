/**
 What the harness identity depends on: the visible readable files of the roots, and nothing else
 (bench-core, harness_hash.rs).
 */
module HarnessIdentity {
  import opened Wrappers
  import opened Sorting
  import opened Utf8
  import opened HarnessHash

  // ---- path order --------------------------------------------------------------------

  lemma {:induction false} AtMostTotal(a: string, b: string)
    ensures TextAtMost(a, b) || TextAtMost(b, a)
  {
    if a != "" && b != "" && a[0] == b[0] {
      AtMostTotal(a[1..], b[1..]);
    }
  }

  lemma {:induction false} AtMostAntisymmetric(a: string, b: string)
    requires TextAtMost(a, b) && TextAtMost(b, a)
    ensures a == b
  {
    if a != "" {
      AtMostAntisymmetric(a[1..], b[1..]);
      assert a == [a[0]] + a[1..] && b == [b[0]] + b[1..];
    }
  }

  lemma {:induction false} AtMostTransitive(a: string, b: string, c: string)
    requires TextAtMost(a, b) && TextAtMost(b, c)
    ensures TextAtMost(a, c)
  {
    if a != "" && a[0] == b[0] && b[0] == c[0] {
      AtMostTransitive(a[1..], b[1..], c[1..]);
    }
  }

  lemma PathOrderIsTotal()
    ensures TotalOrder(TextAtMost)
  {
    forall a, b ensures TextAtMost(a, b) || TextAtMost(b, a) {
      AtMostTotal(a, b);
    }
    forall a, b | TextAtMost(a, b) && TextAtMost(b, a) ensures a == b {
      AtMostAntisymmetric(a, b);
    }
    forall a, b, c | TextAtMost(a, b) && TextAtMost(b, c) ensures TextAtMost(a, c) {
      AtMostTransitive(a, b, c);
    }
  }

  // ---- coverage ------------------------------------------------------------------------

  /** A file some root covers: the root's own content, or a file its visible real directories lead to. */
  ghost predicate CoveredBy(base: string, ws: Workspace, root: string, f: Found) {
    && Present(ws, root)
    && if IsDirectoryNode(Followed(ws[root]).value) then Reaches(Join(base, root), ws[root], f)
       else f == Found(Join(base, root), ContentOf(Followed(ws[root]).value))
  }

  ghost predicate Covered(base: string, ws: Workspace, roots: seq<string>, f: Found) {
    exists root :: root in roots && CoveredBy(base, ws, root, f)
  }

  /** Proper, distinct root names, each present on disk and naming a proper tree. */
  ghost predicate Complete(ws: Workspace, roots: seq<string>) {
    && NoRepeat(roots)
    && forall root :: root in roots ==> Present(ws, root) && ValidEntryName(root) && WellFormed(ws[root])
  }

  lemma {:induction false} CollectionIsExact(base: string, ws: Workspace, roots: seq<string>, f: Found)
    requires Complete(ws, roots)
    ensures f in AllFound(base, ws, roots) <==> Covered(base, ws, roots, f)
  {
    if roots != [] {
      var before, last := roots[..|roots| - 1], roots[|roots| - 1];
      assert roots == before + [last] && last in roots;
      CollectionIsExact(base, ws, before, f);
      WalkIsExact(Join(base, last), ws[last], f);
      assert f in RootFound(base, ws, last) <==> CoveredBy(base, ws, last, f);
    }
  }

  lemma RootStaysBelow(base: string, ws: Workspace, root: string)
    requires Present(ws, root) && ValidEntryName(root) && WellFormed(ws[root])
    ensures forall p :: p in Paths(RootFound(base, ws, root)) ==> Below(p, base, root)
    ensures NoRepeat(Paths(RootFound(base, ws, root)))
  {
    var entry := Entry(root, ws[root]);
    WalkRepeatsNothing(Join(base, root), ws[root]);
    if IsDirectoryNode(Followed(ws[root]).value) && ws[root].Directory? {
      forall p | p in Paths(WalkFound(Join(base, root), ws[root])) ensures Below(p, base, root) {
        FoundStaysBelow(base, root, ws[root], p);
      }
    }
  }

  lemma FoundStaysBelow(base: string, root: string, node: Node, p: string)
    requires ValidEntryName(root) && WellFormed(node) && node.Directory? && p in Paths(WalkFound(Join(base, root), node))
    ensures Below(p, base, root)
  {
    var dir, listing := Join(base, root), node.listing;
    var k :| 0 <= k < |WalkListing(dir, listing)| && WalkListing(dir, listing)[k].path == p;
    var f := WalkListing(dir, listing)[k];
    InSomeEntry(dir, listing, f);
    var i :| 0 <= i < |listing| && f in WalkEntry(dir, listing[i]);
    WalkStaysBelow(dir, listing[i]);
    PathOfFound(WalkEntry(dir, listing[i]), f);
    BelowIsTransitive(p, base, root, listing[i].name);
  }

  /** Across all roots, every path is collected once. */
  lemma {:induction false} CollectionRepeatsNothing(base: string, ws: Workspace, roots: seq<string>)
    requires Complete(ws, roots)
    ensures NoRepeat(Paths(AllFound(base, ws, roots)))
    ensures forall p :: p in Paths(AllFound(base, ws, roots)) ==> exists root :: root in roots && Below(p, base, root)
  {
    if roots != [] {
      var before, last := roots[..|roots| - 1], roots[|roots| - 1];
      assert roots == before + [last] && last in roots;
      CollectionRepeatsNothing(base, ws, before);
      RootStaysBelow(base, ws, last);
      var head, tail := Paths(AllFound(base, ws, before)), Paths(RootFound(base, ws, last));
      PathsJoin(AllFound(base, ws, before), RootFound(base, ws, last));
      forall i, j | 0 <= i < |head| && 0 <= j < |tail| ensures head[i] != tail[j] {
        assert head[i] in head && tail[j] in tail;
        var root :| root in before && Below(head[i], base, root);
        if head[i] == tail[j] {
          BelowApart(head[i], base, root, last);
        }
      }
      JoinRepeatsNothing(head, tail);
    }
  }

  // ---- only readable paths leave bytes ----------------------------------------------------

  function Filter<T>(s: seq<T>, p: T -> bool): seq<T> {
    if s == [] then []
    else Filter(s[..|s| - 1], p) + if p(s[|s| - 1]) then [s[|s| - 1]] else []
  }

  lemma {:induction false} FilterCounts<T>(s: seq<T>, p: T -> bool, x: T)
    ensures multiset(Filter(s, p))[x] == if p(x) then multiset(s)[x] else 0
    ensures x in Filter(s, p) <==> x in s && p(x)
  {
    if s != [] {
      FilterCounts(s[..|s| - 1], p, x);
      assert s == s[..|s| - 1] + [s[|s| - 1]];
    }
  }

  lemma {:induction false} FilterKeepsSorted<T(!new)>(s: seq<T>, p: T -> bool, leq: (T, T) -> bool)
    requires IsSorted(s, leq)
    ensures IsSorted(Filter(s, p), leq)
  {
    if s != [] {
      var before, last := s[..|s| - 1], s[|s| - 1];
      FilterKeepsSorted(before, p, leq);
      forall x | x in Filter(before, p) ensures leq(x, last) {
        FilterCounts(before, p, x);
        var i :| 0 <= i < |before| && before[i] == x;
        assert leq(s[i], s[|s| - 1]);
      }
    }
  }

  /** Leaving elements out before or after sorting is the same. */
  lemma FilterOfSort<T(!new)>(s: seq<T>, p: T -> bool, leq: (T, T) -> bool)
    requires TotalOrder(leq)
    ensures Filter(Sort(s, leq), p) == Sort(Filter(s, p), leq)
  {
    SortSorts(s, leq);
    SortPermutes(s, leq);
    FilterKeepsSorted(Sort(s, leq), p, leq);
    SortSorts(Filter(s, p), leq);
    SortPermutes(Filter(s, p), leq);
    forall x ensures multiset(Filter(Sort(s, leq), p))[x] == multiset(Filter(s, p))[x] {
      FilterCounts(Sort(s, leq), p, x);
      FilterCounts(s, p, x);
    }
    assert multiset(Filter(Sort(s, leq), p)) == multiset(Filter(s, p));
    SortedIsUnique(Filter(Sort(s, leq), p), Sort(Filter(s, p), leq), leq);
  }

  lemma {:induction false} BytesOfReadable(paths: seq<string>, read: string -> Option<seq<Byte>>)
    ensures HashedBytes(paths, read) == HashedBytes(Filter(paths, p => read(p).Some?), read)
  {
    if paths != [] {
      var readable := p => read(p).Some?;
      var before, last := paths[..|paths| - 1], paths[|paths| - 1];
      BytesOfReadable(before, read);
      if readable(last) {
        var kept := Filter(before, readable) + [last];
        assert kept[..|kept| - 1] == Filter(before, readable);
        assert Filter(paths, readable) == kept;
      } else {
        assert Filter(paths, readable) == Filter(before, readable);
      }
    }
  }

  lemma {:induction false} BytesOfSameContents(paths: seq<string>, read: string -> Option<seq<Byte>>,
                                               read': string -> Option<seq<Byte>>)
    requires forall p :: p in paths ==> read(p) == read'(p)
    ensures HashedBytes(paths, read) == HashedBytes(paths, read')
  {
    if paths != [] {
      BytesOfSameContents(paths[..|paths| - 1], read, read');
    }
  }

  lemma {:induction false} NoRepeatCounts(s: seq<string>, x: string)
    requires NoRepeat(s)
    ensures multiset(s)[x] == if x in s then 1 else 0
  {
    if s != [] {
      NoRepeatCounts(s[1..], x);
      assert s == [s[0]] + s[1..];
      assert forall i :: 0 <= i < |s| - 1 ==> s[1..][i] == s[i + 1];
    }
  }

  // ---- the identity depends on visible readable files only -----------------------------------

  /** Reading a collected path yields what the tree holds there. */
  predicate Reads(read: string -> Option<seq<Byte>>, found: seq<Found>) {
    forall f :: f in found ==> read(f.path) == f.content
  }

  function IdentityBytes(base: string, ws: Workspace, roots: seq<string>, read: string -> Option<seq<Byte>>): seq<Byte>
    requires forall r :: r in roots ==> Present(ws, r)
  {
    HashedBytes(Sort(Paths(AllFound(base, ws, roots)), TextAtMost), read)
  }

  function ReadablePaths(base: string, ws: Workspace, roots: seq<string>, read: string -> Option<seq<Byte>>): seq<string>
    requires forall r :: r in roots ==> Present(ws, r)
  {
    Filter(Paths(AllFound(base, ws, roots)), p => read(p).Some?)
  }

  /** A path is read exactly when some root covers it with content, and then that content is what is read. */
  lemma ReadableIsCovered(base: string, ws: Workspace, roots: seq<string>, read: string -> Option<seq<Byte>>, p: string)
    requires Complete(ws, roots) && Reads(read, AllFound(base, ws, roots))
    ensures p in ReadablePaths(base, ws, roots, read)
            <==> read(p).Some? && Covered(base, ws, roots, Found(p, read(p)))
    ensures forall content :: Covered(base, ws, roots, Found(p, Some(content))) ==> read(p) == Some(content)
  {
    hide Covered, Reaches, WalkFound;
    var found := AllFound(base, ws, roots);
    var readable := p => read(p).Some?;
    FilterCounts(Paths(found), readable, p);
    forall content | Covered(base, ws, roots, Found(p, Some(content))) ensures read(p) == Some(content) {
      CollectionIsExact(base, ws, roots, Found(p, Some(content)));
    }
    CollectionIsExact(base, ws, roots, Found(p, read(p)));
    if Found(p, read(p)) in found {
      PathOfFound(found, Found(p, read(p)));
    }
    if p in Paths(found) {
      var k :| 0 <= k < |found| && Paths(found)[k] == p;
      assert found[k] in found && found[k] == Found(p, read(p));
    }
  }

  lemma ReadableCounts(base: string, ws: Workspace, roots: seq<string>, read: string -> Option<seq<Byte>>, p: string)
    requires Complete(ws, roots)
    ensures multiset(ReadablePaths(base, ws, roots, read))[p]
            == if p in ReadablePaths(base, ws, roots, read) then 1 else 0
  {
    var paths := Paths(AllFound(base, ws, roots));
    CollectionRepeatsNothing(base, ws, roots);
    NoRepeatCounts(paths, p);
    FilterCounts(paths, p => read(p).Some?, p);
  }

  lemma IdentityOfReadable(base: string, ws: Workspace, roots: seq<string>, read: string -> Option<seq<Byte>>)
    requires Complete(ws, roots)
    ensures IdentityBytes(base, ws, roots, read)
            == HashedBytes(Sort(ReadablePaths(base, ws, roots, read), TextAtMost), read)
  {
    var paths := Paths(AllFound(base, ws, roots));
    PathOrderIsTotal();
    BytesOfReadable(Sort(paths, TextAtMost), read);
    FilterOfSort(paths, p => read(p).Some?, TextAtMost);
  }

  /**
   Two workspaces whose roots cover the same readable files at the same paths have the same identity, whatever
   else they hold, however their directories enumerate, and in whatever order the roots are listed.
   */
  lemma SameCoverageSameIdentity(base: string, ws: Workspace, roots: seq<string>, read: string -> Option<seq<Byte>>,
                                 ws': Workspace, roots': seq<string>, read': string -> Option<seq<Byte>>)
    requires Complete(ws, roots) && Reads(read, AllFound(base, ws, roots))
    requires Complete(ws', roots') && Reads(read', AllFound(base, ws', roots'))
    requires forall p, content ::
               Covered(base, ws, roots, Found(p, Some(content))) <==> Covered(base, ws', roots', Found(p, Some(content)))
    ensures IdentityBytes(base, ws, roots, read) == IdentityBytes(base, ws', roots', read')
  {
    hide Covered, ReadablePaths, IdentityBytes, Present, Reads, AllFound;
    var a, b := ReadablePaths(base, ws, roots, read), ReadablePaths(base, ws', roots', read');
    forall p ensures (p in a <==> p in b) && (p in a ==> read(p) == read'(p)) {
      ReadableIsCovered(base, ws, roots, read, p);
      ReadableIsCovered(base, ws', roots', read', p);
    }
    forall p ensures multiset(a)[p] == multiset(b)[p] {
      ReadableCounts(base, ws, roots, read, p);
      ReadableCounts(base, ws', roots', read', p);
    }
    assert multiset(a) == multiset(b);
    PathOrderIsTotal();
    SortForgetsOrder(a, b, TextAtMost);
    forall p | p in Sort(a, TextAtMost) ensures read(p) == read'(p) {
      SortKeepsMembers(a, TextAtMost, p);
    }
    BytesOfSameContents(Sort(a, TextAtMost), read, read');
    IdentityOfReadable(base, ws, roots, read);
    IdentityOfReadable(base, ws', roots', read');
  }

  // ---- what equal bytes say ------------------------------------------------------------------

  function OneFile(path: string, content: seq<Byte>): seq<Byte> {
    Encode(path) + content
  }

  lemma TwoFiles(p: string, q: string, read: string -> Option<seq<Byte>>)
    requires read(p).Some?
    ensures HashedBytes([p, q], read)
            == OneFile(p, read(p).value) + (match read(q) case None => [] case Some(content) => OneFile(q, content))
  {
    hide Encode;
    assert [p, q][..1] == [p] && [p][..0] == [];
    assert HashedBytes([p], read) == OneFile(p, read(p).value);
  }

  lemma SortsAsListed(p: string, q: string)
    requires TextAtMost(p, q)
    ensures Sort([p, q], TextAtMost) == [p, q]
  {
    hide TextAtMost;
    assert [p, q][1..] == [q] && [q][1..] == [];
    assert Sort([q], TextAtMost) == [q];
  }

  /** A root that is a file, and that reading finds with `content`. */
  lemma FileRoots(base: string, ws: Workspace, r: string, q: string)
    requires r in ws && q in ws && ws[r].File? && ws[q].File?
    ensures AllFound(base, ws, [r, q]) == [Found(Join(base, r), ws[r].content), Found(Join(base, q), ws[q].content)]
    ensures Paths(AllFound(base, ws, [r, q])) == [Join(base, r), Join(base, q)]
  {
    assert [r, q][..1] == [r] && [r][..0] == [];
    assert AllFound(base, ws, [r]) == [Found(Join(base, r), ws[r].content)];
  }

  function Reader(p: string, a: Option<seq<Byte>>, q: string, b: Option<seq<Byte>>): string -> Option<seq<Byte>> {
    path => if path == p then a else if path == q then b else None
  }

  lemma TwoRootIdentity(base: string, ws: Workspace, r: string, q: string)
    requires r in ws && q in ws && ws[r].File? && ws[q].File? && ws[r].content.Some?
    requires ValidEntryName(r) && ValidEntryName(q) && r != q && TextAtMost(Join(base, r), Join(base, q))
    ensures var read := Reader(Join(base, r), ws[r].content, Join(base, q), ws[q].content);
            && Complete(ws, [r, q]) && Reads(read, AllFound(base, ws, [r, q]))
            && IdentityBytes(base, ws, [r, q], read)
               == OneFile(Join(base, r), ws[r].content.value)
                  + (match ws[q].content case None => [] case Some(content) => OneFile(Join(base, q), content))
  {
    hide TextAtMost, Sort, HashedBytes, AllFound;
    assert Join(base, r)[|Lead(base)|..] == r && Join(base, q)[|Lead(base)|..] == q;
    var read := Reader(Join(base, r), ws[r].content, Join(base, q), ws[q].content);
    FileRoots(base, ws, r, q);
    SortsAsListed(Join(base, r), Join(base, q));
    TwoFiles(Join(base, r), Join(base, q), read);
  }

  /**
   The converse fails, since nothing separates paths from contents: a file that quotes the next one's path and
   content, beside an unreadable one, gives the bytes of the two separate files.
   */
  lemma BytesDoNotFixCoverage(base: string, r: string, q: string, c: seq<Byte>, d: seq<Byte>)
    requires ValidEntryName(r) && ValidEntryName(q) && r != q && TextAtMost(Join(base, r), Join(base, q))
    ensures var p, o, quoting := Join(base, r), Join(base, q), c + OneFile(Join(base, q), d);
            var ws := map[r := File(Some(c)), q := File(Some(d))];
            var ws' := map[r := File(Some(quoting)), q := File(None)];
            var read, read' := Reader(p, Some(c), o, Some(d)), Reader(p, Some(quoting), o, None);
            && Complete(ws, [r, q]) && Reads(read, AllFound(base, ws, [r, q]))
            && Complete(ws', [r, q]) && Reads(read', AllFound(base, ws', [r, q]))
            && IdentityBytes(base, ws, [r, q], read) == IdentityBytes(base, ws', [r, q], read')
            && Covered(base, ws, [r, q], Found(o, Some(d))) && !Covered(base, ws', [r, q], Found(o, Some(d)))
  {
    hide TextAtMost, IdentityBytes, OneFile, Reads, Complete;
    var quoting := c + OneFile(Join(base, q), d);
    var ws: Workspace := map[r := File(Some(c)), q := File(Some(d))];
    var ws': Workspace := map[r := File(Some(quoting)), q := File(None)];
    TwoRootIdentity(base, ws, r, q);
    TwoRootIdentity(base, ws', r, q);
    FileRoots(base, ws, r, q);
    FileRoots(base, ws', r, q);
    assert Join(base, r)[|Lead(base)|..] == r && Join(base, q)[|Lead(base)|..] == q;
    CollectionIsExact(base, ws, [r, q], Found(Join(base, q), Some(d)));
    CollectionIsExact(base, ws', [r, q], Found(Join(base, q), Some(d)));
    Associative(Encode(Join(base, r)), c, OneFile(Join(base, q), d));
    assert OneFile(Join(base, r), c) + OneFile(Join(base, q), d) == OneFile(Join(base, r), quoting) + [] by {
      SplitFile(Join(base, r), c, OneFile(Join(base, q), d));
    }
  }

  lemma Associative(a: seq<Byte>, b: seq<Byte>, c: seq<Byte>)
    ensures (a + b) + c == a + (b + c)
  {
  }

  lemma SplitFile(path: string, c: seq<Byte>, more: seq<Byte>)
    ensures OneFile(path, c) + more == OneFile(path, c + more) + []
  {
    hide Encode;
  }

  /** Where every path is read on both sides, and to contents of the same length, the bytes fix the contents. */
  lemma {:induction false} BytesFixContents(paths: seq<string>, read: string -> Option<seq<Byte>>,
                                            read': string -> Option<seq<Byte>>)
    requires forall p :: p in paths ==> SameSize(read(p), read'(p))
    requires HashedBytes(paths, read) == HashedBytes(paths, read')
    ensures forall p :: p in paths ==> read(p) == read'(p)
  {
    hide Encode;
    if paths != [] {
      var before, last := paths[..|paths| - 1], paths[|paths| - 1];
      assert paths == before + [last] && last in paths;
      LastFileApart(HashedBytes(before, read), HashedBytes(before, read'), Encode(last), read(last).value,
                    read'(last).value);
      BytesFixContents(before, read, read');
    }
  }

  predicate SameSize(a: Option<seq<Byte>>, b: Option<seq<Byte>>) {
    a.Some? && b.Some? && |a.value| == |b.value|
  }

  lemma LastFileApart(a: seq<Byte>, b: seq<Byte>, path: seq<Byte>, c: seq<Byte>, d: seq<Byte>)
    requires |c| == |d| && a + (path + c) == b + (path + d)
    ensures a == b && c == d
  {
    var s, t := a + (path + c), b + (path + d);
    assert |a| == |b|;
    assert s[..|a|] == a && t[..|b|] == b;
    assert s[|s| - |c|..] == c && t[|t| - |d|..] == d;
  }

  /** The same paths are readable in both workspaces, each with content of the same length. */
  ghost predicate SameOutline(base: string, ws: Workspace, roots: seq<string>, read: string -> Option<seq<Byte>>,
                              ws': Workspace, roots': seq<string>, read': string -> Option<seq<Byte>>)
    requires (forall r :: r in roots ==> Present(ws, r)) && forall r :: r in roots' ==> Present(ws', r)
  {
    forall p ::
      && (p in ReadablePaths(base, ws, roots, read) <==> p in ReadablePaths(base, ws', roots', read'))
      && (p in ReadablePaths(base, ws, roots, read) ==> SameSize(read(p), read'(p)))
  }

  /** Between workspaces of one outline, equal bytes mean equal coverage, and the other way round. */
  lemma OutlineMakesBytesExact(base: string, ws: Workspace, roots: seq<string>, read: string -> Option<seq<Byte>>,
                               ws': Workspace, roots': seq<string>, read': string -> Option<seq<Byte>>)
    requires Complete(ws, roots) && Reads(read, AllFound(base, ws, roots))
    requires Complete(ws', roots') && Reads(read', AllFound(base, ws', roots'))
    requires SameOutline(base, ws, roots, read, ws', roots', read')
    ensures IdentityBytes(base, ws, roots, read) == IdentityBytes(base, ws', roots', read')
            <==> forall p, content ::
                   Covered(base, ws, roots, Found(p, Some(content)))
                   <==> Covered(base, ws', roots', Found(p, Some(content)))
  {
    hide Covered, ReadablePaths, IdentityBytes, Present, Reads, AllFound;
    if IdentityBytes(base, ws, roots, read) == IdentityBytes(base, ws', roots', read') {
      BytesFixReadable(base, ws, roots, read, ws', roots', read');
      forall p, content
        ensures Covered(base, ws, roots, Found(p, Some(content))) <==> Covered(base, ws', roots', Found(p, Some(content)))
      {
        ReadableIsCovered(base, ws, roots, read, p);
        ReadableIsCovered(base, ws', roots', read', p);
      }
    }
    if forall p, content ::
         Covered(base, ws, roots, Found(p, Some(content))) <==> Covered(base, ws', roots', Found(p, Some(content)))
    {
      SameCoverageSameIdentity(base, ws, roots, read, ws', roots', read');
    }
  }

  lemma BytesFixReadable(base: string, ws: Workspace, roots: seq<string>, read: string -> Option<seq<Byte>>,
                         ws': Workspace, roots': seq<string>, read': string -> Option<seq<Byte>>)
    requires Complete(ws, roots) && Complete(ws', roots') && SameOutline(base, ws, roots, read, ws', roots', read')
    requires IdentityBytes(base, ws, roots, read) == IdentityBytes(base, ws', roots', read')
    ensures forall p :: p in ReadablePaths(base, ws, roots, read) ==> read(p) == read'(p)
  {
    hide ReadablePaths, IdentityBytes, Present, AllFound, TextAtMost, Sort;
    var a, b := ReadablePaths(base, ws, roots, read), ReadablePaths(base, ws', roots', read');
    forall p ensures multiset(a)[p] == multiset(b)[p] {
      ReadableCounts(base, ws, roots, read, p);
      ReadableCounts(base, ws', roots', read', p);
    }
    assert multiset(a) == multiset(b);
    PathOrderIsTotal();
    SortForgetsOrder(a, b, TextAtMost);
    IdentityOfReadable(base, ws, roots, read);
    IdentityOfReadable(base, ws', roots', read');
    forall p ensures p in Sort(a, TextAtMost) <==> p in a {
      SortKeepsMembers(a, TextAtMost, p);
    }
    BytesFixContents(Sort(a, TextAtMost), read, read');
  }

  // ---- the fixed roots -------------------------------------------------------------------------

  /** The nine roots are proper names, each listed once, so a workspace that has them all is complete. */
  lemma RootsAreProper()
    ensures NoRepeat(ROOTS) && forall root :: root in ROOTS ==> ValidEntryName(root)
  {
    RootSizes();
    assert "Sources"[0] != "TASK.md"[0] && "Tests"[0] != "tools"[0];
    forall i | 0 <= i < |ROOTS| ensures ValidEntryName(ROOTS[i]) {
      assert '/' !in ROOTS[i];
    }
  }

  /** Only two pairs of roots have names of one length. */
  lemma RootSizes()
    ensures |ROOTS| == 9
    ensures |ROOTS[0]| == 13 && |ROOTS[1]| == 7 && |ROOTS[2]| == 5 && |ROOTS[3]| == 14 && |ROOTS[4]| == 12
    ensures |ROOTS[5]| == 8 && |ROOTS[6]| == 5 && |ROOTS[7]| == 9 && |ROOTS[8]| == 7
  {
  }

  /** Root declaration order does not matter. */
  lemma RootOrderIsIrrelevant(base: string, ws: Workspace, roots: seq<string>, roots': seq<string>,
                              read: string -> Option<seq<Byte>>)
    requires Complete(ws, roots) && NoRepeat(roots') && (forall r :: r in roots <==> r in roots')
    requires Reads(read, AllFound(base, ws, roots))
    ensures Complete(ws, roots') && IdentityBytes(base, ws, roots, read) == IdentityBytes(base, ws, roots', read)
  {
    hide CoveredBy, AllFound;
    forall f | f in AllFound(base, ws, roots') ensures read(f.path) == f.content {
      CollectionIsExact(base, ws, roots', f);
      CollectionIsExact(base, ws, roots, f);
    }
    SameCoverageSameIdentity(base, ws, roots, read, ws, roots', read);
  }

  // ---- trees that look the same -----------------------------------------------------------------

  /** The same readable files at the same paths. */
  ghost predicate LookAlike(n: Node, n': Node) {
    forall dir, p, content ::
      Reaches(dir, n, Found(p, Some(content))) <==> Reaches(dir, n', Found(p, Some(content)))
  }

  /** How a directory enumerates its entries does not show. */
  lemma RelistingLooksAlike(listing: seq<Entry>, listing': seq<Entry>)
    requires multiset(listing) == multiset(listing')
    ensures LookAlike(Directory(listing), Directory(listing'))
  {
    forall e ensures e in listing <==> e in listing' {
      assert e in listing <==> e in multiset(listing);
      assert e in listing' <==> e in multiset(listing');
    }
    forall dir, f: Found ensures Reaches(dir, Directory(listing), f) <==> Reaches(dir, Directory(listing'), f) {
      ReachesThroughMember(dir, listing, f);
      ReachesThroughMember(dir, listing', f);
    }
  }

  lemma ReachesThroughMember(dir: string, listing: seq<Entry>, f: Found)
    ensures Reaches(dir, Directory(listing), f)
            <==> exists e :: e in listing && !IsHidden(e.name) && EntryReaches(dir, e, f)
  {
    hide EntryReaches;
  }

  /** An entry the identity is blind to: hidden, a link, special, unlistable, or a file that cannot be read. */
  predicate Invisible(e: Entry) {
    || IsHidden(e.name) || e.node.Link? || e.node.BrokenLink? || e.node.Special? || e.node.Unlistable?
    || e.node == File(None)
  }

  lemma InvisibleEntryLooksAlike(listing: seq<Entry>, i: nat, e: Entry)
    requires i <= |listing| && Invisible(e)
    ensures LookAlike(Directory(listing[..i] + [e] + listing[i..]), Directory(listing))
  {
    var more := listing[..i] + [e] + listing[i..];
    assert listing == listing[..i] + listing[i..];
    forall dir, p, content
      ensures Reaches(dir, Directory(more), Found(p, Some(content)))
              <==> Reaches(dir, Directory(listing), Found(p, Some(content)))
    {
      ReachesThroughMember(dir, more, Found(p, Some(content)));
      ReachesThroughMember(dir, listing, Found(p, Some(content)));
      assert IsHidden(e.name) || !EntryReaches(dir, e, Found(p, Some(content)));
    }
  }

  /** Such a change may sit at any depth: a directory looks as its subdirectories look. */
  lemma ChangeInsideLooksAlike(listing: seq<Entry>, i: nat, n: Node)
    requires i < |listing| && listing[i].node.Directory? && n.Directory? && LookAlike(listing[i].node, n)
    ensures LookAlike(Directory(listing), Directory(listing[i := Entry(listing[i].name, n)]))
  {
    var changed := listing[i := Entry(listing[i].name, n)];
    forall dir, p, content
      ensures Reaches(dir, Directory(listing), Found(p, Some(content)))
              <==> Reaches(dir, Directory(changed), Found(p, Some(content)))
    {
      var f := Found(p, Some(content));
      assert EntryReaches(dir, listing[i], f) <==> EntryReaches(dir, changed[i], f);
      assert forall k :: 0 <= k < |listing| && k != i ==> changed[k] == listing[k];
    }
  }

  /** Roots that look alike, or are equal, give workspaces of one identity. */
  lemma AlikeRootsSameIdentity(base: string, ws: Workspace, ws': Workspace, roots: seq<string>,
                               read: string -> Option<seq<Byte>>, read': string -> Option<seq<Byte>>)
    requires Complete(ws, roots) && Reads(read, AllFound(base, ws, roots))
    requires Complete(ws', roots) && Reads(read', AllFound(base, ws', roots))
    requires forall r :: r in roots ==>
               ws[r] == ws'[r] || (ws[r].Directory? && ws'[r].Directory? && LookAlike(ws[r], ws'[r]))
    ensures IdentityBytes(base, ws, roots, read) == IdentityBytes(base, ws', roots, read')
  {
    hide AllFound, Reaches;
    forall r, p, content | r in roots
      ensures CoveredBy(base, ws, r, Found(p, Some(content))) <==> CoveredBy(base, ws', r, Found(p, Some(content)))
    {
    }
    SameCoverageSameIdentity(base, ws, roots, read, ws', roots, read');
  }
}
