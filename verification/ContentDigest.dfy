/**
  The content digest: what is written to the MD5 hasher for a file tree. MD5 itself is not
  modelled; streams that differ are what the hash can tell apart.
 */
module ContentDigest {
  import opened Common
  import opened Filepath
  import opened Ordering
  import opened TreeListing

  /** The bytes of a file; directories have none. */
  function ContentAt(fs: FileSystem, path: string): string {
    if path in fs && fs[path].File? then fs[path].content else ""
  }

  /** For each path: the path with the root taken out, then the content. */
  function Written(fs: FileSystem, root: string, paths: seq<string>): string {
    if paths == [] then ""
    else
      var last := paths[|paths| - 1];
      Written(fs, root, paths[..|paths| - 1]) + RemoveFirst(last, root) + ContentAt(fs, last)
  }

  function DigestStream(fs: FileSystem, root: string): string
    requires TrimRight(root) != "" && TrimRight(root) in fs && WellNamed(fs[TrimRight(root)])
  {
    Written(fs, root, Sort(Listing(TrimRight(root), fs[TrimRight(root)], true)))
  }

  /** The digest loop; what it writes, unless the path does not exist. */
  method WriteToHasher(fs: FileSystem, pathToCompress: string) returns (r: Option<string>)
    requires var trimmed := TrimRight(pathToCompress);
             trimmed in fs ==> Mounted(fs, trimmed, fs[trimmed]) && WellNamed(fs[trimmed])
    ensures r == if TrimRight(pathToCompress) in fs then Some(DigestStream(fs, pathToCompress)) else None
  {
    hide Mounted, WellNamed, Listing, Sort, RemoveFirst, TrimRight;
    var filesInPath := ListFilesInPathDeterministic(fs, pathToCompress, true);
    if filesInPath.None? {
      return None;
    }
    var paths := filesInPath.value;
    var written := "";
    for i := 0 to |paths|
      invariant written == Written(fs, pathToCompress, paths[..i])
    {
      assert paths[..i + 1][..i] == paths[..i];
      var pathRelativeToRoot := RemoveFirst(paths[i], pathToCompress);
      written := written + pathRelativeToRoot;
      if paths[i] !in fs {
        ListedPathsExist(fs, TrimRight(pathToCompress), fs[TrimRight(pathToCompress)], paths[i]);
        assert false;
      } else if fs[paths[i]].File? {
        written := written + fs[paths[i]].content;
      }
    }
    assert paths[..|paths|] == paths;
    r := Some(written);
  }

  lemma PlainNameNotEmpty(name: string)
    requires PlainName(name)
    ensures name != ""
  {
  }

  lemma {:induction false} MountedBelow(fs: FileSystem, path: string, node: Node, rel: seq<string>)
    requires Mounted(fs, path, node) && WellNamed(node) && rel != [] && NodeAt(node, rel).Some?
    ensures PathOf(path, rel) in fs && fs[PathOf(path, rel)] == NodeAt(node, rel).value
    decreases |rel|
  {
    hide Parse, Join, Render;
    var child := FindEntry(node.entries, rel[0]).value;
    var i :| 0 <= i < |node.entries| && node.entries[i] == Entry(rel[0], child);
    PlainNameNotEmpty(rel[0]);
    var childPath := Join(path, rel[0]);
    assert Mounted(fs, childPath, child);
    ParseOfJoin(path, rel[0]);
    JoinDescends(path, rel[0]);
    if |rel| == 1 {
      assert rel == [rel[0]] && rel[1..] == [];
    } else {
      MountedBelow(fs, childPath, child, rel[1..]);
      assert Parse(path).comps + rel == Parse(path).comps + [rel[0]] + rel[1..];
    }
  }

  lemma ListedPathsExist(fs: FileSystem, path: string, node: Node, p: string)
    requires Mounted(fs, path, node) && WellNamed(node) && p in Sort(Listing(path, node, true))
    ensures p in fs
  {
    SortSorts(Listing(path, node, true));
    assert p in multiset(Sort(Listing(path, node, true))) && p in Listing(path, node, true);
    if node.Dir? {
      ListingCoversTree(path, node, true);
      var rel :| Listable(node, rel, true) && p == PathOf(path, rel);
      MountedBelow(fs, path, node, rel);
    }
  }

  // ---------- The stream without a root ----------

  function RelString(rel: seq<string>): string
    requires rel != []
  {
    "/" + JoinSlash(rel)
  }

  lemma SplitRelString(rel: seq<string>)
    requires rel != [] && PlainNames(rel)
    ensures Split(RelString(rel)) == [""] + rel
  {
    SplitOfJoin(rel);
    SplitAtSlash("", JoinSlash(rel));
    assert RelString(rel) == "" + "/" + JoinSlash(rel);
  }

  /** What the tree contributes at a relative path beyond the path itself. */
  function BytesAt(tree: Node, rel: seq<string>): string {
    match NodeAt(tree, rel)
    case Some(File(content)) => content
    case _ => ""
  }

  /** The same, from the relative path as a string. */
  function BytesFor(tree: Node, s: string): string {
    BytesAt(tree, Split(s)[1..])
  }

  lemma BytesForRelString(tree: Node, rel: seq<string>)
    requires rel != [] && PlainNames(rel)
    ensures BytesFor(tree, RelString(rel)) == BytesAt(tree, rel)
  {
    SplitRelString(rel);
    assert ([""] + rel)[1..] == rel;
  }

  /** The relative paths of all descendants, each starting with a slash. */
  function RelStrings(rels: seq<seq<string>>): seq<string>
    requires forall i | 0 <= i < |rels| :: rels[i] != []
  {
    seq(|rels|, i requires 0 <= i < |rels| => RelString(rels[i]))
  }

  /** A relative path written as it is. */
  function Whole(s: string): string {
    s
  }

  function StreamOver(tree: Node, cut: string -> string, ss: seq<string>): string {
    if ss == [] then ""
    else
      var last := ss[|ss| - 1];
      StreamOver(tree, cut, ss[..|ss| - 1]) + cut(last) + BytesFor(tree, last)
  }

  lemma RelPathsNonEmpty(tree: Node)
    requires tree.Dir? && WellNamed(tree)
    ensures forall i | 0 <= i < |RelPaths(tree, true)| ::
              RelPaths(tree, true)[i] != [] && PlainNames(RelPaths(tree, true)[i])
  {
    var rels := RelPaths(tree, true);
    forall i | 0 <= i < |rels| ensures rels[i] != [] && PlainNames(rels[i]) {
      assert rels[i] in rels;
      RelPathsMembers(tree, true, rels[i]);
      NodeAtNamesPlain(tree, rels[i]);
    }
  }

  /** The descendants in the order in which they are hashed. */
  function SortedRelStrings(tree: Node): seq<string>
    requires tree.Dir? && WellNamed(tree)
  {
    RelPathsNonEmpty(tree);
    Sort(RelStrings(RelPaths(tree, true)))
  }

  /** The stream of a tree, given what is written for each relative path. */
  function Stream(tree: Node, cut: string -> string): string
    requires tree.Dir? && WellNamed(tree)
  {
    StreamOver(tree, cut, SortedRelStrings(tree))
  }

  lemma SortedRelStringsMembers(tree: Node, s: string)
    requires tree.Dir? && WellNamed(tree)
    ensures s in SortedRelStrings(tree) <==>
              exists rel :: rel != [] && NodeAt(tree, rel).Some? && s == RelString(rel)
  {
    RelPathsNonEmpty(tree);
    var rels := RelPaths(tree, true);
    var strings := RelStrings(rels);
    SortSorts(strings);
    assert s in SortedRelStrings(tree) <==> s in multiset(strings);
    if s in strings {
      var i :| 0 <= i < |strings| && strings[i] == s;
      assert rels[i] in rels;
      RelPathsMembers(tree, true, rels[i]);
    }
    if rel :| rel != [] && NodeAt(tree, rel).Some? && s == RelString(rel) {
      RelPathsMembers(tree, true, rel);
      var i :| 0 <= i < |rels| && rels[i] == rel;
      assert strings[i] == s;
    }
  }

  // ---------- Where the root is does not matter ----------

  lemma BytesOfListed(a: Node, s: string) returns (rel: seq<string>)
    requires a.Dir? && WellNamed(a) && s in SortedRelStrings(a)
    ensures rel != [] && NodeAt(a, rel).Some? && PlainNames(rel) && s == RelString(rel)
  {
    SortedRelStringsMembers(a, s);
    rel :| rel != [] && NodeAt(a, rel).Some? && s == RelString(rel);
    NodeAtNamesPlain(a, rel);
  }

  /** A clean path that names something other than "/" or ".". */
  predicate CleanRoot(c: string) {
    Clean(c) == c && c != "/" && c != "."
  }

  lemma CleanRootParts(c: string)
    requires CleanRoot(c)
    ensures c != "" && Parse(c).comps != [] && c[|c| - 1] != SEPARATOR
  {
    ParseIsNormal(c);
    var q := Parse(c);
    var n := |q.comps| - 1;
    assert NormalComponent(q, n);
    LastOfRender(q);
  }

  lemma LastOfRender(q: CleanPath)
    requires q.comps != [] && q.comps[|q.comps| - 1] != ""
    ensures var last := q.comps[|q.comps| - 1];
            Render(q) != "" && Render(q)[|Render(q)| - 1] == last[|last| - 1]
  {
    var n := |q.comps| - 1;
    assert q.comps == q.comps[..n] + [q.comps[n]];
    if n > 0 {
      JoinSnoc(q.comps[..n], q.comps[n]);
    }
  }

  function Tail(s: string): string {
    if s == "" then "" else s[1..]
  }

  /** The path that the walk from `t` builds for the relative path `s`. */
  function Listed(t: string, s: string): string {
    var q := Parse(t);
    if q.comps != [] then Render(q) + s else if q.rooted then s else Tail(s)
  }

  function ListedAll(t: string, ss: seq<string>): seq<string> {
    seq(|ss|, i requires 0 <= i < |ss| => Listed(t, ss[i]))
  }

  lemma PathOfListed(t: string, rel: seq<string>)
    requires rel != []
    ensures PathOf(t, rel) == Listed(t, RelString(rel))
  {
    var q := Parse(t);
    if q.comps != [] {
      JoinAppend(q.comps, rel);
    } else {
      assert [] + rel == rel;
    }
  }

  /** Below a clean root, a path is the root followed by the relative path. */
  lemma PathOfBelowCleanRoot(c: string, rel: seq<string>)
    requires CleanRoot(c) && rel != []
    ensures PathOf(c, rel) == c + RelString(rel)
  {
    CleanRootParts(c);
    PathOfListed(c, rel);
  }

  /** Whatever the root, sorting the paths below it is sorting the relative paths. */
  lemma SortedListing(t: string, tree: Node)
    requires t != "" && tree.Dir? && WellNamed(tree)
    ensures Sort(Listing(t, tree, true)) == ListedAll(t, SortedRelStrings(tree))
  {
    hide Parse, Sort, RelEntries, ListEntries;
    var rels := RelPaths(tree, true);
    RelPathsNonEmpty(tree);
    var listing, ss, sorted := Listing(t, tree, true), RelStrings(rels), SortedRelStrings(tree);
    ListEntriesRender(t, tree, |tree.entries|, true);
    forall i | 0 <= i < |rels| ensures listing[i] == Listed(t, ss[i]) {
      PathOfListed(t, rels[i]);
    }
    var q := Parse(t);
    if q.comps != [] {
      assert listing == Prefixed(Render(q), ss);
      SortAfterPrefix(Render(q), ss);
    } else if q.rooted {
      assert listing == ss;
    } else {
      assert Prefixed("/", listing) == ss;
      SortAfterPrefix("/", listing);
      assert forall i | 0 <= i < |sorted| :: Tail(sorted[i]) == Sort(listing)[i];
    }
  }

  lemma {:induction false} WrittenIsStream(fs: FileSystem, t: string, root: string, tree: Node, ss: seq<string>)
    requires forall i | 0 <= i < |ss| :: ContentAt(fs, Listed(t, ss[i])) == BytesFor(tree, ss[i])
    ensures Written(fs, root, ListedAll(t, ss)) == StreamOver(tree, s => RemoveFirst(Listed(t, s), root), ss)
  {
    hide Listed, ContentAt, BytesFor, RemoveFirst;
    if ss != [] {
      var n := |ss| - 1;
      WrittenIsStream(fs, t, root, tree, ss[..n]);
      assert ListedAll(t, ss)[..n] == ListedAll(t, ss[..n]);
    }
  }

  /**
    For every root, clean or not: the digest stream is the tree's own stream, up to what is left
    of each listed path once the root, as given, is taken out.
   */
  lemma DigestStreamOfRoot(fs: FileSystem, root: string, tree: Node)
    requires var t := TrimRight(root); Mounted(fs, t, tree) && tree.Dir? && WellNamed(tree)
    ensures var t := TrimRight(root);
            DigestStream(fs, root) == Stream(tree, s => RemoveFirst(Listed(t, s), root))
  {
    hide Parse, TrimRight, RelString, SortedRelStrings, Listed, RemoveFirst, Render;
    var t := TrimRight(root);
    SortedListing(t, tree);
    var ss := SortedRelStrings(tree);
    forall i | 0 <= i < |ss| ensures ContentAt(fs, Listed(t, ss[i])) == BytesFor(tree, ss[i]) {
      var rel := BytesOfListed(tree, ss[i]);
      MountedBelow(fs, t, tree, rel);
      PathOfListed(t, rel);
      BytesForRelString(tree, rel);
    }
    WrittenIsStream(fs, t, root, tree, ss);
  }

  /** For a clean root, whatever trails it, the listed paths are the root and the relative path. */
  lemma DigestStreamOfCleanRoot(fs: FileSystem, c: string, trail: string, tree: Node)
    requires CleanRoot(c) && Separators(trail) && Mounted(fs, c, tree) && tree.Dir? && WellNamed(tree)
    ensures TrimRight(c + trail) == c
    ensures DigestStream(fs, c + trail) == Stream(tree, s => RemoveFirst(c + s, c + trail))
  {
    hide SortedRelStrings, RemoveFirst;
    CleanRootParts(c);
    TrimTrailing(c, trail);
    DigestStreamOfRoot(fs, c + trail, tree);
    StreamCongruence(tree, s => RemoveFirst(Listed(c, s), c + trail), s => RemoveFirst(c + s, c + trail),
                     SortedRelStrings(tree));
  }

  predicate Separators(trail: string) {
    forall i | 0 <= i < |trail| :: trail[i] == SEPARATOR
  }

  lemma {:induction false} TrimTrailing(c: string, trail: string)
    requires c != "" && c[|c| - 1] != SEPARATOR && Separators(trail)
    ensures TrimRight(c + trail) == c
  {
    if trail == [] {
      assert c + trail == c;
    } else {
      TrimTrailing(c, trail[..|trail| - 1]);
      assert (c + trail)[..|c + trail| - 1] == c + trail[..|trail| - 1];
    }
  }

  lemma {:induction false} StreamCongruence(tree: Node, f: string -> string, g: string -> string, ss: seq<string>)
    requires forall i | 0 <= i < |ss| :: f(ss[i]) == g(ss[i])
    ensures StreamOver(tree, f, ss) == StreamOver(tree, g, ss)
  {
    if ss != [] {
      StreamCongruence(tree, f, g, ss[..|ss| - 1]);
    }
  }

  /** The same relative paths exist in both trees. */
  ghost predicate SamePaths(a: Node, b: Node) {
    forall rel :: NodeAt(a, rel).Some? <==> NodeAt(b, rel).Some?
  }

  lemma RelStringInjective(r: seq<string>, s: seq<string>)
    requires r != [] && s != [] && PlainNames(r) && PlainNames(s) && RelString(r) == RelString(s)
    ensures r == s
  {
    SplitRelString(r);
    SplitRelString(s);
    assert r == Split(RelString(r))[1..];
  }

  lemma RelStringsOnce(tree: Node)
    requires tree.Dir? && WellNamed(tree)
    ensures forall i | 0 <= i < |RelPaths(tree, true)| :: RelPaths(tree, true)[i] != []
    ensures NoDuplicates(RelStrings(RelPaths(tree, true)))
  {
    RelPathsNonEmpty(tree);
    RelEntriesOnce(tree, |tree.entries|, true);
    var rels := RelPaths(tree, true);
    forall i, j | 0 <= i < j < |rels| ensures RelStrings(rels)[i] != RelStrings(rels)[j] {
      if RelString(rels[i]) == RelString(rels[j]) {
        RelStringInjective(rels[i], rels[j]);
      }
    }
  }

  lemma SamePathsSameOrder(a: Node, b: Node)
    requires a.Dir? && WellNamed(a) && b.Dir? && WellNamed(b) && SamePaths(a, b)
    ensures SortedRelStrings(a) == SortedRelStrings(b)
  {
    hide RelEntries, RelString, Sort;
    RelStringsOnce(a);
    RelStringsOnce(b);
    var x, y := RelStrings(RelPaths(a, true)), RelStrings(RelPaths(b, true));
    forall s ensures s in x <==> s in y {
      SortSorts(x);
      SortSorts(y);
      SortedRelStringsMembers(a, s);
      SortedRelStringsMembers(b, s);
      assert s in x <==> s in multiset(Sort(x));
      assert s in y <==> s in multiset(Sort(y));
    }
    SortOfSameSet(x, y);
  }

  lemma {:induction false} SameBytesSameStream(a: Node, b: Node, cut: string -> string, ss: seq<string>)
    requires forall i | 0 <= i < |ss| :: BytesFor(a, ss[i]) == BytesFor(b, ss[i])
    ensures StreamOver(a, cut, ss) == StreamOver(b, cut, ss)
  {
    if ss != [] {
      SameBytesSameStream(a, b, cut, ss[..|ss| - 1]);
    }
  }

  ghost predicate SameBytes(a: Node, b: Node) {
    forall rel :: BytesAt(a, rel) == BytesAt(b, rel)
  }

  lemma SameTreeParts(a: Node, b: Node)
    requires SameTree(a, b)
    ensures SamePaths(a, b) && SameBytes(a, b) && (a.Dir? <==> b.Dir?)
  {
    assert KindAt(a, []) == KindAt(b, []);
    forall rel ensures NodeAt(a, rel).Some? <==> NodeAt(b, rel).Some? {
      assert KindAt(a, rel) == KindAt(b, rel);
    }
    forall rel ensures BytesAt(a, rel) == BytesAt(b, rel) {
      assert KindAt(a, rel) == KindAt(b, rel);
    }
  }

  /**
    The digest stream is the same for every clean root and every enumeration order: only the
    tree itself counts.
   */
  lemma DigestIsRootIndependent(fs: FileSystem, c: string, a: Node, gs: FileSystem, d: string, b: Node)
    requires CleanRoot(c) && Mounted(fs, c, a) && a.Dir? && WellNamed(a)
    requires CleanRoot(d) && Mounted(gs, d, b) && WellNamed(b) && SameTree(a, b)
    ensures TrimRight(c) == c && TrimRight(d) == d
    ensures DigestStream(fs, c) == DigestStream(gs, d)
  {
    SameTreeParts(a, b);
    DigestWithoutTrailing(fs, c, a);
    DigestWithoutTrailing(gs, d, b);
    SamePathsSameOrder(a, b);
    SameBytesSameStream(a, b, Whole, SortedRelStrings(a));
  }

  /** No trailing separator: each path is written as it is below the root. */
  lemma DigestWithoutTrailing(fs: FileSystem, c: string, tree: Node)
    requires CleanRoot(c) && Mounted(fs, c, tree) && tree.Dir? && WellNamed(tree)
    ensures TrimRight(c) == c && DigestStream(fs, c) == Stream(tree, Whole)
  {
    DigestStreamOfCleanRoot(fs, c, "", tree);
    assert c + "" == c;
    var ss := SortedRelStrings(tree);
    forall i | 0 <= i < |ss| ensures RemoveFirst(c + ss[i], c) == ss[i] {
      RemovePrefix(c, ss[i]);
    }
    StreamCongruence(tree, s => RemoveFirst(c + s, c), Whole, ss);
  }

  lemma CutOneTrailing(c: string, rel: seq<string>)
    requires rel != []
    ensures RemoveFirst(c + RelString(rel), c + "/") == Tail(RelString(rel))
  {
    var t := JoinSlash(rel);
    assert Tail(RelString(rel)) == t;
    assert c + RelString(rel) == (c + "/") + t;
    RemovePrefix(c + "/", t);
  }

  /** One trailing separator: each path loses its leading separator. */
  lemma DigestWithOneTrailing(fs: FileSystem, c: string, tree: Node)
    requires CleanRoot(c) && Mounted(fs, c, tree) && tree.Dir? && WellNamed(tree)
    ensures TrimRight(c + "/") == c && DigestStream(fs, c + "/") == Stream(tree, Tail)
  {
    DigestStreamOfCleanRoot(fs, c, "/", tree);
    var ss := SortedRelStrings(tree);
    forall i | 0 <= i < |ss| ensures RemoveFirst(c + ss[i], c + "/") == Tail(ss[i]) {
      var rel := BytesOfListed(tree, ss[i]);
      CutOneTrailing(c, rel);
    }
    StreamCongruence(tree, s => RemoveFirst(c + s, c + "/"), Tail, ss);
  }

  /** A clean root and a descendant's path below it never have two separators in a row. */
  lemma NoDoubleSeparator(c: string, rel: seq<string>, i: nat)
    requires CleanRoot(c) && rel != [] && PlainNames(rel)
    ensures !OccursAt(c + RelString(rel), "//", i)
  {
    var p := c + RelString(rel);
    PathOfBelowCleanRoot(c, rel);
    ParseIsNormal(c);
    var q := Descend(Parse(c), rel);
    DescendNormal(Parse(c), rel);
    if OccursAt(p, "//", i) {
      var x, y := p[..i], p[i + 2..];
      assert p == x + "/" + ("" + "/" + y);
      SplitAtSlash(x, "" + "/" + y);
      SplitAtSlash("", y);
      var k := |Split(x)|;
      assert Split(p)[k] == "";
      assert Render(q) == p;
      OnlyFirstComponentEmpty(q, k);
    }
  }

  lemma OnlyFirstComponentEmpty(q: CleanPath, k: nat)
    requires Normal(q) && q.comps != [] && 0 < k < |Split(Render(q))|
    ensures Split(Render(q))[k] != ""
  {
    SplitOfRender(q);
    assert NormalComponent(q, if q.rooted then k - 1 else k);
  }

  lemma CutMoreTrailing(c: string, trail: string, rel: seq<string>)
    requires CleanRoot(c) && Separators(trail) && |trail| >= 2 && rel != [] && PlainNames(rel)
    ensures RemoveFirst(c + RelString(rel), c + trail) == c + RelString(rel)
  {
    var p, root := c + RelString(rel), c + trail;
    assert root[|c|..|c| + 2] == "//";
    forall k: nat ensures !OccursAt(p, root, k) {
      NoDoubleSeparator(c, rel, k + |c|);
      if OccursAt(p, root, k) {
        SubOccurs(p, root, k, "//", |c|);
      }
    }
    AbsentIsKept(p, root);
  }

  lemma SubOccurs(p: string, s: string, k: nat, t: string, j: nat)
    requires OccursAt(p, s, k) && OccursAt(s, t, j)
    ensures OccursAt(p, t, k + j)
  {
    forall i | 0 <= i < |t| ensures p[k + j..k + j + |t|][i] == t[i] {
      assert p[k..k + |s|][j + i] == s[j..j + |t|][i];
    }
  }

  /** Two or more trailing separators: nothing is taken out, and the whole path is written. */
  lemma DigestWithMoreTrailing(fs: FileSystem, c: string, trail: string, tree: Node)
    requires CleanRoot(c) && Separators(trail) && |trail| >= 2
    requires Mounted(fs, c, tree) && tree.Dir? && WellNamed(tree)
    ensures TrimRight(c + trail) == c && DigestStream(fs, c + trail) == Stream(tree, s => c + s)
  {
    DigestStreamOfCleanRoot(fs, c, trail, tree);
    var ss := SortedRelStrings(tree);
    forall i | 0 <= i < |ss| ensures RemoveFirst(c + ss[i], c + trail) == c + ss[i] {
      var rel := BytesOfListed(tree, ss[i]);
      CutMoreTrailing(c, trail, rel);
    }
    StreamCongruence(tree, s => RemoveFirst(c + s, c + trail), s => c + s, ss);
  }

  // ---------- When the root shows in the stream ----------

  lemma {:induction false} ShorterStream(tree: Node, f: string -> string, g: string -> string, ss: seq<string>)
    requires forall i | 0 <= i < |ss| :: |f(ss[i])| < |g(ss[i])|
    ensures |StreamOver(tree, f, ss)| + |ss| <= |StreamOver(tree, g, ss)|
    ensures ss == [] ==> StreamOver(tree, f, ss) == StreamOver(tree, g, ss)
  {
    if ss != [] {
      ShorterStream(tree, f, g, ss[..|ss| - 1]);
    }
  }

  lemma NoPathsIff(tree: Node)
    requires tree.Dir? && WellNamed(tree)
    ensures SortedRelStrings(tree) == [] <==> tree.entries == []
  {
    RelPathsNonEmpty(tree);
    if tree.entries == [] {
      assert RelStrings(RelPaths(tree, true)) == [];
    } else {
      FindEntryAt(tree.entries, 0);
      var rel := [tree.entries[0].name];
      assert NodeAt(tree, rel).Some?;
      SortedRelStringsMembers(tree, RelString(rel));
    }
  }

  /** Trailing separators change the stream of every directory but an empty one. */
  lemma TrailingSeparatorsShowIff(fs: FileSystem, c: string, trail: string, tree: Node)
    requires CleanRoot(c) && Separators(trail) && Mounted(fs, c, tree) && tree.Dir? && WellNamed(tree)
    ensures TrimRight(c) == c && TrimRight(c + trail) == c
    ensures DigestStream(fs, c + trail) == DigestStream(fs, c) <==> trail == "" || tree.entries == []
  {
    hide SortedRelStrings, CleanRoot, Separators;
    var ss := SortedRelStrings(tree);
    NoPathsIff(tree);
    CleanRootParts(c);
    DigestWithoutTrailing(fs, c, tree);
    if trail == "" {
      assert c + trail == c;
    } else if |trail| == 1 {
      OneSeparator(trail);
      DigestWithOneTrailing(fs, c, tree);
      ListedAreNotEmpty(tree);
      ShorterStream(tree, Tail, Whole, ss);
    } else {
      DigestWithMoreTrailing(fs, c, trail, tree);
      ShorterStream(tree, Whole, s => c + s, ss);
    }
  }

  lemma OneSeparator(trail: string)
    requires Separators(trail) && |trail| == 1
    ensures trail == "/"
  {
  }

  lemma ListedAreNotEmpty(tree: Node)
    requires tree.Dir? && WellNamed(tree)
    ensures forall i | 0 <= i < |SortedRelStrings(tree)| :: SortedRelStrings(tree)[i] != ""
  {
    var ss := SortedRelStrings(tree);
    forall i | 0 <= i < |ss| ensures ss[i] != "" {
      var rel := BytesOfListed(tree, ss[i]);
    }
  }

  /**
    Every root that stands for the current directory, such as "." and "a/..": at least the
    leading separator of each path is lost, so the stream is that of other roots exactly for
    an empty directory.
   */
  lemma CurrentDirectoryShowsIff(fs: FileSystem, root: string, tree: Node)
    requires var t := TrimRight(root);
             Parse(t) == CleanPath(false, []) && Mounted(fs, t, tree) && tree.Dir? && WellNamed(tree)
    ensures DigestStream(fs, root) == Stream(tree, Whole) <==> tree.entries == []
  {
    hide SortedRelStrings, TrimRight, RemoveFirst, StreamOver, Mounted, WellNamed, Normalise;
    var t := TrimRight(root);
    var ss := SortedRelStrings(tree);
    DigestStreamOfRoot(fs, root, tree);
    NoPathsIff(tree);
    ListedAreNotEmpty(tree);
    forall i | 0 <= i < |ss| ensures |RemoveFirst(Listed(t, ss[i]), root)| < |ss[i]| {
      RemoveFirstShortens(Tail(ss[i]), root);
    }
    ShorterStream(tree, s => RemoveFirst(Listed(t, s), root), Whole, ss);
  }

  // ---------- Roots that are not clean directories ----------

  /** A file is hashed without its path, unless the path came with trailing separators. */
  lemma DigestOfFileRoot(fs: FileSystem, c: string, trail: string, content: string)
    requires c != "" && c[|c| - 1] != SEPARATOR && Separators(trail) && Mounted(fs, c, File(content))
    ensures TrimRight(c + trail) == c
    ensures DigestStream(fs, c + trail) == (if trail == "" then "" else c) + content
  {
    TrimTrailing(c, trail);
    var root := c + trail;
    assert Sort([c]) == [c];
    assert [c][..0] == [];
    assert Written(fs, root, [c]) == RemoveFirst(c, root) + content;
    if trail == "" {
      assert root == c && c + "" == c;
      RemovePrefix(c, "");
    } else {
      AbsentIsKept(c, root);
    }
  }

  function WithoutFirstDot(s: string): string {
    RemoveFirst(Tail(s), ".")
  }

  /** The current directory: each path is written without its leading separator and its first dot. */
  lemma DigestOfCurrentDirectory(fs: FileSystem, tree: Node)
    requires Mounted(fs, ".", tree) && tree.Dir? && WellNamed(tree)
    ensures DigestStream(fs, ".") == Stream(tree, WithoutFirstDot)
    ensures DigestStream(fs, ".") == Stream(tree, Whole) <==> tree.entries == []
  {
    hide SortedRelStrings, RemoveFirst;
    ParseOfRenderEmpty(false);
    DigestStreamOfRoot(fs, ".", tree);
    StreamCongruence(tree, s => RemoveFirst(Listed(".", s), "."), WithoutFirstDot, SortedRelStrings(tree));
    CurrentDirectoryShowsIff(fs, ".", tree);
  }

  // ---------- What the stream tells apart ----------

  /** Place by place, equally long paths and equally many bytes. */
  predicate SameLengthTable(a: Node, x: seq<string>, b: Node, y: seq<string>) {
    && |x| == |y|
    && forall i | 0 <= i < |x| :: |x[i]| == |y[i]| && |BytesFor(a, x[i])| == |BytesFor(b, y[i])|
  }

  lemma {:induction false} StreamLength(a: Node, x: seq<string>, b: Node, y: seq<string>)
    requires SameLengthTable(a, x, b, y)
    ensures |StreamOver(a, Whole, x)| == |StreamOver(b, Whole, y)|
  {
    hide BytesFor;
    if x != [] {
      var n := |x| - 1;
      assert forall i | 0 <= i < n :: x[..n][i] == x[i] && y[..n][i] == y[i];
      StreamLength(a, x[..n], b, y[..n]);
    }
  }

  lemma SplitAtLength(x: string, s: string, u: string, y: string, t: string, v: string)
    requires x + (s + u) == y + (t + v) && |x| == |y| && |s| == |t|
    ensures x == y && s == t && u == v
  {
    assert x == (x + (s + u))[..|x|] && y == (y + (t + v))[..|y|];
    assert s + u == (x + (s + u))[|x|..] && t + v == (y + (t + v))[|y|..];
    assert s == (s + u)[..|s|] && t == (t + v)[..|t|];
    assert u == (s + u)[|s|..] && v == (t + v)[|t|..];
  }

  lemma {:induction false} EqualStreamsEqualParts(a: Node, x: seq<string>, b: Node, y: seq<string>)
    requires SameLengthTable(a, x, b, y) && StreamOver(a, Whole, x) == StreamOver(b, Whole, y)
    ensures x == y && forall i | 0 <= i < |x| :: BytesFor(a, x[i]) == BytesFor(b, y[i])
  {
    hide BytesFor, StreamOver;
    if x != [] {
      var n := |x| - 1;
      assert forall i | 0 <= i < n :: x[..n][i] == x[i] && y[..n][i] == y[i];
      StreamLength(a, x[..n], b, y[..n]);
      StreamSnoc(a, x);
      StreamSnoc(b, y);
      SplitAtLength(StreamOver(a, Whole, x[..n]), x[n], BytesFor(a, x[n]),
                    StreamOver(b, Whole, y[..n]), y[n], BytesFor(b, y[n]));
      EqualStreamsEqualParts(a, x[..n], b, y[..n]);
      assert x == x[..n] + [x[n]] && y == y[..n] + [y[n]];
    }
  }

  predicate SameLengths(a: Node, b: Node)
    requires a.Dir? && WellNamed(a) && b.Dir? && WellNamed(b)
  {
    SameLengthTable(a, SortedRelStrings(a), b, SortedRelStrings(b))
  }

  lemma NodeAtListed(a: Node, rel: seq<string>)
    requires a.Dir? && WellNamed(a) && rel != [] && PlainNames(rel)
    ensures NodeAt(a, rel).Some? <==> RelString(rel) in SortedRelStrings(a)
  {
    SortedRelStringsMembers(a, RelString(rel));
    if RelString(rel) in SortedRelStrings(a) {
      var r := BytesOfListed(a, RelString(rel));
      RelStringInjective(rel, r);
    }
  }

  lemma SameStringsSamePaths(a: Node, b: Node)
    requires a.Dir? && WellNamed(a) && b.Dir? && WellNamed(b)
    requires SortedRelStrings(a) == SortedRelStrings(b)
    ensures SamePaths(a, b)
  {
    hide SortedRelStrings;
    forall rel ensures NodeAt(a, rel).Some? <==> NodeAt(b, rel).Some? {
      if rel != [] && (NodeAt(a, rel).Some? || NodeAt(b, rel).Some?) {
        NodeAtNamesPlain(if NodeAt(a, rel).Some? then a else b, rel);
        NodeAtListed(a, rel);
        NodeAtListed(b, rel);
      }
    }
  }

  lemma SameBytesListed(a: Node, b: Node)
    requires a.Dir? && WellNamed(a) && b.Dir? && SameBytes(a, b)
    ensures forall i | 0 <= i < |SortedRelStrings(a)| ::
              BytesFor(a, SortedRelStrings(a)[i]) == BytesFor(b, SortedRelStrings(a)[i])
  {
    var ss := SortedRelStrings(a);
    forall i | 0 <= i < |ss| ensures BytesFor(a, ss[i]) == BytesFor(b, ss[i]) {
      var rel := BytesOfListed(a, ss[i]);
      BytesForRelString(a, rel);
      BytesForRelString(b, rel);
    }
  }

  /**
    Nothing is assumed to be the same in the two trees but lengths: if the paths, in the order
    hashed, are as many and as long, and so are the contents, then the streams are equal
    exactly when all paths and all contents are.
   */
  lemma StreamDeterminesPathsAndContents(a: Node, b: Node)
    requires a.Dir? && WellNamed(a) && b.Dir? && WellNamed(b) && SameLengths(a, b)
    ensures Stream(a, Whole) == Stream(b, Whole) <==> SamePaths(a, b) && SameBytes(a, b)
  {
    hide SortedRelStrings, BytesFor, BytesAt;
    if SamePaths(a, b) && SameBytes(a, b) {
      SamePathsSameOrder(a, b);
      SameBytesListed(a, b);
      SameBytesSameStream(a, b, Whole, SortedRelStrings(a));
    }
    if Stream(a, Whole) == Stream(b, Whole) {
      EqualStreamsEqualParts(a, SortedRelStrings(a), b, SortedRelStrings(b));
      SameStringsSamePaths(a, b);
      forall rel ensures BytesAt(a, rel) == BytesAt(b, rel) {
        BytesAtFromStream(a, b, rel);
      }
    }
  }

  /** What is empty in both trees is a directory in both or in neither. */
  ghost predicate EmptyNodesKeepKind(a: Node, b: Node) {
    forall rel | NodeAt(a, rel).Some? && NodeAt(b, rel).Some? && BytesAt(a, rel) == BytesAt(b, rel) == "" ::
      NodeAt(a, rel).value.Dir? <==> NodeAt(b, rel).value.Dir?
  }

  /** At equal lengths, then, the trees are the same exactly when moreover nothing empty changes kind. */
  lemma StreamDeterminesTree(a: Node, b: Node)
    requires a.Dir? && WellNamed(a) && b.Dir? && WellNamed(b) && SameLengths(a, b)
    ensures SameTree(a, b) <==> Stream(a, Whole) == Stream(b, Whole) && EmptyNodesKeepKind(a, b)
  {
    hide Stream, SameLengths, SortedRelStrings;
    StreamDeterminesPathsAndContents(a, b);
    if SameTree(a, b) {
      SameTreeParts(a, b);
      forall rel | NodeAt(a, rel).Some? && NodeAt(b, rel).Some?
        ensures NodeAt(a, rel).value.Dir? <==> NodeAt(b, rel).value.Dir?
      {
        assert KindAt(a, rel) == KindAt(b, rel);
      }
    }
    if SamePaths(a, b) && SameBytes(a, b) && EmptyNodesKeepKind(a, b) {
      forall rel ensures KindAt(a, rel) == KindAt(b, rel) {
        assert NodeAt(a, rel).Some? <==> NodeAt(b, rel).Some?;
        assert BytesAt(a, rel) == BytesAt(b, rel);
      }
    }
  }

  ghost predicate SameSizes(a: Node, b: Node) {
    forall rel :: |BytesAt(a, rel)| == |BytesAt(b, rel)|
  }

  lemma SamePathsAndSizesSameLengths(a: Node, b: Node)
    requires a.Dir? && WellNamed(a) && b.Dir? && WellNamed(b) && SamePaths(a, b) && SameSizes(a, b)
    ensures SameLengths(a, b)
  {
    SamePathsSameOrder(a, b);
    var ss := SortedRelStrings(a);
    forall i | 0 <= i < |ss| ensures |BytesFor(a, ss[i])| == |BytesFor(b, ss[i])| {
      var rel := BytesOfListed(a, ss[i]);
      BytesForRelString(a, rel);
      BytesForRelString(b, rel);
    }
  }

  /** In particular, with the paths and file sizes fixed, the stream determines every file's content. */
  lemma StreamDeterminesContents(a: Node, b: Node)
    requires a.Dir? && WellNamed(a) && b.Dir? && WellNamed(b) && SamePaths(a, b) && SameSizes(a, b)
    ensures Stream(a, Whole) == Stream(b, Whole) <==> SameBytes(a, b)
  {
    SamePathsAndSizesSameLengths(a, b);
    StreamDeterminesPathsAndContents(a, b);
  }

  lemma BytesAtFromStream(a: Node, b: Node, rel: seq<string>)
    requires a.Dir? && WellNamed(a) && b.Dir? && SamePaths(a, b)
    requires forall i | 0 <= i < |SortedRelStrings(a)| ::
               BytesFor(a, SortedRelStrings(a)[i]) == BytesFor(b, SortedRelStrings(a)[i])
    ensures BytesAt(a, rel) == BytesAt(b, rel)
  {
    if rel != [] && NodeAt(a, rel).Some? {
      SortedRelStringsMembers(a, RelString(rel));
      var i :| 0 <= i < |SortedRelStrings(a)| && SortedRelStrings(a)[i] == RelString(rel);
      NodeAtNamesPlain(a, rel);
      BytesForRelString(a, rel);
      BytesForRelString(b, rel);
    } else {
      assert NodeAt(b, rel).Some? <==> NodeAt(a, rel).Some?;
    }
  }

  lemma StreamSnoc(a: Node, ss: seq<string>)
    requires ss != []
    ensures var n := |ss| - 1;
            StreamOver(a, Whole, ss) == StreamOver(a, Whole, ss[..n]) + (ss[n] + BytesFor(a, ss[n]))
  {
    var n := |ss| - 1;
    var x := StreamOver(a, Whole, ss[..n]);
    assert x + ss[n] + BytesFor(a, ss[n]) == x + (ss[n] + BytesFor(a, ss[n]));
  }

  lemma {:induction false} OneChangeShows(a: Node, b: Node, ss: seq<string>, k: nat)
    requires k < |ss| && BytesFor(a, ss[k]) != BytesFor(b, ss[k])
    requires forall i | 0 <= i < |ss| && i != k :: BytesFor(a, ss[i]) == BytesFor(b, ss[i])
    ensures StreamOver(a, Whole, ss) != StreamOver(b, Whole, ss)
  {
    hide BytesFor, StreamOver;
    var n := |ss| - 1;
    var x, y := StreamOver(a, Whole, ss[..n]), StreamOver(b, Whole, ss[..n]);
    StreamSnoc(a, ss);
    StreamSnoc(b, ss);
    if k == n {
      SameBytesSameStream(a, b, Whole, ss[..n]);
      CommonPrefixCancels(ss[n], BytesFor(a, ss[n]), BytesFor(b, ss[n]));
      CommonPrefixCancels(x, ss[n] + BytesFor(a, ss[n]), ss[n] + BytesFor(b, ss[n]));
    } else {
      OneChangeShows(a, b, ss[..n], k);
      CommonSuffixCancels(x, y, ss[n] + BytesFor(a, ss[n]));
    }
  }

  lemma CommonPrefixCancels(p: string, u: string, v: string)
    requires u != v
    ensures p + u != p + v
  {
    assert u == (p + u)[|p|..] && v == (p + v)[|p|..];
  }

  lemma CommonSuffixCancels(x: string, y: string, z: string)
    requires x != y
    ensures x + z != y + z
  {
    assert x == (x + z)[..|x + z| - |z|] && y == (y + z)[..|y + z| - |z|];
  }

  /** Changing the content of exactly one file, to any size, always changes the stream. */
  lemma OneFileChangeShows(a: Node, b: Node, changed: seq<string>)
    requires a.Dir? && WellNamed(a) && b.Dir? && WellNamed(b) && SamePaths(a, b)
    requires BytesAt(a, changed) != BytesAt(b, changed)
    requires forall rel | rel != changed :: BytesAt(a, rel) == BytesAt(b, rel)
    ensures Stream(a, Whole) != Stream(b, Whole)
  {
    SamePathsSameOrder(a, b);
    var ss := SortedRelStrings(a);
    assert changed != [] && NodeAt(a, changed).Some?;
    NodeAtNamesPlain(a, changed);
    SortedRelStringsMembers(a, RelString(changed));
    var k :| 0 <= k < |ss| && ss[k] == RelString(changed);
    BytesForRelString(a, changed);
    BytesForRelString(b, changed);
    SortedRelStringsOnce(a);
    forall i | 0 <= i < |ss| && i != k ensures BytesFor(a, ss[i]) == BytesFor(b, ss[i]) {
      assert ss[i] != ss[k];
      var rel := BytesOfListed(a, ss[i]);
      BytesForRelString(a, rel);
      BytesForRelString(b, rel);
    }
    OneChangeShows(a, b, ss, k);
  }

  lemma SortedRelStringsOnce(tree: Node)
    requires tree.Dir? && WellNamed(tree)
    ensures NoDuplicates(SortedRelStrings(tree))
  {
    RelStringsOnce(tree);
    var strings := RelStrings(RelPaths(tree, true));
    var ss := SortedRelStrings(tree);
    SortSorts(strings);
    forall i, j | 0 <= i < j < |ss| ensures ss[i] != ss[j] {
      if ss[i] == ss[j] {
        DuplicateFreeCounts(strings, ss[i]);
        OccursTwice(ss, i, j);
      }
    }
  }

  // ---------- The order of the stream ----------

  /** Every directory is hashed before anything below it. */
  lemma DirectoriesComeFirst(tree: Node, rel: seq<string>, below: seq<string>, i: nat, j: nat)
    requires tree.Dir? && WellNamed(tree) && rel != [] && below != []
    requires i < |SortedRelStrings(tree)| && SortedRelStrings(tree)[i] == "/" + JoinSlash(rel)
    requires j < |SortedRelStrings(tree)| && SortedRelStrings(tree)[j] == "/" + JoinSlash(rel + below)
    ensures i < j
  {
    hide SortedRelStrings, WellNamed, Leq;
    var ss := SortedRelStrings(tree);
    JoinAppend(rel, below);
    assert ss[j] == ss[i] + ("/" + JoinSlash(below));
    PrefixComesFirst(ss[i], "/" + JoinSlash(below));
    SortedRelStringsInOrder(tree);
  }

  lemma SortedRelStringsInOrder(tree: Node)
    requires tree.Dir? && WellNamed(tree)
    ensures var ss := SortedRelStrings(tree); forall i, j | 0 <= i < j < |ss| :: Leq(ss[i], ss[j])
  {
    RelPathsNonEmpty(tree);
    SortPutsInOrder(RelStrings(RelPaths(tree, true)));
  }

  /** The stream written out for a file in a directory: the directory, then the file and its content. */
  lemma StreamOfNestedFile(fs: FileSystem, c: string, dir: string, name: string, content: string)
    requires CleanRoot(c) && PlainName(dir) && PlainName(name)
    requires Mounted(fs, c, Dir([Entry(dir, Dir([Entry(name, File(content))]))]))
    ensures TrimRight(c) == c && WellNamed(fs[c])
    ensures DigestStream(fs, c) == "/" + dir + "/" + dir + "/" + name + content
  {
    hide *;
    var tree := Dir([Entry(dir, Dir([Entry(name, File(content))]))]);
    NestedStream(dir, name, content);
    MountedHere(fs, c, tree);
    DigestWithoutTrailing(fs, c, tree);
  }

  lemma NestedStream(dir: string, name: string, content: string)
    requires PlainName(dir) && PlainName(name)
    ensures var tree := Dir([Entry(dir, Dir([Entry(name, File(content))]))]);
            WellNamed(tree) && Stream(tree, Whole) == "/" + dir + "/" + dir + "/" + name + content
  {
    hide Stream, SortedRelStrings, RelString, BytesFor, BytesAt, WellNamed;
    var tree := Dir([Entry(dir, Dir([Entry(name, File(content))]))]);
    var s, t := "/" + dir, "/" + dir + "/" + name;
    NestedPaths(dir, name, content);
    NestedNodes(dir, name, content);
    BytesForRelString(tree, [dir]);
    BytesForRelString(tree, [dir, name]);
    StreamOfTwo(tree, s, t);
    assert s + "" + t + content == "/" + dir + "/" + dir + "/" + name + content;
  }

  lemma MountedHere(fs: FileSystem, c: string, tree: Node)
    requires Mounted(fs, c, tree)
    ensures c in fs && fs[c] == tree
  {
  }

  lemma StreamOfTwo(tree: Node, s: string, t: string)
    requires tree.Dir? && WellNamed(tree) && SortedRelStrings(tree) == [s, t]
    ensures Stream(tree, Whole) == s + BytesFor(tree, s) + t + BytesFor(tree, t)
  {
    hide SortedRelStrings, BytesFor;
    assert [s, t][..1] == [s] && [s][..0] == [];
    assert StreamOver(tree, Whole, [s]) == s + BytesFor(tree, s);
  }

  lemma NestedPaths(dir: string, name: string, content: string)
    requires PlainName(dir) && PlainName(name)
    ensures var tree := Dir([Entry(dir, Dir([Entry(name, File(content))]))]);
            && WellNamed(tree) && SortedRelStrings(tree) == [RelString([dir]), RelString([dir, name])]
    ensures RelString([dir]) == "/" + dir && RelString([dir, name]) == "/" + dir + "/" + name
  {
    var inner := Dir([Entry(name, File(content))]);
    var tree := Dir([Entry(dir, inner)]);
    assert RelEntries(inner, 1, true) == [[name]];
    assert [dir] + [name] == [dir, name];
    assert Below(dir, [[name]]) == [[dir, name]];
    assert RelEntries(tree, 1, true) == [[dir]] + [[dir, name]];
    assert RelPaths(tree, true) == [[dir], [dir, name]];
    var s, t := RelString([dir]), RelString([dir, name]);
    JoinSnoc([dir], name);
    assert [dir] + [name] == [dir, name] && JoinSlash([dir]) == dir;
    PrefixComesFirst(s, "/" + name);
    assert t == s + ("/" + name);
    RelPathsNonEmpty(tree);
    assert RelStrings(RelPaths(tree, true)) == [s, t];
    assert [s, t][1..] == [t] && Sort([t]) == [t];
    assert Sort([s, t]) == Insert(s, [t]) == [s, t];
  }

  lemma NestedNodes(dir: string, name: string, content: string)
    ensures var tree := Dir([Entry(dir, Dir([Entry(name, File(content))]))]);
            BytesAt(tree, [dir]) == "" && BytesAt(tree, [dir, name]) == content
  {
    var inner := Dir([Entry(name, File(content))]);
    var tree := Dir([Entry(dir, inner)]);
    FindEntryAt(tree.entries, 0);
    FindEntryAt(inner.entries, 0);
    assert [dir][1..] == [] && [dir, name][1..] == [name] && [name][1..] == [];
    assert NodeAt(inner, [name]) == Some(File(content));
    assert NodeAt(tree, [dir]) == Some(inner);
    assert NodeAt(tree, [dir, name]) == NodeAt(inner, [name]);
  }

  // ---------- Streams that collide ----------

  /**
    Against the stated intent that a change of structure changes the hash: an empty directory
    next to an empty file, and the same with the two swapped, have the same stream.
   */
  lemma SwappedKindsCollide()
    ensures var a := Dir([Entry("a", Dir([])), Entry("b", File(""))]);
            var b := Dir([Entry("a", File("")), Entry("b", Dir([]))]);
            WellNamed(a) && WellNamed(b) && !SameTree(a, b) && Stream(a, Whole) == Stream(b, Whole)
  {
    var a := Dir([Entry("a", Dir([])), Entry("b", File(""))]);
    var b := Dir([Entry("a", File("")), Entry("b", Dir([]))]);
    assert KindAt(a, ["b"]) != KindAt(b, ["b"]);
    forall rel ensures (NodeAt(a, rel).Some? <==> NodeAt(b, rel).Some?) && BytesAt(a, rel) == BytesAt(b, rel) == "" {
      TwoEmptyEntries(Dir([]), File(""), rel);
      TwoEmptyEntries(File(""), Dir([]), rel);
    }
    StreamDeterminesContents(a, b);
  }

  lemma TwoEmptyEntries(x: Node, y: Node, rel: seq<string>)
    requires x in {File(""), Dir([])} && y in {File(""), Dir([])}
    ensures var tree := Dir([Entry("a", x), Entry("b", y)]);
            && (NodeAt(tree, rel).Some? <==> rel == [] || rel == ["a"] || rel == ["b"])
            && BytesAt(tree, rel) == ""
  {
    var es := [Entry("a", x), Entry("b", y)];
    if rel != [] {
      assert es[..1] == [Entry("a", x)] && es[..1][..0] == [];
      assert FindEntry(es, "b") == Some(y);
      assert FindEntry(es, "a") == FindEntry(es[..1], "a") == Some(x);
      assert rel[0] != "a" && rel[0] != "b" ==> FindEntry(es, rel[0]) == FindEntry(es[..1], rel[0]) == None;
      assert rel == ["a"] <==> rel[0] == "a" && rel[1..] == [];
      assert rel == ["b"] <==> rel[0] == "b" && rel[1..] == [];
    }
  }
}
