/** The deterministic listing of a file tree. */
module TreeListing {
  import opened Common
  import opened Filepath
  import opened Ordering

  datatype Node = File(content: string) | Dir(entries: seq<Entry>)

  /** A directory entry; the entries come in the order in which the directory is read. */
  datatype Entry = Entry(name: string, node: Node)

  predicate WellNamed(node: Node) {
    node.Dir? ==>
      && (forall i | 0 <= i < |node.entries| :: PlainName(node.entries[i].name) && WellNamed(node.entries[i].node))
      && (forall i, j | 0 <= i < j < |node.entries| :: node.entries[i].name != node.entries[j].name)
  }

  /** What path strings resolve to. */
  type FileSystem = map<string, Node>

  /** The tree is found at `path`, and its entries at the paths the walk builds for them. */
  predicate Mounted(fs: FileSystem, path: string, node: Node)
    decreases node
  {
    && path != "" && path in fs && fs[path] == node
    && (node.Dir? ==>
          forall i | 0 <= i < |node.entries| ::
            && PlainName(node.entries[i].name)
            && Mounted(fs, Join(path, node.entries[i].name), node.entries[i].node))
  }

  // ---------- The walk ----------

  /** What the walk appends for the first `n` entries of a directory. */
  function ListEntries(path: string, node: Node, n: nat, recursive: bool): seq<string>
    requires path != "" && node.Dir? && n <= |node.entries| && WellNamed(node)
    decreases node, n
  {
    if n == 0 then []
    else
      var entry := node.entries[n - 1];
      var entryPath := Join(path, entry.name);
      JoinNonEmpty(path, entry.name);
      ListEntries(path, node, n - 1, recursive) + [entryPath] +
      if recursive && entry.node.Dir? then ListEntries(entryPath, entry.node, |entry.node.entries|, recursive) else []
  }

  function Listing(path: string, node: Node, recursive: bool): seq<string>
    requires path != "" && WellNamed(node)
  {
    if node.File? then [path] else ListEntries(path, node, |node.entries|, recursive)
  }

  lemma JoinNonEmpty(dir: string, name: string)
    requires dir != "" && PlainName(name)
    ensures name != ""
    ensures Join(dir, name) != "" && TrimRight(Join(dir, name)) == Join(dir, name)
  {
    JoinDescends(dir, name);
    RenderedNameEndsPlain(Parse(dir), name);
  }

  lemma RenderedNameEndsPlain(q: CleanPath, name: string)
    requires PlainName(name)
    ensures var r := Render(Descend(q, [name]));
            r != "" && r[|r| - 1] != SEPARATOR
  {
    if q.comps != [] {
      JoinSnoc(q.comps, name);
    } else {
      assert Descend(q, [name]).comps == [name];
    }
    assert name[|name| - 1] in name;
  }

  /** The slice behind the pointer that the walk appends to. */
  class PathList {
    var paths: seq<string>

    constructor ()
      ensures paths == []
    {
      paths := [];
    }
  }

  method ListFilesInPathInternal(fs: FileSystem, filesInPath: PathList, path: string, recursiveMode: bool)
    returns (ok: bool)
    requires var trimmed := TrimRight(path);
             trimmed in fs ==> Mounted(fs, trimmed, fs[trimmed]) && WellNamed(fs[trimmed])
    modifies filesInPath
    ensures ok <==> TrimRight(path) in fs
    ensures filesInPath.paths == old(filesInPath.paths) +
              if ok then Listing(TrimRight(path), fs[TrimRight(path)], recursiveMode) else []
    decreases if TrimRight(path) in fs then fs[TrimRight(path)] else File("")
  {
    hide Join, TrimRight, PlainName;
    var trimmedPath := TrimRight(path);
    if trimmedPath !in fs {
      return false;
    }
    var uploadFileInfo := fs[trimmedPath];
    if uploadFileInfo.File? {
      filesInPath.paths := filesInPath.paths + [trimmedPath];
      return true;
    }
    for i := 0 to |uploadFileInfo.entries|
      invariant filesInPath.paths == old(filesInPath.paths) + ListEntries(trimmedPath, uploadFileInfo, i, recursiveMode)
    {
      var entry := uploadFileInfo.entries[i];
      JoinNonEmpty(trimmedPath, entry.name);
      var fileInDirectoryPath := Join(trimmedPath, entry.name);
      assert Mounted(fs, fileInDirectoryPath, entry.node);
      filesInPath.paths := filesInPath.paths + [fileInDirectoryPath];
      if recursiveMode && entry.node.Dir? {
        // Cannot fail: the directory is found where it was listed.
        var listed := ListFilesInPathInternal(fs, filesInPath, fileInDirectoryPath, recursiveMode);
      }
    }
    ok := true;
  }

  method ListFilesInPathDeterministic(fs: FileSystem, path: string, recursiveMode: bool)
    returns (r: Option<seq<string>>)
    requires var trimmed := TrimRight(path);
             trimmed in fs ==> Mounted(fs, trimmed, fs[trimmed]) && WellNamed(fs[trimmed])
    ensures r == if TrimRight(path) in fs
                 then Some(Sort(Listing(TrimRight(path), fs[TrimRight(path)], recursiveMode)))
                 else None
    ensures TrimRight(path) in fs && fs[TrimRight(path)].File? ==> r == Some([TrimRight(path)])
  {
    var listOfFiles := new PathList();
    var ok := ListFilesInPathInternal(fs, listOfFiles, path, recursiveMode);
    assert ok ==> listOfFiles.paths == Listing(TrimRight(path), fs[TrimRight(path)], recursiveMode);
    if ok && fs[TrimRight(path)].File? {
      FileListsItself(TrimRight(path), fs[TrimRight(path)], recursiveMode);
    }
    r := if ok then Some(Sort(listOfFiles.paths)) else None;
  }

  // ---------- Coverage ----------

  function FindEntry(entries: seq<Entry>, name: string): (r: Option<Node>)
    ensures r.Some? <==> exists i :: 0 <= i < |entries| && entries[i].name == name
    ensures r.Some? ==> exists i :: 0 <= i < |entries| && entries[i] == Entry(name, r.value)
  {
    if entries == [] then None
    else
      var last := entries[|entries| - 1];
      if last.name == name then Some(last.node) else FindEntry(entries[..|entries| - 1], name)
  }

  /** The node at a relative path, if there is one. */
  function NodeAt(node: Node, rel: seq<string>): Option<Node>
    decreases |rel|
  {
    if rel == [] then Some(node)
    else if node.File? then None
    else match FindEntry(node.entries, rel[0])
         case Some(child) => NodeAt(child, rel[1..])
         case None => None
  }

  lemma FindEntryAt(entries: seq<Entry>, i: nat)
    requires i < |entries| && forall j, k | 0 <= j < k < |entries| :: entries[j].name != entries[k].name
    ensures FindEntry(entries, entries[i].name) == Some(entries[i].node)
  {
  }

  /** The relative paths the walk goes through, in its order. */
  function RelEntries(node: Node, n: nat, recursive: bool): seq<seq<string>>
    requires node.Dir? && n <= |node.entries|
    decreases node, n
  {
    if n == 0 then []
    else
      var entry := node.entries[n - 1];
      RelEntries(node, n - 1, recursive) + [[entry.name]] +
      if recursive && entry.node.Dir?
      then Below(entry.name, RelEntries(entry.node, |entry.node.entries|, recursive)) else []
  }

  function Below(name: string, rels: seq<seq<string>>): seq<seq<string>> {
    seq(|rels|, i requires 0 <= i < |rels| => [name] + rels[i])
  }

  function RelPaths(node: Node, recursive: bool): seq<seq<string>>
    requires node.Dir?
  {
    RelEntries(node, |node.entries|, recursive)
  }

  /** What is listed in relative terms: every descendant, or in flat mode every child. */
  predicate Listable(node: Node, rel: seq<string>, recursive: bool) {
    rel != [] && (recursive || |rel| == 1) && NodeAt(node, rel).Some?
  }

  /** Listable, and below one of the first `n` entries. */
  predicate ListableUpTo(node: Node, n: nat, rel: seq<string>, recursive: bool)
    requires node.Dir? && n <= |node.entries|
  {
    && rel != [] && (recursive || |rel| == 1)
    && exists i :: 0 <= i < n && node.entries[i].name == rel[0] && NodeAt(node.entries[i].node, rel[1..]).Some?
  }

  lemma BelowMembers(name: string, rels: seq<seq<string>>, rel: seq<string>)
    ensures rel in Below(name, rels) <==> rel != [] && rel[0] == name && rel[1..] in rels
  {
    if rel != [] && rel[0] == name && rel[1..] in rels {
      var i :| 0 <= i < |rels| && rels[i] == rel[1..];
      assert Below(name, rels)[i] == rel;
    }
  }

  /** What the step to entry `n` of the walk adds. */
  function OneEntry(node: Node, n: nat, recursive: bool): seq<seq<string>>
    requires node.Dir? && 0 < n <= |node.entries|
  {
    var entry := node.entries[n - 1];
    [[entry.name]] +
    if recursive && entry.node.Dir? then Below(entry.name, RelPaths(entry.node, recursive)) else []
  }

  lemma {:induction false} OneEntryMembers(node: Node, n: nat, recursive: bool, rel: seq<string>)
    requires node.Dir? && WellNamed(node) && 0 < n <= |node.entries|
    ensures var entry := node.entries[n - 1];
            rel in OneEntry(node, n, recursive) <==>
              && rel != [] && rel[0] == entry.name && (recursive || |rel| == 1)
              && NodeAt(entry.node, rel[1..]).Some?
    decreases node, n, 0
  {
    var entry := node.entries[n - 1];
    if recursive && entry.node.Dir? {
      var rels := RelPaths(entry.node, recursive);
      BelowMembers(entry.name, rels, rel);
      assert rel in OneEntry(node, n, recursive) <==> rel == [entry.name] || rel in Below(entry.name, rels);
      if rel != [] {
        RelPathsMembers(entry.node, recursive, rel[1..]);
        assert rel == [entry.name] <==> rel[0] == entry.name && rel[1..] == [];
      }
    } else {
      assert OneEntry(node, n, recursive) == [[entry.name]];
      LeafEntryMembers(entry, recursive, rel);
    }
  }

  lemma LeafEntryMembers(entry: Entry, recursive: bool, rel: seq<string>)
    requires !(recursive && entry.node.Dir?)
    ensures rel in [[entry.name]] <==>
              && rel != [] && rel[0] == entry.name && (recursive || |rel| == 1)
              && NodeAt(entry.node, rel[1..]).Some?
  {
    if rel == [entry.name] {
      assert rel[1..] == [];
    } else if rel != [] && rel[0] == entry.name {
      assert rel == [rel[0]] + rel[1..];
    }
  }

  lemma {:induction false} RelEntriesMembers(node: Node, n: nat, recursive: bool, rel: seq<string>)
    requires node.Dir? && WellNamed(node) && n <= |node.entries|
    ensures rel in RelEntries(node, n, recursive) <==> ListableUpTo(node, n, rel, recursive)
    decreases node, n, 1
  {
    if n > 0 {
      RelEntriesMembers(node, n - 1, recursive, rel);
      OneEntryMembers(node, n, recursive, rel);
      assert RelEntries(node, n, recursive) == RelEntries(node, n - 1, recursive) + OneEntry(node, n, recursive);
    }
  }

  /** Exactly the listable relative paths are walked. */
  lemma {:induction false} RelPathsMembers(node: Node, recursive: bool, rel: seq<string>)
    requires node.Dir? && WellNamed(node)
    ensures rel in RelPaths(node, recursive) <==> Listable(node, rel, recursive)
    decreases node, |node.entries| + 1, 0
  {
    RelEntriesMembers(node, |node.entries|, recursive, rel);
    if Listable(node, rel, recursive) {
      var i :| 0 <= i < |node.entries| && node.entries[i] == Entry(rel[0], FindEntry(node.entries, rel[0]).value);
      assert ListableUpTo(node, |node.entries|, rel, recursive);
    }
    if ListableUpTo(node, |node.entries|, rel, recursive) {
      var i :| && 0 <= i < |node.entries| && node.entries[i].name == rel[0]
               && NodeAt(node.entries[i].node, rel[1..]).Some?;
      FindEntryAt(node.entries, i);
    }
  }

  lemma {:induction false} NodeAtNamesPlain(node: Node, rel: seq<string>)
    requires WellNamed(node) && NodeAt(node, rel).Some?
    ensures PlainNames(rel)
    decreases |rel|
  {
    if rel != [] {
      var child := FindEntry(node.entries, rel[0]).value;
      var i :| 0 <= i < |node.entries| && node.entries[i] == Entry(rel[0], child);
      NodeAtNamesPlain(child, rel[1..]);
      assert rel == [rel[0]] + rel[1..];
    }
  }

  lemma DisjointAppend<T>(a: seq<T>, b: seq<T>)
    requires NoDuplicates(a) && NoDuplicates(b) && forall x | x in a :: x !in b
    ensures NoDuplicates(a + b)
  {
    forall i, j | 0 <= i < j < |a + b| ensures (a + b)[i] != (a + b)[j] {
      if i < |a| && |a| <= j {
        assert a[i] in a && b[j - |a|] in b;
      }
    }
  }

  lemma {:induction false} OneEntryOnce(node: Node, n: nat, recursive: bool)
    requires node.Dir? && WellNamed(node) && 0 < n <= |node.entries|
    ensures NoDuplicates(OneEntry(node, n, recursive))
    decreases node, n, 0
  {
    var entry := node.entries[n - 1];
    if recursive && entry.node.Dir? {
      var rels := RelPaths(entry.node, recursive);
      RelEntriesOnce(entry.node, |entry.node.entries|, recursive);
      var below := Below(entry.name, rels);
      forall i, j | 0 <= i < j < |below| ensures below[i] != below[j] {
        assert below[i][1..] == rels[i] && below[j][1..] == rels[j];
      }
      BelowMembers(entry.name, rels, [entry.name]);
      RelPathsMembers(entry.node, recursive, []);
      DisjointAppend([[entry.name]], below);
    }
  }

  lemma {:induction false} RelEntriesOnce(node: Node, n: nat, recursive: bool)
    requires node.Dir? && WellNamed(node) && n <= |node.entries|
    ensures NoDuplicates(RelEntries(node, n, recursive))
    decreases node, n, 1
  {
    if n > 0 {
      RelEntriesOnce(node, n - 1, recursive);
      OneEntryOnce(node, n, recursive);
      var before := RelEntries(node, n - 1, recursive);
      forall rel | rel in before ensures rel !in OneEntry(node, n, recursive) {
        RelEntriesMembers(node, n - 1, recursive, rel);
        OneEntryMembers(node, n, recursive, rel);
      }
      DisjointAppend(before, OneEntry(node, n, recursive));
      assert RelEntries(node, n, recursive) == before + OneEntry(node, n, recursive);
    }
  }

  // ---------- From relative paths to path strings ----------

  function PathsOf(q: CleanPath, rels: seq<seq<string>>): seq<string> {
    seq(|rels|, i requires 0 <= i < |rels| => Render(Descend(q, rels[i])))
  }

  lemma PathsBelow(q: CleanPath, name: string, rels: seq<seq<string>>)
    ensures PathsOf(Descend(q, [name]), rels) == PathsOf(q, Below(name, rels))
  {
    forall i | 0 <= i < |rels| ensures Descend(Descend(q, [name]), rels[i]) == Descend(q, [name] + rels[i]) {
      assert q.comps + [name] + rels[i] == q.comps + ([name] + rels[i]);
    }
  }

  lemma PathsOfAppend(q: CleanPath, a: seq<seq<string>>, b: seq<seq<string>>)
    ensures PathsOf(q, a + b) == PathsOf(q, a) + PathsOf(q, b)
  {
  }

  /** The strings the walk collects are the relative paths rendered below the root. */
  lemma {:induction false} ListEntriesRender(path: string, node: Node, n: nat, recursive: bool)
    requires path != "" && node.Dir? && n <= |node.entries| && WellNamed(node)
    ensures ListEntries(path, node, n, recursive) == PathsOf(Parse(path), RelEntries(node, n, recursive))
    decreases node, n
  {
    if n > 0 {
      hide Parse, Join, Render;
      var q := Parse(path);
      var entry := node.entries[n - 1];
      var before := RelEntries(node, n - 1, recursive);
      ListEntriesRender(path, node, n - 1, recursive);
      JoinNonEmpty(path, entry.name);
      JoinDescends(path, entry.name);
      PathsOfAppend(q, before, [[entry.name]]);
      assert PathsOf(q, [[entry.name]]) == [Join(path, entry.name)];
      if recursive && entry.node.Dir? {
        var rels := RelPaths(entry.node, recursive);
        ListEntriesRender(Join(path, entry.name), entry.node, |entry.node.entries|, recursive);
        ParseOfJoin(path, entry.name);
        PathsBelow(q, entry.name, rels);
        PathsOfAppend(q, before + [[entry.name]], Below(entry.name, rels));
      } else {
        assert before + [[entry.name]] + [] == before + [[entry.name]];
      }
    }
  }

  lemma ParseOfJoin(path: string, name: string)
    requires path != "" && PlainName(name)
    ensures Parse(Join(path, name)) == Descend(Parse(path), [name])
  {
    ParseIsNormal(path);
    DescendNormal(Parse(path), [name]);
    JoinDescends(path, name);
    ParseOfRender(Descend(Parse(path), [name]));
  }

  /** The path string of a descendant. */
  function PathOf(path: string, rel: seq<string>): string {
    Render(Descend(Parse(path), rel))
  }

  lemma PathOfInjective(path: string, r: seq<string>, s: seq<string>)
    requires PlainNames(r) && PlainNames(s) && PathOf(path, r) == PathOf(path, s)
    ensures r == s
  {
    ParseIsNormal(path);
    DescendNormal(Parse(path), r);
    DescendNormal(Parse(path), s);
    RenderInjective(Descend(Parse(path), r), Descend(Parse(path), s));
    assert r == Descend(Parse(path), r).comps[|Parse(path).comps|..];
  }

  /**
    Coverage: a directory's listing names every descendant (or, in flat mode, every child) and
    nothing else, each exactly once.
   */
  lemma ListingCoversTree(path: string, node: Node, recursive: bool)
    requires path != "" && node.Dir? && WellNamed(node)
    ensures NoDuplicates(Listing(path, node, recursive))
    ensures forall p :: p in Listing(path, node, recursive) <==>
                        exists rel :: Listable(node, rel, recursive) && p == PathOf(path, rel)
  {
    hide ListEntries, RelEntries, Render, Parse;
    var rels := RelPaths(node, recursive);
    var listing := Listing(path, node, recursive);
    ListEntriesRender(path, node, |node.entries|, recursive);
    RelEntriesOnce(node, |node.entries|, recursive);
    forall i | 0 <= i < |rels| ensures PlainNames(rels[i]) && Listable(node, rels[i], recursive) {
      assert rels[i] in rels;
      RelPathsMembers(node, recursive, rels[i]);
      NodeAtNamesPlain(node, rels[i]);
    }
    forall i, j | 0 <= i < j < |listing| ensures listing[i] != listing[j] {
      if listing[i] == listing[j] {
        PathOfInjective(path, rels[i], rels[j]);
      }
    }
    forall rel | Listable(node, rel, recursive) ensures PathOf(path, rel) in listing {
      RelPathsMembers(node, recursive, rel);
      var i :| 0 <= i < |rels| && rels[i] == rel;
      assert listing[i] == PathOf(path, rel);
    }
    forall p | p in listing ensures exists rel :: Listable(node, rel, recursive) && p == PathOf(path, rel) {
      var i :| 0 <= i < |listing| && listing[i] == p;
      assert Listable(node, rels[i], recursive) && p == PathOf(path, rels[i]);
    }
  }

  /** A file lists itself, once, in either mode. */
  lemma FileListsItself(path: string, node: Node, recursive: bool)
    requires path != "" && node.File?
    ensures NoDuplicates(Listing(path, node, recursive))
    ensures forall p :: p in Listing(path, node, recursive) <==> p == path
    ensures Sort(Listing(path, node, recursive)) == [path]
  {
    assert Listing(path, node, recursive) == [path];
    assert [path][1..] == [];
  }

  /**
    The walk before sorting: entry after entry, each followed in recursive mode by what is
    below it. In flat mode nothing is.
   */
  lemma WalkGoesEntryByEntry(path: string, entries: seq<Entry>, last: Entry, recursive: bool)
    requires path != "" && WellNamed(Dir(entries + [last]))
    ensures WellNamed(Dir(entries)) && PlainName(last.name) && WellNamed(last.node) && Join(path, last.name) != ""
    ensures Listing(path, Dir([]), recursive) == []
    ensures Listing(path, Dir(entries + [last]), recursive)
         == Listing(path, Dir(entries), recursive) + [Join(path, last.name)]
            + if recursive && last.node.Dir? then Listing(Join(path, last.name), last.node, recursive) else []
  {
    var more := entries + [last];
    assert more[|entries|] == last;
    JoinNonEmpty(path, last.name);
    forall i | 0 <= i < |entries| ensures more[i] == entries[i] {
    }
    EarlierEntriesDecide(path, entries, last, |entries|, recursive);
  }

  lemma {:induction false} EarlierEntriesDecide(path: string, entries: seq<Entry>, last: Entry, n: nat, recursive: bool)
    requires path != "" && WellNamed(Dir(entries + [last])) && WellNamed(Dir(entries)) && n <= |entries|
    ensures ListEntries(path, Dir(entries + [last]), n, recursive) == ListEntries(path, Dir(entries), n, recursive)
  {
    if n > 0 {
      EarlierEntriesDecide(path, entries, last, n - 1, recursive);
      assert (entries + [last])[n - 1] == entries[n - 1];
      JoinNonEmpty(path, entries[n - 1].name);
    }
  }

  // ---------- Independence from the order of directory entries ----------

  datatype Kind = Missing | IsFile(content: string) | IsDir

  function KindAt(node: Node, rel: seq<string>): Kind {
    match NodeAt(node, rel)
    case None => Missing
    case Some(File(content)) => IsFile(content)
    case Some(Dir(_)) => IsDir
  }

  /** The same files and directories, however the directories are enumerated. */
  ghost predicate SameTree(a: Node, b: Node) {
    forall rel :: KindAt(a, rel) == KindAt(b, rel)
  }

  /** Reordering a directory's entries, and replacing children by same trees, gives a same tree. */
  lemma ReorderedIsSameTree(es: seq<Entry>, fs: seq<Entry>)
    requires forall name :: FindEntry(es, name).Some? <==> FindEntry(fs, name).Some?
    requires forall name | FindEntry(es, name).Some? :: SameTree(FindEntry(es, name).value, FindEntry(fs, name).value)
    ensures SameTree(Dir(es), Dir(fs))
  {
    forall rel ensures KindAt(Dir(es), rel) == KindAt(Dir(fs), rel) {
      if rel != [] && FindEntry(es, rel[0]).Some? {
        assert KindAt(FindEntry(es, rel[0]).value, rel[1..]) == KindAt(FindEntry(fs, rel[0]).value, rel[1..]);
      }
    }
  }

  /** Determinism: the sorted listing is the same for every order of enumeration. */
  lemma ListingIsDeterministic(path: string, a: Node, b: Node, recursive: bool)
    requires path != "" && WellNamed(a) && WellNamed(b) && SameTree(a, b)
    ensures Sort(Listing(path, a, recursive)) == Sort(Listing(path, b, recursive))
  {
    assert KindAt(a, []) == KindAt(b, []);
    if a.Dir? {
      hide ListEntries, RelEntries, PathOf;
      ListingCoversTree(path, a, recursive);
      ListingCoversTree(path, b, recursive);
      forall rel ensures Listable(a, rel, recursive) <==> Listable(b, rel, recursive) {
        assert KindAt(a, rel) == KindAt(b, rel);
      }
      SortOfSameSet(Listing(path, a, recursive), Listing(path, b, recursive));
    }
  }
}
