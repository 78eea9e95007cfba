/**
  Trees whose structure differs and whose digest streams do not, although nothing empty changes
  kind. They are directories of plain files.
 */
module DigestCollisions {
  import opened Common
  import opened Filepath
  import opened Ordering
  import opened TreeListing
  import opened ContentDigest

  predicate FileNames(names: seq<string>) {
    Sorted(names) && NoDuplicates(names) && PlainNames(names)
  }

  /** A directory of files and nothing else. */
  function Files(names: seq<string>, contents: seq<string>): Node
    requires |names| == |contents|
  {
    Dir(seq(|names|, i requires 0 <= i < |names| => Entry(names[i], File(contents[i]))))
  }

  function Text(names: seq<string>, contents: seq<string>): string
    requires |names| == |contents|
  {
    if names == [] then ""
    else
      var n := |names| - 1;
      Text(names[..n], contents[..n]) + ("/" + names[n] + contents[n])
  }

  lemma FilesWellNamed(names: seq<string>, contents: seq<string>)
    requires |names| == |contents| && FileNames(names)
    ensures WellNamed(Files(names, contents))
  {
  }

  function Singles(names: seq<string>): seq<seq<string>> {
    seq(|names|, i requires 0 <= i < |names| => [names[i]])
  }

  lemma {:induction false} RelEntriesOfFiles(names: seq<string>, contents: seq<string>, n: nat)
    requires n <= |names| == |contents|
    ensures RelEntries(Files(names, contents), n, true) == Singles(names[..n])
  {
    if n > 0 {
      RelEntriesOfFiles(names, contents, n - 1);
      assert Singles(names[..n]) == Singles(names[..n - 1]) + [[names[n - 1]]] + [];
    }
  }

  lemma SortedRelStringsOfFiles(names: seq<string>, contents: seq<string>)
    requires |names| == |contents| && FileNames(names)
    ensures WellNamed(Files(names, contents))
    ensures SortedRelStrings(Files(names, contents)) == Prefixed("/", names)
  {
    hide Files, WellNamed, RelEntries, FileNames;
    var tree := Files(names, contents);
    FilesWellNamed(names, contents);
    RelEntriesOfFiles(names, contents, |names|);
    RelPathsNonEmpty(tree) by {
      FilesAreDir(names, contents);
    }
    assert names[..|names|] == names;
    forall i | 0 <= i < |names| ensures RelString([names[i]]) == "/" + names[i] {
      assert JoinSlash([names[i]]) == names[i];
    }
    FilesAreDir(names, contents);
    assert RelStrings(Singles(names)) == Prefixed("/", names);
    SortAfterPrefix("/", names);
    SortSorts(names);
    SortedIsUnique(Sort(names), names) by {
      NamesSorted(names);
    }
  }

  lemma FilesAreDir(names: seq<string>, contents: seq<string>)
    requires |names| == |contents|
    ensures Files(names, contents).Dir? && |Files(names, contents).entries| == |names|
  {
  }

  lemma NamesSorted(names: seq<string>)
    requires FileNames(names)
    ensures Sorted(names)
  {
  }

  lemma FileAt(names: seq<string>, contents: seq<string>, i: nat)
    requires i < |names| == |contents| && FileNames(names)
    ensures NodeAt(Files(names, contents), [names[i]]) == Some(File(contents[i]))
  {
    FindEntryAt(Files(names, contents).entries, i);
  }

  lemma NoFileAt(names: seq<string>, contents: seq<string>, name: string)
    requires |names| == |contents| && name !in names
    ensures FindEntry(Files(names, contents).entries, name).None?
  {
    var es := Files(names, contents).entries;
    assert forall i | 0 <= i < |es| :: es[i].name == names[i] && names[i] != name;
  }

  /** Only the names lead anywhere. */
  lemma OnlyFilesAt(names: seq<string>, contents: seq<string>, rel: seq<string>)
    requires |names| == |contents| && FileNames(names)
    ensures NodeAt(Files(names, contents), rel).Some? <==> rel == [] || (|rel| == 1 && rel[0] in names)
  {
    hide FileNames, FindEntry;
    if rel != [] {
      if rel[0] in names {
        var i :| 0 <= i < |names| && names[i] == rel[0];
        FileAt(names, contents, i);
        assert [names[i]][1..] == [];
      } else {
        NoFileAt(names, contents, rel[0]);
      }
    }
  }

  lemma SameNamesSamePaths(names: seq<string>, x: seq<string>, y: seq<string>)
    requires |names| == |x| == |y| && FileNames(names)
    ensures SamePaths(Files(names, x), Files(names, y))
  {
    hide Files, FileNames, NodeAt;
    forall rel ensures NodeAt(Files(names, x), rel).Some? <==> NodeAt(Files(names, y), rel).Some? {
      OnlyFilesAt(names, x, rel);
      OnlyFilesAt(names, y, rel);
    }
  }

  lemma {:induction false} StreamOverFiles(tree: Node, names: seq<string>, contents: seq<string>)
    requires |names| == |contents|
    requires forall i | 0 <= i < |names| :: BytesFor(tree, "/" + names[i]) == contents[i]
    ensures StreamOver(tree, Whole, Prefixed("/", names)) == Text(names, contents)
  {
    hide BytesFor;
    if names != [] {
      var n := |names| - 1;
      var ss := Prefixed("/", names);
      StreamOverFiles(tree, names[..n], contents[..n]);
      assert ss[..n] == Prefixed("/", names[..n]);
      StreamSnoc(tree, ss);
    }
  }

  lemma StreamOfFiles(names: seq<string>, contents: seq<string>)
    requires |names| == |contents| && FileNames(names)
    ensures WellNamed(Files(names, contents))
    ensures Stream(Files(names, contents), Whole) == Text(names, contents)
  {
    hide SortedRelStrings, Files, Text, FileNames;
    var tree := Files(names, contents);
    SortedRelStringsOfFiles(names, contents);
    FilesAreDir(names, contents);
    forall i | 0 <= i < |names| ensures BytesFor(tree, "/" + names[i]) == contents[i] {
      FileAt(names, contents, i);
      NamePlain(names, i);
      assert RelString([names[i]]) == "/" + names[i];
      BytesForRelString(tree, [names[i]]);
    }
    StreamOverFiles(tree, names, contents);
  }

  lemma NamePlain(names: seq<string>, i: nat)
    requires i < |names| && FileNames(names)
    ensures PlainNames([names[i]])
  {
  }

  /**
    Nothing separates a path from the content after it: moving the front of a file's content
    to the end of its name changes the structure and not the stream.
   */
  lemma PathRunsIntoContent(name: string, moved: string, rest: string)
    requires PlainName(name) && PlainName(name + moved) && moved != ""
    ensures var a, b := Files([name], [moved + rest]), Files([name + moved], [rest]);
            WellNamed(a) && WellNamed(b) && !SamePaths(a, b) && Stream(a, Whole) == Stream(b, Whole)
  {
    hide Stream, Files, WellNamed, PlainName;
    StreamOfFiles([name], [moved + rest]);
    StreamOfFiles([name + moved], [rest]);
    assert "/" + name + (moved + rest) == "/" + (name + moved) + rest;
    OnlyFilesAt([name], [moved + rest], [name]);
    OnlyFilesAt([name + moved], [rest], [name]);
    assert |name| != |name + moved|;
  }

  /**
    Two files can exchange their contents and leave the stream as it was: one is empty, and
    the other holds just what the stream has for the second path.
   */
  lemma ExchangedContentsCollide(m: string, n: string)
    requires PlainName(m) && PlainName(n) && m != n && Leq(m, n)
    ensures var a, b := Files([m, n], ["/" + n, ""]), Files([m, n], ["", "/" + n]);
            && WellNamed(a) && WellNamed(b) && SamePaths(a, b) && !SameBytes(a, b)
            && Stream(a, Whole) == Stream(b, Whole)
  {
    hide Stream, Files, WellNamed, SamePaths, FileNames, Text;
    var names := [m, n];
    var x, y := ["/" + n, ""], ["", "/" + n];
    TwoFileNames(m, n);
    StreamOfFiles(names, x);
    StreamOfFiles(names, y);
    TextOfTwo(names, x);
    TextOfTwo(names, y);
    assert "/" + m + ("/" + n) + "/" + n + "" == "/" + m + "" + "/" + n + ("/" + n);
    SameNamesSamePaths(names, x, y);
    FileAt(names, x, 0);
    FileAt(names, y, 0);
    assert BytesAt(Files(names, x), [m]) != BytesAt(Files(names, y), [m]);
  }

  lemma TwoFileNames(m: string, n: string)
    requires PlainName(m) && PlainName(n) && m != n && Leq(m, n)
    ensures FileNames([m, n])
  {
  }

  lemma TextOfTwo(names: seq<string>, contents: seq<string>)
    requires |names| == |contents| == 2
    ensures Text(names, contents) == "/" + names[0] + contents[0] + "/" + names[1] + contents[1]
  {
    assert names[..1][..0] == [] && contents[..1][..0] == [];
    assert Text(names[..1], contents[..1]) == "/" + names[0] + contents[0];
  }
}
