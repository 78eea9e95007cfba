/**
  When the spelling of the root shows in the digest stream: the listed paths are cleaned, and the
  root is taken out of them as it was given.
 */
module DigestRoots {
  import opened Common
  import opened Filepath
  import opened Ordering
  import opened TreeListing
  import opened ContentDigest

  /** The clean path of a given root. */
  function Cleaned(root: string): CleanPath {
    Parse(TrimRight(root))
  }

  /** What is written for the relative path `s`. */
  function Cut(root: string, s: string): string {
    RemoveFirst(Listed(TrimRight(root), s), root)
  }

  function CutOf(root: string): string -> string {
    s => Cut(root, s)
  }

  lemma DigestStreamIsCut(fs: FileSystem, root: string, tree: Node)
    requires var t := TrimRight(root); Mounted(fs, t, tree) && tree.Dir? && WellNamed(tree)
    ensures DigestStream(fs, root) == Stream(tree, CutOf(root))
  {
    hide SortedRelStrings, RemoveFirst, TrimRight, Listed;
    DigestStreamOfRoot(fs, root, tree);
    StreamCongruence(tree, s => RemoveFirst(Listed(TrimRight(root), s), root), CutOf(root), SortedRelStrings(tree));
  }

  // ---------- Path by path ----------

  /** A path is written just as it is below the root exactly when the root was given clean. */
  lemma KeptIffRootIsClean(root: string, s: string)
    requires Cleaned(root).comps != []
    ensures Cut(root, s) == s <==> root == Render(Cleaned(root))
  {
    hide Parse, IndexOf, RemoveFirst, TrimRight;
    var t, c := TrimRight(root), Render(Cleaned(root));
    TrimRightIsPrefix(root);
    CleanShortens(t);
    ParseIsNormal(t);
    RenderedNotEmpty(Cleaned(root));
    RemoveFirstShortens(c + s, root);
    if root == c {
      RemovePrefix(c, s);
    }
  }

  lemma RenderedNotEmpty(q: CleanPath)
    requires Normal(q)
    ensures Render(q) != ""
  {
    if q.comps != [] {
      assert NormalComponent(q, 0);
    }
  }

  /** Roots such as "/.", which clean to "/": a path is kept exactly when the root is not found in it. */
  lemma KeptIffRootIsAbsent(root: string, s: string)
    requires Cleaned(root) == CleanPath(true, []) && root != ""
    ensures Cut(root, s) == s <==> IndexOf(s, root).None?
  {
    hide Parse, IndexOf, TrimRight;
    RemoveFirstShortens(s, root);
  }

  // ---------- Relative roots ----------

  lemma {:induction false} StreamHead(tree: Node, f: string -> string, ss: seq<string>)
    requires ss != [] && f(ss[0]) != ""
    ensures StreamOver(tree, f, ss) != "" && StreamOver(tree, f, ss)[0] == f(ss[0])[0]
  {
    if |ss| > 1 {
      StreamHead(tree, f, ss[..|ss| - 1]);
    }
  }

  /** Taking a prefix of whole components off a normal path leaves none but a clean prefix. */
  lemma PrefixOfComponentsIsClean(q: CleanPath, root: string, rest: string)
    requires Normal(q) && !q.rooted && q.comps != []
    requires Render(q) == root + rest && (rest == "" || rest[0] == SEPARATOR)
    ensures root == Render(Cleaned(root))
  {
    hide Split, Normal, Parse, TrimRight, Normalise;
    SplitOfRender(q);
    var n := |Split(root)|;
    if rest == "" {
      assert root + rest == root;
    } else {
      assert root + rest == root + "/" + rest[1..];
      SplitAtSlash(root, rest[1..]);
    }
    assert Split(root) == q.comps[..n];
    JoinOfSplit(root);
    var p := CleanPath(false, q.comps[..n]);
    PrefixIsNormal(q, n);
    assert Render(p) == root;
    LastNotEmpty(p);
    LastOfRender(p);
    LastNotSeparator(p);
    TrimRightIsPrefix(root);
    ParseOfRender(p);
  }

  lemma PrefixIsNormal(q: CleanPath, n: nat)
    requires Normal(q) && n <= |q.comps|
    ensures Normal(CleanPath(q.rooted, q.comps[..n]))
  {
    if n < |q.comps| {
      NormalPrefix(q, n);
    } else {
      assert q.comps[..n] == q.comps;
    }
  }

  lemma LastNotEmpty(q: CleanPath)
    requires Normal(q) && q.comps != []
    ensures q.comps[|q.comps| - 1] != ""
  {
    assert NormalComponent(q, |q.comps| - 1);
  }

  lemma LastNotSeparator(q: CleanPath)
    requires Normal(q) && q.comps != []
    ensures var last := q.comps[|q.comps| - 1]; last != "" && last[|last| - 1] != SEPARATOR
  {
    var last := q.comps[|q.comps| - 1];
    assert NormalComponent(q, |q.comps| - 1);
    assert last[|last| - 1] in last;
  }

  lemma RelativeHead(q: CleanPath)
    requires Normal(q) && !q.rooted
    ensures Render(q) != "" && Render(q)[0] != SEPARATOR
  {
    if q.comps != [] {
      assert NormalComponent(q, 0);
      assert q.comps[0][0] in q.comps[0];
    }
  }

  /** Below a relative root that is not clean, what is written never starts with a separator. */
  lemma RelativeCutHead(root: string, rel: seq<string>)
    requires var q := Cleaned(root); q.comps != [] && !q.rooted && root != Render(q)
    requires rel != [] && PlainNames(rel)
    ensures var w := Cut(root, RelString(rel)); w != "" && w[0] != SEPARATOR
  {
    hide Parse, Split, TrimRight, Normal, PlainNames, IndexOf, Render;
    var q := Descend(Cleaned(root), rel);
    var p, w := Listed(TrimRight(root), RelString(rel)), Cut(root, RelString(rel));
    PathOfListed(TrimRight(root), rel);
    ParseIsNormal(TrimRight(root));
    DescendNormal(Cleaned(root), rel);
    RelativeHead(q);
    assert p == Render(q);
    match IndexOf(p, root)
    case None =>
    case Some(i) =>
      if i == 0 {
        assert p == root + w;
        if w == "" || w[0] == SEPARATOR {
          PrefixOfComponentsIsClean(q, root, w);
        }
      }
  }

  // ---------- Counting letters ----------

  function Count(s: string, x: char): nat {
    multiset(s)[x]
  }

  lemma CountAppend(a: string, b: string, x: char)
    ensures Count(a + b, x) == Count(a, x) + Count(b, x)
  {
  }

  /** How many of the listed paths the root is found in. */
  function FoundIn(root: string, ss: seq<string>): nat {
    if ss == [] then 0
    else
      var n := |ss| - 1;
      FoundIn(root, ss[..n]) + if IndexOf(Listed(TrimRight(root), ss[n]), root).Some? then 1 else 0
  }

  lemma CountRemoved(s: string, sub: string, x: char)
    ensures Count(RemoveFirst(s, sub), x) + (if IndexOf(s, sub).Some? then Count(sub, x) else 0) == Count(s, x)
  {
    hide IndexOf, Count;
    match IndexOf(s, sub)
    case None =>
    case Some(i) =>
      var before, after := s[..i], s[i + |sub|..];
      assert s == before + (sub + after);
      CountAppend(before, sub + after, x);
      CountAppend(sub, after, x);
      CountAppend(before, after, x);
  }

  lemma {:induction false} CountStream(tree: Node, root: string, ss: seq<string>, x: char)
    requires Cleaned(root).comps != []
    ensures Count(StreamOver(tree, CutOf(root), ss), x) + FoundIn(root, ss) * Count(root, x)
         == Count(StreamOver(tree, Whole, ss), x) + |ss| * Count(Render(Cleaned(root)), x)
  {
    hide Parse, Render, BytesFor, IndexOf, RemoveFirst, Count, TrimRight;
    if ss == [] {
      NoLetters(x);
    } else {
      var n := |ss| - 1;
      var c, s, b := Render(Cleaned(root)), ss[n], BytesFor(tree, ss[n]);
      CountStream(tree, root, ss[..n], x);
      CountStep(StreamOver(tree, CutOf(root), ss[..n]), Cut(root, s), b, x);
      CountStep(StreamOver(tree, Whole, ss[..n]), s, b, x);
      CountAppend(c, s, x);
      CountRemoved(c + s, root, x);
      OneMoreTime(n, Count(c, x));
      OneMoreTime(FoundIn(root, ss[..n]), Count(root, x));
    }
  }

  lemma CountStep(stream: string, path: string, bytes: string, x: char)
    ensures Count(stream + path + bytes, x) == Count(stream, x) + Count(path, x) + Count(bytes, x)
  {
    hide Count;
    CountAppend(stream + path, bytes, x);
    CountAppend(stream, path, x);
  }

  lemma OneMoreTime(n: nat, k: nat)
    ensures (n + 1) * k == n * k + k
  {
  }

  lemma NoLetters(x: char)
    ensures Count("", x) == 0
  {
  }

  /** Both strings have their letters in the same proportions. */
  ghost predicate SameProportions(a: string, b: string) {
    forall x, y :: Count(a, x) * Count(b, y) == Count(a, y) * Count(b, x)
  }

  lemma EqualStreamsSameProportions(tree: Node, root: string, ss: seq<string>)
    requires Cleaned(root).comps != [] && ss != []
    requires StreamOver(tree, CutOf(root), ss) == StreamOver(tree, Whole, ss)
    ensures FoundIn(root, ss) > 0 && SameProportions(Render(Cleaned(root)), root)
  {
    hide Parse, Render, StreamOver, FoundIn, Count, TrimRight;
    var c, n, k := Render(Cleaned(root)), |ss|, FoundIn(root, ss);
    forall x ensures k * Count(root, x) == n * Count(c, x) {
      CountStream(tree, root, ss, x);
    }
    ParseIsNormal(TrimRight(root));
    RenderedNotEmpty(Cleaned(root));
    FirstLetterCounts(c);
    assert n * Count(c, c[0]) > 0;
    assert k > 0;
    forall x, y ensures Count(c, x) * Count(root, y) == Count(c, y) * Count(root, x) {
      CrossMultiply(n, k, Count(c, x), Count(root, x), Count(c, y), Count(root, y));
    }
  }

  lemma FirstLetterCounts(s: string)
    requires s != ""
    ensures Count(s, s[0]) > 0
  {
  }

  lemma CrossMultiply(n: nat, k: nat, a: nat, b: nat, c: nat, d: nat)
    requires n > 0 && k > 0 && k * b == n * a && k * d == n * c
    ensures a * d == c * b
  {
    assert n * (a * d) == (n * a) * d == (k * b) * d == b * (k * d) == b * (n * c) == n * (c * b);
    SameMultiples(n, a * d, c * b);
  }

  lemma SameMultiples(n: nat, x: nat, y: nat)
    requires n > 0 && n * x == n * y
    ensures x == y
  {
    assert n * (x - y) == 0;
  }

  // ---------- Absolute roots ----------

  /** The last component is "..". */
  predicate EndsInDotDot(root: string) {
    |root| >= 3 && root[|root| - 3..] == "/.."
  }

  predicate AllPlain(cs: seq<string>) {
    forall i | 0 <= i < |cs| :: PlainName(cs[i])
  }

  function Absolute(cs: seq<string>): string {
    Render(CleanPath(true, cs))
  }

  /** An absolute root is the absolute path of all its components but the last, and the last. */
  lemma AbsoluteParts(root: string) returns (head: seq<string>, last: string)
    requires Rooted(root)
    ensures NoSeparator(last) && forall i | 0 <= i < |head| :: NoSeparator(head[i])
    ensures Split(root) == [""] + head + [last]
    ensures root == (if head == [] then "" else Absolute(head)) + "/" + last
  {
    hide JoinSlash, Split;
    SplitRooted(root);
    JoinOfSplit(root[1..]);
    var cs := Split(root[1..]);
    var n := |cs| - 1;
    head, last := cs[..n], cs[n];
    assert cs == head + [last];
    assert root == "/" + root[1..];
    if head == [] {
      JoinOfOne(last);
    } else {
      JoinSnoc(head, last);
    }
  }

  lemma AbsoluteOfSome(cs: seq<string>)
    requires cs != []
    ensures Absolute(cs) == "/" + JoinSlash(cs)
  {
  }

  /** The components of what is found are components of what it is found in. */
  lemma SplitAround(p: string, before: string, head: seq<string>, last: string, after: string)
    requires head != [] && forall k | 0 <= k < |head| :: NoSeparator(head[k])
    requires p == before + (Absolute(head) + "/" + last) + after
    ensures Split(p) == Split(before) + head + Split(last + after)
  {
    hide Split, JoinSlash, Absolute;
    var body := JoinSlash(head);
    AbsoluteOfSome(head);
    assert p == (before + "/" + body) + "/" + (last + after);
    SplitAtSlash(before + "/" + body, last + after);
    SplitAtSlash(before, body);
    SplitOfJoin(head);
  }

  /** If it is found in a clean path, its components but the last are names. */
  lemma FoundHeadIsPlain(q: CleanPath, i: nat, root: string, head: seq<string>, last: string)
    requires Normal(q) && q.rooted && q.comps != [] && OccursAt(Render(q), root, i)
    requires head != [] && forall k | 0 <= k < |head| :: NoSeparator(head[k])
    requires root == Absolute(head) + "/" + last
    ensures AllPlain(head)
  {
    hide Split, Normal, Absolute, Render, PlainName;
    var p := Render(q);
    var before, after := p[..i], p[i + |root|..];
    assert p == before + root + after;
    SplitAround(p, before, head, last, after);
    SplitOfRender(q);
    var n := |Split(before)|;
    var all := [""] + q.comps;
    assert all == Split(before) + head + Split(last + after);
    forall k | 0 <= k < |head| ensures PlainName(head[k]) {
      assert head[k] == all[n + k] == q.comps[n + k - 1];
      NormalAbsoluteIsPlain(q, n + k - 1);
    }
  }

  lemma NormalAbsoluteIsPlain(q: CleanPath, k: nat)
    requires Normal(q) && q.rooted && k < |q.comps|
    ensures PlainName(q.comps[k])
  {
    assert NormalComponent(q, k);
  }

  lemma PlainIsNormal(cs: seq<string>)
    requires AllPlain(cs)
    ensures Normal(CleanPath(true, cs)) && Parse(Absolute(cs)) == CleanPath(true, cs)
  {
    ParseOfRender(CleanPath(true, cs));
  }

  lemma CleanedAbsolute(cs: seq<string>)
    requires AllPlain(cs) && cs != []
    ensures TrimRight(Absolute(cs)) == Absolute(cs) && Cleaned(Absolute(cs)) == CleanPath(true, cs)
    ensures TrimRight(Absolute(cs) + "/") == Absolute(cs) && Cleaned(Absolute(cs) + "/") == CleanPath(true, cs)
  {
    hide Parse, Render;
    var q := CleanPath(true, cs);
    PlainIsNormal(cs);
    LastNotSeparator(q);
    LastOfRender(q);
    TrimTrailing(Absolute(cs), "/");
    TrimRightIsPrefix(Absolute(cs));
  }

  lemma CleanedAbsoluteDot(cs: seq<string>)
    requires AllPlain(cs) && cs != []
    ensures Cleaned(Absolute(cs) + "/.") == CleanPath(true, cs)
  {
    hide Split, Render, JoinSlash, TrimRight, AllPlain;
    var root := Absolute(cs) + "/.";
    TrimRightIsPrefix(root);
    assert root == Absolute(cs) + "/" + ".";
    SplitAtSlash(Absolute(cs), ".");
    SplitPlain(".");
    PlainIsNormal(cs);
    var parts := Split(Absolute(cs));
    assert (parts + ["."])[..|parts|] == parts;
    AbsoluteIsRooted(cs);
    assert root[0] == Absolute(cs)[0];
  }

  lemma AbsoluteIsRooted(cs: seq<string>)
    ensures Rooted(Absolute(cs))
  {
  }

  // ---------- ... and their letters ----------

  predicate OnlyDots(s: string) {
    forall i | 0 <= i < |s| :: s[i] == '.'
  }

  lemma {:induction false} CountDots(s: string)
    requires OnlyDots(s)
    ensures Count(s, '.') == |s| && Count(s, SEPARATOR) == 0
  {
    if s != "" {
      var n := |s| - 1;
      CountDots(s[..n]);
      assert s == s[..n] + [s[n]];
    }
  }

  lemma CountAbsoluteSnoc(cs: seq<string>, c: string, x: char)
    ensures Count(Absolute(cs + [c]), x) ==
            (if cs == [] then 0 else Count(Absolute(cs), x)) + Count("/", x) + Count(c, x)
  {
    hide Count, JoinSlash;
    if cs == [] {
      assert cs + [c] == [c];
      JoinOfOne(c);
      CountAppend("/", c, x);
    } else {
      JoinSnoc(cs, c);
      assert Absolute(cs + [c]) == Absolute(cs) + "/" + c;
      CountStep(Absolute(cs), "/", c, x);
    }
  }

  /** Names of nothing but dots have at least three. */
  lemma {:induction false} DotsOutnumberSeparators(cs: seq<string>)
    requires cs != [] && AllPlain(cs) && forall i | 0 <= i < |cs| :: OnlyDots(cs[i])
    ensures Count(Absolute(cs), '.') > Count(Absolute(cs), SEPARATOR)
  {
    hide Absolute;
    var n := |cs| - 1;
    assert cs == cs[..n] + [cs[n]];
    CountAbsoluteSnoc(cs[..n], cs[n], '.');
    CountAbsoluteSnoc(cs[..n], cs[n], SEPARATOR);
    CountDots(cs[n]);
    ThreeDots(cs[n]);
    if n > 0 {
      DotsOutnumberSeparators(cs[..n]);
    }
  }

  lemma ThreeDots(s: string)
    requires OnlyDots(s) && PlainName(s)
    ensures |s| >= 3
  {
    assert |s| == 1 ==> s == ".";
    assert |s| == 2 ==> s == "..";
  }

  lemma {:induction false} LetterOfName(cs: seq<string>, i: nat, k: nat)
    requires i < |cs| && k < |cs[i]|
    ensures Count(Absolute(cs), cs[i][k]) > 0
  {
    hide Absolute;
    var n := |cs| - 1;
    var x := cs[i][k];
    assert cs == cs[..n] + [cs[n]];
    CountAbsoluteSnoc(cs[..n], cs[n], x);
    if i < n {
      LetterOfName(cs[..n], i, k);
    }
  }

  /** A trailing separator, or a trailing ".", changes the proportions of the letters. */
  lemma TrailChangesProportions(cs: seq<string>, trail: string)
    requires cs != [] && AllPlain(cs) && (trail == "/" || trail == "/.")
    ensures !SameProportions(Absolute(cs), Absolute(cs) + trail)
  {
    hide Absolute, Count;
    var c, root := Absolute(cs), Absolute(cs) + trail;
    forall x ensures Count(root, x) == Count(c, x) + Count(trail, x) {
      CountAppend(c, trail, x);
    }
    CountTrail(trail);
    if i, k :| 0 <= i < |cs| && 0 <= k < |cs[i]| && cs[i][k] != '.' {
      NotASeparator(cs, i, k);
      LetterOfName(cs, i, k);
      SeparatorsAndDotsAreTelling(c, root, cs[i][k]);
    } else {
      DotsOutnumberSeparators(cs);
      var d, k := Count(c, '.'), Count(c, SEPARATOR);
      if SameProportions(c, root) {
        assert k * Count(root, '.') == d * Count(root, SEPARATOR);
        ProportionsOfDots(k, d, Count(trail, '.'));
      }
    }
  }

  lemma NotASeparator(cs: seq<string>, i: nat, k: nat)
    requires AllPlain(cs) && i < |cs| && k < |cs[i]|
    ensures cs[i][k] != SEPARATOR
  {
    assert PlainName(cs[i]) && cs[i][k] in cs[i];
  }

  lemma CountTrail(trail: string)
    requires trail == "/" || trail == "/."
    ensures Count(trail, SEPARATOR) == 1 && Count(trail, '.') == |trail| - 1
    ensures forall x | x != SEPARATOR && x != '.' :: Count(trail, x) == 0
  {
    if trail == "/." {
      assert trail == "/" + ".";
    }
  }

  lemma ProportionsOfDots(k: nat, d: nat, e: nat)
    requires d > k && e <= 1
    ensures k * (d + e) != d * (k + 1)
  {
    assert k * (d + e) == k * d + k * e;
    assert d * (k + 1) == k * d + d;
    assert k * e <= k;
  }

  lemma SlashTells(head: seq<string>, root: string)
    requires head != [] && AllPlain(head) && root == Absolute(head) + "/"
    ensures !SameProportions(Render(Cleaned(root)), root)
  {
    hide SameProportions, Parse, TrimRight;
    CleanedAbsolute(head);
    TrailChangesProportions(head, "/");
  }

  lemma DotTells(head: seq<string>, root: string)
    requires head != [] && AllPlain(head) && root == Absolute(head) + "/."
    ensures !SameProportions(Render(Cleaned(root)), root)
  {
    hide SameProportions, Parse, TrimRight;
    CleanedAbsoluteDot(head);
    TrailChangesProportions(head, "/.");
  }

  lemma NameIsClean(head: seq<string>, name: string, root: string)
    requires head != [] && AllPlain(head) && PlainName(name) && root == Absolute(head) + "/" + name
    ensures root == Render(Cleaned(root))
  {
    hide Parse, TrimRight, PlainName, JoinSlash;
    PlainSnoc(head, name);
    JoinSnoc(head, name);
    assert Absolute(head + [name]) == root;
    CleanedAbsolute(head + [name]);
  }

  /** With names before it, only a last component ".." leaves a root unclean that does not tell. */
  lemma LastTells(head: seq<string>, last: string, root: string)
    requires head != [] && AllPlain(head) && NoSeparator(last) && root == Absolute(head) + "/" + last
    requires !EndsInDotDot(root)
    ensures root == Render(Cleaned(root)) || !SameProportions(Render(Cleaned(root)), root)
  {
    hide SameProportions, Cleaned, Render, Absolute, AllPlain, EndsInDotDot;
    var c := Absolute(head);
    if last == "" {
      assert root == c + "/";
      SlashTells(head, root);
    } else if last == "." {
      assert root == c + "/.";
      DotTells(head, root);
    } else {
      DotDotAtTheEnd(c);
      NameIsClean(head, last, root);
    }
  }

  /** An absolute root that is not clean, does not end in "/.." and is found in a clean path. */
  lemma FoundAbsoluteRootTells(q: CleanPath, root: string)
    requires Normal(q) && q.rooted && q.comps != [] && IndexOf(Render(q), root).Some?
    requires Rooted(root) && Cleaned(root).comps != []
    requires root != Render(Cleaned(root)) && !EndsInDotDot(root)
    ensures !SameProportions(Render(Cleaned(root)), root)
  {
    hide Cleaned, Split, Normal, IndexOf, Absolute, Render, AllPlain, SameProportions, EndsInDotDot;
    var head, last := AbsoluteParts(root);
    if head == [] {
      assert "" + "/" + last == "/" + last;
      OneComponent(root, last);
    } else {
      FoundHeadIsPlain(q, IndexOf(Render(q), root).value, root, head, last);
      LastTells(head, last, root);
    }
  }

  lemma DotDotAtTheEnd(c: string)
    ensures EndsInDotDot(c + "/" + "..")
  {
    var root := c + "/" + "..";
    assert root[|root| - 3..] == "/..";
  }

  lemma PlainSnoc(cs: seq<string>, c: string)
    requires AllPlain(cs) && PlainName(c)
    ensures AllPlain(cs + [c])
  {
  }

  /** A root with one component is clean or cleans to "/". */
  lemma OneComponent(root: string, name: string)
    requires NoSeparator(name) && root == "/" + name && Cleaned(root).comps != []
    ensures root == Render(Cleaned(root))
  {
    hide Parse, TrimRight, Split;
    if PlainName(name) {
      PlainSnoc([], name);
      assert [] + [name] == [name];
      JoinOfOne(name);
      assert Absolute([name]) == root;
      CleanedAbsolute([name]);
    } else {
      NoName(root, name);
    }
  }

  lemma NoName(root: string, name: string)
    requires NoSeparator(name) && !PlainName(name) && root == "/" + name
    ensures Cleaned(root).comps == []
  {
    hide Split;
    TrimRightIsPrefix(root);
    SplitRooted(root);
    SplitPlain("");
    SplitPlain(name);
    assert root[1..] == name;
    if name == "" {
      assert root[..0] == "";
      assert Normalise(false, [""]) == CleanStep(false, Normalise(false, [""][..0]), "");
    } else {
      NormaliseSkipsEmptyHead(true, [name]);
      assert Normalise(true, [name]) == CleanStep(true, Normalise(true, [name][..0]), name);
    }
  }

  lemma {:induction false} FoundSome(root: string, ss: seq<string>) returns (i: nat)
    requires FoundIn(root, ss) > 0
    ensures i < |ss| && IndexOf(Listed(TrimRight(root), ss[i]), root).Some?
  {
    i := |ss| - 1;
    if IndexOf(Listed(TrimRight(root), ss[i]), root).None? {
      i := FoundSome(root, ss[..i]);
    }
  }

  // ---------- The streams ----------

  /**
    Every root but an absolute one that ends in "/.."; and of these, those whose letters are in
    other proportions than those of the clean path, and those that no listed path contains.
   */
  ghost predicate Telling(root: string, tree: Node)
    requires tree.Dir? && WellNamed(tree)
  {
    var q := Cleaned(root);
    || !q.rooted || !EndsInDotDot(root)
    || !SameProportions(Render(q), root) || FoundIn(root, SortedRelStrings(tree)) == 0
  }

  lemma EqualStreamsCleanRoot(tree: Node, root: string)
    requires tree.Dir? && WellNamed(tree) && SortedRelStrings(tree) != []
    requires Cleaned(root).comps != [] && Cleaned(root).rooted && Telling(root, tree)
    requires Stream(tree, CutOf(root)) == Stream(tree, Whole)
    ensures root == Render(Cleaned(root))
  {
    hide SortedRelStrings, TrimRight, Parse, Render, SameProportions, FoundIn, StreamOver, WellNamed, Normal, IndexOf;
    var ss := SortedRelStrings(tree);
    EqualStreamsSameProportions(tree, root, ss);
    if root != Render(Cleaned(root)) {
      var i := FoundSome(root, ss);
      var rel := BytesOfListed(tree, ss[i]);
      PathOfListed(TrimRight(root), rel);
      ParseIsNormal(TrimRight(root));
      DescendNormal(Cleaned(root), rel);
      RootedTrimmed(root);
      FoundAbsoluteRootTells(Descend(Cleaned(root), rel), root);
    }
  }

  lemma RootedTrimmed(root: string)
    requires Cleaned(root).rooted
    ensures Rooted(root)
  {
    TrimRightIsPrefix(root);
  }

  /** The stream is that of the tree exactly when the root was given clean or the directory is empty. */
  lemma RootShowsIff(fs: FileSystem, root: string, tree: Node)
    requires var t := TrimRight(root); Mounted(fs, t, tree) && tree.Dir? && WellNamed(tree)
    requires Cleaned(root).comps != [] && Telling(root, tree)
    ensures DigestStream(fs, root) == Stream(tree, Whole) <==> root == Render(Cleaned(root)) || tree.entries == []
  {
    hide SortedRelStrings, TrimRight, Cut, Parse, Render, SameProportions, FoundIn, StreamOver, Mounted, WellNamed;
    var ss := SortedRelStrings(tree);
    DigestStreamIsCut(fs, root, tree);
    NoPathsIff(tree);
    if ss == [] {
      EmptyStreams(tree, CutOf(root), Whole);
    } else if root == Render(Cleaned(root)) {
      forall i | 0 <= i < |ss| ensures CutOf(root)(ss[i]) == Whole(ss[i]) {
        KeptIffRootIsClean(root, ss[i]);
      }
      StreamCongruence(tree, CutOf(root), Whole, ss);
    } else if !Cleaned(root).rooted {
      var rel := BytesOfListed(tree, ss[0]);
      RelativeCutHead(root, rel);
      StreamHead(tree, CutOf(root), ss);
      StreamHead(tree, Whole, ss);
    } else if Stream(tree, CutOf(root)) == Stream(tree, Whole) {
      EqualStreamsCleanRoot(tree, root);
    }
  }

  lemma EmptyStreams(tree: Node, f: string -> string, g: string -> string)
    ensures StreamOver(tree, f, []) == StreamOver(tree, g, [])
  {
  }

  /** More separators and dots, as in "a//b", "./a" and "a/.", with the other letters the same. */
  lemma SeparatorsAndDotsAreTelling(c: string, root: string, x: char)
    requires x != SEPARATOR && x != '.' && Count(root, x) == Count(c, x) > 0
    requires Count(root, SEPARATOR) > Count(c, SEPARATOR) || Count(root, '.') > Count(c, '.')
    ensures !SameProportions(c, root)
  {
    hide Count;
    var y := if Count(root, SEPARATOR) > Count(c, SEPARATOR) then SEPARATOR else '.';
    MoreOfOne(Count(c, x), Count(root, y), Count(c, y));
    assert Count(c, x) * Count(root, y) != Count(c, y) * Count(root, x);
  }

  lemma MoreOfOne(n: nat, a: nat, b: nat)
    requires n > 0 && a > b
    ensures n * a > b * n
  {
    assert n * (a - b) > 0;
  }

  /** So a relative directory spelled with a leading "./" never has the stream of its clean spelling. */
  lemma DotSlashShowsIff(fs: FileSystem, c: string, tree: Node)
    requires CleanRoot(c) && !Rooted(c) && Mounted(fs, "./" + c, tree) && tree.Dir? && WellNamed(tree)
    ensures TrimRight("./" + c) == "./" + c
    ensures DigestStream(fs, "./" + c) == Stream(tree, Whole) <==> tree.entries == []
  {
    hide Stream, SortedRelStrings, Mounted, WellNamed;
    var root := "./" + c;
    CleanRootParts(c);
    TrimRightIsPrefix(root);
    ParseOfDotSlash(c);
    RootShowsIff(fs, root, tree);
  }

  lemma ParseOfDotSlash(c: string)
    requires c != "" && !Rooted(c)
    ensures Parse("./" + c) == Parse(c)
  {
    assert "./" + c == "." + "/" + c;
    SplitAtSlash(".", c);
    SplitPlain(".");
    NormaliseSkipsDotHead(Split(c));
  }

  lemma {:induction false} NormaliseSkipsDotHead(cs: seq<string>)
    ensures Normalise(false, ["."] + cs) == Normalise(false, cs)
  {
    if cs == [] {
      assert Normalise(false, ["."]) == CleanStep(false, Normalise(false, ["."][..0]), ".");
    } else {
      var n := |cs| - 1;
      NormaliseSkipsDotHead(cs[..n]);
      assert (["."] + cs)[..n + 1] == ["."] + cs[..n];
    }
  }

  // ---------- Roots that clean to "/" ----------

  lemma {:induction false} NoLongerStream(tree: Node, f: string -> string, g: string -> string, ss: seq<string>)
    requires forall i | 0 <= i < |ss| :: |f(ss[i])| <= |g(ss[i])|
    ensures |StreamOver(tree, f, ss)| <= |StreamOver(tree, g, ss)|
    ensures |StreamOver(tree, f, ss)| == |StreamOver(tree, g, ss)| ==>
              forall i | 0 <= i < |ss| :: |f(ss[i])| == |g(ss[i])|
  {
    if ss != [] {
      NoLongerStream(tree, f, g, ss[..|ss| - 1]);
    }
  }

  /** There the stream is that of the tree exactly when the root is found in no path. */
  lemma FileSystemRootShowsIff(fs: FileSystem, root: string, tree: Node)
    requires var t := TrimRight(root); Mounted(fs, t, tree) && tree.Dir? && WellNamed(tree)
    requires Cleaned(root) == CleanPath(true, [])
    ensures DigestStream(fs, root) == Stream(tree, Whole) <==>
            forall s | s in SortedRelStrings(tree) :: IndexOf(s, root).None?
  {
    hide SortedRelStrings, TrimRight, Parse, StreamOver, WellNamed, IndexOf, RemoveFirst;
    var ss := SortedRelStrings(tree);
    TrimRightIsPrefix(root);
    DigestStreamIsCut(fs, root, tree);
    forall i | 0 <= i < |ss|
      ensures |CutOf(root)(ss[i])| <= |ss[i]|
      ensures |CutOf(root)(ss[i])| == |ss[i]| <==> IndexOf(ss[i], root).None?
      ensures CutOf(root)(ss[i]) == ss[i] <==> IndexOf(ss[i], root).None?
    {
      RemoveFirstShortens(ss[i], root);
      KeptIffRootIsAbsent(root, ss[i]);
    }
    NoLongerStream(tree, CutOf(root), Whole, ss);
    if forall s | s in ss :: IndexOf(s, root).None? {
      StreamCongruence(tree, CutOf(root), Whole, ss);
    }
  }
}
