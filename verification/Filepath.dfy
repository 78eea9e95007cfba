/**
  The parts of Go's filepath and strings packages that the listing uses, for Unix paths.
  A char stands for one byte.
 */
module Filepath {
  import opened Common

  const SEPARATOR: char := '/'

  predicate NoSeparator(s: string) {
    SEPARATOR !in s
  }

  /** The components between separators; there is always at least one. */
  function Split(s: string): (cs: seq<string>)
    ensures cs != [] && forall i | 0 <= i < |cs| :: NoSeparator(cs[i])
  {
    if s == [] then [""]
    else
      var rest := Split(s[1..]);
      if s[0] == SEPARATOR then [""] + rest else [[s[0]] + rest[0]] + rest[1..]
  }

  function JoinSlash(cs: seq<string>): string
    requires cs != []
  {
    if |cs| == 1 then cs[0] else cs[0] + "/" + JoinSlash(cs[1..])
  }

  lemma {:induction false} SplitPlain(s: string)
    requires NoSeparator(s)
    ensures Split(s) == [s]
  {
    if s != [] {
      SplitPlain(s[1..]);
      assert [s[0]] + s[1..] == s;
    }
  }

  lemma {:induction false} SplitAtSlash(a: string, b: string)
    ensures Split(a + "/" + b) == Split(a) + Split(b)
  {
    var s := a + "/" + b;
    if a == [] {
      assert s[0] == SEPARATOR && s[1..] == b;
    } else {
      SplitAtSlash(a[1..], b);
      assert s[1..] == a[1..] + "/" + b && s[0] == a[0];
      SplitHeads(a[0], Split(a[1..]), Split(b));
    }
  }

  lemma SplitHeads(c: char, x: seq<string>, y: seq<string>)
    requires x != []
    ensures [""] + (x + y) == [""] + x + y
    ensures [[c] + (x + y)[0]] + (x + y)[1..] == [[c] + x[0]] + x[1..] + y
  {
  }

  lemma {:induction false} SplitOfJoin(cs: seq<string>)
    requires cs != [] && forall i | 0 <= i < |cs| :: NoSeparator(cs[i])
    ensures Split(JoinSlash(cs)) == cs
  {
    SplitPlain(cs[0]);
    if |cs| > 1 {
      SplitOfJoin(cs[1..]);
      SplitAtSlash(cs[0], JoinSlash(cs[1..]));
      assert cs == [cs[0]] + cs[1..];
    } else {
      assert cs == [cs[0]];
    }
  }

  lemma {:induction false} JoinSnoc(cs: seq<string>, c: string)
    requires cs != []
    ensures JoinSlash(cs + [c]) == JoinSlash(cs) + "/" + c
  {
    if |cs| > 1 {
      JoinSnoc(cs[1..], c);
      assert (cs + [c])[1..] == cs[1..] + [c];
    } else {
      assert (cs + [c])[1..] == [c];
    }
  }

  lemma {:induction false} JoinAppend(a: seq<string>, b: seq<string>)
    requires a != [] && b != []
    ensures JoinSlash(a + b) == JoinSlash(a) + "/" + JoinSlash(b)
  {
    if |a| > 1 {
      JoinAppend(a[1..], b);
      assert (a + b)[1..] == a[1..] + b;
    } else {
      assert (a + b)[1..] == b;
    }
  }

  lemma {:induction false} JoinOfSplit(s: string)
    ensures JoinSlash(Split(s)) == s
  {
    if s != [] {
      JoinOfSplit(s[1..]);
    }
  }

  // ---------- filepath.Clean and filepath.Join ----------

  datatype CleanPath = CleanPath(rooted: bool, comps: seq<string>)

  /** One component: empty and "." vanish, ".." drops the name before it if there is one. */
  function CleanStep(rooted: bool, acc: seq<string>, c: string): seq<string> {
    if c == "" || c == "." then acc
    else if c != ".." then acc + [c]
    else if acc != [] && acc[|acc| - 1] != ".." then acc[..|acc| - 1]
    else if rooted then acc
    else acc + [c]
  }

  function Normalise(rooted: bool, cs: seq<string>): seq<string> {
    if cs == [] then [] else CleanStep(rooted, Normalise(rooted, cs[..|cs| - 1]), cs[|cs| - 1])
  }

  predicate Rooted(p: string) {
    p != [] && p[0] == SEPARATOR
  }

  function Parse(p: string): CleanPath {
    CleanPath(Rooted(p), Normalise(Rooted(p), Split(p)))
  }

  function Render(q: CleanPath): string {
    if q.comps == [] then (if q.rooted then "/" else ".")
    else (if q.rooted then "/" else "") + JoinSlash(q.comps)
  }

  function Clean(p: string): string {
    Render(Parse(p))
  }

  /** filepath.Join of two non-empty elements. */
  function Join(dir: string, name: string): string
    requires dir != "" && name != ""
  {
    Clean(dir + "/" + name)
  }

  /** What a directory entry may be called. */
  predicate PlainName(n: string) {
    n != "" && n != "." && n != ".." && NoSeparator(n)
  }

  predicate NormalComponent(q: CleanPath, i: nat)
    requires i < |q.comps|
  {
    PlainName(q.comps[i]) || (q.comps[i] == ".." && !q.rooted && forall j | 0 <= j < i :: q.comps[j] == "..")
  }

  predicate Normal(q: CleanPath) {
    forall i | 0 <= i < |q.comps| :: NormalComponent(q, i)
  }

  lemma {:induction false} NormaliseOfNormal(q: CleanPath)
    requires Normal(q)
    ensures Normalise(q.rooted, q.comps) == q.comps
    decreases |q.comps|
  {
    hide CleanStep, NormalComponent;
    if q.comps != [] {
      var n := |q.comps| - 1;
      var init := CleanPath(q.rooted, q.comps[..n]);
      NormalPrefix(q, n);
      NormaliseOfNormal(init);
      NormalStepAppends(q, n);
      assert q.comps == q.comps[..n] + [q.comps[n]];
    }
  }

  lemma NormalPrefix(q: CleanPath, n: nat)
    requires Normal(q) && n < |q.comps|
    ensures Normal(CleanPath(q.rooted, q.comps[..n])) && NormalComponent(q, n)
  {
    var init := CleanPath(q.rooted, q.comps[..n]);
    forall i | 0 <= i < n ensures NormalComponent(init, i) {
      assert NormalComponent(q, i);
    }
  }

  lemma NormalStepAppends(q: CleanPath, n: nat)
    requires n < |q.comps| && NormalComponent(q, n)
    ensures CleanStep(q.rooted, q.comps[..n], q.comps[n]) == q.comps[..n] + [q.comps[n]]
  {
  }

  lemma {:induction false} NormaliseIsNormal(rooted: bool, cs: seq<string>)
    requires forall i | 0 <= i < |cs| :: NoSeparator(cs[i])
    ensures Normal(CleanPath(rooted, Normalise(rooted, cs)))
  {
    if cs != [] {
      var n := |cs| - 1;
      NormaliseIsNormal(rooted, cs[..n]);
      CleanStepKeepsNormal(rooted, Normalise(rooted, cs[..n]), cs[n]);
    }
  }

  lemma CleanStepKeepsNormal(rooted: bool, acc: seq<string>, c: string)
    requires Normal(CleanPath(rooted, acc)) && NoSeparator(c)
    ensures Normal(CleanPath(rooted, CleanStep(rooted, acc, c)))
  {
    var before, after := CleanPath(rooted, acc), CleanPath(rooted, CleanStep(rooted, acc, c));
    forall i | 0 <= i < |after.comps| ensures NormalComponent(after, i) {
      if i < |acc| {
        assert NormalComponent(before, i);
      } else if c == ".." && acc != [] {
        assert NormalComponent(before, |acc| - 1);
      }
    }
  }

  lemma {:induction false} NormaliseSkipsEmptyHead(rooted: bool, cs: seq<string>)
    ensures Normalise(rooted, [""] + cs) == Normalise(rooted, cs)
  {
    if cs == [] {
      assert Normalise(rooted, [""]) == CleanStep(rooted, Normalise(rooted, [""][..0]), "");
    } else {
      var n := |cs| - 1;
      NormaliseSkipsEmptyHead(rooted, cs[..n]);
      assert ([""] + cs)[..n + 1] == [""] + cs[..n];
    }
  }

  lemma ParseOfRenderEmpty(rooted: bool)
    ensures Parse(Render(CleanPath(rooted, []))) == CleanPath(rooted, [])
  {
    if rooted {
      assert Split("/") == ["", ""];
      assert ["", ""] == [""] + [""];
      NormaliseSkipsEmptyHead(true, [""]);
      NormaliseSkipsEmptyHead(true, []);
      assert [""] + [] == [""];
    } else {
      SplitPlain(".");
      assert Normalise(false, ["."]) == CleanStep(false, Normalise(false, ["."][..0]), ".");
    }
  }

  lemma NormalHasNoSeparators(q: CleanPath)
    requires Normal(q)
    ensures forall i | 0 <= i < |q.comps| :: NoSeparator(q.comps[i]) && q.comps[i] != ""
  {
    forall i | 0 <= i < |q.comps| ensures NoSeparator(q.comps[i]) && q.comps[i] != "" {
      assert NormalComponent(q, i);
    }
  }

  lemma SplitOfRender(q: CleanPath)
    requires Normal(q) && q.comps != []
    ensures Split(Render(q)) == if q.rooted then [""] + q.comps else q.comps
    ensures Rooted(Render(q)) == q.rooted
  {
    hide Normal, Split;
    NormalHasNoSeparators(q);
    SplitOfJoin(q.comps);
    var body := JoinSlash(q.comps);
    if q.rooted {
      assert Render(q) == "" + "/" + body;
      SplitPlain("");
      SplitAtSlash("", body);
    } else {
      assert Render(q) == body;
      assert body[0] == q.comps[0][0] && q.comps[0][0] in q.comps[0];
    }
  }

  /** Rendering loses nothing: a normal path reads back as itself. */
  lemma ParseOfRender(q: CleanPath)
    requires Normal(q)
    ensures Parse(Render(q)) == q
  {
    hide Normal, Split, Render, Normalise, Rooted;
    if q.comps == [] {
      ParseOfRenderEmpty(q.rooted);
    } else {
      SplitOfRender(q);
      NormaliseOfNormal(q);
      NormaliseSkipsEmptyHead(q.rooted, q.comps);
    }
  }

  lemma RenderInjective(q: CleanPath, r: CleanPath)
    requires Normal(q) && Normal(r) && Render(q) == Render(r)
    ensures q == r
  {
    ParseOfRender(q);
    ParseOfRender(r);
  }

  lemma ParseIsNormal(p: string)
    ensures Normal(Parse(p))
  {
    NormaliseIsNormal(Rooted(p), Split(p));
  }

  /** filepath.Clean is idempotent. */
  lemma CleanIdempotent(p: string)
    ensures Clean(Clean(p)) == Clean(p)
  {
    ParseIsNormal(p);
    ParseOfRender(Parse(p));
  }

  /** The length of the components, each with a separator. */
  function Weight(cs: seq<string>): nat {
    if cs == [] then 0 else Weight(cs[..|cs| - 1]) + |cs[|cs| - 1]| + 1
  }

  lemma {:induction false} JoinLength(cs: seq<string>)
    requires cs != []
    ensures |JoinSlash(cs)| + 1 == Weight(cs)
  {
    var n := |cs| - 1;
    assert cs == cs[..n] + [cs[n]];
    if n > 0 {
      JoinLength(cs[..n]);
      JoinSnoc(cs[..n], cs[n]);
    }
  }

  lemma WeightSnoc(cs: seq<string>, c: string)
    ensures Weight(cs + [c]) == Weight(cs) + |c| + 1
  {
    assert (cs + [c])[..|cs|] == cs;
  }

  lemma CleanStepLoses(rooted: bool, acc: seq<string>, c: string)
    ensures CleanStep(rooted, acc, c) == acc + [c] || Weight(CleanStep(rooted, acc, c)) <= Weight(acc)
  {
  }

  /** Every component that is kept counts, and the others are lost. */
  lemma {:induction false} NormaliseLoses(rooted: bool, cs: seq<string>)
    ensures Weight(Normalise(rooted, cs)) <= Weight(cs)
    ensures Weight(Normalise(rooted, cs)) == Weight(cs) ==> Normalise(rooted, cs) == cs
  {
    hide Weight, CleanStep;
    if cs != [] {
      var n := |cs| - 1;
      NormaliseLoses(rooted, cs[..n]);
      var acc := Normalise(rooted, cs[..n]);
      assert cs == cs[..n] + [cs[n]];
      CleanStepLoses(rooted, acc, cs[n]);
      WeightSnoc(acc, cs[n]);
      WeightSnoc(cs[..n], cs[n]);
    }
  }

  /** Cleaning a path that names something shortens it, unless it is clean already. */
  lemma CleanShortens(p: string)
    requires Parse(p).comps != []
    ensures |Clean(p)| <= |p|
    ensures |Clean(p)| == |p| ==> Clean(p) == p
  {
    hide Split, Normalise;
    var cs, comps := Split(p), Parse(p).comps;
    JoinOfSplit(p);
    JoinLength(cs);
    JoinLength(comps);
    NormaliseLoses(Rooted(p), cs);
    if Rooted(p) {
      SplitRooted(p);
      NormaliseSkipsEmptyHead(true, cs[1..]);
      NormaliseLoses(true, cs[1..]);
      JoinOfSplit(p[1..]);
      JoinLength(cs[1..]);
    }
  }

  lemma SplitRooted(p: string)
    requires Rooted(p)
    ensures Split(p) == [""] + Split(p[1..]) && Split(p)[1..] == Split(p[1..])
  {
  }

  function Descend(q: CleanPath, rel: seq<string>): CleanPath {
    q.(comps := q.comps + rel)
  }

  predicate PlainNames(rel: seq<string>) {
    forall i | 0 <= i < |rel| :: PlainName(rel[i])
  }

  lemma DescendNormal(q: CleanPath, rel: seq<string>)
    requires Normal(q) && PlainNames(rel)
    ensures Normal(Descend(q, rel))
  {
    var d := Descend(q, rel);
    forall i | 0 <= i < |d.comps| ensures NormalComponent(d, i) {
      if i < |q.comps| {
        assert NormalComponent(q, i);
      }
    }
  }

  /** Joining an entry's name goes one component down. */
  lemma JoinDescends(dir: string, name: string)
    requires dir != "" && PlainName(name)
    ensures Join(dir, name) == Render(Descend(Parse(dir), [name]))
  {
    SplitPlain(name);
    SplitAtSlash(dir, name);
    assert (Split(dir) + [name])[..|Split(dir)|] == Split(dir);
    assert (dir + "/" + name)[0] == dir[0];
  }

  // ---------- strings.TrimRight and strings.Replace ----------

  function TrimRight(s: string): string {
    if s != [] && s[|s| - 1] == SEPARATOR then TrimRight(s[..|s| - 1]) else s
  }

  predicate OccursAt(s: string, sub: string, i: nat) {
    i + |sub| <= |s| && s[i..i + |sub|] == sub
  }

  /** The first place `sub` occurs at. */
  function IndexOf(s: string, sub: string): (r: Option<nat>)
    ensures r.Some? ==> OccursAt(s, sub, r.value)
    ensures forall i | 0 <= i < (if r.Some? then r.value else |s| + 1) :: !OccursAt(s, sub, i)
  {
    if sub <= s then Some(0)
    else if s == [] then None
    else
      assert forall i | 1 <= i <= |s| :: OccursAt(s, sub, i) <==> OccursAt(s[1..], sub, i - 1);
      match IndexOf(s[1..], sub)
      case Some(i) => Some(i + 1)
      case None => None
  }

  /** strings.Replace(s, sub, "", 1). */
  function RemoveFirst(s: string, sub: string): string {
    match IndexOf(s, sub)
    case Some(i) => s[..i] + s[i + |sub|..]
    case None => s
  }

  lemma RemovePrefix(p: string, s: string)
    ensures RemoveFirst(p + s, p) == s
  {
    assert IndexOf(p + s, p) == Some(0);
  }

  lemma AbsentIsKept(s: string, sub: string)
    requires forall i: nat :: !OccursAt(s, sub, i)
    ensures RemoveFirst(s, sub) == s
  {
  }

  lemma RemoveFirstShortens(s: string, sub: string)
    ensures |RemoveFirst(s, sub)| == if IndexOf(s, sub).Some? then |s| - |sub| else |s|
  {
  }

  lemma {:induction false} TrimRightIsPrefix(s: string)
    ensures TrimRight(s) <= s
    ensures TrimRight(s) != "" ==> TrimRight(s)[|TrimRight(s)| - 1] != SEPARATOR
    ensures TrimRight(s) == s <==> s == "" || s[|s| - 1] != SEPARATOR
  {
    if s != [] && s[|s| - 1] == SEPARATOR {
      TrimRightIsPrefix(s[..|s| - 1]);
    }
  }

  // ---------- What cleaning, trimming and removing come to ----------

  /**
    Cleaning, component by component: "" and "." leave a path where it is, ".." goes up unless
    there is nothing to go up from, and any other name goes down.
   */
  lemma CleanOfLonger(p: string, c: string)
    requires p != "" && NoSeparator(c)
    ensures var q, longer := Parse(p), Parse(p + "/" + c);
            var n := |q.comps|;
            && longer.rooted == q.rooted == (p[0] == '/')
            && (c == "" || c == "." ==> longer.comps == q.comps)
            && (c == ".." && n > 0 && q.comps[n - 1] != ".." ==> longer.comps == q.comps[..n - 1])
            && (c == ".." && n == 0 && q.rooted ==> longer.comps == [])
            && (c == ".." && !q.rooted && (n == 0 || q.comps[n - 1] == "..") ==> longer.comps == q.comps + [".."])
            && (c != "" && c != "." && c != ".." ==> longer.comps == q.comps + [c])
  {
    SplitPlain(c);
    SplitAtSlash(p, c);
    assert (Split(p) + [c])[..|Split(p)|] == Split(p);
    assert (p + "/" + c)[0] == p[0];
  }

  /** Where cleaning starts: one component, after a separator or not. */
  lemma CleanOfOne(c: string)
    requires NoSeparator(c)
    ensures Parse("/" + c) == CleanPath(true, if c == "" || c == "." || c == ".." then [] else [c])
    ensures Parse(c) == CleanPath(false, if c == "" || c == "." then [] else [c])
  {
    SplitPlain(c);
    SplitRooted("/" + c);
    assert ("/" + c)[1..] == c;
    NormaliseSkipsEmptyHead(true, [c]);
    assert [c][..0] == [];
    assert Normalise(true, [c]) == CleanStep(true, [], c) && Normalise(false, [c]) == CleanStep(false, [], c);
    assert c != "" ==> c[0] in c;
  }

  /** A clean path is its names with single separators between them; without any it is "/" or ".". */
  lemma RenderedText(rooted: bool, name: string)
    ensures Render(CleanPath(rooted, [])) == if rooted then "/" else "."
    ensures Render(CleanPath(rooted, [name])) == (if rooted then "/" else "") + name
  {
    hide JoinSlash;
    JoinOfOne(name);
  }

  lemma RenderedLonger(q: CleanPath, name: string)
    requires q.comps != []
    ensures Render(CleanPath(q.rooted, q.comps + [name])) == Render(q) + "/" + name
  {
    hide JoinSlash;
    JoinSnoc(q.comps, name);
    var body := JoinSlash(q.comps);
    assert "/" + (body + "/" + name) == ("/" + body) + "/" + name;
    assert "" + (body + "/" + name) == ("" + body) + "/" + name;
  }

  lemma JoinOfOne(c: string)
    ensures JoinSlash([c]) == c
  {
  }

  /** Trimming removes the separators at the end, all of them and nothing else. */
  lemma {:induction false} TrimRightRemovesSeparators(s: string)
    ensures TrimRight(s) <= s && forall i | |TrimRight(s)| <= i < |s| :: s[i] == '/'
    ensures TrimRight(s) == "" || TrimRight(s)[|TrimRight(s)| - 1] != '/'
  {
    if s != [] && s[|s| - 1] == SEPARATOR {
      TrimRightRemovesSeparators(s[..|s| - 1]);
    }
  }

  /** The first occurrence goes, and only that. */
  lemma RemoveFirstRemoves(before: string, sub: string, after: string)
    requires forall i | 0 <= i < |before| :: !OccursAt(before + sub + after, sub, i)
    ensures RemoveFirst(before + sub + after, sub) == before + after
  {
    var s := before + sub + after;
    assert OccursAt(s, sub, |before|);
    assert IndexOf(s, sub) == Some(|before|);
  }
}
