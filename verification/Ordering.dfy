/** Bytewise string order and sorting by it. A char stands for one byte. */
module Ordering {

  predicate Leq(a: string, b: string) {
    a == [] || (b != [] && (a[0] < b[0] || (a[0] == b[0] && Leq(a[1..], b[1..]))))
  }

  lemma {:induction false} LeqTotal(a: string, b: string)
    ensures Leq(a, b) || Leq(b, a)
    ensures Leq(a, b) && Leq(b, a) ==> a == b
  {
    if a != [] && b != [] {
      LeqTotal(a[1..], b[1..]);
      assert a == [a[0]] + a[1..] && b == [b[0]] + b[1..];
    }
  }

  lemma {:induction false} LeqTransitive(a: string, b: string, c: string)
    requires Leq(a, b) && Leq(b, c)
    ensures Leq(a, c)
  {
    if a != [] && a[0] == b[0] && b[0] == c[0] {
      LeqTransitive(a[1..], b[1..], c[1..]);
    }
  }

  /** A common prefix does not affect the order. */
  lemma {:induction false} LeqAfterPrefix(p: string, a: string, b: string)
    ensures Leq(p + a, p + b) <==> Leq(a, b)
  {
    if p == [] {
      assert p + a == a && p + b == b;
    } else {
      LeqAfterPrefix(p[1..], a, b);
      assert (p + a)[1..] == p[1..] + a && (p + b)[1..] == p[1..] + b;
    }
  }

  /** What extends a string comes after it. */
  lemma PrefixComesFirst(p: string, s: string)
    ensures Leq(p, p + s)
    ensures s != "" ==> !Leq(p + s, p)
  {
    LeqAfterPrefix(p, "", s);
    LeqAfterPrefix(p, s, "");
    assert p + "" == p;
  }

  /** Otherwise the first byte that differs decides. */
  lemma FirstDifferenceDecides(p: string, x: char, a: string, y: char, b: string)
    requires x != y
    ensures Leq(p + [x] + a, p + [y] + b) <==> x < y
  {
    LeqAfterPrefix(p, [x] + a, [y] + b);
    assert p + [x] + a == p + ([x] + a) && p + [y] + b == p + ([y] + b);
  }

  predicate Sorted(ss: seq<string>) {
    forall i, j | 0 <= i < j < |ss| :: Leq(ss[i], ss[j])
  }

  function Insert(x: string, ss: seq<string>): seq<string> {
    if ss == [] || Leq(x, ss[0]) then [x] + ss else [ss[0]] + Insert(x, ss[1..])
  }

  /** What sort.Strings leaves in the slice. */
  function Sort(ss: seq<string>): seq<string> {
    if ss == [] then [] else Insert(ss[0], Sort(ss[1..]))
  }

  lemma {:induction false} InsertElements(x: string, ss: seq<string>)
    ensures multiset(Insert(x, ss)) == multiset(ss) + multiset{x}
  {
    hide Leq;
    if ss != [] && !Leq(x, ss[0]) {
      InsertElements(x, ss[1..]);
      assert ss == [ss[0]] + ss[1..];
    }
  }

  lemma {:induction false} InsertSorts(x: string, ss: seq<string>)
    requires Sorted(ss)
    ensures Sorted(Insert(x, ss))
  {
    hide Leq;
    if ss == [] {
    } else if Leq(x, ss[0]) {
      forall j | 0 <= j < |ss| ensures Leq(x, ss[j]) {
        if j > 0 {
          LeqTransitive(x, ss[0], ss[j]);
        }
      }
    } else {
      InsertSorts(x, ss[1..]);
      HeadBelowInserted(x, ss);
    }
  }

  lemma HeadBelowInserted(x: string, ss: seq<string>)
    requires Sorted(ss) && ss != [] && !Leq(x, ss[0])
    ensures forall j | 0 <= j < |Insert(x, ss[1..])| :: Leq(ss[0], Insert(x, ss[1..])[j])
  {
    hide Leq;
    var rest := Insert(x, ss[1..]);
    LeqTotal(x, ss[0]);
    InsertElements(x, ss[1..]);
    forall j | 0 <= j < |rest| ensures Leq(ss[0], rest[j]) {
      assert rest[j] in multiset(rest);
      assert rest[j] == x || rest[j] in ss[1..];
    }
  }

  lemma {:induction false} SortSorts(ss: seq<string>)
    ensures Sorted(Sort(ss)) && multiset(Sort(ss)) == multiset(ss)
  {
    if ss != [] {
      SortSorts(ss[1..]);
      InsertSorts(ss[0], Sort(ss[1..]));
      InsertElements(ss[0], Sort(ss[1..]));
      assert ss == [ss[0]] + ss[1..];
    }
  }

  lemma SameHead(a: seq<string>, b: seq<string>)
    requires Sorted(a) && Sorted(b) && multiset(a) == multiset(b) && a != []
    ensures b != [] && a[0] == b[0]
  {
    assert a[0] in multiset(b);
    assert b[0] in multiset(a);
    HeadIsLeast(a, b[0]);
    HeadIsLeast(b, a[0]);
    LeqTotal(a[0], b[0]);
  }

  lemma TailElements(a: seq<string>)
    requires a != []
    ensures multiset(a[1..]) == multiset(a) - multiset{a[0]}
  {
    assert a == [a[0]] + a[1..];
  }

  /** A multiset of strings has one sorted arrangement. */
  lemma {:induction false} SortedIsUnique(a: seq<string>, b: seq<string>)
    requires Sorted(a) && Sorted(b) && multiset(a) == multiset(b)
    ensures a == b
  {
    hide Leq;
    if a == [] {
      assert |multiset(b)| == |b|;
    } else {
      SameHead(a, b);
      TailElements(a);
      TailElements(b);
      SortedIsUnique(a[1..], b[1..]);
      assert a == [a[0]] + a[1..] && b == [b[0]] + b[1..];
    }
  }

  lemma HeadIsLeast(a: seq<string>, x: string)
    requires Sorted(a) && x in a
    ensures Leq(a[0], x)
  {
    LeqTotal(x, x);
  }

  /** So the result of sorting depends on the elements alone. */
  lemma SortDependsOnElements(a: seq<string>, b: seq<string>)
    requires multiset(a) == multiset(b)
    ensures Sort(a) == Sort(b)
  {
    SortSorts(a);
    SortSorts(b);
    SortedIsUnique(Sort(a), Sort(b));
  }

  predicate NoDuplicates<T(==)>(ss: seq<T>) {
    forall i, j | 0 <= i < j < |ss| :: ss[i] != ss[j]
  }

  lemma {:induction false} DuplicateFreeCounts(ss: seq<string>, x: string)
    requires NoDuplicates(ss)
    ensures multiset(ss)[x] == if x in ss then 1 else 0
  {
    if ss != [] {
      var n := |ss| - 1;
      DuplicateFreeCounts(ss[..n], x);
      assert ss == ss[..n] + [ss[n]];
    }
  }

  lemma OccursTwice(ss: seq<string>, i: nat, j: nat)
    requires i < j < |ss| && ss[i] == ss[j]
    ensures multiset(ss)[ss[i]] >= 2
  {
    assert ss == ss[..j] + ss[j..];
    assert ss[i] in ss[..j] && ss[j] in ss[j..];
  }

  lemma SortOfSameSet(a: seq<string>, b: seq<string>)
    requires NoDuplicates(a) && NoDuplicates(b)
    requires forall x :: x in a <==> x in b
    ensures Sort(a) == Sort(b)
  {
    forall x ensures multiset(a)[x] == multiset(b)[x] {
      DuplicateFreeCounts(a, x);
      DuplicateFreeCounts(b, x);
    }
    assert multiset(a) == multiset(b);
    SortDependsOnElements(a, b);
  }

  function Prefixed(p: string, ss: seq<string>): seq<string> {
    seq(|ss|, i requires 0 <= i < |ss| => p + ss[i])
  }

  lemma {:induction false} InsertAfterPrefix(p: string, x: string, ss: seq<string>)
    ensures Insert(p + x, Prefixed(p, ss)) == Prefixed(p, Insert(x, ss))
  {
    if ss != [] {
      LeqAfterPrefix(p, x, ss[0]);
      if !Leq(x, ss[0]) {
        InsertAfterPrefix(p, x, ss[1..]);
        assert Prefixed(p, ss)[1..] == Prefixed(p, ss[1..]);
      }
    }
  }

  /** Sorting commutes with a common prefix. */
  lemma {:induction false} SortAfterPrefix(p: string, ss: seq<string>)
    ensures Sort(Prefixed(p, ss)) == Prefixed(p, Sort(ss))
  {
    if ss != [] {
      SortAfterPrefix(p, ss[1..]);
      assert Prefixed(p, ss)[1..] == Prefixed(p, ss[1..]);
      InsertAfterPrefix(p, ss[0], Sort(ss[1..]));
    }
  }

  /** Sorting keeps the strings, and puts none before one that is less. */
  lemma SortPutsInOrder(ss: seq<string>)
    ensures multiset(Sort(ss)) == multiset(ss)
    ensures forall i, j | 0 <= i < j < |Sort(ss)| :: Leq(Sort(ss)[i], Sort(ss)[j])
  {
    SortSorts(ss);
  }
}
