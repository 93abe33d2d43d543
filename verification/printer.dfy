/**
 The include-directory accumulator `printer`: a set of known directories
 together with the list of them in the order they were first learned, the
 system search directories, and the renderings as `-I` flags. The mutex
 around each operation is left out; every operation is one atomic step.
 */
module Printer {
  import opened Seqs
  import opened Text

  /** `p.m` (the set of learned directories), `p.l` (the same, in learning order) and `p.sys`. */
  datatype Printer = Printer(known: set<string>, dirs: seq<string>, sys: seq<string>)

  /** The list holds each known directory exactly once. */
  predicate Valid(p: Printer)
  {
    NoDup(p.dirs) && Elems(p.dirs) == p.known
  }

  /** `newPrinter`: nothing learned, no system directories. */
  function NewPrinter(): (p: Printer)
    ensures Valid(p) && p.known == {} && p.sys == []
  {
    Printer({}, [], [])
  }

  /** `AddSys`: replaces the system directories and leaves the learned ones alone. */
  function AddSys(p: Printer, sys: seq<string>): (r: Printer)
    ensures Valid(p) ==> Valid(r)
    ensures r.known == p.known && r.dirs == p.dirs && r.sys == sys
  {
    p.(sys := sys)
  }

  /**
   `Printdirs(ds)`: every directory of `ds` not yet known is learned and
   appended to the list; the known ones are left where they are.
   */
  function Printdirs(p: Printer, ds: seq<string>): (r: Printer)
    ensures r.known == p.known + Elems(ds)
    ensures r.sys == p.sys
    ensures |p.dirs| <= |r.dirs| && r.dirs[..|p.dirs|] == p.dirs
    ensures Valid(p) ==> Valid(r)
    decreases |ds|
  {
    if ds == [] then p
    else
      var h := ds[0];
      var p1 := if h in p.known then p else Printer(p.known + {h}, p.dirs + [h], p.sys);
      var r := Printdirs(p1, ds[1..]);
      assert r.dirs[..|p.dirs|] == r.dirs[..|p1.dirs|][..|p.dirs|];
      assert Elems(ds) == {h} + Elems(ds[1..]);
      r
  }

  /** Directories that are all known already change nothing. */
  lemma {:induction false} PrintdirsKnown(p: Printer, ds: seq<string>)
    requires Elems(ds) <= p.known
    ensures Printdirs(p, ds) == p
    decreases |ds|
  {
    if ds != [] {
      assert ds[0] in Elems(ds);
      assert Elems(ds[1..]) <= Elems(ds);
      PrintdirsKnown(p, ds[1..]);
    }
  }

  /** A repeated call changes nothing. */
  lemma PrintdirsIdempotent(p: Printer, ds: seq<string>)
    ensures Printdirs(Printdirs(p, ds), ds) == Printdirs(p, ds)
  {
    PrintdirsKnown(Printdirs(p, ds), ds);
  }

  /** Two calls in a row act as one call on the concatenated directories. */
  lemma {:induction false} PrintdirsAppend(p: Printer, a: seq<string>, b: seq<string>)
    ensures Printdirs(Printdirs(p, a), b) == Printdirs(p, a + b)
    decreases |a|
  {
    if a == [] {
      assert a + b == b;
    } else {
      var h := a[0];
      var p1 := if h in p.known then p else Printer(p.known + {h}, p.dirs + [h], p.sys);
      assert (a + b)[0] == h && (a + b)[1..] == a[1..] + b;
      PrintdirsAppend(p1, a[1..], b);
    }
  }

  /** The position of the first occurrence of `x` in `s`. */
  function FirstIndex(s: seq<string>, x: string): (i: nat)
    requires x in s
    ensures i < |s| && s[i] == x && x !in s[..i]
    decreases |s|
  {
    if s[0] == x then 0
    else
      var i := 1 + FirstIndex(s[1..], x);
      assert s[..i] == [s[0]] + s[1..][..i - 1];
      i
  }

  /** Shifting a sequence by one element shifts first occurrences past it by one. */
  lemma FirstIndexTail(s: seq<string>, x: string)
    requires s != [] && x in s[1..] && s[0] != x
    ensures FirstIndex(s, x) == 1 + FirstIndex(s[1..], x)
  {
  }

  /** The directories a call appends are those of `ds` not known before, each once. */
  lemma PrintdirsAddedElems(p: Printer, ds: seq<string>)
    requires Valid(p)
    ensures var added := Printdirs(p, ds).dirs[|p.dirs|..];
      && (forall x :: x in added <==> x in ds && x !in p.known)
      && NoDup(added)
  {
    var r := Printdirs(p, ds);
    var added := r.dirs[|p.dirs|..];
    assert r.dirs == p.dirs + added;
    forall x
      ensures x in added <==> x in ds && x !in p.known
    {
      if x in added {
        var k :| 0 <= k < |added| && added[k] == x;
        assert r.dirs[|p.dirs| + k] == x;
        assert x in Elems(r.dirs);
        assert x in Elems(ds);
      }
      if x in ds && x !in p.known {
        assert x in Elems(ds);
        assert x in Elems(r.dirs);
        var k :| 0 <= k < |r.dirs| && r.dirs[k] == x;
        if k >= |p.dirs| {
          assert added[k - |p.dirs|] == x;
        }
      }
    }
    assert NoDup(added) by {
      forall i, j | 0 <= i < j < |added|
        ensures added[i] != added[j]
      {
        assert r.dirs[|p.dirs| + i] == added[i] && r.dirs[|p.dirs| + j] == added[j];
      }
    }
  }

  /** `added` holds elements of `ds`, listed in the order of their first occurrence in `ds`. */
  predicate InFirstOrder(ds: seq<string>, added: seq<string>)
  {
    && (forall x :: x in added ==> x in ds)
    && forall i, j :: 0 <= i < j < |added| ==> FirstIndex(ds, added[i]) < FirstIndex(ds, added[j])
  }

  /** First-occurrence order survives putting one more element in front of both sequences. */
  lemma OrderCons(ds: seq<string>, added1: seq<string>, added: seq<string>)
    requires ds != [] && InFirstOrder(ds[1..], added1) && ds[0] !in added1
    requires added == added1 || added == [ds[0]] + added1
    ensures InFirstOrder(ds, added)
  {
    forall x | x in added
      ensures x in ds
    {
      if x != ds[0] {
        assert x in added1;
      }
    }
    forall i, j | 0 <= i < j < |added|
      ensures FirstIndex(ds, added[i]) < FirstIndex(ds, added[j])
    {
      if added == added1 {
        FirstIndexTail(ds, added[i]);
        FirstIndexTail(ds, added[j]);
      } else {
        assert added[j] == added1[j - 1];
        FirstIndexTail(ds, added[j]);
        if i > 0 {
          assert added[i] == added1[i - 1];
          FirstIndexTail(ds, added[i]);
        }
      }
    }
  }

  /** One step of `Printdirs`: the first directory is appended if new, then the rest are handled. */
  lemma PrintdirsStep(p: Printer, ds: seq<string>)
    requires ds != []
    ensures var h := ds[0];
      var p1 := if h in p.known then p else Printer(p.known + {h}, p.dirs + [h], p.sys);
      Printdirs(p, ds).dirs[|p.dirs|..] ==
        (if h in p.known then [] else [h]) + Printdirs(p1, ds[1..]).dirs[|p1.dirs|..]
  {
    var h := ds[0];
    var p1 := if h in p.known then p else Printer(p.known + {h}, p.dirs + [h], p.sys);
    var r := Printdirs(p1, ds[1..]);
    assert Printdirs(p, ds) == r;
    if h !in p.known {
      assert r.dirs[..|p1.dirs|] == p.dirs + [h];
      assert r.dirs == p.dirs + [h] + r.dirs[|p1.dirs|..];
    }
  }

  /** The directories a call appends come in the order of their first occurrence in `ds`. */
  lemma {:induction false} PrintdirsAddedOrder(p: Printer, ds: seq<string>)
    requires Valid(p)
    ensures InFirstOrder(ds, Printdirs(p, ds).dirs[|p.dirs|..])
    decreases |ds|
  {
    if ds != [] {
      var h := ds[0];
      var p1 := if h in p.known then p else Printer(p.known + {h}, p.dirs + [h], p.sys);
      assert Valid(p1);
      PrintdirsAddedOrder(p1, ds[1..]);
      PrintdirsAddedElems(p1, ds[1..]);
      PrintdirsStep(p, ds);
      var added1 := Printdirs(p1, ds[1..]).dirs[|p1.dirs|..];
      assert h in p1.known;
      OrderCons(ds, added1, Printdirs(p, ds).dirs[|p.dirs|..]);
    }
  }

  /** `"-I" + d` for every directory of `ds`, in order. */
  function Flags(ds: seq<string>): (r: seq<string>)
    ensures |r| == |ds|
    ensures forall i :: 0 <= i < |ds| ==> r[i] == "-I" + ds[i]
  {
    seq(|ds|, i requires 0 <= i < |ds| => "-I" + ds[i])
  }

  /** The flag is a prefix that can be taken off again. */
  lemma FlagsInjective(a: seq<string>, b: seq<string>)
    requires Flags(a) == Flags(b)
    ensures a == b
  {
    assert |a| == |b|;
    forall i | 0 <= i < |a|
      ensures a[i] == b[i]
    {
      assert a[i] == ("-I" + a[i])[2..] && b[i] == ("-I" + b[i])[2..];
    }
  }

  /** A flag is listed exactly when its directory is. */
  lemma FlagsMember(ds: seq<string>)
    ensures forall d :: "-I" + d in Flags(ds) <==> d in ds
  {
    forall d
      ensures "-I" + d in Flags(ds) <==> d in ds
    {
      if "-I" + d in Flags(ds) {
        var i :| 0 <= i < |ds| && Flags(ds)[i] == "-I" + d;
        assert d == ("-I" + d)[2..] == ("-I" + ds[i])[2..] == ds[i];
      }
      if d in ds {
        var i :| 0 <= i < |ds| && ds[i] == d;
        assert Flags(ds)[i] == "-I" + d;
      }
    }
  }

  /** Distinct directories give distinct flags. */
  lemma FlagsNoDup(ds: seq<string>)
    requires NoDup(ds)
    ensures NoDup(Flags(ds))
  {
    forall i, j | 0 <= i < j < |ds|
      ensures Flags(ds)[i] != Flags(ds)[j]
    {
      assert ds[i] == ("-I" + ds[i])[2..] && ds[j] == ("-I" + ds[j])[2..];
    }
  }

  /** `order` visits every learned directory once: the iteration order of `p.m`. */
  predicate EnumeratesKnown(order: seq<string>, p: Printer)
  {
    NoDup(order) && Elems(order) == p.known
  }

  /**
   `Includes`: a `-I` flag for every learned directory, in the map's
   iteration order, followed by one for every system directory, in order.
   */
  function Includes(p: Printer, order: seq<string>): (r: seq<string>)
    requires EnumeratesKnown(order, p)
    ensures |r| == |p.known| + |p.sys|
    ensures forall d :: "-I" + d in r[..|p.known|] <==> d in p.known
    ensures r[|p.known|..] == Flags(p.sys)
  {
    NoDupCard(order);
    var r := Flags(order) + Flags(p.sys);
    assert r[..|order|] == Flags(order);
    FlagsMember(order);
    r
  }

  /** Two iteration orders of the same printer give the same flags, reordered. */
  lemma IncludesOrderIndependent(p: Printer, o1: seq<string>, o2: seq<string>)
    requires EnumeratesKnown(o1, p) && EnumeratesKnown(o2, p)
    ensures multiset(Includes(p, o1)) == multiset(Includes(p, o2))
  {
    FlagsNoDup(o1);
    FlagsNoDup(o2);
    FlagsMember(o1);
    FlagsMember(o2);
    assert Elems(Flags(o1)) == Elems(Flags(o2)) by {
      forall s | s in Flags(o1)
        ensures s in Flags(o2)
      {
        var i :| 0 <= i < |o1| && Flags(o1)[i] == s;
        assert s == "-I" + o1[i] && o1[i] in Elems(o1);
      }
      forall s | s in Flags(o2)
        ensures s in Flags(o1)
      {
        var i :| 0 <= i < |o2| && Flags(o2)[i] == s;
        assert s == "-I" + o2[i] && o2[i] in Elems(o2);
      }
    }
    SameElemsPermutation(Flags(o1), Flags(o2));
    assert Includes(p, o1) == Flags(o1) + Flags(p.sys);
    assert Includes(p, o2) == Flags(o2) + Flags(p.sys);
  }

  /** Sorted by Go's string order. */
  predicate Sorted(s: seq<string>)
  {
    forall i, j :: 0 <= i < j < |s| ==> StrLe(s[i], s[j])
  }

  /** An element no greater than the head of a sorted sequence can go in front. */
  lemma SortedFront(x: string, s: seq<string>)
    requires Sorted(s) && s != [] && StrLe(x, s[0])
    ensures Sorted([x] + s)
  {
    forall j | 0 < j < |s|
      ensures StrLe(x, s[j])
    {
      StrLeTransitive(x, s[0], s[j]);
    }
  }

  /** The head of a sorted sequence can go in front of any sorted rearrangement of its tail and an element above it. */
  lemma SortedBehind(x: string, s: seq<string>, t: seq<string>)
    requires Sorted(s) && s != [] && !StrLe(x, s[0])
    requires Sorted(t) && multiset(t) == multiset(s[1..]) + multiset{x}
    ensures Sorted([s[0]] + t)
  {
    StrLeTotal(x, s[0]);
    forall j | 0 <= j < |t|
      ensures StrLe(s[0], t[j])
    {
      assert t[j] in multiset(t);
      if t[j] != x {
        assert t[j] in multiset(s[1..]);
        var k :| 0 <= k < |s[1..]| && s[1..][k] == t[j];
        assert s[k + 1] == t[j];
      }
    }
  }

  /** `x` placed into sorted `s` before the first element it does not follow. */
  function Insert(x: string, s: seq<string>): (r: seq<string>)
    requires Sorted(s)
    ensures Sorted(r) && multiset(r) == multiset(s) + multiset{x}
    decreases |s|
  {
    if s == [] then [x]
    else if StrLe(x, s[0]) then
      SortedFront(x, s);
      [x] + s
    else
      var t := Insert(x, s[1..]);
      SortedBehind(x, s, t);
      assert s == [s[0]] + s[1..];
      [s[0]] + t
  }

  /** `sort.Sort(sort.StringSlice(...))`, as an insertion sort. */
  function Sort(s: seq<string>): (r: seq<string>)
    ensures Sorted(r) && multiset(r) == multiset(s)
    decreases |s|
  {
    if s == [] then []
    else
      assert s == [s[0]] + s[1..];
      Insert(s[0], Sort(s[1..]))
  }

  /** Two sorted sequences with the same elements start alike. */
  lemma SortedSameHead(a: seq<string>, b: seq<string>)
    requires Sorted(a) && Sorted(b) && multiset(a) == multiset(b) && a != []
    ensures b != [] && a[0] == b[0]
  {
    assert |b| == |multiset(b)| == |multiset(a)| == |a|;
    assert a[0] in multiset(b) && b[0] in multiset(a);
    var i :| 0 <= i < |b| && b[i] == a[0];
    var j :| 0 <= j < |a| && a[j] == b[0];
    assert StrLe(b[0], a[0]) by {
      StrLeTotal(a[0], a[0]);
    }
    assert StrLe(a[0], b[0]) by {
      StrLeTotal(b[0], b[0]);
    }
    StrLeAntisymmetric(a[0], b[0]);
  }

  /** Two permutations that start alike continue as permutations. */
  lemma SameTails(a: seq<string>, b: seq<string>)
    requires multiset(a) == multiset(b) && a != [] && b != [] && a[0] == b[0]
    ensures multiset(a[1..]) == multiset(b[1..])
  {
    assert a == [a[0]] + a[1..] && b == [b[0]] + b[1..];
    assert multiset(a[1..]) == multiset(a) - multiset{a[0]};
    assert multiset(b[1..]) == multiset(b) - multiset{a[0]};
  }

  /** A sequence is determined by its elements once it is sorted. */
  lemma {:induction false} SortedUnique(a: seq<string>, b: seq<string>)
    requires Sorted(a) && Sorted(b) && multiset(a) == multiset(b)
    ensures a == b
    decreases |a|
  {
    if a == [] {
      assert |b| == |multiset(b)| == 0;
    } else {
      SortedSameHead(a, b);
      SameTails(a, b);
      SortedUnique(a[1..], b[1..]);
      assert a == [a[0]] + a[1..] && b == [b[0]] + b[1..];
    }
  }

  /**
   `Flush`: the learned list sorted in place, and the lines written, one
   `-I` flag per learned directory. System directories are not written.
   */
  function Flush(p: Printer): (r: (Printer, seq<string>))
    ensures r.0.known == p.known && r.0.sys == p.sys
    ensures Sorted(r.0.dirs) && multiset(r.0.dirs) == multiset(p.dirs)
    ensures Valid(p) ==> Valid(r.0)
    ensures r.1 == Flags(r.0.dirs)
  {
    var sorted := Sort(p.dirs);
    NoDupPermutation(p.dirs, sorted);
    (p.(dirs := sorted), Flags(sorted))
  }

  /** An element at two positions occurs at least twice. */
  lemma CountTwice(b: seq<string>, i: nat, j: nat)
    requires i < j < |b| && b[i] == b[j]
    ensures multiset(b)[b[i]] >= 2
  {
    assert b == b[..j] + b[j..];
    assert b[i] in b[..j] && b[j] in b[j..];
  }

  /** A permutation of a duplicate-free sequence is duplicate-free and has the same elements. */
  lemma NoDupPermutation(a: seq<string>, b: seq<string>)
    requires multiset(a) == multiset(b)
    ensures NoDup(a) ==> NoDup(b) && Elems(b) == Elems(a)
  {
    forall x
      ensures x in b <==> x in a
    {
      assert x in b <==> x in multiset(b);
      assert x in a <==> x in multiset(a);
    }
    forall i, j | 0 <= i < j < |b| && NoDup(a)
      ensures b[i] != b[j]
    {
      if b[i] == b[j] {
        CountTwice(b, i, j);
        NoDupMultiplicity(a, b[i]);
      }
    }
  }

  /**
   What `Flush` writes depends only on which directories were learned, not
   on the order they were learned in: each learned directory once, sorted.
   */
  lemma FlushDeterministic(p: Printer, q: Printer)
    requires Valid(p) && Valid(q) && p.known == q.known
    ensures Flush(p).1 == Flush(q).1
  {
    var a := Flush(p).0.dirs;
    var b := Flush(q).0.dirs;
    SameElemsPermutation(p.dirs, q.dirs);
    SortedUnique(a, b);
  }

  /** `Flush` writes one `-I` line for each learned directory and no other line. */
  lemma FlushWrites(p: Printer, d: string)
    requires Valid(p)
    ensures "-I" + d in Flush(p).1 <==> d in p.known
  {
    var q := Flush(p).0;
    if "-I" + d in Flush(p).1 {
      var i :| 0 <= i < |q.dirs| && Flush(p).1[i] == "-I" + d;
      assert d == ("-I" + d)[2..] == ("-I" + q.dirs[i])[2..] == q.dirs[i];
      assert q.dirs[i] in Elems(q.dirs);
    }
    if d in p.known {
      assert d in Elems(q.dirs);
      var i :| 0 <= i < |q.dirs| && q.dirs[i] == d;
      assert Flush(p).1[i] == "-I" + d;
    }
  }
}
