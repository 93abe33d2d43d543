/**
 Searches over small header trees, derived from the general theorems: a
 nested header is found in the directory above its first element (with or
 without one leading '/'), a header no root holds is not found, hidden files,
 files with an extension not accepted and entries that are neither regular
 files nor directories are never indexed, and a base name present under two roots
 is found under both.
 */
module HeaderIndexExamples {
  import opened Seqs
  import opened Text
  import opened FileSystem
  import opened HeaderIndex
  import opened HeaderIndexFollow
  import opened HeaderIndexForest
  import opened HeaderIndexTheorems

  /** A name the scan keeps as a path element: non-empty, not hidden, no separator. */
  predicate PlainName(s: string)
  {
    s != "" && '/' !in s && !IndexHidden(s)
  }

  /**
   `root` holding `sub/name`, a hidden file, a file `other` whose extension
   is not accepted, and an entry that is neither a regular file nor a
   directory (a symbolic link, say) named like the header file.
   */
  function Tree(root: string, sub: string, name: string, hidden: string, other: string): Entry
  {
    Dir(root, [Dir(sub, [File(name)]), File(hidden), File(other), Other(name)])
  }

  /** The tree's entries meet the scan's naming assumption. */
  predicate TreeNames(root: string, sub: string, name: string, hidden: string, other: string, accept: set<string>)
  {
    && PlainName(root) && PlainName(sub) && PlainName(name) && Ext(name) in accept
    && IndexHidden(hidden) && other != "" && Ext(other) !in accept
  }

  lemma SegmentsOfPair(a: string, b: string)
    requires PlainName(a) && '/' !in b
    ensures Segments(a + "/" + b) == [a, b]
  {
    assert a + "/" + b == a + ['/'] + b;
    assert StripSlash(a + "/" + b) == a + "/" + b;
    SplitCut(a, b, '/');
    SplitNoSep(b, '/');
  }

  /** The only header file of the tree is `sub/name`. */
  lemma TreeFiles(root: string, sub: string, name: string, hidden: string, other: string, accept: set<string>, rel: Path)
    requires TreeNames(root, sub, name, hidden, other, accept)
    ensures IsIndexedFile(Tree(root, sub, name, hidden, other), rel, accept) <==> rel == [root, sub, name]
  {
    var t := Tree(root, sub, name, hidden, other);
    var d := Dir(sub, [File(name)]);
    if rel == [root, sub, name] {
      assert rel[1..][1..] == [name];
      assert IsIndexedFile(File(name), rel[1..][1..], accept);
      assert d.entries[0] == File(name);
      assert IsIndexedFile(d, rel[1..], accept);
      assert t.entries[0] == d;
    }
    if IsIndexedFile(t, rel, accept) {
      var i :| 0 <= i < |t.entries| && IsIndexedFile(t.entries[i], rel[1..], accept);
      assert i == 0;
      var j :| 0 <= j < |d.entries| && IsIndexedFile(d.entries[j], rel[1..][1..], accept);
      assert rel == [rel[0], rel[1], rel[2]];
    }
  }

  lemma TreeBuilds(root: string, sub: string, name: string, hidden: string, other: string, accept: set<string>)
    requires TreeNames(root, sub, name, hidden, other, accept)
    ensures var scans := [ScanRoot([], Tree(root, sub, name, hidden, other))];
      && AllWellNamed(scans) && DistinctRoots(scans) && BuildIndex(scans, accept).Success?
      && BuildIndex(scans, accept).value.roots.Keys == {[root]}
  {
    var t := Tree(root, sub, name, hidden, other);
    var scans := [ScanRoot([], t)];
    assert WellNamed(t.entries[0]);
    assert WellNamed(t);
    assert !HasUnreadable(t.entries[0]);
    assert !HasUnreadable(t);
    BuildIndexShape(scans, accept);
    assert RootPath(scans[0]) == [root];
    assert Scanned(scans, [root]);
  }

  /** A directory holds `sub/name` as a kept header file exactly when it is the tree's own directory. */
  lemma NestedLocated(root: string, sub: string, name: string, hidden: string, other: string, accept: set<string>, p: Path)
    requires TreeNames(root, sub, name, hidden, other, accept)
    ensures Located([ScanRoot([], Tree(root, sub, name, hidden, other))], accept, p, [sub, name]) <==> p == [root]
  {
    var scans := [ScanRoot([], Tree(root, sub, name, hidden, other))];
    var segs := [sub, name];
    assert (p + segs)[0..] == p + segs;
    TreeFiles(root, sub, name, hidden, other, accept, p + segs);
    if p + segs == [root, sub, name] {
      assert p == (p + segs)[..|p|];
    }
    assert Below([], p);
    if p == [root] {
      assert p + segs == [root, sub, name];
      assert Below(scans[0].dir, p) && IsIndexedFile(scans[0].entry, (p + segs)[|scans[0].dir|..], accept);
    }
  }

  /** The search of "sub/name" in the tree's index reports exactly the tree's own directory. */
  lemma NestedHeaderFound(root: string, sub: string, name: string, hidden: string, other: string, accept: set<string>)
    requires TreeNames(root, sub, name, hidden, other, accept)
    ensures var scans := [ScanRoot([], Tree(root, sub, name, hidden, other))];
      && AllWellNamed(scans) && BuildIndex(scans, accept).Success?
      && var r := Resolve(BuildIndex(scans, accept).value, [[root]], sub + "/" + name);
      && r.Success? && forall p :: p in r.value <==> p == [root]
  {
    var scans := [ScanRoot([], Tree(root, sub, name, hidden, other))];
    TreeBuilds(root, sub, name, hidden, other, accept);
    var f := BuildIndex(scans, accept).value;
    var order := [[root]];
    var h := sub + "/" + name;
    assert Enumerates(order, f.roots);
    SegmentsOfPair(sub, name);
    forall p
      ensures (Resolve(f, order, h).Success? && p in Resolve(f, order, h).value) <==> p == [root]
    {
      ResolveExact(scans, accept, order, h, p);
      NestedLocated(root, sub, name, hidden, other, accept, p);
    }
    assert Resolve(f, order, h).Success? by {
      ResolveExact(scans, accept, order, h, [root]);
      NestedLocated(root, sub, name, hidden, other, accept, [root]);
    }
  }

  /** "/sub/name" is searched as "sub/name". */
  lemma NestedHeaderSlash(root: string, sub: string, name: string, hidden: string, other: string, accept: set<string>)
    requires TreeNames(root, sub, name, hidden, other, accept)
    ensures var scans := [ScanRoot([], Tree(root, sub, name, hidden, other))];
      && AllWellNamed(scans) && BuildIndex(scans, accept).Success?
      && var f := BuildIndex(scans, accept).value;
      && Resolve(f, [[root]], "/" + sub + "/" + name) == Resolve(f, [[root]], sub + "/" + name)
  {
    var scans := [ScanRoot([], Tree(root, sub, name, hidden, other))];
    TreeBuilds(root, sub, name, hidden, other, accept);
    var f := BuildIndex(scans, accept).value;
    var h := sub + "/" + name;
    assert "/" + sub + "/" + name == "/" + h;
    assert h[0] == sub[0];
    ResolveLeadingSlash(f, [[root]], h);
  }

  /** A header whose path elements never name the tree's header file is not found. */
  lemma MissingHeaderNotFound(root: string, sub: string, name: string, hidden: string, other: string, accept: set<string>, h: string)
    requires TreeNames(root, sub, name, hidden, other, accept)
    requires name !in Segments(h)
    ensures var scans := [ScanRoot([], Tree(root, sub, name, hidden, other))];
      && AllWellNamed(scans) && BuildIndex(scans, accept).Success?
      && Resolve(BuildIndex(scans, accept).value, [[root]], h) == Failure(NotFound)
  {
    var scans := [ScanRoot([], Tree(root, sub, name, hidden, other))];
    TreeBuilds(root, sub, name, hidden, other, accept);
    BuildIndexShape(scans, accept);
    var f := BuildIndex(scans, accept).value;
    var order := [[root]];
    assert Enumerates(order, f.roots);
    var segs := Segments(h);
    var r := Resolve(f, order, h);
    if r.Success? {
      ResolveCount(f, order, h);
      var p := r.value[0];
      ResolveSound(scans, accept, order, h, p);
      assert (p + segs)[0..] == p + segs;
      TreeFiles(root, sub, name, hidden, other, accept, p + segs);
      assert false;
    }
  }

  /** The hidden file is never found, even under a header naming it. */
  lemma HiddenNotFound(root: string, sub: string, name: string, hidden: string, other: string, accept: set<string>)
    requires TreeNames(root, sub, name, hidden, other, accept)
    requires '/' !in hidden
    ensures var scans := [ScanRoot([], Tree(root, sub, name, hidden, other))];
      && AllWellNamed(scans) && BuildIndex(scans, accept).Success?
      && Resolve(BuildIndex(scans, accept).value, [[root]], "/" + hidden).Failure?
  {
    assert hidden != name by {
      assert IndexHidden(hidden);
    }
    SplitNoSep(hidden, '/');
    assert ("/" + hidden)[1..] == hidden;
    assert Segments("/" + hidden) == [hidden];
    MissingHeaderNotFound(root, sub, name, hidden, other, accept, "/" + hidden);
  }

  /** The file whose extension is not accepted is never found, even under a header naming it. */
  lemma WrongExtensionNotFound(root: string, sub: string, name: string, hidden: string, other: string, accept: set<string>)
    requires TreeNames(root, sub, name, hidden, other, accept)
    requires '/' !in other
    ensures var scans := [ScanRoot([], Tree(root, sub, name, hidden, other))];
      && AllWellNamed(scans) && BuildIndex(scans, accept).Success?
      && Resolve(BuildIndex(scans, accept).value, [[root]], other).Failure?
  {
    assert other != name;
    SplitNoSep(other, '/');
    MissingHeaderNotFound(root, sub, name, hidden, other, accept, other);
  }

  /** A directory holds `name` as a kept header file exactly when it is `sub`. */
  lemma BaseLocated(root: string, sub: string, name: string, hidden: string, other: string, accept: set<string>, p: Path)
    requires TreeNames(root, sub, name, hidden, other, accept)
    ensures Located([ScanRoot([], Tree(root, sub, name, hidden, other))], accept, p, [name]) <==> p == [root, sub]
  {
    var scans := [ScanRoot([], Tree(root, sub, name, hidden, other))];
    assert (p + [name])[0..] == p + [name];
    TreeFiles(root, sub, name, hidden, other, accept, p + [name]);
    if p + [name] == [root, sub, name] {
      assert p == (p + [name])[..|p|];
    }
    assert Below([], p);
    if p == [root, sub] {
      assert p + [name] == [root, sub, name];
      assert Below(scans[0].dir, p) && IsIndexedFile(scans[0].entry, (p + [name])[|scans[0].dir|..], accept);
    }
  }

  /**
   The entry of another kind named like the header file is not indexed: a
   search for that name reports the directory of the real header file and
   not the tree's own directory, which holds the other entry.
   */
  lemma ForeignNotFound(root: string, sub: string, name: string, hidden: string, other: string, accept: set<string>)
    requires TreeNames(root, sub, name, hidden, other, accept)
    ensures var scans := [ScanRoot([], Tree(root, sub, name, hidden, other))];
      && AllWellNamed(scans) && BuildIndex(scans, accept).Success?
      && var r := Resolve(BuildIndex(scans, accept).value, [[root]], name);
      && r.Success? && [root] !in r.value && forall p :: p in r.value <==> p == [root, sub]
  {
    var scans := [ScanRoot([], Tree(root, sub, name, hidden, other))];
    TreeBuilds(root, sub, name, hidden, other, accept);
    var f := BuildIndex(scans, accept).value;
    var order := [[root]];
    assert Enumerates(order, f.roots);
    SplitNoSep(name, '/');
    assert StripSlash(name) == name;
    assert Segments(name) == [name];
    forall p
      ensures (Resolve(f, order, name).Success? && p in Resolve(f, order, name).value) <==> p == [root, sub]
    {
      ResolveExact(scans, accept, order, name, p);
      BaseLocated(root, sub, name, hidden, other, accept, p);
    }
    assert Resolve(f, order, name).Success? by {
      ResolveExact(scans, accept, order, name, [root, sub]);
      BaseLocated(root, sub, name, hidden, other, accept, [root, sub]);
    }
  }

  /** Two roots `a` and `b`, each holding `name`. */
  function TwoRoots(a: string, b: string, name: string): seq<ScanRoot>
  {
    [ScanRoot([], Dir(a, [File(name)])), ScanRoot([], Dir(b, [File(name)]))]
  }

  lemma TwoRootsFiles(a: string, b: string, name: string, accept: set<string>, j: nat, rel: Path)
    requires PlainName(a) && PlainName(b) && PlainName(name) && Ext(name) in accept
    requires j < 2
    ensures var e := TwoRoots(a, b, name)[j].entry;
      IsIndexedFile(e, rel, accept) <==> rel == [e.name, name]
  {
    var e := TwoRoots(a, b, name)[j].entry;
    if rel == [e.name, name] {
      assert rel[1..] == [name];
      assert IsIndexedFile(e.entries[0], rel[1..], accept);
    }
    if IsIndexedFile(e, rel, accept) {
      var i :| 0 <= i < |e.entries| && IsIndexedFile(e.entries[i], rel[1..], accept);
      assert rel == [rel[0], rel[1]];
    }
  }

  lemma TwoRootsBuild(a: string, b: string, name: string, accept: set<string>)
    requires PlainName(a) && PlainName(b) && a != b && PlainName(name)
    ensures var scans := TwoRoots(a, b, name);
      && AllWellNamed(scans) && DistinctRoots(scans) && BuildIndex(scans, accept).Success?
      && BuildIndex(scans, accept).value.roots.Keys == {[a], [b]}
  {
    var scans := TwoRoots(a, b, name);
    assert WellNamed(scans[0].entry.entries[0]) && WellNamed(scans[1].entry.entries[0]);
    assert AllWellNamed(scans);
    assert !HasUnreadable(scans[0].entry.entries[0]) && !HasUnreadable(scans[1].entry.entries[0]);
    assert !HasUnreadable(scans[0].entry) && !HasUnreadable(scans[1].entry);
    BuildIndexShape(scans, accept);
    assert RootPath(scans[0]) == [a] && RootPath(scans[1]) == [b];
    assert Scanned(scans, [a]) && Scanned(scans, [b]);
  }

  /** A directory is reported for `name` exactly when it is one of the two roots. */
  lemma TwoRootsLocated(a: string, b: string, name: string, accept: set<string>, p: Path)
    requires PlainName(a) && PlainName(b) && a != b && PlainName(name) && Ext(name) in accept
    ensures Located(TwoRoots(a, b, name), accept, p, [name]) <==> p == [a] || p == [b]
  {
    var scans := TwoRoots(a, b, name);
    assert (p + [name])[0..] == p + [name];
    TwoRootsFiles(a, b, name, accept, 0, p + [name]);
    TwoRootsFiles(a, b, name, accept, 1, p + [name]);
    assert Below([], p);
    if p + [name] == [a, name] || p + [name] == [b, name] {
      assert p == (p + [name])[..|p|];
    }
    if p == [a] {
      assert p + [name] == [a, name];
      assert Located(scans, accept, p, [name]) by {
        assert Below(scans[0].dir, p) && IsIndexedFile(scans[0].entry, (p + [name])[|scans[0].dir|..], accept);
      }
    }
    if p == [b] {
      assert p + [name] == [b, name];
      assert Located(scans, accept, p, [name]) by {
        assert Below(scans[1].dir, p) && IsIndexedFile(scans[1].entry, (p + [name])[|scans[1].dir|..], accept);
      }
    }
  }

  /** A base name present under two distinct roots is found under both, and nowhere else. */
  lemma SameNameUnderTwoRoots(a: string, b: string, name: string, accept: set<string>)
    requires PlainName(a) && PlainName(b) && a != b && PlainName(name) && Ext(name) in accept
    ensures var scans := TwoRoots(a, b, name);
      && AllWellNamed(scans) && BuildIndex(scans, accept).Success?
      && var f := BuildIndex(scans, accept).value;
      && Resolve(f, [[a], [b]], name).Success?
      && forall p :: p in Resolve(f, [[a], [b]], name).value <==> p == [a] || p == [b]
  {
    var scans := TwoRoots(a, b, name);
    TwoRootsBuild(a, b, name, accept);
    var f := BuildIndex(scans, accept).value;
    var order := [[a], [b]];
    assert Enumerates(order, f.roots);
    SplitNoSep(name, '/');
    assert Segments(name) == [name];
    forall p
      ensures (Resolve(f, order, name).Success? && p in Resolve(f, order, name).value) <==> p == [a] || p == [b]
    {
      ResolveExact(scans, accept, order, name, p);
      TwoRootsLocated(a, b, name, accept, p);
    }
    assert Resolve(f, order, name).Success? by {
      ResolveExact(scans, accept, order, name, [a]);
      TwoRootsLocated(a, b, name, accept, [a]);
    }
  }
}
