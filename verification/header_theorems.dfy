/**
 What a search of the finished index answers. Scanning the header roots
 from an empty forest either fails on an unreadable entry or yields a
 searchable forest; a search then reports directory P for header h exactly
 when P + h is the path of a header file one of the scans kept, below the
 directory holding that scan's root (provided no two scans share a root
 path; otherwise only the later scan of that path is reachable).
 */
module HeaderIndexTheorems {
  import opened Seqs
  import opened Text
  import opened FileSystem
  import opened HeaderIndex
  import opened HeaderIndexFollow
  import opened HeaderIndexBuild
  import opened HeaderIndexLinks
  import opened HeaderIndexForest

  /** `main`'s index construction: a new tree, then every `-s` root scanned in turn. */
  function BuildIndex(scans: seq<ScanRoot>, accept: set<string>): Result<Forest, BuildError>
    requires AllWellNamed(scans)
  {
    ScanAll(EmptyForest, scans, accept)
  }

  /** `p` + `segs` is a header file kept by some scan, and `p` lies at or below the directory holding that scan's root. */
  ghost predicate Located(scans: seq<ScanRoot>, accept: set<string>, p: Path, segs: seq<string>)
  {
    exists j :: 0 <= j < |scans| && Below(scans[j].dir, p) && IsIndexedFile(scans[j].entry, (p + segs)[|scans[j].dir|..], accept)
  }

  /** No two scans register their roots under the same path. */
  predicate DistinctRoots(scans: seq<ScanRoot>)
  {
    forall j, j' :: 0 <= j < j' < |scans| ==> RootPath(scans[j]) != RootPath(scans[j'])
  }

  lemma {:induction false} ScanAllNoEmptyKeys(f: Forest, scans: seq<ScanRoot>, accept: set<string>)
    requires Fresh(f.idx) && AllWellNamed(scans) && NoEmptyKeys(f.idx)
    ensures var r := ScanAll(f, scans, accept);
      r.Success? ==> NoEmptyKeys(r.value.idx)
    decreases |scans|
  {
    var r := ScanAll(f, scans, accept);
    if scans != [] && r.Success? {
      var s := scans[0];
      ScanAllCons(f, scans, accept);
      ScanNoEmptyKeys(f, s.dir, s.entry, accept);
      ScanAllNoEmptyKeys(Scan(f, s.dir, s.entry, accept).value, scans[1..], accept);
    }
  }

  lemma ScanNoEmptyKeys(f: Forest, dir: Path, e: Entry, accept: set<string>)
    requires Fresh(f.idx) && WellNamed(e) && NoEmptyKeys(f.idx)
    ensures var r := Scan(f, dir, e, accept);
      r.Success? ==> NoEmptyKeys(r.value.idx)
  {
    var (idx1, root) := NewNode(f.idx, "", []);
    NewNodeGrows(f.idx, "", []);
    BuildEntryNoEmptyKeys(idx1, root, dir, e, accept);
  }

  /**
   Building the index fails exactly when some root holds an entry that
   cannot be stat'ed outside hidden directories; otherwise the forest is
   searchable, has a sentinel root for exactly the scanned paths, and no
   link under the empty name.
   */
  lemma BuildIndexShape(scans: seq<ScanRoot>, accept: set<string>)
    requires AllWellNamed(scans)
    ensures BuildIndex(scans, accept).Failure? <==> exists j :: 0 <= j < |scans| && HasUnreadable(scans[j].entry)
    ensures var r := BuildIndex(scans, accept);
      r.Success? ==>
        && Searchable(r.value) && RootsAreSentinels(r.value) && NoEmptyKeys(r.value.idx)
        && forall p :: p in r.value.roots <==> Scanned(scans, p)
  {
    ScanAllOutcome(EmptyForest, scans, accept);
    ScanAllGrows(EmptyForest, scans, accept);
    ScanAllRoots(EmptyForest, scans, accept);
    ScanAllNoEmptyKeys(EmptyForest, scans, accept);
  }

  /** Every root of the built index is sound for the scan that registered it. */
  lemma BuildIndexSound(scans: seq<ScanRoot>, accept: set<string>)
    requires AllWellNamed(scans) && BuildIndex(scans, accept).Success?
    ensures ForestSound(BuildIndex(scans, accept).value, scans, accept)
  {
    ScanAllSound(EmptyForest, [], scans, accept);
    assert [] + scans == scans;
  }

  /** A node a walk from a sound sentinel root reaches sits in a directory holding the rest of a kept file's path. */
  lemma RootLocated(idx: Index, y: NodeId, hi: NodeId, s: ScanRoot, accept: set<string>, segs: seq<string>, x: NodeId)
    requires RootSound(idx, y, hi, s, accept) && segs != [] && x in Follow(idx, [y], segs)
    ensures x in idx.nodes && Below(s.dir, idx.nodes[x].dir)
    ensures IsIndexedFile(s.entry, (idx.nodes[x].dir + segs)[|s.dir|..], accept)
  {
    FollowSound(idx, y, hi, s.dir, ScanFiles(s.dir, s.entry, accept), [y], segs, x);
  }

  /** Every directory a search of the index reports holds the header, as a file one of the scans kept. */
  lemma ResolveSound(scans: seq<ScanRoot>, accept: set<string>, order: seq<Path>, header: string, p: Path)
    requires AllWellNamed(scans) && BuildIndex(scans, accept).Success?
    requires Enumerates(order, BuildIndex(scans, accept).value.roots)
    requires var r := Resolve(BuildIndex(scans, accept).value, order, header); r.Success? && p in r.value
    ensures Located(scans, accept, p, Segments(header))
  {
    var f := BuildIndex(scans, accept).value;
    var segs := Segments(header);
    var starts := StartNodes(f.roots, order);
    var last := Follow(f.idx, starts, segs);
    BuildIndexSound(scans, accept);
    DirsMember(f.idx, last, p);
    var x :| x in last && x in f.idx.nodes && f.idx.nodes[x].dir == p;
    FollowFrom(f.idx, starts, segs, x);
    var y :| y in starts && x in Follow(f.idx, [y], segs);
    StartNodesMember(f.roots, order, y);
    var q :| q in f.roots && f.roots[q] == y;
    var j, hi :| 0 <= j < |scans| && RootPath(scans[j]) == q && RootSound(f.idx, y, hi, scans[j], accept);
    RootLocated(f.idx, y, hi, scans[j], accept, segs, x);
  }

  /** A path below `d`, extended by `segs`, splits at the end of that path back into it and `segs`. */
  lemma SplitBelow(d: Path, p: Path, segs: seq<string>)
    requires Below(d, p) && segs != []
    ensures var rel := (p + segs)[|d|..]; var k := |p| - |d|;
      0 <= k < |rel| && rel[k..] == segs && d + rel[..k] == p
  {
    var rel := (p + segs)[|d|..];
    var k := |p| - |d|;
    assert rel[k..] == segs;
    assert rel[..k] == p[|d|..];
    assert p == p[..|d|] + p[|d|..];
  }

  /**
   Every header file a scan kept is found under every split of its path
   into a directory at or below the directory holding the scan's root and
   a header suffix, unless a later scan registered a root under the same
   path.
   */
  lemma ResolveComplete(scans: seq<ScanRoot>, accept: set<string>, order: seq<Path>, header: string, j: nat, p: Path)
    requires AllWellNamed(scans) && BuildIndex(scans, accept).Success?
    requires Enumerates(order, BuildIndex(scans, accept).value.roots)
    requires j < |scans| && Below(scans[j].dir, p)
    requires IsIndexedFile(scans[j].entry, (p + Segments(header))[|scans[j].dir|..], accept)
    requires forall j' :: j < j' < |scans| ==> RootPath(scans[j']) != RootPath(scans[j])
    ensures var r := Resolve(BuildIndex(scans, accept).value, order, header); r.Success? && p in r.value
  {
    var f := BuildIndex(scans, accept).value;
    var segs := Segments(header);
    var d := scans[j].dir;
    var rel := (p + segs)[|d|..];
    var k := |p| - |d|;
    ScanAllComplete(EmptyForest, scans, accept, j, rel);
    var root := f.roots[RootPath(scans[j])];
    SplitBelow(d, p, segs);
    assert Reaches(f.idx, [root], rel[k..], d + rel[..k]);
    ReachedFromRoot(f, order, RootPath(scans[j]), segs, p);
  }

  /** A directory reached from one registered root is reported by the search from all of them. */
  lemma ReachedFromRoot(f: Forest, order: seq<Path>, q: Path, segs: seq<string>, p: Path)
    requires Enumerates(order, f.roots) && q in f.roots && Reaches(f.idx, [f.roots[q]], segs, p)
    ensures p in Dirs(f.idx, Follow(f.idx, StartNodes(f.roots, order), segs))
  {
    var root := f.roots[q];
    var x :| x in Follow(f.idx, [root], segs) && x in f.idx.nodes && f.idx.nodes[x].dir == p;
    var starts := StartNodes(f.roots, order);
    StartNodesMember(f.roots, order, root);
    FollowMono(f.idx, f.idx, [root], starts, segs, x);
    DirsMember(f.idx, Follow(f.idx, starts, segs), p);
  }

  /**
   With distinct root paths the answer is exact: a search reports `p`
   exactly when `p` + the header's elements is a kept header file located
   at or below the directory holding its scan's root.
   */
  lemma ResolveExact(scans: seq<ScanRoot>, accept: set<string>, order: seq<Path>, header: string, p: Path)
    requires AllWellNamed(scans) && DistinctRoots(scans) && BuildIndex(scans, accept).Success?
    requires Enumerates(order, BuildIndex(scans, accept).value.roots)
    ensures var r := Resolve(BuildIndex(scans, accept).value, order, header);
      (r.Success? && p in r.value) <==> Located(scans, accept, p, Segments(header))
  {
    var r := Resolve(BuildIndex(scans, accept).value, order, header);
    if r.Success? && p in r.value {
      ResolveSound(scans, accept, order, header, p);
    }
    if Located(scans, accept, p, Segments(header)) {
      var j :| 0 <= j < |scans| && Below(scans[j].dir, p) && IsIndexedFile(scans[j].entry, (p + Segments(header))[|scans[j].dir|..], accept);
      ResolveComplete(scans, accept, order, header, j, p);
    }
  }
}
