/**
 The forest built by scanning every header root in turn (`tree.Scan` in
 `main`'s loop over the `-s` roots): how each scan changes the forest, what
 the finished forest holds, and the search theorems about it.
 */
module HeaderIndexForest {
  import opened Seqs
  import opened Text
  import opened FileSystem
  import opened HeaderIndex
  import opened HeaderIndexFollow
  import opened HeaderIndexBuild
  import opened HeaderIndexLinks

  /** The absolute path a scan registers its sentinel root under. */
  function RootPath(s: ScanRoot): Path
  {
    s.dir + [s.entry.name]
  }

  /** Some scan registers a root under `p`. */
  predicate Scanned(scans: seq<ScanRoot>, p: Path)
  {
    exists j :: 0 <= j < |scans| && RootPath(scans[j]) == p
  }

  /** Every node of `a` is in `b` unchanged. */
  ghost predicate Frozen(a: Index, b: Index)
  {
    forall id :: id in a.nodes ==> id in b.nodes && b.nodes[id] == a.nodes[id]
  }

  /** Every registered root is a sentinel node. */
  ghost predicate RootsAreSentinels(f: Forest)
  {
    forall p :: p in f.roots ==> f.roots[p] in f.idx.nodes && f.idx.nodes[f.roots[p]].name == ""
  }

  /** A scan leaves every existing node as it was and adds nodes only under new ids. */
  lemma ScanGrowsIndex(f: Forest, dir: Path, e: Entry, accept: set<string>)
    requires Fresh(f.idx) && WellNamed(e)
    ensures var r := Scan(f, dir, e, accept);
      r.Success? ==>
        && Fresh(r.value.idx) && r.value.idx.next > f.idx.next
        && Extends(f.idx, r.value.idx) && Frozen(f.idx, r.value.idx) && OnlyNewIds(f.idx, r.value.idx)
  {
    var (idx1, root) := NewNode(f.idx, "", []);
    NewNodeGrows(f.idx, "", []);
    var b := BuildEntry(idx1, root, dir, e, accept);
    BuildEntryGrows(idx1, root, dir, e, accept);
    if b.Success? {
      ExtendsTransitive(f.idx, idx1, b.value.0);
    }
  }

  /** The sentinel root a scan registers keeps its empty name and its node. */
  lemma ScanNewRoot(f: Forest, dir: Path, e: Entry, accept: set<string>)
    requires Fresh(f.idx) && WellNamed(e)
    ensures var r := Scan(f, dir, e, accept);
      r.Success? ==> f.idx.next in r.value.idx.nodes && r.value.idx.nodes[f.idx.next].name == ""
  {
    var (idx1, root) := NewNode(f.idx, "", []);
    NewNodeGrows(f.idx, "", []);
    var b := BuildEntry(idx1, root, dir, e, accept);
    BuildEntryGrows(idx1, root, dir, e, accept);
    assert root in idx1.nodes && idx1.nodes[root].name == "";
  }

  /** A scan keeps every registered root a sentinel node. */
  lemma ScanKeepsSentinels(f: Forest, dir: Path, e: Entry, accept: set<string>)
    requires Fresh(f.idx) && WellNamed(e) && RootsAreSentinels(f)
    ensures var r := Scan(f, dir, e, accept);
      r.Success? ==> RootsAreSentinels(r.value)
  {
    ScanGrowsIndex(f, dir, e, accept);
    ScanNewRoot(f, dir, e, accept);
  }

  /** A scan keeps every link and every root pointing at a node. */
  lemma ScanKeepsSearchable(f: Forest, dir: Path, e: Entry, accept: set<string>)
    requires Fresh(f.idx) && WellNamed(e) && Searchable(f)
    ensures var r := Scan(f, dir, e, accept);
      r.Success? ==> Searchable(r.value)
  {
    ScanGrowsIndex(f, dir, e, accept);
    ScanNewRoot(f, dir, e, accept);
    var (idx1, root) := NewNode(f.idx, "", []);
    NewNodeGrows(f.idx, "", []);
    BuildEntryGrows(idx1, root, dir, e, accept);
  }

  /**
   A scan leaves every existing node as it was, adds nodes only under new
   ids, registers its sentinel root under the scanned path and keeps the
   index searchable.
   */
  lemma ScanGrows(f: Forest, dir: Path, e: Entry, accept: set<string>)
    requires Fresh(f.idx) && WellNamed(e)
    ensures var r := Scan(f, dir, e, accept);
      r.Success? ==>
        && Fresh(r.value.idx) && r.value.idx.next > f.idx.next
        && Extends(f.idx, r.value.idx) && Frozen(f.idx, r.value.idx) && OnlyNewIds(f.idx, r.value.idx)
        && (RootsAreSentinels(f) ==> RootsAreSentinels(r.value))
        && (Searchable(f) ==> Searchable(r.value))
  {
    ScanGrowsIndex(f, dir, e, accept);
    if RootsAreSentinels(f) {
      ScanKeepsSentinels(f, dir, e, accept);
    }
    if Searchable(f) {
      ScanKeepsSearchable(f, dir, e, accept);
    }
  }

  /** A scan fails exactly when the tree holds an entry it cannot stat outside hidden directories. */
  lemma ScanOutcome(f: Forest, dir: Path, e: Entry, accept: set<string>)
    requires Fresh(f.idx) && WellNamed(e)
    ensures Scan(f, dir, e, accept).Failure? <==> HasUnreadable(e)
  {
    var (idx1, root) := NewNode(f.idx, "", []);
    NewNodeGrows(f.idx, "", []);
    BuildEntryOutcome(idx1, root, dir, e, accept);
  }

  /** The new sentinel root holds exactly the base names of the files the scan keeps. */
  lemma ScanRootKeys(f: Forest, dir: Path, e: Entry, accept: set<string>)
    requires Fresh(f.idx) && WellNamed(e)
    ensures var r := Scan(f, dir, e, accept);
      r.Success? ==> var root := r.value.roots[dir + [e.name]];
        root in r.value.idx.nodes && forall k :: k in r.value.idx.nodes[root].links <==> HasFileNamed(e, k, accept)
  {
    var (idx1, root) := NewNode(f.idx, "", []);
    NewNodeGrows(f.idx, "", []);
    var b := BuildEntry(idx1, root, dir, e, accept);
    BuildEntryOutcome(idx1, root, dir, e, accept);
    if b.Success? {
      BuildEntryRootKeys(idx1, root, dir, e, accept);
    } else if b.error.Skip? {
      SkippedHoldsNothing(e, accept);
    }
  }

  /** The links of a scan's nodes are backed by the scanned tree. */
  lemma ScanSound(f: Forest, dir: Path, e: Entry, accept: set<string>)
    requires Fresh(f.idx) && WellNamed(e)
    ensures var r := Scan(f, dir, e, accept);
      r.Success? ==> ScanInv(r.value.idx, f.idx.next, r.value.idx.next, dir, ScanFiles(dir, e, accept))
  {
    var files := ScanFiles(dir, e, accept);
    var (idx1, root) := NewNode(f.idx, "", []);
    NewNodeGrows(f.idx, "", []);
    assert ScanInv(idx1, root, idx1.next, dir, files) by {
      forall id, k, x | id in idx1.nodes && root <= id < idx1.next && x in LinksAt(idx1.nodes[id], k)
        ensures false
      {
      }
    }
    forall rel | IsIndexedFile(e, rel, accept)
      ensures dir + rel in files
    {
      assert (dir + rel)[|dir|..] == rel;
      assert (dir + rel)[..|dir|] == dir;
    }
    assert Below(dir, dir);
    BuildEntrySound(idx1, root, dir, files, root, dir, e, accept);
  }

  /** Every file a scan keeps, split anywhere, is reached from the new sentinel root. */
  lemma ScanComplete(f: Forest, dir: Path, e: Entry, accept: set<string>)
    requires Fresh(f.idx) && WellNamed(e)
    ensures var r := Scan(f, dir, e, accept);
      r.Success? ==> forall rel :: IsIndexedFile(e, rel, accept) ==>
        ReachesAll(r.value.idx, r.value.roots[dir + [e.name]], dir, rel)
  {
    var (idx1, root) := NewNode(f.idx, "", []);
    NewNodeGrows(f.idx, "", []);
    var b := BuildEntry(idx1, root, dir, e, accept);
    BuildEntryOutcome(idx1, root, dir, e, accept);
    if b.Success? {
      BuildEntryComplete(idx1, root, dir, e, accept);
    } else if b.error.Skip? {
      SkippedHoldsNothing(e, accept);
    }
  }

  lemma GrowsTransitive(a: Index, b: Index, c: Index)
    requires Frozen(a, b) && OnlyNewIds(a, b) && b.next >= a.next
    requires Frozen(b, c) && OnlyNewIds(b, c) && c.next >= b.next
    ensures Frozen(a, c) && OnlyNewIds(a, c)
  {
  }

  /** `ScanAll` on a non-empty list: the first scan, then the rest from its forest. */
  lemma ScanAllCons(f: Forest, scans: seq<ScanRoot>, accept: set<string>)
    requires Fresh(f.idx) && AllWellNamed(scans) && scans != []
    ensures WellNamed(scans[0].entry) && AllWellNamed(scans[1..])
    ensures var first := Scan(f, scans[0].dir, scans[0].entry, accept);
      && (first.Failure? ==> ScanAll(f, scans, accept) == Failure(first.error))
      && (first.Success? ==> ScanAll(f, scans, accept) == ScanAll(first.value, scans[1..], accept))
  {
    assert WellNamed(scans[0].entry);
    forall j | 0 <= j < |scans[1..]|
      ensures WellNamed(scans[1..][j].entry)
    {
      assert scans[1..][j] == scans[j + 1];
    }
  }

  /** Scanning all roots in turn leaves the existing nodes as they were and keeps the forest searchable. */
  lemma {:induction false} ScanAllGrows(f: Forest, scans: seq<ScanRoot>, accept: set<string>)
    requires Fresh(f.idx) && AllWellNamed(scans)
    ensures var r := ScanAll(f, scans, accept);
      r.Success? ==>
        && Fresh(r.value.idx) && r.value.idx.next >= f.idx.next
        && Extends(f.idx, r.value.idx) && Frozen(f.idx, r.value.idx) && OnlyNewIds(f.idx, r.value.idx)
        && (RootsAreSentinels(f) ==> RootsAreSentinels(r.value))
        && (Searchable(f) ==> Searchable(r.value))
    decreases |scans|
  {
    var r := ScanAll(f, scans, accept);
    if scans != [] && r.Success? {
      var s := scans[0];
      ScanAllCons(f, scans, accept);
      ScanGrows(f, s.dir, s.entry, accept);
      var f1 := Scan(f, s.dir, s.entry, accept).value;
      ScanAllGrows(f1, scans[1..], accept);
      ExtendsTransitive(f.idx, f1.idx, r.value.idx);
      GrowsTransitive(f.idx, f1.idx, r.value.idx);
    }
  }

  /** A path is scanned by a non-empty list exactly when the first scan or a later one registers it. */
  lemma ScannedCons(scans: seq<ScanRoot>, p: Path)
    requires scans != []
    ensures Scanned(scans, p) <==> p == RootPath(scans[0]) || Scanned(scans[1..], p)
  {
    var rest := scans[1..];
    if Scanned(scans, p) {
      var j :| 0 <= j < |scans| && RootPath(scans[j]) == p;
      if j > 0 {
        assert rest[j - 1] == scans[j];
      }
    }
    if Scanned(rest, p) {
      var j :| 0 <= j < |rest| && RootPath(rest[j]) == p;
      assert scans[j + 1] == rest[j];
    }
  }

  /**
   The registered root paths after scanning are the old ones and the
   scanned ones; a root no scan touches keeps its sentinel.
   */
  lemma {:induction false} ScanAllRoots(f: Forest, scans: seq<ScanRoot>, accept: set<string>)
    requires Fresh(f.idx) && AllWellNamed(scans)
    ensures var r := ScanAll(f, scans, accept);
      r.Success? ==>
        && (forall p :: p in r.value.roots <==> p in f.roots || Scanned(scans, p))
        && (forall p :: p in f.roots && !Scanned(scans, p) ==> r.value.roots[p] == f.roots[p])
    decreases |scans|
  {
    var r := ScanAll(f, scans, accept);
    if scans != [] && r.Success? {
      var s := scans[0];
      ScanAllCons(f, scans, accept);
      var f1 := Scan(f, s.dir, s.entry, accept).value;
      ScanAllRoots(f1, scans[1..], accept);
      forall p
        ensures Scanned(scans, p) <==> p == RootPath(s) || Scanned(scans[1..], p)
      {
        ScannedCons(scans, p);
      }
    }
  }

  /** Some scan of a non-empty list meets an unreadable entry exactly when the first or a later one does. */
  lemma UnreadableCons(scans: seq<ScanRoot>)
    requires scans != []
    ensures (exists j :: 0 <= j < |scans| && HasUnreadable(scans[j].entry)) <==>
      HasUnreadable(scans[0].entry) || exists j :: 0 <= j < |scans[1..]| && HasUnreadable(scans[1..][j].entry)
  {
    var rest := scans[1..];
    if exists j :: 0 <= j < |scans| && HasUnreadable(scans[j].entry) {
      var j :| 0 <= j < |scans| && HasUnreadable(scans[j].entry);
      if j > 0 {
        assert rest[j - 1] == scans[j];
      }
    }
    if exists j :: 0 <= j < |rest| && HasUnreadable(rest[j].entry) {
      var j :| 0 <= j < |rest| && HasUnreadable(rest[j].entry);
      assert scans[j + 1] == rest[j];
    }
  }

  /** Scanning all roots fails exactly when some root holds an entry the scan cannot stat. */
  lemma {:induction false} ScanAllOutcome(f: Forest, scans: seq<ScanRoot>, accept: set<string>)
    requires Fresh(f.idx) && AllWellNamed(scans)
    ensures ScanAll(f, scans, accept).Failure? <==> exists j :: 0 <= j < |scans| && HasUnreadable(scans[j].entry)
    decreases |scans|
  {
    if scans != [] {
      var s := scans[0];
      ScanAllCons(f, scans, accept);
      ScanOutcome(f, s.dir, s.entry, accept);
      var first := Scan(f, s.dir, s.entry, accept);
      if first.Success? {
        ScanAllOutcome(first.value, scans[1..], accept);
      }
      UnreadableCons(scans);
    }
  }

  /** The sentinel `r` was created by scanning `s`, and the nodes `r` to `hi` are that scan's. */
  ghost predicate RootSound(idx: Index, r: NodeId, hi: NodeId, s: ScanRoot, accept: set<string>)
  {
    && r in idx.nodes && idx.nodes[r].name == "" && r < hi <= idx.next
    && ScanInv(idx, r, hi, s.dir, ScanFiles(s.dir, s.entry, accept))
  }

  /** Every registered root comes from scanning one of `scans` and is sound for it. */
  ghost predicate ForestSound(f: Forest, scans: seq<ScanRoot>, accept: set<string>)
  {
    forall p :: p in f.roots ==> exists j, hi :: 0 <= j < |scans| && RootPath(scans[j]) == p && RootSound(f.idx, f.roots[p], hi, scans[j], accept)
  }

  lemma RootSoundFrozen(a: Index, b: Index, r: NodeId, hi: NodeId, s: ScanRoot, accept: set<string>)
    requires Frozen(a, b) && OnlyNewIds(a, b) && b.next >= a.next
    requires RootSound(a, r, hi, s, accept)
    ensures RootSound(b, r, hi, s, accept)
  {
    var files := ScanFiles(s.dir, s.entry, accept);
    forall id, k, x | id in b.nodes && r <= id < hi && x in LinksAt(b.nodes[id], k)
      ensures x < hi && LinkSound(b, r, s.dir, files, id, k, x)
    {
      assert id in a.nodes;
      assert LinkSound(a, r, s.dir, files, id, k, x);
    }
  }

  /** One more scan keeps every registered root sound for the scan that registered it. */
  lemma ForestSoundStep(f: Forest, done: seq<ScanRoot>, s: ScanRoot, accept: set<string>)
    requires Fresh(f.idx) && WellNamed(s.entry) && ForestSound(f, done, accept)
    requires Scan(f, s.dir, s.entry, accept).Success?
    ensures ForestSound(Scan(f, s.dir, s.entry, accept).value, done + [s], accept)
  {
    var f1 := Scan(f, s.dir, s.entry, accept).value;
    ScanGrowsIndex(f, s.dir, s.entry, accept);
    ScanNewRoot(f, s.dir, s.entry, accept);
    ScanSound(f, s.dir, s.entry, accept);
    var done1 := done + [s];
    forall p | p in f1.roots
      ensures exists j, hi :: 0 <= j < |done1| && RootPath(done1[j]) == p && RootSound(f1.idx, f1.roots[p], hi, done1[j], accept)
    {
      if p == RootPath(s) {
        assert done1[|done|] == s;
        assert RootSound(f1.idx, f1.roots[p], f1.idx.next, s, accept);
      } else {
        var j, hi :| 0 <= j < |done| && RootPath(done[j]) == p && RootSound(f.idx, f.roots[p], hi, done[j], accept);
        RootSoundFrozen(f.idx, f1.idx, f.roots[p], hi, done[j], accept);
        assert done1[j] == done[j];
      }
    }
  }

  /** Scanning more roots keeps every registered root sound for the scan that registered it. */
  lemma {:induction false} ScanAllSound(f: Forest, done: seq<ScanRoot>, todo: seq<ScanRoot>, accept: set<string>)
    requires Fresh(f.idx) && AllWellNamed(todo) && ForestSound(f, done, accept)
    ensures var r := ScanAll(f, todo, accept);
      r.Success? ==> ForestSound(r.value, done + todo, accept)
    decreases |todo|
  {
    var r := ScanAll(f, todo, accept);
    if todo == [] {
      assert done + todo == done;
    } else if r.Success? {
      var s := todo[0];
      ScanAllCons(f, todo, accept);
      var f1 := Scan(f, s.dir, s.entry, accept).value;
      ForestSoundStep(f, done, s, accept);
      ScanAllSound(f1, done + [s], todo[1..], accept);
      AppendHead(done, todo);
    }
  }

  /** Dropping the first scan keeps the later scans from sharing scan `j`'s root path. */
  lemma LaterRootsShift(scans: seq<ScanRoot>, j: nat)
    requires 0 < j < |scans|
    requires forall j' :: j < j' < |scans| ==> RootPath(scans[j']) != RootPath(scans[j])
    ensures var rest := scans[1..];
      forall j' :: j - 1 < j' < |rest| ==> RootPath(rest[j']) != RootPath(rest[j - 1])
  {
    var rest := scans[1..];
    forall j' | j - 1 < j' < |rest|
      ensures RootPath(rest[j']) != RootPath(rest[j - 1])
    {
      assert rest[j'] == scans[j' + 1] && rest[j - 1] == scans[j];
    }
  }

  /** No scan after the first shares its root path. */
  lemma FirstRootNotRescanned(scans: seq<ScanRoot>)
    requires scans != []
    requires forall j' :: 0 < j' < |scans| ==> RootPath(scans[j']) != RootPath(scans[0])
    ensures !Scanned(scans[1..], RootPath(scans[0]))
  {
    var rest := scans[1..];
    forall i | 0 <= i < |rest|
      ensures RootPath(rest[i]) != RootPath(scans[0])
    {
      assert rest[i] == scans[i + 1];
    }
  }

  /** A file kept by the first scan is reachable from the finished forest, unless a later scan replaced that root. */
  lemma ScanAllCompleteFirst(f: Forest, scans: seq<ScanRoot>, accept: set<string>, rel: Path)
    requires Fresh(f.idx) && AllWellNamed(scans)
    requires scans != [] && IsIndexedFile(scans[0].entry, rel, accept)
    requires forall j' :: 0 < j' < |scans| ==> RootPath(scans[j']) != RootPath(scans[0])
    requires ScanAll(f, scans, accept).Success?
    ensures var r := ScanAll(f, scans, accept).value;
      RootPath(scans[0]) in r.roots && ReachesAll(r.idx, r.roots[RootPath(scans[0])], scans[0].dir, rel)
  {
    var r := ScanAll(f, scans, accept);
    var s := scans[0];
    var rest := scans[1..];
    ScanAllCons(f, scans, accept);
    var f1 := Scan(f, s.dir, s.entry, accept).value;
    ScanComplete(f, s.dir, s.entry, accept);
    ScanAllGrows(f1, rest, accept);
    ScanAllRoots(f1, rest, accept);
    FirstRootNotRescanned(scans);
    ReachesAllMono(f1.idx, r.value.idx, f1.roots[RootPath(s)], s.dir, rel);
  }

  /** A file kept by scan `j` is reachable from the finished forest, unless a later scan replaced that root. */
  lemma {:induction false} ScanAllComplete(f: Forest, scans: seq<ScanRoot>, accept: set<string>, j: nat, rel: Path)
    requires Fresh(f.idx) && AllWellNamed(scans)
    requires j < |scans| && IsIndexedFile(scans[j].entry, rel, accept)
    requires forall j' :: j < j' < |scans| ==> RootPath(scans[j']) != RootPath(scans[j])
    ensures var r := ScanAll(f, scans, accept);
      r.Success? ==> (RootPath(scans[j]) in r.value.roots &&
                      ReachesAll(r.value.idx, r.value.roots[RootPath(scans[j])], scans[j].dir, rel))
    decreases |scans|
  {
    var r := ScanAll(f, scans, accept);
    if r.Success? {
      if j == 0 {
        ScanAllCompleteFirst(f, scans, accept, rel);
      } else {
        var s := scans[0];
        ScanAllCons(f, scans, accept);
        var f1 := Scan(f, s.dir, s.entry, accept).value;
        assert scans[1..][j - 1] == scans[j];
        LaterRootsShift(scans, j);
        ScanAllComplete(f1, scans[1..], accept, j - 1, rel);
      }
    }
  }
}
