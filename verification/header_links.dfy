/**
 The two directions of what a scan's links mean. Soundness: every link
 added while scanning a tree is backed by that tree, so a walk from the
 scan's sentinel root only meets suffixes of files the scan kept.
 Completeness: for every file the scan kept and every way of splitting its
 path into a directory and a suffix, walking the suffix from the sentinel
 root reaches a node in that directory.
 */
module HeaderIndexLinks {
  import opened Seqs
  import opened Text
  import opened FileSystem
  import opened HeaderIndex
  import opened HeaderIndexFollow
  import opened HeaderIndexBuild

  /**
   The link from node `id` under `k` to node `x` fits a scan, rooted at
   `lo`, of a tree in directory `base` whose kept files are `files`: `x` is
   a node of this scan named `k`, at or below `base`; a link of the sentinel
   root names a kept file; any other link names the directory holding the
   linking entry.
   */
  ghost predicate LinkSound(idx: Index, lo: NodeId, base: Path, files: iset<Path>, id: NodeId, k: string, x: NodeId)
    requires id in idx.nodes
  {
    && lo <= x && x in idx.nodes && k != "" && idx.nodes[x].name == k && Below(base, idx.nodes[x].dir)
    && if idx.nodes[id].name == "" then idx.nodes[x].dir + [k] in files
       else idx.nodes[x].dir + [k] == idx.nodes[id].dir
  }

  /** Every link of the nodes `lo` to `hi` (exclusive) stays among them and fits the scan. */
  ghost predicate ScanInv(idx: Index, lo: NodeId, hi: NodeId, base: Path, files: iset<Path>)
  {
    forall id, k, x :: id in idx.nodes && lo <= id < hi && x in LinksAt(idx.nodes[id], k) ==>
      x < hi && LinkSound(idx, lo, base, files, id, k, x)
  }

  /** The files a scan of `e` in directory `dir` keeps, as full paths. */
  ghost function ScanFiles(dir: Path, e: Entry, accept: set<string>): iset<Path>
  {
    iset p | Below(dir, p) && IsIndexedFile(e, p[|dir|..], accept)
  }

  lemma NewNodeSound(idx: Index, lo: NodeId, base: Path, files: iset<Path>, name: string, dir: Path)
    requires Fresh(idx) && ScanInv(idx, lo, idx.next, base, files)
    ensures ScanInv(NewNode(idx, name, dir).0, lo, idx.next + 1, base, files)
  {
    var idx1 := NewNode(idx, name, dir).0;
    forall id, k, x | id in idx1.nodes && lo <= id < idx.next + 1 && x in LinksAt(idx1.nodes[id], k)
      ensures x < idx.next + 1 && LinkSound(idx1, lo, base, files, id, k, x)
    {
      assert id != idx.next;
      assert idx1.nodes[id] == idx.nodes[id];
      assert LinkSound(idx, lo, base, files, id, k, x);
      assert idx1.nodes[x] == idx.nodes[x];
    }
  }

  lemma AddChildSound(idx: Index, lo: NodeId, base: Path, files: iset<Path>, id: NodeId, child: NodeId)
    requires Fresh(idx) && ScanInv(idx, lo, idx.next, base, files)
    requires id in idx.nodes && child in idx.nodes && lo <= id
    requires LinkSound(idx, lo, base, files, id, idx.nodes[child].name, child)
    ensures ScanInv(AddChild(idx, id, child), lo, idx.next, base, files)
  {
    var idx1 := AddChild(idx, id, child);
    var c := idx.nodes[child].name;
    forall o, k, x | o in idx1.nodes && lo <= o < idx.next && x in LinksAt(idx1.nodes[o], k)
      ensures x < idx.next && LinkSound(idx1, lo, base, files, o, k, x)
    {
      if o == id && k == c {
        assert LinksAt(idx1.nodes[o], k) == LinksAt(idx.nodes[o], k) + [child];
        if x != child {
          assert x in LinksAt(idx.nodes[o], k);
        }
      } else {
        assert LinksAt(idx1.nodes[o], k) == LinksAt(idx.nodes[o], k);
      }
    }
  }

  /** Every file kept from the listing `es` of directory `dir` is among `files`. */
  ghost predicate ListingIn(dir: Path, es: seq<Entry>, files: iset<Path>, accept: set<string>)
  {
    forall i, rel :: 0 <= i < |es| && IsIndexedFile(es[i], rel, accept) ==> dir + rel in files
  }

  lemma ListingInCons(dir: Path, es: seq<Entry>, files: iset<Path>, accept: set<string>)
    requires es != [] && ListingIn(dir, es, files, accept)
    ensures forall rel :: IsIndexedFile(es[0], rel, accept) ==> dir + rel in files
    ensures ListingIn(dir, es[1..], files, accept)
  {
    forall i, rel | 0 <= i < |es[1..]| && IsIndexedFile(es[1..][i], rel, accept)
      ensures dir + rel in files
    {
      assert es[1..][i] == es[i + 1];
    }
  }

  /** The files kept from a directory's listing are the files kept from the directory, below its name. */
  lemma DirListingIn(dir: Path, e: Entry, files: iset<Path>, accept: set<string>)
    requires e.Dir? && !IndexHidden(e.name) && forall rel :: IsIndexedFile(e, rel, accept) ==> dir + rel in files
    ensures ListingIn(dir + [e.name], e.entries, files, accept)
  {
    var sub := dir + [e.name];
    forall i, rel | 0 <= i < |e.entries| && IsIndexedFile(e.entries[i], rel, accept)
      ensures sub + rel in files
    {
      assert IsIndexedFile(e, [e.name] + rel, accept) by {
        assert ([e.name] + rel)[1..] == rel;
      }
      assert sub + rel == dir + ([e.name] + rel);
    }
  }

  /** A scan keeps the links of its own nodes sound. */
  lemma {:induction false} BuildEntrySound(idx: Index, lo: NodeId, base: Path, files: iset<Path>,
                                           root: NodeId, dir: Path, e: Entry, accept: set<string>)
    requires Fresh(idx) && root in idx.nodes && WellNamed(e)
    requires ScanInv(idx, lo, idx.next, base, files)
    requires lo <= root && idx.nodes[root].name == "" && Below(base, dir)
    requires forall rel :: IsIndexedFile(e, rel, accept) ==> dir + rel in files
    ensures var r := BuildEntry(idx, root, dir, e, accept);
      r.Success? ==> ScanInv(r.value.0, lo, r.value.0.next, base, files)
    decreases e, 1
  {
    var r := BuildEntry(idx, root, dir, e, accept);
    if r.Success? {
      var (idx1, n) := NewNode(idx, e.name, dir);
      NewNodeGrows(idx, e.name, dir);
      NewNodeSound(idx, lo, base, files, e.name, dir);
      assert idx1.nodes[root] == idx.nodes[root];
      if e.File? {
        assert IsIndexedFile(e, [e.name], accept);
        AddChildSound(idx1, lo, base, files, root, n);
      } else {
        DirListingIn(dir, e, files, accept);
        BuildEntriesSound(idx1, lo, base, files, root, dir + [e.name], n, e.entries, accept);
      }
    }
  }

  /** What the scan of a listing of directory node `n`, at path `dir`, needs of the index to keep it sound. */
  ghost predicate ListingReady(idx: Index, lo: NodeId, base: Path, files: iset<Path>, root: NodeId, dir: Path, n: NodeId)
  {
    && Fresh(idx) && root in idx.nodes && n in idx.nodes
    && ScanInv(idx, lo, idx.next, base, files)
    && lo <= root && idx.nodes[root].name == ""
    && lo <= n && idx.nodes[n].name != "" && Below(base, idx.nodes[n].dir) && PathOf(idx.nodes[n]) == dir
  }

  /** Linking the node `m` of a scanned entry to its directory node `n` keeps the listing's scan ready to go on. */
  lemma LinkUpSound(idx: Index, idx1: Index, lo: NodeId, base: Path, files: iset<Path>, root: NodeId, dir: Path, m: NodeId, n: NodeId)
    requires ListingReady(idx, lo, base, files, root, dir, n)
    requires Fresh(idx1) && ScanInv(idx1, lo, idx1.next, base, files) && KeepsNodes(idx, idx1)
    requires m in idx1.nodes && lo <= m && idx1.nodes[m].dir == dir && idx1.nodes[m].name != ""
    ensures n in idx1.nodes && ListingReady(AddChild(idx1, m, n), lo, base, files, root, dir, n)
  {
    assert LinkSound(idx1, lo, base, files, m, idx1.nodes[n].name, n);
    AddChildSound(idx1, lo, base, files, m, n);
  }

  /** The directory a listing's entries sit in lies at or below the scan's base. */
  lemma ReadyBelow(idx: Index, lo: NodeId, base: Path, files: iset<Path>, root: NodeId, dir: Path, n: NodeId)
    requires ListingReady(idx, lo, base, files, root, dir, n)
    ensures Below(base, dir)
  {
    assert dir[..|base|] == idx.nodes[n].dir[..|base|];
  }

  lemma {:induction false} BuildEntriesSound(idx: Index, lo: NodeId, base: Path, files: iset<Path>,
                                             root: NodeId, dir: Path, n: NodeId, es: seq<Entry>, accept: set<string>)
    requires ListingReady(idx, lo, base, files, root, dir, n)
    requires forall i :: 0 <= i < |es| ==> WellNamed(es[i])
    requires ListingIn(dir, es, files, accept)
    ensures var r := BuildEntries(idx, root, dir, n, es, accept);
      r.Success? ==> ScanInv(r.value, lo, r.value.next, base, files)
    decreases es, 0
  {
    if es != [] {
      var first := BuildEntry(idx, root, dir, es[0], accept);
      BuildEntriesCons(idx, root, dir, n, es, accept);
      BuildEntryGrows(idx, root, dir, es[0], accept);
      ListingInCons(dir, es, files, accept);
      if first.Success? {
        var (idx1, m) := first.value;
        ReadyBelow(idx, lo, base, files, root, dir, n);
        BuildEntrySound(idx, lo, base, files, root, dir, es[0], accept);
        LinkUpSound(idx, idx1, lo, base, files, root, dir, m, n);
        BuildEntriesSound(AddChild(idx1, m, n), lo, base, files, root, dir, n, es[1..], accept);
      } else if first.error.Skip? {
        BuildEntriesSound(idx, lo, base, files, root, dir, n, es[1..], accept);
      }
    }
  }

  /** A walk of nodes of a sound scan, starting at sentinel roots, only meets suffixes of the scan's kept files. */
  lemma {:induction false} FollowSound(idx: Index, lo: NodeId, hi: NodeId, base: Path, files: iset<Path>,
                                       l: seq<NodeId>, segs: seq<string>, x: NodeId)
    requires ScanInv(idx, lo, hi, base, files)
    requires forall y :: y in l ==> lo <= y < hi && y in idx.nodes && idx.nodes[y].name == ""
    requires segs != [] && x in Follow(idx, l, segs)
    ensures lo <= x < hi && x in idx.nodes && idx.nodes[x].name == segs[0] && segs[0] != ""
    ensures Below(base, idx.nodes[x].dir) && idx.nodes[x].dir + segs in files
    decreases |segs|
  {
    var tail := segs[1..];
    StepMember(idx, Follow(idx, l, tail), segs[0], x);
    var y :| y in Follow(idx, l, tail) && y in idx.nodes && x in LinksAt(idx.nodes[y], segs[0]);
    if tail == [] {
      assert LinkSound(idx, lo, base, files, y, segs[0], x);
      assert segs == [segs[0]];
    } else {
      FollowSound(idx, lo, hi, base, files, l, tail, y);
      assert LinkSound(idx, lo, base, files, y, segs[0], x);
      assert idx.nodes[x].dir + segs == (idx.nodes[x].dir + [segs[0]]) + tail;
    }
  }

  /** Walking `segs` from `l` reaches some node sitting in directory `p`. */
  ghost predicate Reaches(idx: Index, l: seq<NodeId>, segs: seq<string>, p: Path)
  {
    exists x :: x in Follow(idx, l, segs) && x in idx.nodes && idx.nodes[x].dir == p
  }

  /** For every split of `rel` into a head and a suffix, walking the suffix from `root` reaches directory `dir` + head. */
  ghost predicate ReachesAll(idx: Index, root: NodeId, dir: Path, rel: Path)
  {
    forall k :: 0 <= k < |rel| ==> Reaches(idx, [root], rel[k..], dir + rel[..k])
  }

  lemma ReachesAllMono(a: Index, b: Index, root: NodeId, dir: Path, rel: Path)
    requires Extends(a, b) && ReachesAll(a, root, dir, rel)
    ensures ReachesAll(b, root, dir, rel)
  {
    forall k | 0 <= k < |rel|
      ensures Reaches(b, [root], rel[k..], dir + rel[..k])
    {
      var x :| x in Follow(a, [root], rel[k..]) && x in a.nodes && a.nodes[x].dir == dir + rel[..k];
      FollowMono(a, b, [root], [root], rel[k..], x);
    }
  }

  /** A file node registered under the sentinel root is found by its base name, in its directory. */
  lemma FileFound(idx: Index, root: NodeId, n: NodeId)
    requires root in idx.nodes && n in idx.nodes
    ensures var idx' := AddChild(idx, root, n);
      var name := idx.nodes[n].name;
      n in Follow(idx', [root], [name]) && ReachesAll(idx', root, idx.nodes[n].dir, [name])
  {
    var idx' := AddChild(idx, root, n);
    var name := idx.nodes[n].name;
    var rel := [name];
    StepMember(idx', [root], name, n);
    assert Follow(idx', [root], rel) == Step(idx', [root], name);
    assert rel[..0] == [] && rel[0..] == rel;
    assert idx'.nodes[n] == idx.nodes[n] || n == root;
  }

  /** The split after `k` + 1 elements of `[name] + rel` is the split after `k` elements of `rel`, below `name`. */
  lemma SplitShift(dir: Path, name: string, rel: Path, k: nat)
    requires k < |rel|
    ensures ([name] + rel)[k + 1..] == rel[k..]
    ensures dir + ([name] + rel)[..k + 1] == (dir + [name]) + rel[..k]
  {
    assert ([name] + rel)[..k + 1] == [name] + rel[..k];
  }

  /** The splits of a path below a directory node extend to the path through that directory. */
  lemma DirFound(idx: Index, root: NodeId, dir: Path, name: string, n: NodeId, rel: Path)
    requires n in idx.nodes && idx.nodes[n].dir == dir
    requires n in Follow(idx, [root], [name] + rel)
    requires ReachesAll(idx, root, dir + [name], rel)
    ensures ReachesAll(idx, root, dir, [name] + rel)
  {
    var full := [name] + rel;
    forall k | 0 <= k < |full|
      ensures Reaches(idx, [root], full[k..], dir + full[..k])
    {
      if k == 0 {
        assert full[0..] == full;
        assert dir + full[..0] == dir;
      } else {
        SplitShift(dir, name, rel, k - 1);
        assert Reaches(idx, [root], rel[k - 1..], (dir + [name]) + rel[..k - 1]);
      }
    }
  }

  /** Linking entry node `m` to directory node `n` extends every walk reaching `m` by `n`'s name. */
  lemma LinkFound(idx1: Index, root: NodeId, dir: Path, m: NodeId, n: NodeId, rel: Path, last: Index)
    requires m in idx1.nodes && n in idx1.nodes && root in idx1.nodes
    requires m in Follow(idx1, [root], rel) && ReachesAll(idx1, root, dir, rel)
    requires Extends(AddChild(idx1, m, n), last)
    ensures n in Follow(last, [root], [idx1.nodes[n].name] + rel) && ReachesAll(last, root, dir, rel)
  {
    var next := AddChild(idx1, m, n);
    var name := idx1.nodes[n].name;
    assert Extends(idx1, next) by {
      forall o, k, x | o in idx1.nodes && x in LinksAt(idx1.nodes[o], k)
        ensures o in next.nodes && x in LinksAt(next.nodes[o], k)
      {
        if o == m && k == name {
          assert LinksAt(next.nodes[o], k) == LinksAt(idx1.nodes[o], k) + [n];
        }
      }
    }
    FollowMono(idx1, next, [root], [root], rel, m);
    assert n in LinksAt(next.nodes[m], name);
    StepMember(next, Follow(next, [root], rel), name, n);
    assert ([name] + rel)[1..] == rel;
    FollowMono(next, last, [root], [root], [name] + rel, n);
    ReachesAllMono(idx1, next, root, dir, rel);
    ReachesAllMono(next, last, root, dir, rel);
  }

  /** Every file kept from entry `e` is found below directory node `n`, named `name`, and every split of it is reached. */
  ghost predicate EntryFound(idx: Index, root: NodeId, dir: Path, n: NodeId, name: string, e: Entry, accept: set<string>)
  {
    forall rel :: IsIndexedFile(e, rel, accept) ==> n in Follow(idx, [root], [name] + rel) && ReachesAll(idx, root, dir, rel)
  }

  /** `EntryFound` for every entry of a listing. */
  ghost predicate ListingFound(idx: Index, root: NodeId, dir: Path, n: NodeId, name: string, es: seq<Entry>, accept: set<string>)
  {
    forall i :: 0 <= i < |es| ==> EntryFound(idx, root, dir, n, name, es[i], accept)
  }

  lemma ListingFoundCons(idx: Index, root: NodeId, dir: Path, n: NodeId, name: string, es: seq<Entry>, accept: set<string>)
    requires es != []
    requires EntryFound(idx, root, dir, n, name, es[0], accept) && ListingFound(idx, root, dir, n, name, es[1..], accept)
    ensures ListingFound(idx, root, dir, n, name, es, accept)
  {
    forall i | 0 < i < |es|
      ensures EntryFound(idx, root, dir, n, name, es[i], accept)
    {
      assert es[1..][i - 1] == es[i];
    }
  }

  /** The completeness of a directory's listing gives the completeness of the directory. */
  lemma DirComplete(idx: Index, root: NodeId, dir: Path, e: Entry, n: NodeId, accept: set<string>)
    requires e.Dir? && n in idx.nodes && idx.nodes[n].dir == dir && idx.nodes[n].name == e.name
    requires ListingFound(idx, root, dir + [e.name], n, e.name, e.entries, accept)
    ensures forall rel :: IsIndexedFile(e, rel, accept) ==> n in Follow(idx, [root], rel) && ReachesAll(idx, root, dir, rel)
  {
    forall rel | IsIndexedFile(e, rel, accept)
      ensures n in Follow(idx, [root], rel) && ReachesAll(idx, root, dir, rel)
    {
      var i :| 0 <= i < |e.entries| && IsIndexedFile(e.entries[i], rel[1..], accept);
      assert EntryFound(idx, root, dir + [e.name], n, e.name, e.entries[i], accept);
      assert rel == [e.name] + rel[1..];
      DirFound(idx, root, dir, e.name, n, rel[1..]);
    }
  }

  /** The walk of the kept file `rel` reaches the node built for the scanned entry, and every split of it is reached. */
  lemma {:induction false} BuildEntryComplete(idx: Index, root: NodeId, dir: Path, e: Entry, accept: set<string>)
    requires Fresh(idx) && root in idx.nodes && WellNamed(e)
    ensures var r := BuildEntry(idx, root, dir, e, accept);
      r.Success? ==> forall rel :: IsIndexedFile(e, rel, accept) ==>
        r.value.1 in Follow(r.value.0, [root], rel) && ReachesAll(r.value.0, root, dir, rel)
    decreases e, 1
  {
    var r := BuildEntry(idx, root, dir, e, accept);
    if r.Success? {
      var (idx1, n) := NewNode(idx, e.name, dir);
      NewNodeGrows(idx, e.name, dir);
      if e.File? {
        FileFound(idx1, root, n);
        assert forall rel :: IsIndexedFile(e, rel, accept) ==> rel == [e.name];
      } else {
        var sub := dir + [e.name];
        BuildEntriesComplete(idx1, root, sub, n, e.entries, accept);
        BuildEntriesGrows(idx1, root, sub, n, e.entries, accept);
        DirComplete(r.value.0, root, dir, e, n, accept);
      }
    }
  }

  /** Linking the node of a scanned entry to its directory node finds every file the entry keeps through that directory. */
  lemma FirstFound(idx1: Index, root: NodeId, dir: Path, m: NodeId, n: NodeId, e: Entry, accept: set<string>, last: Index)
    requires m in idx1.nodes && n in idx1.nodes && root in idx1.nodes
    requires forall rel :: IsIndexedFile(e, rel, accept) ==> m in Follow(idx1, [root], rel) && ReachesAll(idx1, root, dir, rel)
    requires Extends(AddChild(idx1, m, n), last)
    ensures EntryFound(last, root, dir, n, idx1.nodes[n].name, e, accept)
  {
    forall rel | IsIndexedFile(e, rel, accept)
      ensures n in Follow(last, [root], [idx1.nodes[n].name] + rel) && ReachesAll(last, root, dir, rel)
    {
      LinkFound(idx1, root, dir, m, n, rel, last);
    }
  }

  lemma {:induction false} BuildEntriesComplete(idx: Index, root: NodeId, dir: Path, n: NodeId, es: seq<Entry>, accept: set<string>)
    requires Fresh(idx) && root in idx.nodes && n in idx.nodes
    requires forall i :: 0 <= i < |es| ==> WellNamed(es[i])
    ensures var r := BuildEntries(idx, root, dir, n, es, accept);
      r.Success? ==> ListingFound(r.value, root, dir, n, idx.nodes[n].name, es, accept)
    decreases es, 0
  {
    var r := BuildEntries(idx, root, dir, n, es, accept);
    if es != [] && r.Success? {
      var first := BuildEntry(idx, root, dir, es[0], accept);
      BuildEntriesCons(idx, root, dir, n, es, accept);
      BuildEntryGrows(idx, root, dir, es[0], accept);
      var name := idx.nodes[n].name;
      var next: Index;
      if first.Success? {
        var (idx1, m) := first.value;
        BuildEntryComplete(idx, root, dir, es[0], accept);
        next := AddChild(idx1, m, n);
        AddChildGrows(idx1, m, n);
        BuildEntriesGrows(next, root, dir, n, es[1..], accept);
        FirstFound(idx1, root, dir, m, n, es[0], accept, r.value);
      } else {
        BuildEntryOutcome(idx, root, dir, es[0], accept);
        SkippedHoldsNothing(es[0], accept);
        next := idx;
      }
      BuildEntriesComplete(next, root, dir, n, es[1..], accept);
      ListingFoundCons(r.value, root, dir, n, name, es, accept);
    }
  }
}
