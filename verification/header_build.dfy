/**
 What one scan (`buildtree`) does to the index: what it leaves alone, when
 it skips and when it fails, which names it registers under the sentinel
 root, that every link it adds is backed by a file of the scanned tree, and
 that every kept file can be found again by walking the links.
 */
module HeaderIndexBuild {
  import opened Seqs
  import opened Text
  import opened FileSystem
  import opened HeaderIndex
  import opened HeaderIndexFollow

  /** The entries `buildtree` returns `errSkip` for. */
  predicate Skipped(e: Entry, accept: set<string>)
  {
    || IndexHidden(e.name)
    || e.Other?
    || (e.File? && Ext(e.name) !in accept)
    || (e.Dir? && |e.entries| == 0)
  }

  /** Nodes of `a` other than `keep` are untouched in `b`. */
  ghost predicate Frame(a: Index, b: Index, keep: NodeId)
  {
    forall id :: id in a.nodes && id != keep ==> id in b.nodes && b.nodes[id] == a.nodes[id]
  }

  /** The nodes of `b` that `a` lacks all have ids from `a`'s counter on. */
  ghost predicate OnlyNewIds(a: Index, b: Index)
  {
    forall id :: id in b.nodes && id !in a.nodes ==> id >= a.next
  }

  lemma NewNodeGrows(idx: Index, name: string, dir: Path)
    requires Fresh(idx)
    ensures var (idx1, n) := NewNode(idx, name, dir);
      && Fresh(idx1) && n !in idx.nodes && Extends(idx, idx1) && OnlyNewIds(idx, idx1)
      && (forall id :: id in idx.nodes ==> idx1.nodes[id] == idx.nodes[id])
      && (Closed(idx) ==> Closed(idx1))
  {
    var (idx1, n) := NewNode(idx, name, dir);
    forall id, k, x | id in idx.nodes && x in LinksAt(idx.nodes[id], k)
      ensures id in idx1.nodes && x in LinksAt(idx1.nodes[id], k)
    {
      assert idx1.nodes[id] == idx.nodes[id];
    }
  }

  lemma AddChildGrows(idx: Index, id: NodeId, child: NodeId)
    requires Fresh(idx) && id in idx.nodes && child in idx.nodes
    ensures var idx1 := AddChild(idx, id, child);
      && Fresh(idx1) && Extends(idx, idx1) && Frame(idx, idx1, id) && OnlyNewIds(idx, idx1)
      && child in LinksAt(idx1.nodes[id], idx.nodes[child].name)
      && (Closed(idx) ==> Closed(idx1))
  {
    var idx1 := AddChild(idx, id, child);
    var c := idx.nodes[child].name;
    forall o, k, x | o in idx.nodes && x in LinksAt(idx.nodes[o], k)
      ensures o in idx1.nodes && x in LinksAt(idx1.nodes[o], k)
    {
      if o == id && k == c {
        assert LinksAt(idx1.nodes[o], k) == LinksAt(idx.nodes[o], k) + [child];
      }
    }
    if Closed(idx) {
      forall o, k, x | o in idx1.nodes && k in idx1.nodes[o].links && x in idx1.nodes[o].links[k]
        ensures x in idx1.nodes
      {
        if o == id && k == c {
          assert idx1.nodes[o].links[k] == LinksAt(idx.nodes[o], k) + [child];
        }
      }
    }
  }

  /**
   A scan only adds nodes, with fresh ids, and links; apart from the
   sentinel root it changes no node that was there before; and it keeps
   every link pointing at a node.
   */
  lemma {:induction false} BuildEntryGrows(idx: Index, root: NodeId, dir: Path, e: Entry, accept: set<string>)
    requires Fresh(idx) && root in idx.nodes && WellNamed(e)
    ensures var r := BuildEntry(idx, root, dir, e, accept);
      r.Success? ==>
        && r.value.1 == idx.next
        && Extends(idx, r.value.0) && Frame(idx, r.value.0, root) && OnlyNewIds(idx, r.value.0)
        && (Closed(idx) ==> Closed(r.value.0))
    decreases e, 1
  {
    var r := BuildEntry(idx, root, dir, e, accept);
    if r.Success? {
      var (idx1, n) := NewNode(idx, e.name, dir);
      NewNodeGrows(idx, e.name, dir);
      if e.File? {
        AddChildGrows(idx1, root, n);
      } else {
        BuildEntriesGrows(idx1, root, dir + [e.name], n, e.entries, accept);
        ExtendsTransitive(idx, idx1, r.value.0);
      }
    }
  }

  lemma {:induction false} BuildEntriesGrows(idx: Index, root: NodeId, dir: Path, n: NodeId, es: seq<Entry>, accept: set<string>)
    requires Fresh(idx) && root in idx.nodes && n in idx.nodes
    requires forall i :: 0 <= i < |es| ==> WellNamed(es[i])
    ensures var r := BuildEntries(idx, root, dir, n, es, accept);
      r.Success? ==>
        && Extends(idx, r.value) && Frame(idx, r.value, root) && OnlyNewIds(idx, r.value)
        && (Closed(idx) ==> Closed(r.value))
    decreases es, 0
  {
    if es != [] {
      var first := BuildEntry(idx, root, dir, es[0], accept);
      BuildEntriesCons(idx, root, dir, n, es, accept);
      BuildEntryGrows(idx, root, dir, es[0], accept);
      if first.Success? {
        var (idx1, m) := first.value;
        var idx2 := AddChild(idx1, m, n);
        AddChildGrows(idx1, m, n);
        BuildEntriesGrows(idx2, root, dir, n, es[1..], accept);
        ExtendsTransitive(idx, idx1, idx2);
        var r := BuildEntries(idx, root, dir, n, es, accept);
        if r.Success? {
          ExtendsTransitive(idx, idx2, r.value);
        }
      } else if first.error.Skip? {
        BuildEntriesGrows(idx, root, dir, n, es[1..], accept);
      }
    }
  }

  /** One step of the listing loop: the first entry's outcome decides how the rest of the listing is scanned. */
  lemma BuildEntriesCons(idx: Index, root: NodeId, dir: Path, n: NodeId, es: seq<Entry>, accept: set<string>)
    requires Fresh(idx) && root in idx.nodes && n in idx.nodes && es != []
    requires forall i :: 0 <= i < |es| ==> WellNamed(es[i])
    ensures WellNamed(es[0])
    ensures forall i :: 0 <= i < |es[1..]| ==> WellNamed(es[1..][i])
    ensures var first := BuildEntry(idx, root, dir, es[0], accept);
      first.Success? ==>
        && Fresh(first.value.0) && root in first.value.0.nodes && n in first.value.0.nodes
        && first.value.1 in first.value.0.nodes
    ensures var first := BuildEntry(idx, root, dir, es[0], accept);
      first.Failure? && first.error.Skip? ==> BuildEntries(idx, root, dir, n, es, accept) == BuildEntries(idx, root, dir, n, es[1..], accept)
    ensures var first := BuildEntry(idx, root, dir, es[0], accept);
      first.Failure? && !first.error.Skip? ==> BuildEntries(idx, root, dir, n, es, accept) == Failure(first.error)
    ensures var first := BuildEntry(idx, root, dir, es[0], accept);
      first.Success? ==> BuildEntries(idx, root, dir, n, es, accept) == BuildEntries(AddChild(first.value.0, first.value.1, n), root, dir, n, es[1..], accept)
  {
  }

  /** Some entry of a listing holds an entry that cannot be stat'ed. */
  predicate AnyUnreadable(es: seq<Entry>)
  {
    exists i :: 0 <= i < |es| && HasUnreadable(es[i])
  }

  lemma AnyUnreadableCons(es: seq<Entry>)
    requires es != []
    ensures AnyUnreadable(es) <==> HasUnreadable(es[0]) || AnyUnreadable(es[1..])
  {
    var rest := es[1..];
    if AnyUnreadable(es) {
      var i :| 0 <= i < |es| && HasUnreadable(es[i]);
      if i > 0 {
        assert rest[i - 1] == es[i];
      }
    }
    if AnyUnreadable(rest) {
      var i :| 0 <= i < |rest| && HasUnreadable(rest[i]);
      assert es[i + 1] == rest[i];
    }
  }

  /**
   A scan returns `errSkip` exactly for the entries it skips, fails exactly
   when it meets an entry it cannot stat outside hidden directories, and
   otherwise succeeds.
   */
  lemma {:induction false} BuildEntryOutcome(idx: Index, root: NodeId, dir: Path, e: Entry, accept: set<string>)
    requires Fresh(idx) && root in idx.nodes && WellNamed(e)
    ensures var r := BuildEntry(idx, root, dir, e, accept);
      && (r == Failure(Skip) <==> Skipped(e, accept))
      && (r.Failure? && r.error.StatError? <==> HasUnreadable(e))
    decreases e, 1
  {
    if !IndexHidden(e.name) && e.Dir? && |e.entries| > 0 {
      var (idx1, n) := NewNode(idx, e.name, dir);
      BuildEntriesOutcome(idx1, root, dir + [e.name], n, e.entries, accept);
    }
  }

  lemma {:induction false} BuildEntriesOutcome(idx: Index, root: NodeId, dir: Path, n: NodeId, es: seq<Entry>, accept: set<string>)
    requires Fresh(idx) && root in idx.nodes && n in idx.nodes
    requires forall i :: 0 <= i < |es| ==> WellNamed(es[i])
    ensures var r := BuildEntries(idx, root, dir, n, es, accept);
      && (r.Failure? ==> r.error.StatError?)
      && (r.Failure? <==> AnyUnreadable(es))
    decreases es, 0
  {
    if es != [] {
      var first := BuildEntry(idx, root, dir, es[0], accept);
      BuildEntriesCons(idx, root, dir, n, es, accept);
      BuildEntryOutcome(idx, root, dir, es[0], accept);
      AnyUnreadableCons(es);
      if first.Success? {
        AddChildGrows(first.value.0, first.value.1, n);
        BuildEntriesOutcome(AddChild(first.value.0, first.value.1, n), root, dir, n, es[1..], accept);
      } else if first.error.Skip? {
        BuildEntriesOutcome(idx, root, dir, n, es[1..], accept);
      }
    }
  }

  /** A skipped entry holds no file the index keeps. */
  lemma SkippedHoldsNothing(e: Entry, accept: set<string>)
    requires Skipped(e, accept)
    ensures forall k :: !HasFileNamed(e, k, accept)
    ensures forall rel :: !IsIndexedFile(e, rel, accept)
  {
  }

  /**
   The names a scan registers under the sentinel root are exactly the base
   names of the files it keeps, added to those registered before.
   */
  lemma {:induction false} BuildEntryRootKeys(idx: Index, root: NodeId, dir: Path, e: Entry, accept: set<string>)
    requires Fresh(idx) && root in idx.nodes && WellNamed(e)
    ensures var r := BuildEntry(idx, root, dir, e, accept);
      r.Success? ==> root in r.value.0.nodes && forall k ::
        k in r.value.0.nodes[root].links <==> k in idx.nodes[root].links || HasFileNamed(e, k, accept)
    decreases e, 1
  {
    var r := BuildEntry(idx, root, dir, e, accept);
    if r.Success? {
      BuildEntryGrows(idx, root, dir, e, accept);
      var (idx1, n) := NewNode(idx, e.name, dir);
      assert idx1.nodes[root] == idx.nodes[root];
      if e.Dir? {
        BuildEntriesRootKeys(idx1, root, dir + [e.name], n, e.entries, accept);
        forall k
          ensures HasFileNamed(e, k, accept) <==> AnyFileNamed(e.entries, k, accept)
        {
        }
      }
    }
  }

  /** Some entry of a listing holds a kept file named `k`. */
  predicate AnyFileNamed(es: seq<Entry>, k: string, accept: set<string>)
  {
    exists i :: 0 <= i < |es| && HasFileNamed(es[i], k, accept)
  }

  lemma AnyFileNamedCons(es: seq<Entry>, k: string, accept: set<string>)
    requires es != []
    ensures AnyFileNamed(es, k, accept) <==> HasFileNamed(es[0], k, accept) || AnyFileNamed(es[1..], k, accept)
  {
    var rest := es[1..];
    if AnyFileNamed(es, k, accept) {
      var i :| 0 <= i < |es| && HasFileNamed(es[i], k, accept);
      if i > 0 {
        assert rest[i - 1] == es[i];
      }
    }
    if AnyFileNamed(rest, k, accept) {
      var i :| 0 <= i < |rest| && HasFileNamed(rest[i], k, accept);
      assert es[i + 1] == rest[i];
    }
  }

  lemma {:induction false} BuildEntriesRootKeys(idx: Index, root: NodeId, dir: Path, n: NodeId, es: seq<Entry>, accept: set<string>)
    requires Fresh(idx) && root in idx.nodes && n in idx.nodes
    requires forall i :: 0 <= i < |es| ==> WellNamed(es[i])
    ensures var r := BuildEntries(idx, root, dir, n, es, accept);
      r.Success? ==> root in r.value.nodes && forall k ::
        k in r.value.nodes[root].links <==> k in idx.nodes[root].links || AnyFileNamed(es, k, accept)
    decreases es, 0
  {
    var r := BuildEntries(idx, root, dir, n, es, accept);
    if es != [] && r.Success? {
      var first := BuildEntry(idx, root, dir, es[0], accept);
      BuildEntriesCons(idx, root, dir, n, es, accept);
      BuildEntryOutcome(idx, root, dir, es[0], accept);
      var next: Index;
      if first.Success? {
        BuildEntryRootKeys(idx, root, dir, es[0], accept);
        next := AddChild(first.value.0, first.value.1, n);
        AddChildRootKeys(first.value.0, first.value.1, n, root);
      } else {
        next := idx;
        SkippedHoldsNothing(es[0], accept);
      }
      BuildEntriesRootKeys(next, root, dir, n, es[1..], accept);
      RootKeysStep(idx.nodes[root], next.nodes[root], r.value.nodes[root], es, accept);
    }
  }

  /** Linking a node under another node leaves the sentinel root's links alone. */
  lemma AddChildRootKeys(idx: Index, id: NodeId, child: NodeId, root: NodeId)
    requires Fresh(idx) && id in idx.nodes && child in idx.nodes && root in idx.nodes
    ensures Fresh(AddChild(idx, id, child))
    ensures id != root ==> AddChild(idx, id, child).nodes[root] == idx.nodes[root]
  {
  }

  /** The keys of the sentinel root after a listing: those after its first entry, then those its other entries add. */
  lemma RootKeysStep(before: Node, mid: Node, after: Node, es: seq<Entry>, accept: set<string>)
    requires es != []
    requires forall k :: k in mid.links <==> k in before.links || HasFileNamed(es[0], k, accept)
    requires forall k :: k in after.links <==> k in mid.links || AnyFileNamed(es[1..], k, accept)
    ensures forall k :: k in after.links <==> k in before.links || AnyFileNamed(es, k, accept)
  {
    forall k
      ensures AnyFileNamed(es, k, accept) <==> HasFileNamed(es[0], k, accept) || AnyFileNamed(es[1..], k, accept)
    {
      AnyFileNamedCons(es, k, accept);
    }
  }

  lemma AddChildNoEmptyKeys(idx: Index, id: NodeId, child: NodeId)
    requires id in idx.nodes && child in idx.nodes
    requires NoEmptyKeys(idx) && idx.nodes[child].name != ""
    ensures NoEmptyKeys(AddChild(idx, id, child))
  {
  }

  /** A scan registers nothing under the empty name. */
  lemma {:induction false} BuildEntryNoEmptyKeys(idx: Index, root: NodeId, dir: Path, e: Entry, accept: set<string>)
    requires Fresh(idx) && root in idx.nodes && WellNamed(e) && NoEmptyKeys(idx)
    ensures var r := BuildEntry(idx, root, dir, e, accept);
      r.Success? ==> NoEmptyKeys(r.value.0)
    decreases e, 1
  {
    var r := BuildEntry(idx, root, dir, e, accept);
    if r.Success? {
      var (idx1, n) := NewNode(idx, e.name, dir);
      NewNodeGrows(idx, e.name, dir);
      if e.File? {
        AddChildNoEmptyKeys(idx1, root, n);
      } else {
        BuildEntriesNoEmptyKeys(idx1, root, dir + [e.name], n, e.entries, accept);
      }
    }
  }

  lemma {:induction false} BuildEntriesNoEmptyKeys(idx: Index, root: NodeId, dir: Path, n: NodeId, es: seq<Entry>, accept: set<string>)
    requires Fresh(idx) && root in idx.nodes && n in idx.nodes
    requires forall i :: 0 <= i < |es| ==> WellNamed(es[i])
    requires NoEmptyKeys(idx) && idx.nodes[n].name != ""
    ensures var r := BuildEntries(idx, root, dir, n, es, accept);
      r.Success? ==> NoEmptyKeys(r.value)
    decreases es, 0
  {
    if es != [] {
      var first := BuildEntry(idx, root, dir, es[0], accept);
      BuildEntriesCons(idx, root, dir, n, es, accept);
      BuildEntryGrows(idx, root, dir, es[0], accept);
      if first.Success? {
        var (idx1, m) := first.value;
        BuildEntryNoEmptyKeys(idx, root, dir, es[0], accept);
        AddChildNoEmptyKeys(idx1, m, n);
        AddChildGrows(idx1, m, n);
        BuildEntriesNoEmptyKeys(AddChild(idx1, m, n), root, dir, n, es[1..], accept);
      } else if first.error.Skip? {
        BuildEntriesNoEmptyKeys(idx, root, dir, n, es[1..], accept);
      }
    }
  }
}
