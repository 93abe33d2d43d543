/**
 The inverted header index (`node`, `tree`): a forest built by scanning
 header roots, in which every kept file is registered under its root's
 sentinel node by base name and every kept entry links to the node of the
 directory holding it. A search walks these links from a header path's last
 element to its first.

 The Go nodes are heap objects joined by pointers; here they live in a map
 from node ids to node values, and a fresh id is drawn from a counter.
 */
module HeaderIndex {
  import opened Seqs
  import opened Text
  import opened FileSystem

  type NodeId = nat

  /**
   `node`: the entry's base name, the path of the directory holding it
   (`ParentPath`), and the links to containing-directory nodes keyed by that
   directory's name (`Children`). A sentinel root has the empty name and its
   links are keyed by file base names.
   */
  datatype Node = Node(name: string, dir: Path, links: map<string, seq<NodeId>>)

  /** All nodes, and the id the next new node gets. */
  datatype Index = Index(nodes: map<NodeId, Node>, next: NodeId)

  /** `tree`: the index and its sentinel roots keyed by the absolute path of the scanned root. */
  datatype Forest = Forest(idx: Index, roots: map<Path, NodeId>)

  /** The errors of a scan: `errSkip`, and a failed `os.Lstat`. */
  datatype BuildError = Skip | StatError(path: Path)

  /** `errNotFound`. */
  datatype SearchError = NotFound

  /** One header root to scan: the directory holding it and the tree found there. */
  datatype ScanRoot = ScanRoot(dir: Path, entry: Entry)

  /** `node.Path()`. */
  function PathOf(n: Node): Path
  {
    n.dir + [n.name]
  }

  /**
   `newNode(name, parentPath)`: a node without links under the counter's id.
   On an index whose ids are all below the counter, no existing node is
   replaced.
   */
  function NewNode(idx: Index, name: string, dir: Path): (r: (Index, NodeId))
    ensures r.1 == idx.next && r.0.next > r.1
    ensures r.0.nodes.Keys == idx.nodes.Keys + {r.1}
    ensures r.0.nodes[r.1] == Node(name, dir, map[])
    ensures forall id :: id in idx.nodes && id != r.1 ==> r.0.nodes[id] == idx.nodes[id]
    ensures Fresh(idx) ==> r.1 !in idx.nodes && Fresh(r.0)
  {
    (Index(idx.nodes[idx.next := Node(name, dir, map[])], idx.next + 1), idx.next)
  }

  /** Every node id is below the counter, so a new node never replaces one. */
  predicate Fresh(idx: Index)
  {
    forall id :: id in idx.nodes ==> id < idx.next
  }

  /** Every node of `a` is still in `b` under the same name and directory. */
  predicate KeepsNodes(a: Index, b: Index)
  {
    forall id :: id in a.nodes ==> id in b.nodes && b.nodes[id].name == a.nodes[id].name && b.nodes[id].dir == a.nodes[id].dir
  }

  /** The list a node holds under key `k`, empty when the key is absent. */
  function LinksAt(n: Node, k: string): seq<NodeId>
  {
    if k in n.links then n.links[k] else []
  }

  /**
   `node.AddChild(child)` on node `id`: appends `child` to the list under the
   child's name and leaves every other key, and every other node, as it was.
   */
  function AddChild(idx: Index, id: NodeId, child: NodeId): (r: Index)
    requires id in idx.nodes && child in idx.nodes
    ensures r.next == idx.next && r.nodes.Keys == idx.nodes.Keys
    ensures forall o :: o in idx.nodes && o != id ==> r.nodes[o] == idx.nodes[o]
    ensures r.nodes[id].name == idx.nodes[id].name && r.nodes[id].dir == idx.nodes[id].dir
    ensures var k := idx.nodes[child].name;
      && r.nodes[id].links.Keys == idx.nodes[id].links.Keys + {k}
      && r.nodes[id].links[k] == LinksAt(idx.nodes[id], k) + [child]
      && forall k' :: k' in idx.nodes[id].links && k' != k ==> r.nodes[id].links[k'] == idx.nodes[id].links[k']
  {
    var n := idx.nodes[id];
    var k := idx.nodes[child].name;
    var n' := n.(links := n.links[k := LinksAt(n, k) + [child]]);
    idx.(nodes := idx.nodes[id := n'])
  }

  /**
   `buildtree(p, root, acceptext)` for the entry `e` found in directory `dir`:
   hidden entries, entries that are neither regular files nor directories,
   files with an extension not accepted and directories without entries are
   skipped; an accepted file gets a node registered under the sentinel
   `root`; a directory gets a node, and each of its entries that is not
   skipped links to it. A stat failure aborts the scan.
   */
  function BuildEntry(idx: Index, root: NodeId, dir: Path, e: Entry, accept: set<string>): (r: Result<(Index, NodeId), BuildError>)
    requires Fresh(idx) && root in idx.nodes && WellNamed(e)
    ensures r.Success? ==>
      && Fresh(r.value.0) && KeepsNodes(idx, r.value.0)
      && r.value.1 in r.value.0.nodes
      && r.value.0.nodes[r.value.1].name == e.name
      && r.value.0.nodes[r.value.1].dir == dir
    decreases e, 1
  {
    if e.name[0] == '.' then Failure(Skip)
    else match e
      case Unreadable(name) => Failure(StatError(dir + [name]))
      case Other(_) => Failure(Skip)
      case File(name) =>
        if Ext(name) !in accept then Failure(Skip)
        else
          var (idx1, n) := NewNode(idx, name, dir);
          Success((AddChild(idx1, root, n), n))
      case Dir(name, es) =>
        if |es| == 0 then Failure(Skip)
        else
          var (idx1, n) := NewNode(idx, name, dir);
          match BuildEntries(idx1, root, dir + [name], n, es, accept)
          case Success(idx2) => Success((idx2, n))
          case Failure(err) => Failure(err)
  }

  /** The loop of `buildtree` over a directory listing `es`, whose directory is node `n` at path `dir`. */
  function BuildEntries(idx: Index, root: NodeId, dir: Path, n: NodeId, es: seq<Entry>, accept: set<string>): (r: Result<Index, BuildError>)
    requires Fresh(idx) && root in idx.nodes && n in idx.nodes
    requires forall i :: 0 <= i < |es| ==> WellNamed(es[i])
    ensures r.Success? ==> Fresh(r.value) && KeepsNodes(idx, r.value)
    decreases es, 0
  {
    if es == [] then Success(idx)
    else match BuildEntry(idx, root, dir, es[0], accept)
      case Failure(Skip) => BuildEntries(idx, root, dir, n, es[1..], accept)
      case Failure(err) => Failure(err)
      case Success((idx1, m)) => BuildEntries(AddChild(idx1, m, n), root, dir, n, es[1..], accept)
  }

  /**
   `tree.Scan`: a fresh sentinel root, a scan of the tree at `dir + [e.name]`
   into it, and the root registered under that path (replacing any root
   registered there before) unless the scan failed with a stat error.
   */
  function Scan(f: Forest, dir: Path, e: Entry, accept: set<string>): (r: Result<Forest, BuildError>)
    requires Fresh(f.idx) && WellNamed(e)
    ensures r.Success? ==> Fresh(r.value.idx)
    ensures r.Success? ==> dir + [e.name] in r.value.roots && r.value.roots[dir + [e.name]] == f.idx.next
    ensures r.Success? ==> forall p :: p in f.roots && p != dir + [e.name] ==> p in r.value.roots && r.value.roots[p] == f.roots[p]
    ensures r.Success? ==> r.value.roots.Keys == f.roots.Keys + {dir + [e.name]}
    ensures r.Failure? ==> r.error.StatError?
  {
    var (idx1, root) := NewNode(f.idx, "", []);
    match BuildEntry(idx1, root, dir, e, accept)
    case Failure(Skip) => Success(Forest(idx1, f.roots[dir + [e.name] := root]))
    case Failure(err) => Failure(err)
    case Success((idx2, _)) => Success(Forest(idx2, f.roots[dir + [e.name] := root]))
  }

  predicate AllWellNamed(scans: seq<ScanRoot>)
  {
    forall j :: 0 <= j < |scans| ==> WellNamed(scans[j].entry)
  }

  /**
   `main`'s loop over the `-s` roots: scan each in turn; the first failure
   ends the run. A root the scan skips never ends it.
   */
  function ScanAll(f: Forest, scans: seq<ScanRoot>, accept: set<string>): (r: Result<Forest, BuildError>)
    requires Fresh(f.idx) && AllWellNamed(scans)
    ensures r.Failure? ==> r.error.StatError?
    ensures r.Success? ==> Fresh(r.value.idx) && f.roots.Keys <= r.value.roots.Keys
    decreases |scans|
  {
    if scans == [] then Success(f)
    else match Scan(f, scans[0].dir, scans[0].entry, accept)
      case Failure(err) => Failure(err)
      case Success(f1) => ScanAll(f1, scans[1..], accept)
  }

  /** `newTree()`. */
  const EmptyForest := Forest(Index(map[], 0), map[])

  /** The ids a search starts from: the sentinel roots, in the order `order` enumerates the root paths. */
  function StartNodes(roots: map<Path, NodeId>, order: seq<Path>): seq<NodeId>
  {
    FlatMap(order, (p: Path) => if p in roots then [roots[p]] else [])
  }

  /** `order` lists every registered root path exactly once, as iterating the Go map does in some order. */
  predicate Enumerates(order: seq<Path>, roots: map<Path, NodeId>)
  {
    NoDup(order) && Elems(order) == roots.Keys
  }

  /** The nodes linked under key `s` by the nodes of `l`, concatenated in order. */
  function Step(idx: Index, l: seq<NodeId>, s: string): seq<NodeId>
  {
    FlatMap(l, (id: NodeId) => if id in idx.nodes then LinksAt(idx.nodes[id], s) else [])
  }

  /** The candidate nodes after following `segs` from `l`, the last element first. */
  function Follow(idx: Index, l: seq<NodeId>, segs: seq<string>): seq<NodeId>
    decreases |segs|
  {
    if segs == [] then l else Step(idx, Follow(idx, l, segs[1..]), segs[0])
  }

  /** `filepath.Dir(n.Path())` for each candidate: the directory holding it. */
  function Dirs(idx: Index, l: seq<NodeId>): seq<Path>
  {
    FlatMap(l, (id: NodeId) => if id in idx.nodes then [idx.nodes[id].dir] else [])
  }

  /** A header path without its one leading '/', if it has one. */
  function StripSlash(header: string): string
  {
    if |header| > 0 && header[0] == '/' then header[1..] else header
  }

  /** The path elements `Search` walks. */
  function Segments(header: string): seq<string>
  {
    Split(StripSlash(header), '/')
  }

  /**
   What `tree.Search(header)` returns when it visits the roots in `order`:
   the directory holding each final candidate, or `errNotFound` when no
   candidate is left.
   */
  function Resolve(f: Forest, order: seq<Path>, header: string): Result<seq<Path>, SearchError>
  {
    var last := Follow(f.idx, StartNodes(f.roots, order), Segments(header));
    if last == [] then Failure(NotFound) else Success(Dirs(f.idx, last))
  }

  /** Every link of the index points at a node of the index. */
  ghost predicate Closed(idx: Index)
  {
    forall id, k, x :: id in idx.nodes && k in idx.nodes[id].links && x in idx.nodes[id].links[k] ==> x in idx.nodes
  }

  /** The shape `Search` relies on: links and roots point at nodes. */
  ghost predicate Searchable(f: Forest)
  {
    && Closed(f.idx)
    && forall p :: p in f.roots ==> f.roots[p] in f.idx.nodes
  }

  lemma StepPrefix(idx: Index, l: seq<NodeId>, j: nat, s: string)
    requires j < |l|
    ensures Step(idx, l[..j + 1], s) == Step(idx, l[..j], s) + (if l[j] in idx.nodes then LinksAt(idx.nodes[l[j]], s) else [])
  {
    var f := (id: NodeId) => if id in idx.nodes then LinksAt(idx.nodes[id], s) else [];
    assert l[..j + 1] == l[..j] + [l[j]];
    FlatMapAppend(l[..j], [l[j]], f);
    assert [l[j]][1..] == [];
  }

  lemma DirsPrefix(idx: Index, l: seq<NodeId>, j: nat)
    requires j < |l|
    ensures Dirs(idx, l[..j + 1]) == Dirs(idx, l[..j]) + (if l[j] in idx.nodes then [idx.nodes[l[j]].dir] else [])
  {
    var f := (id: NodeId) => if id in idx.nodes then [idx.nodes[id].dir] else [];
    assert l[..j + 1] == l[..j] + [l[j]];
    FlatMapAppend(l[..j], [l[j]], f);
    assert [l[j]][1..] == [];
  }

  lemma StartNodesPrefix(roots: map<Path, NodeId>, order: seq<Path>, j: nat)
    requires j < |order|
    ensures StartNodes(roots, order[..j + 1]) == StartNodes(roots, order[..j]) + (if order[j] in roots then [roots[order[j]]] else [])
  {
    var f := (p: Path) => if p in roots then [roots[p]] else [];
    assert order[..j + 1] == order[..j] + [order[j]];
    FlatMapAppend(order[..j], [order[j]], f);
    assert [order[j]][1..] == [];
  }

  /** Following a suffix one element longer is one more step. */
  lemma FollowSuffix(idx: Index, l: seq<NodeId>, segs: seq<string>, i: nat)
    requires i < |segs|
    ensures Follow(idx, l, segs[i..]) == Step(idx, Follow(idx, l, segs[i + 1..]), segs[i])
  {
    assert segs[i..][1..] == segs[i + 1..];
  }

  /** Once a step leaves no candidate, every later step leaves none. */
  lemma {:induction false} FollowEmpty(idx: Index, l: seq<NodeId>, segs: seq<string>, i: nat)
    requires i <= |segs| && Follow(idx, l, segs[i..]) == []
    ensures Follow(idx, l, segs) == []
    decreases i
  {
    if i > 0 {
      assert segs[i - 1..][1..] == segs[i..];
      FollowEmpty(idx, l, segs, i - 1);
    }
  }

  /** The loop of `tree.Search` that gathers the sentinel roots. */
  method StartList(f: Forest, order: seq<Path>) returns (nodelist: seq<NodeId>)
    requires Searchable(f) && Enumerates(order, f.roots)
    ensures nodelist == StartNodes(f.roots, order)
    ensures forall x :: x in nodelist ==> x in f.idx.nodes
  {
    nodelist := [];
    for j := 0 to |order|
      invariant nodelist == StartNodes(f.roots, order[..j])
      invariant forall x :: x in nodelist ==> x in f.idx.nodes
    {
      StartNodesPrefix(f.roots, order, j);
      assert order[j] in Elems(order);
      nodelist := nodelist + [f.roots[order[j]]];
    }
    assert order[..|order|] == order;
  }

  /** The inner loop of `tree.Search`: the nodes the candidates link under `name`. */
  method StepList(f: Forest, nodelist: seq<NodeId>, name: string) returns (nodelist1: seq<NodeId>)
    requires Searchable(f) && forall x :: x in nodelist ==> x in f.idx.nodes
    ensures nodelist1 == Step(f.idx, nodelist, name)
    ensures forall x :: x in nodelist1 ==> x in f.idx.nodes
  {
    nodelist1 := [];
    for j := 0 to |nodelist|
      invariant nodelist1 == Step(f.idx, nodelist[..j], name)
      invariant forall x :: x in nodelist1 ==> x in f.idx.nodes
    {
      StepPrefix(f.idx, nodelist, j, name);
      var n := nodelist[j];
      if name in f.idx.nodes[n].links {
        nodelist1 := nodelist1 + f.idx.nodes[n].links[name];
      }
    }
    assert nodelist[..|nodelist|] == nodelist;
  }

  /** The final loop of `tree.Search`: the directory holding each candidate. */
  method DirList(f: Forest, nodelist: seq<NodeId>) returns (ret: seq<Path>)
    requires forall x :: x in nodelist ==> x in f.idx.nodes
    ensures ret == Dirs(f.idx, nodelist)
  {
    ret := [];
    for j := 0 to |nodelist|
      invariant ret == Dirs(f.idx, nodelist[..j])
    {
      DirsPrefix(f.idx, nodelist, j);
      ret := ret + [f.idx.nodes[nodelist[j]].dir];
    }
    assert nodelist[..|nodelist|] == nodelist;
  }

  /** One pass of the outer loop of `tree.Search`: the candidates for the path elements from `i` on. */
  method Narrow(f: Forest, ghost starts: seq<NodeId>, seps: seq<string>, i: nat, nodelist: seq<NodeId>)
    returns (nodelist1: seq<NodeId>)
    requires Searchable(f) && i < |seps|
    requires nodelist == Follow(f.idx, starts, seps[i + 1..])
    requires forall x :: x in nodelist ==> x in f.idx.nodes
    ensures nodelist1 == Follow(f.idx, starts, seps[i..])
    ensures forall x :: x in nodelist1 ==> x in f.idx.nodes
  {
    nodelist1 := StepList(f, nodelist, seps[i]);
    FollowSuffix(f.idx, starts, seps, i);
  }

  /**
   `tree.Search`, loop for loop: strip one leading '/', split on '/', start
   from every root, and from the last element to the first replace the
   candidates by the nodes they link under that element, failing as soon as
   none is left; then report the directory holding each candidate.
   */
  method Search(f: Forest, order: seq<Path>, header: string) returns (r: Result<seq<Path>, SearchError>)
    requires Searchable(f) && Enumerates(order, f.roots)
    ensures r == Resolve(f, order, header)
  {
    var h := header;
    if |h| > 0 && h[0] == '/' {
      h := h[1..];
    }
    var seps := Split(h, '/');
    assert seps == Segments(header);

    var nodelist := StartList(f, order);
    ghost var starts := nodelist;
    var i := |seps| - 1;
    while i >= 0
      invariant -1 <= i < |seps|
      invariant nodelist == Follow(f.idx, starts, seps[i + 1..])
      invariant forall x :: x in nodelist ==> x in f.idx.nodes
      invariant i < |seps| - 1 ==> nodelist != []
    {
      var nodelist1 := Narrow(f, starts, seps, i, nodelist);
      if |nodelist1| == 0 {
        FollowEmpty(f.idx, starts, seps, i);
        assert seps[0..] == seps;
        return Failure(NotFound);
      }
      nodelist := nodelist1;
      i := i - 1;
    }
    assert seps[0..] == seps;
    var ret := DirList(f, nodelist);
    assert nodelist == Follow(f.idx, StartNodes(f.roots, order), Segments(header));
    return Success(ret);
  }
}
