/**
 Facts about walking the index: what a step reaches, that growing the index
 or the start set only adds candidates, that a walk from many roots is the
 union of the walks from each, and that the order the roots are visited in
 only reorders the answer.
 */
module HeaderIndexFollow {
  import opened Seqs
  import opened Text
  import opened FileSystem
  import opened HeaderIndex

  /** `b` keeps every node of `a` under the same name and directory, and every link of `a`. */
  ghost predicate Extends(a: Index, b: Index)
  {
    && KeepsNodes(a, b)
    && forall id, k, x :: id in a.nodes && x in LinksAt(a.nodes[id], k) ==> id in b.nodes && x in LinksAt(b.nodes[id], k)
  }

  lemma ExtendsTransitive(a: Index, b: Index, c: Index)
    requires Extends(a, b) && Extends(b, c)
    ensures Extends(a, c)
  {
  }

  /** A node is a candidate after a step exactly when some candidate before it links to it under that name. */
  lemma StepMember(idx: Index, l: seq<NodeId>, s: string, x: NodeId)
    ensures x in Step(idx, l, s) <==> exists y :: y in l && y in idx.nodes && x in LinksAt(idx.nodes[y], s)
  {
    var f := (id: NodeId) => if id in idx.nodes then LinksAt(idx.nodes[id], s) else [];
    FlatMapMember(l, f, x);
    if x in Step(idx, l, s) {
      var i :| 0 <= i < |l| && x in f(l[i]);
      assert l[i] in l;
    }
    if exists y :: y in l && y in idx.nodes && x in LinksAt(idx.nodes[y], s) {
      var y :| y in l && y in idx.nodes && x in LinksAt(idx.nodes[y], s);
      var i :| 0 <= i < |l| && l[i] == y;
      assert x in f(l[i]);
    }
  }

  /** A walk in a larger index from more start nodes finds at least the same candidates. */
  lemma {:induction false} FollowMono(a: Index, b: Index, la: seq<NodeId>, lb: seq<NodeId>, segs: seq<string>, x: NodeId)
    requires Extends(a, b)
    requires forall y :: y in la ==> y in lb
    requires x in Follow(a, la, segs)
    ensures x in Follow(b, lb, segs)
    decreases |segs|
  {
    if segs != [] {
      StepMember(a, Follow(a, la, segs[1..]), segs[0], x);
      var y :| y in Follow(a, la, segs[1..]) && y in a.nodes && x in LinksAt(a.nodes[y], segs[0]);
      FollowMono(a, b, la, lb, segs[1..], y);
      StepMember(b, Follow(b, lb, segs[1..]), segs[0], x);
    }
  }

  /** Every candidate of a walk from several start nodes is a candidate of the walk from one of them. */
  lemma {:induction false} FollowFrom(idx: Index, l: seq<NodeId>, segs: seq<string>, x: NodeId)
    requires x in Follow(idx, l, segs)
    ensures exists y :: y in l && x in Follow(idx, [y], segs)
    decreases |segs|
  {
    if segs == [] {
      assert x in [x];
    } else {
      StepMember(idx, Follow(idx, l, segs[1..]), segs[0], x);
      var z :| z in Follow(idx, l, segs[1..]) && z in idx.nodes && x in LinksAt(idx.nodes[z], segs[0]);
      FollowFrom(idx, l, segs[1..], z);
      var y :| y in l && z in Follow(idx, [y], segs[1..]);
      StepMember(idx, Follow(idx, [y], segs[1..]), segs[0], x);
    }
  }

  /** Reordering the start nodes only reorders the candidates. */
  lemma {:induction false} FollowPermutation(idx: Index, la: seq<NodeId>, lb: seq<NodeId>, segs: seq<string>)
    requires multiset(la) == multiset(lb)
    ensures multiset(Follow(idx, la, segs)) == multiset(Follow(idx, lb, segs))
    decreases |segs|
  {
    if segs != [] {
      FollowPermutation(idx, la, lb, segs[1..]);
      var f := (id: NodeId) => if id in idx.nodes then LinksAt(idx.nodes[id], segs[0]) else [];
      FlatMapPermutation(Follow(idx, la, segs[1..]), Follow(idx, lb, segs[1..]), f);
    }
  }

  /** A directory is reported exactly when some final candidate sits in it. */
  lemma DirsMember(idx: Index, l: seq<NodeId>, p: Path)
    ensures p in Dirs(idx, l) <==> exists x :: x in l && x in idx.nodes && idx.nodes[x].dir == p
  {
    var f := (id: NodeId) => if id in idx.nodes then [idx.nodes[id].dir] else [];
    FlatMapMember(l, f, p);
    if p in Dirs(idx, l) {
      var i :| 0 <= i < |l| && p in f(l[i]);
      assert l[i] in l;
    }
    if exists x :: x in l && x in idx.nodes && idx.nodes[x].dir == p {
      var x :| x in l && x in idx.nodes && idx.nodes[x].dir == p;
      var i :| 0 <= i < |l| && l[i] == x;
      assert p in f(l[i]);
    }
  }

  /** The roots a search starts from are exactly the registered ones. */
  lemma StartNodesMember(roots: map<Path, NodeId>, order: seq<Path>, y: NodeId)
    requires Elems(order) == roots.Keys
    ensures y in StartNodes(roots, order) <==> exists p :: p in roots && roots[p] == y
  {
    var f := (p: Path) => if p in roots then [roots[p]] else [];
    FlatMapMember(order, f, y);
    if exists p :: p in roots && roots[p] == y {
      var p :| p in roots && roots[p] == y;
      assert p in Elems(order);
      var i :| 0 <= i < |order| && order[i] == p;
      assert y in f(order[i]);
    }
    if y in StartNodes(roots, order) {
      var i :| 0 <= i < |order| && y in f(order[i]);
      assert order[i] in roots;
    }
  }

  /**
   The order the roots are visited in does not matter: two enumerations of
   the roots either both fail or report the same directories, each as often.
   */
  lemma ResolveOrderIndependent(f: Forest, o1: seq<Path>, o2: seq<Path>, header: string)
    requires Enumerates(o1, f.roots) && Enumerates(o2, f.roots)
    ensures Resolve(f, o1, header).Success? <==> Resolve(f, o2, header).Success?
    ensures Resolve(f, o1, header).Success? ==>
      multiset(Resolve(f, o1, header).value) == multiset(Resolve(f, o2, header).value)
  {
    var segs := Segments(header);
    SameElemsPermutation(o1, o2);
    var g := (p: Path) => if p in f.roots then [f.roots[p]] else [];
    FlatMapPermutation(o1, o2, g);
    var s1 := StartNodes(f.roots, o1);
    var s2 := StartNodes(f.roots, o2);
    FollowPermutation(f.idx, s1, s2, segs);
    var l1 := Follow(f.idx, s1, segs);
    var l2 := Follow(f.idx, s2, segs);
    assert |l1| == |multiset(l1)| == |multiset(l2)| == |l2|;
    var d := (id: NodeId) => if id in f.idx.nodes then [f.idx.nodes[id].dir] else [];
    FlatMapPermutation(l1, l2, d);
  }

  /** A search fails exactly when, walking from the last element, some step leaves no candidate. */
  lemma ResolveFailsOnEmptyStep(f: Forest, order: seq<Path>, header: string)
    ensures Resolve(f, order, header).Failure? <==>
      exists i :: 0 <= i <= |Segments(header)| && Follow(f.idx, StartNodes(f.roots, order), Segments(header)[i..]) == []
  {
    var segs := Segments(header);
    var starts := StartNodes(f.roots, order);
    if exists i :: 0 <= i <= |segs| && Follow(f.idx, starts, segs[i..]) == [] {
      var i :| 0 <= i <= |segs| && Follow(f.idx, starts, segs[i..]) == [];
      FollowEmpty(f.idx, starts, segs, i);
    }
    if Resolve(f, order, header).Failure? {
      assert segs[0..] == segs;
    }
  }

  /** No node has a link under the empty name. */
  ghost predicate NoEmptyKeys(idx: Index)
  {
    forall id :: id in idx.nodes ==> "" !in idx.nodes[id].links
  }

  /**
   Only one leading '/' is dropped: "/h" and "h" resolve alike, while a
   header starting with two slashes names an empty element and is never
   found.
   */
  lemma ResolveLeadingSlash(f: Forest, order: seq<Path>, h: string)
    ensures !(|h| > 0 && h[0] == '/') ==> Resolve(f, order, "/" + h) == Resolve(f, order, h)
    ensures NoEmptyKeys(f.idx) ==> Resolve(f, order, "//" + h).Failure?
  {
    assert ("/" + h)[1..] == h;
    var hh := "//" + h;
    assert StripSlash(hh) == "/" + h;
    assert Split("/" + h, '/') == [""] + Split(h, '/') by {
      SplitCut("", h, '/');
    }
    var segs := Segments(hh);
    var starts := StartNodes(f.roots, order);
    if NoEmptyKeys(f.idx) {
      var last := Follow(f.idx, starts, segs);
      assert last == Step(f.idx, Follow(f.idx, starts, segs[1..]), "");
      if last != [] {
        StepMember(f.idx, Follow(f.idx, starts, segs[1..]), "", last[0]);
      }
    }
  }

  /** A walk over links that all point at nodes, from nodes, stays among nodes. */
  lemma {:induction false} FollowClosed(idx: Index, l: seq<NodeId>, segs: seq<string>)
    requires Closed(idx) && forall y :: y in l ==> y in idx.nodes
    ensures forall x :: x in Follow(idx, l, segs) ==> x in idx.nodes
    decreases |segs|
  {
    if segs != [] {
      FollowClosed(idx, l, segs[1..]);
      forall x | x in Follow(idx, l, segs)
        ensures x in idx.nodes
      {
        StepMember(idx, Follow(idx, l, segs[1..]), segs[0], x);
      }
    }
  }

  /** One directory per candidate when every candidate is a node. */
  lemma {:induction false} DirsLength(idx: Index, l: seq<NodeId>)
    requires forall x :: x in l ==> x in idx.nodes
    ensures |Dirs(idx, l)| == |l|
    decreases |l|
  {
    if l != [] {
      DirsLength(idx, l[1..]);
    }
  }

  /** On a searchable forest a successful search reports one directory per final candidate, so at least one. */
  lemma ResolveCount(f: Forest, order: seq<Path>, header: string)
    requires Searchable(f) && Enumerates(order, f.roots)
    ensures var r := Resolve(f, order, header);
      r.Success? ==> |r.value| == |Follow(f.idx, StartNodes(f.roots, order), Segments(header))| > 0
  {
    var starts := StartNodes(f.roots, order);
    forall y | y in starts
      ensures y in f.idx.nodes
    {
      StartNodesMember(f.roots, order, y);
    }
    FollowClosed(f.idx, starts, Segments(header));
    DirsLength(f.idx, Follow(f.idx, starts, Segments(header)));
  }
}
