/**
 The directory trees the tool walks, as an inductive value instead of calls
 to `os.Lstat`, `ioutil.ReadDir` and `filepath.Walk`, and the source-file
 collection walk (`collect`) over such a tree.

 A path is a sequence of path elements; `filepath.Join` becomes
 concatenation and `filepath.Dir` dropping the last element. A directory's
 entries are listed in the order the listing returns them.
 */
module FileSystem {
  import opened Seqs
  import opened Text

  type Path = seq<string>

  /** One directory entry as `os.Lstat` classifies it. */
  datatype Entry =
    | File(name: string)                      // a regular file
    | Dir(name: string, entries: seq<Entry>)  // a directory and its listing
    | Other(name: string)                     // neither: symlink, socket, device, ...
    | Unreadable(name: string)                // an entry `os.Lstat` fails on

  /** The errors a walk reports: the path it could not stat. */
  datatype FsError = StatFailed(path: Path)

  /** Every entry of the tree has a non-empty name, as directory listings guarantee. */
  predicate WellNamed(e: Entry)
    decreases e
  {
    && e.name != ""
    && (e.Dir? ==> forall i :: 0 <= i < |e.entries| ==> WellNamed(e.entries[i]))
  }

  /** The index scan's notion of a hidden entry: its name starts with '.'. */
  predicate IndexHidden(name: string)
  {
    |name| > 0 && name[0] == '.'
  }

  /** The source walk's notion of a hidden entry: a name longer than one character starting with '.'. */
  predicate WalkHidden(name: string)
  {
    |name| > 1 && name[0] == '.'
  }

  /** `p` lies at or below `dir`. */
  predicate Below(dir: Path, p: Path)
  {
    |dir| <= |p| && p[..|dir|] == dir
  }

  /**
   `rel` is the path, relative to the directory holding `e`, of a header
   file an index scan of `e` keeps: a regular file with an accepted
   extension, no element of whose path is hidden.
   */
  predicate IsIndexedFile(e: Entry, rel: Path, accept: set<string>)
    decreases e
  {
    && |rel| >= 1 && rel[0] == e.name && !IndexHidden(e.name)
    && match e
      case File(name) => |rel| == 1 && Ext(name) in accept
      case Dir(_, es) => |rel| > 1 && exists i :: 0 <= i < |es| && IsIndexedFile(es[i], rel[1..], accept)
      case Other(_) => false
      case Unreadable(_) => false
  }

  /** Some header file an index scan of `e` keeps has base name `k`. */
  predicate HasFileNamed(e: Entry, k: string, accept: set<string>)
    decreases e
  {
    && !IndexHidden(e.name)
    && match e
      case File(name) => name == k && Ext(name) in accept
      case Dir(_, es) => exists i :: 0 <= i < |es| && HasFileNamed(es[i], k, accept)
      case Other(_) => false
      case Unreadable(_) => false
  }

  /** The index scan meets an entry it cannot stat: one not below a hidden entry. */
  predicate HasUnreadable(e: Entry)
    decreases e
  {
    && !IndexHidden(e.name)
    && (|| e.Unreadable?
        || (e.Dir? && exists i :: 0 <= i < |e.entries| && HasUnreadable(e.entries[i])))
  }

  /** `rel` is the path of an entry of the tree `e`, relative to the directory holding `e`. */
  predicate IsPath(e: Entry, rel: Path)
    decreases e
  {
    && |rel| >= 1 && rel[0] == e.name
    && (|rel| == 1 || (e.Dir? && exists i :: 0 <= i < |e.entries| && IsPath(e.entries[i], rel[1..])))
  }

  /** A relative path the source walk emits: no element hidden, the last one with an accepted extension. */
  predicate Collectable(rel: Path, accept: set<string>)
  {
    && |rel| >= 1
    && (forall k :: 0 <= k < |rel| ==> !WalkHidden(rel[k]))
    && Ext(rel[|rel| - 1]) in accept
  }

  /** The walk meets an entry it cannot stat: one not below a hidden directory. */
  predicate WalkUnreadable(e: Entry)
    decreases e
  {
    || e.Unreadable?
    || (&& !WalkHidden(e.name) && e.Dir?
        && exists i :: 0 <= i < |e.entries| && WalkUnreadable(e.entries[i]))
  }

  /**
   `collect`: `filepath.Walk` over the tree at `dir + [e.name]`, pre-order,
   skipping hidden entries (and the whole subtree of a hidden directory) and
   keeping every other entry whose name has an accepted extension. A stat
   failure ends the walk with that error. The extension test does not look at
   the kind of entry, so a directory named like a source file is kept too.
   */
  function Collect(dir: Path, e: Entry, accept: set<string>): (r: Result<seq<Path>, FsError>)
    ensures r.Success? ==> forall p :: p in r.value ==> Below(dir + [e.name], p)
    ensures r.Failure? ==> Below(dir + [e.name], r.error.path)
    decreases e, 1
  {
    if e.Unreadable? then Failure(StatFailed(dir + [e.name]))
    else if WalkHidden(e.name) then Success([])
    else
      var here := if Ext(e.name) in accept then [dir + [e.name]] else [];
      if e.Dir? then
        match CollectAll(dir + [e.name], e.entries, accept)
        case Success(below) => Success(here + below)
        case Failure(err) => Failure(err)
      else Success(here)
  }

  /** The walk over a directory listing, in listing order. */
  function CollectAll(dir: Path, es: seq<Entry>, accept: set<string>): (r: Result<seq<Path>, FsError>)
    ensures r.Success? ==> forall p :: p in r.value ==> Below(dir, p)
    ensures r.Failure? ==> Below(dir, r.error.path)
    decreases es, 0
  {
    if es == [] then Success([])
    else match Collect(dir, es[0], accept)
      case Failure(err) => Failure(err)
      case Success(first) =>
        match CollectAll(dir, es[1..], accept)
        case Failure(err) => Failure(err)
        case Success(rest) => Success(first + rest)
  }

  /** What the walk of the tree `e` in `dir` should emit. */
  predicate Collected(dir: Path, e: Entry, p: Path, accept: set<string>)
  {
    Below(dir, p) && IsPath(e, p[|dir|..]) && Collectable(p[|dir|..], accept)
  }

  /** A collectable path of a visible directory is the directory itself or lies below one of its entries. */
  lemma CollectedDir(dir: Path, e: Entry, p: Path, accept: set<string>)
    requires e.Dir? && !WalkHidden(e.name)
    ensures Collected(dir, e, p, accept) <==>
      ((Ext(e.name) in accept && p == dir + [e.name])
       || exists i :: 0 <= i < |e.entries| && Collected(dir + [e.name], e.entries[i], p, accept))
  {
    var sub := dir + [e.name];
    if Collected(dir, e, p, accept) {
      var r := p[|dir|..];
      if |r| == 1 {
        assert p == dir + r;
      } else {
        var i :| 0 <= i < |e.entries| && IsPath(e.entries[i], r[1..]);
        assert p[|sub|..] == r[1..];
        assert p[..|sub|] == sub by {
          assert p[..|dir|] == dir;
          assert p[|dir|] == r[0];
        }
        CollectableCons(e.name, r[1..], accept);
        assert r == [e.name] + r[1..];
        assert Collected(sub, e.entries[i], p, accept);
      }
    }
    if exists i :: 0 <= i < |e.entries| && Collected(sub, e.entries[i], p, accept) {
      var i :| 0 <= i < |e.entries| && Collected(sub, e.entries[i], p, accept);
      var r' := p[|sub|..];
      var r := p[|dir|..];
      assert p == sub + r';
      assert r == [e.name] + r';
      assert r[1..] == r';
      CollectableCons(e.name, r', accept);
      assert IsPath(e, r);
    }
    if Ext(e.name) in accept && p == dir + [e.name] {
      assert p[|dir|..] == [e.name];
    }
  }

  lemma CollectableCons(name: string, r: Path, accept: set<string>)
    requires |r| >= 1
    ensures Collectable([name] + r, accept) <==> !WalkHidden(name) && Collectable(r, accept)
  {
    var c := [name] + r;
    assert c[0] == name;
    assert c[|c| - 1] == r[|r| - 1];
    if Collectable(c, accept) {
      forall k | 0 <= k < |r|
        ensures !WalkHidden(r[k])
      {
        assert r[k] == c[k + 1];
      }
    }
    if !WalkHidden(name) && Collectable(r, accept) {
      forall k | 0 <= k < |c|
        ensures !WalkHidden(c[k])
      {
        if k > 0 {
          assert c[k] == r[k - 1];
        }
      }
    }
  }

  /**
   The walk fails exactly when it meets an entry it cannot stat, and
   otherwise emits exactly the collectable paths of the tree.
   */
  lemma {:induction false} CollectExact(dir: Path, e: Entry, accept: set<string>)
    ensures Collect(dir, e, accept).Failure? <==> WalkUnreadable(e)
    ensures Collect(dir, e, accept).Success? ==>
      forall p :: p in Collect(dir, e, accept).value <==> Collected(dir, e, p, accept)
    decreases e, 1
  {
    var res := Collect(dir, e, accept);
    if e.Unreadable? {
    } else if WalkHidden(e.name) {
      forall p
        ensures !Collected(dir, e, p, accept)
      {
      }
    } else {
      var here := if Ext(e.name) in accept then [dir + [e.name]] else [];
      var sub := dir + [e.name];
      if e.Dir? {
        CollectAllExact(sub, e.entries, accept);
        if res.Success? {
          var below := CollectAll(sub, e.entries, accept).value;
          assert res.value == here + below;
          forall p
            ensures p in res.value <==> Collected(dir, e, p, accept)
          {
            CollectedDir(dir, e, p, accept);
          }
        }
      } else {
        forall p
          ensures p in res.value <==> Collected(dir, e, p, accept)
        {
          if Collected(dir, e, p, accept) {
            var r := p[|dir|..];
            assert r == [e.name];
            assert p == dir + r;
          }
          if p in res.value {
            assert p[|dir|..] == [e.name];
          }
        }
      }
    }
  }

  lemma {:induction false} CollectAllExact(dir: Path, es: seq<Entry>, accept: set<string>)
    ensures CollectAll(dir, es, accept).Failure? <==> exists i :: 0 <= i < |es| && WalkUnreadable(es[i])
    ensures CollectAll(dir, es, accept).Success? ==>
      forall p :: p in CollectAll(dir, es, accept).value <==> exists i :: 0 <= i < |es| && Collected(dir, es[i], p, accept)
    decreases es, 0
  {
    if es != [] {
      CollectExact(dir, es[0], accept);
      CollectAllExact(dir, es[1..], accept);
      if exists i :: 0 <= i < |es[1..]| && WalkUnreadable(es[1..][i]) {
        var i :| 0 <= i < |es[1..]| && WalkUnreadable(es[1..][i]);
        assert es[1..][i] == es[i + 1];
      }
      if exists i :: 0 <= i < |es| && WalkUnreadable(es[i]) {
        var i :| 0 <= i < |es| && WalkUnreadable(es[i]);
        if i > 0 {
          assert es[1..][i - 1] == es[i];
        }
      }
      var res := CollectAll(dir, es, accept);
      if res.Success? {
        var first := Collect(dir, es[0], accept).value;
        var rest := CollectAll(dir, es[1..], accept).value;
        assert res.value == first + rest;
        forall p
          ensures p in res.value <==> exists i :: 0 <= i < |es| && Collected(dir, es[i], p, accept)
        {
          if exists i :: 0 <= i < |es| && Collected(dir, es[i], p, accept) {
            var i :| 0 <= i < |es| && Collected(dir, es[i], p, accept);
            if i > 0 {
              assert es[1..][i - 1] == es[i];
            }
          }
          if p in rest {
            var i :| 0 <= i < |es[1..]| && Collected(dir, es[1..][i], p, accept);
            assert es[1..][i] == es[i + 1];
          }
        }
      }
    }
  }
}
