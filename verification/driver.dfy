/**
 The search driver of `main`: `searchFile` for one source file, and one
 round of the breadth-first loop that hands files to the workers and puts
 the files whose headers were found back in front of the list. The
 compiler is a parameter (`compile`), given the file and the printer
 state whose `Includes` the call passes it; the workers of one round run
 here one after the other, in the order the round took the files.
 */
module Driver {
  import opened Seqs
  import opened Text
  import opened FileSystem
  import opened HeaderIndex
  import opened HeaderIndexFollow
  import opened HeaderIndexTheorems
  import opened Toolchain
  import P = Printer

  /**
   `main`'s printer before the search: `newPrinter`, the system directories
   `systemheaders` found registered through `AddSys`, and, under the `-sys`
   option (set by default), those directories learned as well.
   */
  function Setup(sys: seq<string>, printSystem: bool): (p: P.Printer)
    ensures P.Valid(p) && p.sys == sys
    ensures p.known == if printSystem then Elems(sys) else {}
  {
    var p := P.AddSys(P.NewPrinter(), sys);
    if printSystem then P.Printdirs(p, sys) else p
  }

  /**
   Under `-sys`, every system directory is among the lines the final
   `Flush` writes, whatever the rounds learned after the setup.
   */
  lemma SystemDirsFlushed(sys: seq<string>, p: P.Printer, d: string)
    requires P.Valid(p) && Setup(sys, true).known <= p.known && d in sys
    ensures "-I" + d in P.Flush(p).1
  {
    P.FlushWrites(p, d);
  }

  /** An absolute path as the strings `Search` returns it. */
  function RenderPath(p: Path): string
  {
    "/" + Join(p, '/')
  }

  /** Every directory of a list, rendered. */
  function Rendered(ds: seq<Path>): seq<string>
  {
    FlatMap(ds, (p: Path) => [RenderPath(p)])
  }

  /** The directories `Search(h)` hands to `Printdirs`: none when the search fails. */
  function Found(f: Forest, order: seq<Path>, h: string): seq<string>
  {
    match Resolve(f, order, h)
    case Success(ds) => Rendered(ds)
    case Failure(_) => []
  }

  /** The directories found for all headers of a file, header by header. */
  function FoundAll(f: Forest, order: seq<Path>, hs: seq<string>): seq<string>
  {
    FlatMap(hs, (h: string) => Found(f, order, h))
  }

  /** Some header of the file is found in the index. */
  predicate AnyResolved(f: Forest, order: seq<Path>, hs: seq<string>)
  {
    exists h :: h in hs && Resolve(f, order, h).Success?
  }

  lemma FoundAllSnoc(f: Forest, order: seq<Path>, hs: seq<string>, i: nat)
    requires i < |hs|
    ensures FoundAll(f, order, hs[..i + 1]) == FoundAll(f, order, hs[..i]) + Found(f, order, hs[i])
  {
    TakeOneMore(hs, i);
    FlatMapAppend(hs[..i], [hs[i]], (h: string) => Found(f, order, h));
  }

  lemma AnyResolvedSnoc(f: Forest, order: seq<Path>, hs: seq<string>, i: nat)
    requires i < |hs|
    ensures AnyResolved(f, order, hs[..i + 1]) <==> AnyResolved(f, order, hs[..i]) || Resolve(f, order, hs[i]).Success?
  {
    TakeOneMore(hs, i);
  }

  /** The directories one header's search hands over are the renderings of those the search reports. */
  lemma FoundMember(f: Forest, order: seq<Path>, h: string, d: string)
    ensures d in Found(f, order, h) <==>
      Resolve(f, order, h).Success? && exists p :: p in Resolve(f, order, h).value && d == RenderPath(p)
  {
    if Resolve(f, order, h).Success? {
      var ds := Resolve(f, order, h).value;
      var R := (p: Path) => [RenderPath(p)];
      FlatMapMember(ds, R, d);
      if d in Found(f, order, h) {
        var j :| 0 <= j < |ds| && d in R(ds[j]);
        assert ds[j] in ds;
      }
      if exists p :: p in ds && d == RenderPath(p) {
        var p :| p in ds && d == RenderPath(p);
        var j :| 0 <= j < |ds| && ds[j] == p;
        assert d in R(ds[j]);
      }
    }
  }

  /** A directory is handed to the printer exactly when it renders a directory some header's search reports. */
  lemma FoundAllMember(f: Forest, order: seq<Path>, hs: seq<string>, d: string)
    ensures d in FoundAll(f, order, hs) <==>
      exists h, p :: h in hs && Resolve(f, order, h).Success? && p in Resolve(f, order, h).value && d == RenderPath(p)
  {
    var F := (h: string) => Found(f, order, h);
    FlatMapMember(hs, F, d);
    if d in FoundAll(f, order, hs) {
      var i :| 0 <= i < |hs| && d in F(hs[i]);
      FoundMember(f, order, hs[i], d);
      assert hs[i] in hs;
    }
    if exists h, p :: h in hs && Resolve(f, order, h).Success? && p in Resolve(f, order, h).value && d == RenderPath(p) {
      var h, p :| h in hs && Resolve(f, order, h).Success? && p in Resolve(f, order, h).value && d == RenderPath(p);
      var i :| 0 <= i < |hs| && hs[i] == h;
      FoundMember(f, order, h, d);
      assert d in F(hs[i]);
    }
  }

  /**
   On an index built from roots registered under distinct paths, the
   directories a file's search hands to the printer are exactly the
   renderings of the directories P for which P + h is a kept header file,
   for a header h of the file.
   */
  lemma LearnedExact(scans: seq<ScanRoot>, accept: set<string>, order: seq<Path>, hs: seq<string>, d: string)
    requires AllWellNamed(scans) && DistinctRoots(scans) && BuildIndex(scans, accept).Success?
    requires Enumerates(order, BuildIndex(scans, accept).value.roots)
    ensures d in FoundAll(BuildIndex(scans, accept).value, order, hs) <==>
      exists h, p :: h in hs && Located(scans, accept, p, Segments(h)) && d == RenderPath(p)
  {
    var f := BuildIndex(scans, accept).value;
    FoundAllMember(f, order, hs, d);
    if d in FoundAll(f, order, hs) {
      var h, p :| h in hs && Resolve(f, order, h).Success? && p in Resolve(f, order, h).value && d == RenderPath(p);
      ResolveExact(scans, accept, order, h, p);
    }
    if exists h, p :: h in hs && Located(scans, accept, p, Segments(h)) && d == RenderPath(p) {
      var h, p :| h in hs && Located(scans, accept, p, Segments(h)) && d == RenderPath(p);
      ResolveExact(scans, accept, order, h, p);
    }
  }

  /**
   On such an index a file is searched again exactly when one of its
   headers is a kept header file below some directory.
   */
  lemma RequeuedExact(scans: seq<ScanRoot>, accept: set<string>, order: seq<Path>, hs: seq<string>)
    requires AllWellNamed(scans) && DistinctRoots(scans) && BuildIndex(scans, accept).Success?
    requires Enumerates(order, BuildIndex(scans, accept).value.roots)
    ensures AnyResolved(BuildIndex(scans, accept).value, order, hs) <==>
      exists h, p :: h in hs && Located(scans, accept, p, Segments(h))
  {
    var f := BuildIndex(scans, accept).value;
    if AnyResolved(f, order, hs) {
      var h :| h in hs && Resolve(f, order, h).Success?;
      BuildIndexShape(scans, accept);
      ResolveCount(f, order, h);
      var p := Resolve(f, order, h).value[0];
      ResolveExact(scans, accept, order, h, p);
    }
    if exists h, p :: h in hs && Located(scans, accept, p, Segments(h)) {
      var h, p :| h in hs && Located(scans, accept, p, Segments(h));
      ResolveExact(scans, accept, order, h, p);
    }
  }

  /**
   `searchFile`: the headers the compiler output names are searched one
   by one; every directory a search reports is handed to the printer, and
   the file is to be searched again exactly when some header was found.
   Output that yields no header list, or an empty one, changes nothing.
   */
  method SearchFile(f: Forest, order: seq<Path>, pr: P.Printer, out: string, accept: set<string>) returns (pr1: P.Printer, reserve: bool)
    requires Searchable(f) && Enumerates(order, f.roots)
    ensures ParseDeps(out, accept).Failure? ==> pr1 == pr && !reserve
    ensures ParseDeps(out, accept).Success? ==>
      var hs := ParseDeps(out, accept).value;
      && (reserve <==> AnyResolved(f, order, hs))
      && pr1 == P.Printdirs(pr, FoundAll(f, order, hs))
    ensures (pr1, reserve) == FileOutcome(f, order, pr, out, accept)
  {
    var r := ParseDeps(out, accept);
    if r.Failure? {
      return pr, false;
    }
    var headers := r.value;
    if |headers| == 0 {
      return pr, false;
    }
    pr1, reserve := pr, false;
    for i := 0 to |headers|
      invariant reserve <==> AnyResolved(f, order, headers[..i])
      invariant pr1 == P.Printdirs(pr, FoundAll(f, order, headers[..i]))
    {
      FoundAllSnoc(f, order, headers, i);
      AnyResolvedSnoc(f, order, headers, i);
      ghost var before := FoundAll(f, order, headers[..i]);
      var dirs := Search(f, order, headers[i]);
      if dirs.Success? {
        reserve := true;
        P.PrintdirsAppend(pr, before, Rendered(dirs.value));
        pr1 := P.Printdirs(pr1, Rendered(dirs.value));
        assert Found(f, order, headers[i]) == Rendered(dirs.value);
      } else {
        assert before + Found(f, order, headers[i]) == before;
      }
    }
    assert headers[..|headers|] == headers;
  }

  /**
   What `searchFile` does with compiler output `out`: the printer
   afterwards, and whether to search the file again. The printer only
   learns; a file that is not to be searched again taught it nothing.
   */
  function FileOutcome(f: Forest, order: seq<Path>, pr: P.Printer, out: string, accept: set<string>): (r: (P.Printer, bool))
    ensures pr.known <= r.0.known && r.0.sys == pr.sys && (P.Valid(pr) ==> P.Valid(r.0))
    ensures r.1 ==> ParseDeps(out, accept).Success?
    ensures !r.1 ==> r.0 == pr
  {
    match ParseDeps(out, accept)
    case Failure(_) => (pr, false)
    case Success(hs) =>
      NothingResolvedNothingFound(f, order, hs);
      (P.Printdirs(pr, FoundAll(f, order, hs)), AnyResolved(f, order, hs))
  }

  /** When no header of `hs` is found, no directory is handed to the printer. */
  lemma NothingResolvedNothingFound(f: Forest, order: seq<Path>, hs: seq<string>)
    ensures !AnyResolved(f, order, hs) ==> FoundAll(f, order, hs) == []
  {
    if !AnyResolved(f, order, hs) && FoundAll(f, order, hs) != [] {
      FoundAllMember(f, order, hs, FoundAll(f, order, hs)[0]);
      assert false;
    }
  }

  /**
   One worker's effect on the round's state (the printer and the files to
   search again): `searchFile` on file `x`, with the compiler run against
   the printer as it is.
   */
  function SearchStep(f: Forest, order: seq<Path>, st: (P.Printer, seq<string>), x: string,
                      compile: (string, P.Printer) -> string, accept: set<string>): (r: (P.Printer, seq<string>))
    ensures r.1 == st.1 || r.1 == st.1 + [x]
    ensures r.1 == st.1 ==> r.0 == st.0
    ensures st.0.known <= r.0.known && r.0.sys == st.0.sys && (P.Valid(st.0) ==> P.Valid(r.0))
  {
    var (pr1, reserve) := FileOutcome(f, order, st.0, compile(x, st.0), accept);
    (pr1, if reserve then st.1 + [x] else st.1)
  }

  /**
   The files of a batch searched in order, each against the printer state
   left by the ones before: the printer at the end, and the files to
   search again, in order.
   */
  function Process(f: Forest, order: seq<Path>, pr: P.Printer, files: seq<string>,
                   compile: (string, P.Printer) -> string, accept: set<string>): (r: (P.Printer, seq<string>))
    ensures pr.known <= r.0.known && r.0.sys == pr.sys && (P.Valid(pr) ==> P.Valid(r.0))
    ensures |r.1| <= |files|
    decreases |files|
  {
    if files == [] then (pr, [])
    else SearchStep(f, order, Process(f, order, pr, files[..|files| - 1], compile, accept), files[|files| - 1], compile, accept)
  }

  lemma ProcessNext(f: Forest, order: seq<Path>, pr: P.Printer, files: seq<string>, k: nat,
                    compile: (string, P.Printer) -> string, accept: set<string>)
    requires k < |files|
    ensures Process(f, order, pr, files[..k + 1], compile, accept) ==
      SearchStep(f, order, Process(f, order, pr, files[..k], compile, accept), files[k], compile, accept)
  {
    assert files[..k + 1][..k] == files[..k];
  }

  /**
   Searching a batch only adds to what the printer knows, and the files to
   search again are some of the batch's files, in the batch's order; all
   of them exactly when none is dropped.
   */
  lemma {:induction false} ProcessFacts(f: Forest, order: seq<Path>, pr: P.Printer, files: seq<string>,
                                        compile: (string, P.Printer) -> string, accept: set<string>)
    ensures var (p, q) := Process(f, order, pr, files, compile, accept);
      && pr.known <= p.known && p.sys == pr.sys && (P.Valid(pr) ==> P.Valid(p))
      && multiset(q) <= multiset(files)
      && (q == files <==> |q| == |files|)
    decreases |files|
  {
    if files != [] {
      var init := files[..|files| - 1];
      var x := files[|files| - 1];
      ProcessFacts(f, order, pr, init, compile, accept);
      var (p0, q0) := Process(f, order, pr, init, compile, accept);
      FrontLast(files);
      assert multiset(files) == multiset(init) + multiset{x};
      var (p, q) := Process(f, order, pr, files, compile, accept);
      assert q == q0 || q == q0 + [x];
      if q == q0 {
        assert |q0| <= |init| by {
          MultisetSize(q0, init);
        }
      }
    }
  }

  /** A sub-multiset is no larger. */
  lemma MultisetSize<T>(a: seq<T>, b: seq<T>)
    requires multiset(a) <= multiset(b)
    ensures |a| <= |b|
  {
    assert |multiset(a)| <= |multiset(b)| by {
      assert multiset(b) == multiset(a) + (multiset(b) - multiset(a));
    }
  }

  /** Putting some of the taken files back in front of the rest loses the others. */
  lemma RequeueFront(batch: seq<string>, queue: seq<string>, rest: seq<string>)
    requires multiset(queue) <= multiset(batch) && (queue == batch <==> |queue| == |batch|)
    ensures multiset(queue + rest) <= multiset(batch + rest)
    ensures queue + rest == batch + rest <==> queue == batch
  {
    if queue + rest == batch + rest {
      assert |queue| == |batch|;
    }
  }

  /**
   How many files a round takes: `nworks` of them, or all that are left.
   None at all when `nworks` is 0, since the loop test `n > 0` fails at
   once; a negative `nworks` never gets this far, because `newPool` panics
   on a negative channel capacity.
   */
  function Taken(nworks: int, pending: seq<string>): (k: nat)
    ensures k <= |pending|
  {
    if nworks <= 0 then 0 else if nworks < |pending| then nworks else |pending|
  }

  /** What a round taking `Taken(nworks, pending)` files leaves: see `Round`. */
  lemma RoundFacts(f: Forest, order: seq<Path>, pr: P.Printer, pending: seq<string>, nworks: int,
                   compile: (string, P.Printer) -> string, accept: set<string>)
    ensures var batch := pending[..Taken(nworks, pending)];
      var (p, q) := Process(f, order, pr, batch, compile, accept);
      var next := q + pending[|batch|..];
      && multiset(next) <= multiset(pending)
      && (next == pending <==> q == batch)
      && (nworks <= 0 ==> next == pending && p == pr)
      && pr.known <= p.known && p.sys == pr.sys && (P.Valid(pr) ==> P.Valid(p))
  {
    var k := Taken(nworks, pending);
    var batch := pending[..k];
    var r := Process(f, order, pr, batch, compile, accept);
    ProcessFacts(f, order, pr, batch, compile, accept);
    RequeueFront(batch, r.1, pending[k..]);
    TakeDrop(pending, k);
  }

  /** The job a worker runs: `searchFile` on `p`, and `p` queued again when it asks for that. */
  method Work(f: Forest, order: seq<Path>, pr: P.Printer, queue: seq<string>, p: string,
              compile: (string, P.Printer) -> string, accept: set<string>)
    returns (pr1: P.Printer, queue1: seq<string>)
    requires Searchable(f) && Enumerates(order, f.roots)
    ensures (pr1, queue1) == SearchStep(f, order, (pr, queue), p, compile, accept)
  {
    var reserve;
    pr1, reserve := SearchFile(f, order, pr, compile(p, pr), accept);
    queue1 := queue;
    if reserve {
      queue1 := queue1 + [p];
    }
  }

  /** One pass of the inner loop of `main`: the job for the `k`-th file of the list, after the jobs for the files before it. */
  method Take(f: Forest, order: seq<Path>, pr: P.Printer, pending: seq<string>, k: nat,
              pr1: P.Printer, queue: seq<string>, compile: (string, P.Printer) -> string, accept: set<string>)
    returns (pr2: P.Printer, queue2: seq<string>)
    requires Searchable(f) && Enumerates(order, f.roots) && k < |pending|
    requires (pr1, queue) == Process(f, order, pr, pending[..k], compile, accept)
    ensures (pr2, queue2) == Process(f, order, pr, pending[..k + 1], compile, accept)
  {
    pr2, queue2 := Work(f, order, pr1, queue, pending[k], compile, accept);
    ProcessNext(f, order, pr, pending, k, compile, accept);
  }

  /**
   The inner loop of `main`: files are taken from the front of the list
   while there are files left and workers to give them to, and each is
   searched.
   */
  method RunBatch(f: Forest, order: seq<Path>, pr: P.Printer, pending: seq<string>, nworks: int,
                  compile: (string, P.Printer) -> string, accept: set<string>)
    returns (pr1: P.Printer, queue: seq<string>, k: nat)
    requires Searchable(f) && Enumerates(order, f.roots)
    ensures k == Taken(nworks, pending)
    ensures (pr1, queue) == Process(f, order, pr, pending[..k], compile, accept)
  {
    k := 0;
    queue := [];
    pr1 := pr;
    var n := nworks;
    while k < |pending| && n > 0
      invariant k <= |pending| && k == nworks - n && (nworks <= 0 ==> k == 0) && (nworks > 0 ==> n >= 0)
      invariant (pr1, queue) == Process(f, order, pr, pending[..k], compile, accept)
    {
      pr1, queue := Take(f, order, pr, pending, k, pr1, queue, compile, accept);
      k := k + 1;
      n := n - 1;
    }
  }

  /**
   One round of `main`'s loop: up to `nworks` files are taken from the
   front of the list and searched; the files to search again are put back
   in front of the files not yet taken. No file is gained, and the list
   stays as it was exactly when every file taken is put back, which is
   always the case when `nworks` is 0.
   */
  method Round(f: Forest, order: seq<Path>, pr: P.Printer, pending: seq<string>, nworks: int,
               compile: (string, P.Printer) -> string, accept: set<string>)
    returns (pr1: P.Printer, next: seq<string>, batch: seq<string>)
    requires Searchable(f) && Enumerates(order, f.roots)
    ensures batch == pending[..Taken(nworks, pending)]
    ensures var (p, q) := Process(f, order, pr, batch, compile, accept);
      pr1 == p && next == q + pending[|batch|..]
    ensures multiset(next) <= multiset(pending)
    ensures next == pending <==> Process(f, order, pr, batch, compile, accept).1 == batch
    ensures nworks <= 0 ==> next == pending && pr1 == pr
    ensures pr.known <= pr1.known && pr1.sys == pr.sys && (P.Valid(pr) ==> P.Valid(pr1))
  {
    var queue, k;
    pr1, queue, k := RunBatch(f, order, pr, pending, nworks, compile, accept);
    batch := pending[..k];
    next := queue + pending[k..];
    RoundFacts(f, order, pr, pending, nworks, compile, accept);
  }

  /**
   `main`'s outer loop run for at most `n` rounds, stopping early once the
   list is empty: the printer and the list it leaves. Every round is the
   one `Round` computes.
   */
  function Rounds(f: Forest, order: seq<Path>, pr: P.Printer, pending: seq<string>, nworks: int,
                  compile: (string, P.Printer) -> string, accept: set<string>, n: nat): (r: (P.Printer, seq<string>))
    ensures pr.known <= r.0.known && r.0.sys == pr.sys && (P.Valid(pr) ==> P.Valid(r.0))
    ensures multiset(r.1) <= multiset(pending)
    decreases n
  {
    if n == 0 || pending == [] then (pr, pending)
    else
      var batch := pending[..Taken(nworks, pending)];
      var (p, q) := Process(f, order, pr, batch, compile, accept);
      RoundFacts(f, order, pr, pending, nworks, compile, accept);
      Rounds(f, order, p, q + pending[|batch|..], nworks, compile, accept, n - 1)
  }

  /**
   Under `-sys`, however many rounds `main`'s loop runs after the setup,
   the final `Flush` writes every system directory.
   */
  lemma SystemDirsSurviveRounds(f: Forest, order: seq<Path>, sys: seq<string>, pending: seq<string>, nworks: int,
                                compile: (string, P.Printer) -> string, accept: set<string>, n: nat, d: string)
    requires d in sys
    ensures var p := Rounds(f, order, Setup(sys, true), pending, nworks, compile, accept, n).0;
      P.Valid(p) && "-I" + d in P.Flush(p).1
  {
    var p := Rounds(f, order, Setup(sys, true), pending, nworks, compile, accept, n).0;
    SystemDirsFlushed(sys, p, d);
  }
}
