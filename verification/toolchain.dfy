/**
 The two pieces of compiler output the tool reads, parsed. `gcc -M -MG`
 prints a make rule "target: dep dep \ (newline) dep ..." naming every
 file a source includes; `listheaders` keeps the relative header names of
 it. `gcc -E -v` prints, among other things, the system include
 directories between two marker lines; `systemheaders` keeps those. The
 compiler runs themselves are left out: the parsers take their output.
 */
module Toolchain {
  import opened Seqs
  import opened Text

  /** `isLocationKnownHeader`: the compiler already resolved the header to an absolute path. */
  function IsLocationKnownHeader(name: string): (r: bool)
    ensures r <==> HasPrefix(name, "/")
  {
    IsAbs(name)
  }

  /** `bytes.Replace(s, "\\\n", "", -1)`: every backslash-newline, found left to right without overlap, dropped. */
  function RemoveContinuations(s: string): (r: string)
    ensures |r| <= |s|
    decreases |s|
  {
    if |s| >= 2 && s[0] == '\\' && s[1] == '\n' then RemoveContinuations(s[2..])
    else if s == [] then []
    else [s[0]] + RemoveContinuations(s[1..])
  }

  /** A text without a backslash is left as it is. */
  lemma {:induction false} RemoveContinuationsPlain(s: string)
    requires '\\' !in s
    ensures RemoveContinuations(s) == s
    decreases |s|
  {
    if s != [] {
      assert s[0] in s;
      assert forall c :: c in s[1..] ==> c in s;
      RemoveContinuationsPlain(s[1..]);
    }
  }

  /** Dropping a continuation line break in the middle of a text is dropping it on each side of the break. */
  lemma {:induction false} RemoveContinuationsSplice(a: string, b: string)
    ensures RemoveContinuations(a + "\\\n" + b) == RemoveContinuations(a) + RemoveContinuations(b)
    decreases |a|
  {
    var s := a + "\\\n" + b;
    if a == [] {
      assert s == "\\\n" + b && s[2..] == b;
    } else if |a| >= 2 && a[0] == '\\' && a[1] == '\n' {
      assert s[..2] == a[..2] && s[2..] == a[2..] + "\\\n" + b;
      assert RemoveContinuations(s) == RemoveContinuations(s[2..]);
      RemoveContinuationsSplice(a[2..], b);
    } else {
      assert s[0] == a[0] && s[1..] == a[1..] + "\\\n" + b;
      assert RemoveContinuations(s) == [a[0]] + RemoveContinuations(s[1..]);
      assert RemoveContinuations(a) == [a[0]] + RemoveContinuations(a[1..]);
      RemoveContinuationsSplice(a[1..], b);
    }
  }

  /** A text that does not end in a backslash leaves nothing to pair with what follows it. */
  lemma {:induction false} RemoveContinuationsAppend(a: string, c: string)
    requires a == [] || a[|a| - 1] != '\\'
    ensures RemoveContinuations(a + c) == RemoveContinuations(a) + RemoveContinuations(c)
    decreases |a|
  {
    var s := a + c;
    if a == [] {
      assert s == c;
    } else if |a| >= 2 && a[0] == '\\' && a[1] == '\n' {
      assert s[..2] == a[..2] && s[2..] == a[2..] + c;
      assert RemoveContinuations(s) == RemoveContinuations(s[2..]);
      RemoveContinuationsAppend(a[2..], c);
    } else {
      assert s[0] == a[0] && s[1..] == a[1..] + c;
      assert |a| == 1 ==> s[0] != '\\';
      assert RemoveContinuations(s) == [a[0]] + RemoveContinuations(s[1..]);
      assert RemoveContinuations(a) == [a[0]] + RemoveContinuations(a[1..]);
      RemoveContinuationsAppend(a[1..], c);
    }
  }

  /** `listheaders` found no output at all; the compiler's error and stderr are not modelled. */
  datatype DepsError = NoOutput

  /** A token `listheaders` reports: non-empty, with an accepted extension, and not already absolute. */
  predicate Kept(accept: set<string>, token: string)
  {
    token != "" && Ext(token) in accept && !IsLocationKnownHeader(token)
  }

  /**
   The parsing half of `listheaders`: fails on empty output; otherwise drops
   the final byte (the newline), joins continuation lines, splits on single
   spaces, drops the first token (the make target) and keeps, in order, the
   tokens that name relative headers with an accepted extension.
   */
  function ParseDeps(out: string, accept: set<string>): (r: Result<seq<string>, DepsError>)
    ensures r.Failure? <==> out == []
    ensures r.Success? ==> forall h :: h in r.value ==>
      h != "" && ' ' !in h && Ext(h) in accept && !HasPrefix(h, "/")
  {
    if out == [] then Failure(NoOutput)
    else
      var list := Split(RemoveContinuations(out[..|out| - 1]), ' ');
      Success(Filter(list[1..], (t: string) => Kept(accept, t)))
  }

  /** A continuation line break anywhere before the final byte changes nothing, unless it follows a backslash. */
  lemma ParseDepsContinuation(a: string, b: string, accept: set<string>)
    requires a == [] || a[|a| - 1] != '\\'
    requires b != []
    ensures ParseDeps(a + "\\\n" + b, accept) == ParseDeps(a + b, accept)
  {
    var b' := b[..|b| - 1];
    assert (a + "\\\n" + b)[..|a + "\\\n" + b| - 1] == a + "\\\n" + b';
    assert (a + b)[..|a + b| - 1] == a + b';
    RemoveContinuationsSplice(a, b');
    RemoveContinuationsAppend(a, b');
  }

  /** Every character of a join is the separator or a character of a part. */
  lemma {:induction false} JoinChars(parts: seq<string>, sep: char, c: char)
    requires c in Join(parts, sep)
    ensures c == sep || exists i :: 0 <= i < |parts| && c in parts[i]
    decreases |parts|
  {
    if |parts| > 1 {
      var rest := Join(parts[1..], sep);
      assert Join(parts, sep) == parts[0] + [sep] + rest;
      if c in rest {
        JoinChars(parts[1..], sep, c);
        if c != sep {
          var i :| 0 <= i < |parts[1..]| && c in parts[1..][i];
          assert c in parts[i + 1];
        }
      }
    }
  }

  /** The make rule `gcc -M` prints for `target` with dependencies `deps`, on one line. */
  function RenderDeps(target: string, deps: seq<string>): string
  {
    target + " " + Join(deps, ' ') + "\n"
  }

  /** Parsing a printed rule gives back its dependencies, less those `listheaders` skips. */
  lemma ParseDepsRender(target: string, deps: seq<string>, accept: set<string>)
    requires ' ' !in target && '\\' !in target
    requires forall i :: 0 <= i < |deps| ==> ' ' !in deps[i] && '\\' !in deps[i]
    ensures ParseDeps(RenderDeps(target, deps), accept) == Success(Filter(deps, (t: string) => Kept(accept, t)))
  {
    var out := RenderDeps(target, deps);
    var joined := Join(deps, ' ');
    var line := target + " " + joined;
    assert out[..|out| - 1] == line;
    assert '\\' !in joined by {
      if '\\' in joined {
        JoinChars(deps, ' ', '\\');
      }
    }
    assert '\\' !in line;
    RemoveContinuationsPlain(line);
    assert line == target + [' '] + joined;
    SplitCut(target, joined, ' ');
    if deps == [] {
      assert Split(joined, ' ') == [""];
    } else {
      SplitJoin(deps, ' ');
    }
  }

  /** The line `gcc -v` prints before the system include directories. */
  const StartMarker: string := "#include <...> search starts here:"

  /** The line `gcc -v` prints after them. */
  const EndMarker: string := "End of search list."

  predicate IsStart(line: string)
  {
    HasPrefix(line, StartMarker)
  }

  predicate IsEnd(line: string)
  {
    HasPrefix(line, EndMarker)
  }

  predicate NotStart(line: string)
  {
    !IsStart(line)
  }

  /** No line is both markers. */
  lemma StartNotEnd(line: string)
    ensures !(IsStart(line) && IsEnd(line))
  {
    if IsStart(line) {
      assert line[0] == line[..|StartMarker|][0] == StartMarker[0] == '#';
      assert EndMarker[0] == 'E';
      assert line[..|EndMarker|][0] != EndMarker[0];
    }
  }

  /** Every line with its surrounding white space trimmed. */
  function Trimmed(lines: seq<string>): (t: seq<string>)
    ensures |t| == |lines|
    decreases |lines|
  {
    if lines == [] then [] else [TrimSpace(lines[0])] + Trimmed(lines[1..])
  }

  lemma {:induction false} TrimmedAt(lines: seq<string>, i: nat)
    requires i < |lines|
    ensures Trimmed(lines)[i] == TrimSpace(lines[i])
    decreases i
  {
    if i > 0 {
      TrimmedAt(lines[1..], i - 1);
    }
  }

  /** The position of the first start marker, or the number of lines if there is none. */
  function FirstStart(t: seq<string>): (k: nat)
    ensures k <= |t| && (k < |t| ==> IsStart(t[k]))
    ensures forall j :: 0 <= j < k ==> !IsStart(t[j])
    decreases |t|
  {
    if t == [] || IsStart(t[0]) then 0 else 1 + FirstStart(t[1..])
  }

  /** The position of the first end marker, or the number of lines if there is none. */
  function FirstEnd(t: seq<string>): (k: nat)
    ensures k <= |t| && (k < |t| ==> IsEnd(t[k]))
    ensures forall j :: 0 <= j < k ==> !IsEnd(t[j])
    decreases |t|
  {
    if t == [] || IsEnd(t[0]) then 0 else 1 + FirstEnd(t[1..])
  }

  /**
   The trimmed lines after the first start marker `s` and before line `i`,
   leaving out any further start marker; none when `s` is not before `i`.
   */
  function KeptSoFar(t: seq<string>, s: nat, i: nat): seq<string>
    requires i <= |t|
  {
    if s < i then Filter(t[s + 1..i], NotStart) else []
  }

  /** Neither starts nor ends with white space, as `strings.TrimSpace` leaves it. */
  predicate Unpadded(d: string)
  {
    d == [] || (!IsSpace(d[0]) && !IsSpace(d[|d| - 1]))
  }

  /** Lines kept before the first end marker are trimmed and are neither marker. */
  lemma KeptClean(lines: seq<string>, s: nat, i: nat)
    requires i <= FirstEnd(Trimmed(lines))
    ensures forall d :: d in KeptSoFar(Trimmed(lines), s, i) ==> Unpadded(d) && !IsStart(d) && !IsEnd(d)
  {
    var t := Trimmed(lines);
    if s < i {
      forall d | d in KeptSoFar(t, s, i)
        ensures Unpadded(d) && !IsEnd(d)
      {
        var k :| s + 1 <= k < i && t[k] == d;
        TrimmedAt(lines, k);
      }
    }
  }

  /**
   The system include directories in `gcc -v`'s output: the trimmed lines
   after the first start marker and before the first end marker, leaving out
   any further start marker; none when no start marker precedes the end.
   */
  function SystemDirs(lines: seq<string>): (r: seq<string>)
    ensures forall d :: d in r ==> Unpadded(d) && !IsStart(d) && !IsEnd(d)
  {
    var t := Trimmed(lines);
    KeptClean(lines, FirstStart(t), FirstEnd(t));
    KeptSoFar(t, FirstStart(t), FirstEnd(t))
  }

  /** A single line survives the filter exactly when it is not a start marker. */
  lemma FilterOne(x: string)
    ensures Filter([x], NotStart) == if IsStart(x) then [] else [x]
  {
  }

  /** One more line: a start marker adds nothing, any other line is added once collecting has started. */
  lemma KeptSoFarStep(t: seq<string>, s: nat, i: nat)
    requires i < |t| && (s == i ==> IsStart(t[i]))
    ensures KeptSoFar(t, s, i + 1) ==
      if IsStart(t[i]) || i <= s then KeptSoFar(t, s, i) else KeptSoFar(t, s, i) + [t[i]]
  {
    if s < i {
      FilterAppend(t[s + 1..i], [t[i]], NotStart);
      assert t[s + 1..i + 1] == t[s + 1..i] + [t[i]];
      FilterOne(t[i]);
    } else if s == i {
      assert t[s + 1..i + 1] == [];
    }
  }

  /** A line that is no end marker, at or before the first one, lies before it. */
  lemma EndAfter(t: seq<string>, i: nat)
    requires i <= FirstEnd(t) && i < |t| && !IsEnd(t[i])
    ensures i + 1 <= FirstEnd(t)
  {
  }

  /**
   The scan's state after the trimmed lines `t[..i]`, read one at a time
   with no end check: whether a start marker was seen, and the lines kept
   since.
   */
  function ScanPrefix(t: seq<string>, i: nat): (bool, seq<string>)
    requires i <= |t|
    decreases i
  {
    if i == 0 then (false, [])
    else
      var (started, dirs) := ScanPrefix(t, i - 1);
      if IsStart(t[i - 1]) then (true, dirs)
      else if started then (true, dirs + [t[i - 1]])
      else (false, dirs)
  }

  /** Reading line by line collects exactly what follows the first start marker, less further start markers. */
  lemma {:induction false} ScanPrefixKept(t: seq<string>, i: nat)
    requires i <= |t|
    ensures ScanPrefix(t, i) == (FirstStart(t) < i, KeptSoFar(t, FirstStart(t), i))
    decreases i
  {
    if i > 0 {
      ScanPrefixKept(t, i - 1);
      KeptSoFarStep(t, FirstStart(t), i - 1);
    }
  }

  /**
   The scanning loop of `systemheaders` over the lines of `gcc -v`'s
   output: a start marker starts collecting (and is itself skipped), the
   first end marker stops, and while collecting every trimmed line is kept.
   */
  method SearchDirs(lines: seq<string>) returns (dirs: seq<string>)
    ensures dirs == SystemDirs(lines)
  {
    ghost var t := Trimmed(lines);
    dirs := [];
    var started := false;
    var i := 0;
    while i < |lines|
      invariant 0 <= i <= |lines|
      invariant i <= FirstEnd(t)
      invariant (started, dirs) == ScanPrefix(t, i)
    {
      var line := TrimSpace(lines[i]);
      TrimmedAt(lines, i);
      if IsStart(line) {
        StartNotEnd(line);
        EndAfter(t, i);
        started := true;
        i := i + 1;
        continue;
      }
      if IsEnd(line) {
        break;
      }
      EndAfter(t, i);
      if started {
        dirs := dirs + [line];
      }
      i := i + 1;
    }
    assert FirstEnd(t) == i;
    ScanPrefixKept(t, i);
  }
}
