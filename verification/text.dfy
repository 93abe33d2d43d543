/**
 The string primitives of Go's standard library that the tool relies on,
 written out: prefix tests, `filepath.Ext` and `filepath.IsAbs` for
 slash-separated paths, `strings.TrimSpace`, splitting on a one-character
 separator (`strings.Split` / `bytes.Split`) and its inverse, and the
 byte-wise lexicographic order `sort.Strings` sorts by.

 Strings are sequences of Unicode code points; the UTF-8 encoding Go works
 on is not modelled (for valid UTF-8, code-point order and byte order agree).
 */
module Text {

  /** `strings.HasPrefix`. */
  predicate HasPrefix(s: string, prefix: string)
  {
    |prefix| <= |s| && s[..|prefix|] == prefix
  }

  /** `filepath.IsAbs` on a Unix host: the path starts at the root. */
  predicate IsAbs(path: string)
  {
    |path| > 0 && path[0] == '/'
  }

  /** Scanning `path[..i]` backwards, the index of the last '.' met before a '/', if any. */
  function LastDot(path: string, i: nat): (r: int)
    requires i <= |path|
    ensures -1 <= r < i
    ensures r >= 0 ==> path[r] == '.' && forall k :: r < k < i ==> path[k] != '.' && path[k] != '/'
    ensures r < 0 ==> forall k :: 0 <= k < i && path[k] == '.' ==> exists j :: k < j < i && path[j] == '/'
    decreases i
  {
    if i == 0 then -1
    else if path[i - 1] == '/' then -1
    else if path[i - 1] == '.' then i - 1
    else LastDot(path, i - 1)
  }

  /**
   `filepath.Ext`: the suffix of the final path element that starts at its
   last '.', or "" when that element has no '.'.
   */
  function Ext(path: string): (e: string)
    ensures |e| <= |path|
  {
    var d := LastDot(path, |path|);
    if d < 0 then "" else path[d..]
  }

  /** `Ext` returns a dot followed by no dot and no separator, ending the path, or "" when the final element has no dot. */
  lemma ExtIsFinalSuffix(path: string)
    ensures var e := Ext(path);
      && (e != "" ==> e[0] == '.' && e == path[|path| - |e|..])
      && (e != "" ==> forall k :: 0 < k < |e| ==> e[k] != '.' && e[k] != '/')
      && (e == "" ==> forall k :: 0 <= k < |path| && path[k] == '.' ==> exists j :: k < j < |path| && path[j] == '/')
  {
    var d := LastDot(path, |path|);
    if d >= 0 {
      var e := path[d..];
      assert forall k :: 0 < k < |e| ==> e[k] == path[d + k];
    }
  }

  /** A '.' followed, up to position `i`, by neither a '.' nor a '/' is the one `LastDot` finds. */
  lemma {:induction false} LastDotAt(path: string, i: nat, d: nat)
    requires d < i <= |path| && path[d] == '.'
    requires forall k :: d < k < i ==> path[k] != '.' && path[k] != '/'
    ensures LastDot(path, i) == d
    decreases i
  {
    if i - 1 > d {
      LastDotAt(path, i - 1, d);
    }
  }

  /** A name ending in '.' and a dot-free, separator-free word has that dot and word as its extension. */
  lemma ExtOfName(stem: string, word: string)
    requires forall k :: 0 <= k < |word| ==> word[k] != '.' && word[k] != '/'
    ensures Ext(stem + "." + word) == "." + word
  {
    var path := stem + "." + word;
    forall k | |stem| < k < |path|
      ensures path[k] != '.' && path[k] != '/'
    {
      assert path[k] == word[k - |stem| - 1];
    }
    LastDotAt(path, |path|, |stem|);
    assert path[|stem|..] == "." + word;
  }

  /** `unicode.IsSpace`: the Latin-1 spaces and the other White_Space code points. */
  predicate IsSpace(c: char)
  {
    || c == '\t' || c == '\n' || c == '\U{000B}' || c == '\U{000C}' || c == '\r' || c == ' '
    || c == '\U{0085}' || c == '\U{00A0}' || c == '\U{1680}'
    || ('\U{2000}' <= c <= '\U{200A}')
    || c == '\U{2028}' || c == '\U{2029}' || c == '\U{202F}' || c == '\U{205F}' || c == '\U{3000}'
  }

  predicate AllSpace(s: string)
  {
    forall k :: 0 <= k < |s| ==> IsSpace(s[k])
  }

  /** The number of white-space characters `s` starts with. */
  function LeadingSpaces(s: string): (n: nat)
    ensures n <= |s| && AllSpace(s[..n])
    ensures n == |s| || !IsSpace(s[n])
    decreases |s|
  {
    if s != [] && IsSpace(s[0]) then
      var n := 1 + LeadingSpaces(s[1..]);
      assert forall k :: 1 <= k < n ==> s[k] == s[1..][k - 1];
      n
    else 0
  }

  /** Drops the trailing white space. */
  function TrimRight(s: string): (r: string)
    ensures |r| <= |s| && r == s[..|r|]
    ensures AllSpace(s[|r|..])
    ensures r == [] || !IsSpace(r[|r| - 1])
    decreases |s|
  {
    if s != [] && IsSpace(s[|s| - 1]) then
      var r := TrimRight(s[..|s| - 1]);
      assert s[|r|..] == s[..|s| - 1][|r|..] + [s[|s| - 1]];
      r
    else s
  }

  /**
   `strings.TrimSpace`: the factor of `s` left after dropping its leading
   white space and its trailing white space; it neither starts nor ends with
   white space.
   */
  function TrimSpace(s: string): (r: string)
    ensures LeadingSpaces(s) + |r| <= |s|
    ensures r == s[LeadingSpaces(s)..LeadingSpaces(s) + |r|]
    ensures AllSpace(s[LeadingSpaces(s) + |r|..])
    ensures r == [] || (!IsSpace(r[0]) && !IsSpace(r[|r| - 1]))
  {
    var i := LeadingSpaces(s);
    var left := s[i..];
    var r := TrimRight(left);
    assert s[i..i + |r|] == left[..|r|];
    assert s[i + |r|..] == left[|r|..];
    r
  }

  /** Trimming twice is trimming once. */
  lemma TrimSpaceIdempotent(s: string)
    ensures TrimSpace(TrimSpace(s)) == TrimSpace(s)
  {
    var t := TrimSpace(s);
    assert LeadingSpaces(t) == 0;
    assert TrimRight(t) == t;
  }

  /** `strings.Join` with a one-character separator. */
  function Join(parts: seq<string>, sep: char): string
    decreases |parts|
  {
    if |parts| == 0 then ""
    else if |parts| == 1 then parts[0]
    else parts[0] + [sep] + Join(parts[1..], sep)
  }

  /**
   `strings.Split(s, sep)` / `bytes.Split(s, sep)` for a one-character
   separator: the pieces between separators, so n separators give n + 1
   pieces (one empty piece for the empty string).
   */
  function Split(s: string, sep: char): (parts: seq<string>)
    ensures |parts| >= 1
    ensures forall i :: 0 <= i < |parts| ==> sep !in parts[i]
    ensures Join(parts, sep) == s
    decreases |s|
  {
    if |s| == 0 then [""]
    else
      var rest := Split(s[1..], sep);
      if s[0] == sep then
        assert s == [sep] + s[1..];
        [""] + rest
      else
        var parts := [[s[0]] + rest[0]] + rest[1..];
        assert parts[1..] == rest[1..];
        assert Join(parts, sep) == [s[0]] + Join(rest, sep);
        parts
  }

  /** A string without the separator is one piece. */
  lemma {:induction false} SplitNoSep(a: string, sep: char)
    requires sep !in a
    ensures Split(a, sep) == [a]
    decreases |a|
  {
    if a != [] {
      SplitNoSep(a[1..], sep);
      assert [a[0]] + a[1..] == a;
    }
  }

  /** A separator after a separator-free prefix cuts exactly there. */
  lemma {:induction false} SplitCut(a: string, b: string, sep: char)
    requires sep !in a
    ensures Split(a + [sep] + b, sep) == [a] + Split(b, sep)
    decreases |a|
  {
    var s := a + [sep] + b;
    if a == [] {
      assert s[1..] == b;
    } else {
      assert s[1..] == a[1..] + [sep] + b;
      SplitCut(a[1..], b, sep);
      assert [a[0]] + a[1..] == a;
    }
  }

  /** Splitting undoes joining pieces that do not contain the separator. */
  lemma {:induction false} SplitJoin(parts: seq<string>, sep: char)
    requires |parts| >= 1
    requires forall i :: 0 <= i < |parts| ==> sep !in parts[i]
    ensures Split(Join(parts, sep), sep) == parts
    decreases |parts|
  {
    if |parts| == 1 {
      SplitNoSep(parts[0], sep);
    } else {
      SplitJoin(parts[1..], sep);
      SplitCut(parts[0], Join(parts[1..], sep), sep);
      assert [parts[0]] + parts[1..] == parts;
    }
  }

  /** Go's string order: byte-wise (here code-point-wise) lexicographic, a prefix first. */
  predicate StrLe(a: string, b: string)
    decreases |a|
  {
    if a == [] then true
    else if b == [] then false
    else if a[0] != b[0] then a[0] < b[0]
    else StrLe(a[1..], b[1..])
  }

  lemma {:induction false} StrLeTotal(a: string, b: string)
    ensures StrLe(a, b) || StrLe(b, a)
    decreases |a|
  {
    if a != [] && b != [] && a[0] == b[0] {
      StrLeTotal(a[1..], b[1..]);
    }
  }

  lemma {:induction false} StrLeAntisymmetric(a: string, b: string)
    requires StrLe(a, b) && StrLe(b, a)
    ensures a == b
    decreases |a|
  {
    if a != [] && b != [] {
      StrLeAntisymmetric(a[1..], b[1..]);
      assert a == [a[0]] + a[1..] && b == [b[0]] + b[1..];
    }
  }

  lemma {:induction false} StrLeTransitive(a: string, b: string, c: string)
    requires StrLe(a, b) && StrLe(b, c)
    ensures StrLe(a, c)
    decreases |a|
  {
    if a != [] && b != [] && c != [] && a[0] == b[0] && b[0] == c[0] {
      StrLeTransitive(a[1..], b[1..], c[1..]);
    }
  }
}
