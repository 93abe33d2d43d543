/**
 What the two parsers give back on output shaped the way the compiler
 prints it: the system include directories listed between the markers of
 `gcc -v`, trimmed and in order.
 */
module ToolchainFacts {
  import opened Seqs
  import opened Text
  import opened Toolchain

  /**
   On output shaped like `gcc -v`'s — preamble, start marker, one
   directory per line, end marker, anything — the directories come back
   trimmed and in order, provided no line of the preamble or of the list
   is a marker once trimmed.
   */
  lemma SystemDirsRender(pre: seq<string>, start: string, raw: seq<string>, end: string, post: seq<string>)
    requires Unmarked(Trimmed(pre)) && Unmarked(Trimmed(raw))
    requires IsStart(TrimSpace(start)) && IsEnd(TrimSpace(end))
    ensures SystemDirs(pre + [start] + raw + [end] + post) == Trimmed(raw)
  {
    var lines := pre + [start] + raw + [end] + post;
    RenderKept(pre, start, raw, end, post);
    SystemDirsKept(lines);
  }

  lemma RenderKept(pre: seq<string>, start: string, raw: seq<string>, end: string, post: seq<string>)
    requires Unmarked(Trimmed(pre)) && Unmarked(Trimmed(raw))
    requires IsStart(TrimSpace(start)) && IsEnd(TrimSpace(end))
    ensures var t := Trimmed(pre + [start] + raw + [end] + post);
      KeptSoFar(t, FirstStart(t), FirstEnd(t)) == Trimmed(raw)
  {
    TrimmedRender(pre, start, raw, end, post);
    KeptRender(Trimmed(pre), TrimSpace(start), Trimmed(raw), TrimSpace(end), Trimmed(post));
  }

  /** Output without a start marker lists no system directory, whatever else it holds. */
  lemma SystemDirsNoStart(lines: seq<string>)
    requires forall i :: 0 <= i < |lines| ==> !IsStart(TrimSpace(lines[i]))
    ensures SystemDirs(lines) == []
  {
    var t := Trimmed(lines);
    forall i | 0 <= i < |t|
      ensures !IsStart(t[i])
    {
      TrimmedAt(lines, i);
    }
    assert FirstStart(t) == |t|;
  }

  lemma SystemDirsKept(lines: seq<string>)
    ensures var t := Trimmed(lines); SystemDirs(lines) == KeptSoFar(t, FirstStart(t), FirstEnd(t))
  {
  }

  lemma TrimmedRender(pre: seq<string>, start: string, raw: seq<string>, end: string, post: seq<string>)
    ensures Trimmed(pre + [start] + raw + [end] + post)
      == Trimmed(pre) + ([TrimSpace(start)] + (Trimmed(raw) + ([TrimSpace(end)] + Trimmed(post))))
  {
    var lines := pre + [start] + raw + [end] + post;
    assert lines == pre + ([start] + (raw + ([end] + post)));
    TrimmedAppend(pre, [start] + (raw + ([end] + post)));
    TrimmedAppend([start], raw + ([end] + post));
    TrimmedAppend(raw, [end] + post);
    TrimmedAppend([end], post);
  }

  /** No line is a start or an end marker. */
  predicate Unmarked(t: seq<string>)
  {
    forall i :: 0 <= i < |t| ==> !IsStart(t[i]) && !IsEnd(t[i])
  }

  /** The same, on lines already trimmed. */
  lemma KeptRender(tp: seq<string>, ts: string, tr: seq<string>, te: string, tq: seq<string>)
    requires Unmarked(tp) && Unmarked(tr)
    requires IsStart(ts) && IsEnd(te)
    ensures var t := tp + ([ts] + (tr + ([te] + tq)));
      KeptSoFar(t, FirstStart(t), FirstEnd(t)) == tr
  {
    var t := tp + ([ts] + (tr + ([te] + tq)));
    RenderStart(tp, ts, tr + ([te] + tq));
    RenderEnd(tp, ts, tr, te, tq);
    RenderSlice(tp, ts, tr, te, tq);
    KeptAll(t, tr, |tp|);
  }

  lemma RenderStart(tp: seq<string>, ts: string, rest: seq<string>)
    requires forall i :: 0 <= i < |tp| ==> !IsStart(tp[i])
    requires IsStart(ts)
    ensures FirstStart(tp + ([ts] + rest)) == |tp|
  {
    FirstSkip(tp, [ts] + rest);
  }

  lemma RenderSlice(tp: seq<string>, ts: string, tr: seq<string>, te: string, tq: seq<string>)
    ensures var t := tp + ([ts] + (tr + ([te] + tq)));
      |tp| + 1 + |tr| <= |t| && t[|tp| + 1..|tp| + 1 + |tr|] == tr
  {
  }

  lemma RenderEnd(tp: seq<string>, ts: string, tr: seq<string>, te: string, tq: seq<string>)
    requires Unmarked(tp) && Unmarked(tr)
    requires IsStart(ts) && IsEnd(te)
    ensures var t := tp + ([ts] + (tr + ([te] + tq)));
      FirstEnd(t) == |tp| + 1 + |tr|
  {
    var t := tp + ([ts] + (tr + ([te] + tq)));
    StartNotEnd(ts);
    var head := tp + ([ts] + tr);
    assert t == head + ([te] + tq);
    assert forall i :: 0 <= i < |head| ==> !IsEnd(head[i]) by {
      forall i | 0 <= i < |head|
        ensures !IsEnd(head[i])
      {
        if i < |tp| {
          assert head[i] == tp[i];
        } else if i > |tp| {
          assert head[i] == tr[i - |tp| - 1];
        }
      }
    }
    FirstSkip(head, [te] + tq);
  }

  lemma KeptAll(t: seq<string>, tr: seq<string>, n: nat)
    requires n + 1 + |tr| <= |t| && t[n + 1..n + 1 + |tr|] == tr
    requires forall i :: 0 <= i < |tr| ==> !IsStart(tr[i])
    ensures KeptSoFar(t, n, n + 1 + |tr|) == tr
  {
    FilterKeepsAll(tr, NotStart);
  }

  /** Trimming line by line commutes with concatenation. */
  lemma {:induction false} TrimmedAppend(a: seq<string>, b: seq<string>)
    ensures Trimmed(a + b) == Trimmed(a) + Trimmed(b)
    decreases |a|
  {
    if a == [] {
      assert a + b == b;
    } else {
      assert (a + b)[1..] == a[1..] + b;
      TrimmedAppend(a[1..], b);
    }
  }

  /** Lines without a marker are passed over by the marker searches. */
  lemma {:induction false} FirstSkip(a: seq<string>, b: seq<string>)
    ensures (forall i :: 0 <= i < |a| ==> !IsStart(a[i])) ==> FirstStart(a + b) == |a| + FirstStart(b)
    ensures (forall i :: 0 <= i < |a| ==> !IsEnd(a[i])) ==> FirstEnd(a + b) == |a| + FirstEnd(b)
    decreases |a|
  {
    if a == [] {
      assert a + b == b;
    } else {
      assert (a + b)[1..] == a[1..] + b;
      FirstSkip(a[1..], b);
    }
  }

  lemma {:induction false} FilterKeepsAll(s: seq<string>, p: string -> bool)
    requires forall i :: 0 <= i < |s| ==> p(s[i])
    ensures Filter(s, p) == s
    decreases |s|
  {
    if s != [] {
      FilterKeepsAll(s[1..], p);
    }
  }
}
