/**
Splitting a document's text into overlapping chunks
(backend/ai/document_indexer.py:98-125, `_split_text`).
*/
module SplitText {
  import opened Algebra

  // ----- the text that is split

  /** Python's `str.isspace`. */
  predicate Space(c: char) {
    var n := c as int;
    9 <= n <= 13 || 28 <= n <= 32 || n == 0x85 || n == 0xA0 || n == 0x1680 || 0x2000 <= n <= 0x200A
    || n == 0x2028 || n == 0x2029 || n == 0x202F || n == 0x205F || n == 0x3000
  }

  /** A newline after two newlines is dropped, so a run of three or more becomes two. */
  function Collapse(s: string): string
  {
    if |s| == 0 then ""
    else
      var n := |s| - 1;
      if n >= 2 && s[n] == '\n' && s[n - 1] == '\n' && s[n - 2] == '\n' then Collapse(s[..n])
      else Collapse(s[..n]) + [s[n]]
  }

  function Lead(s: string): (n: nat)
    ensures n <= |s| && (forall i :: 0 <= i < n ==> Space(s[i])) && (n < |s| ==> !Space(s[n]))
  {
    if |s| > 0 && Space(s[0]) then 1 + Lead(s[1..]) else 0
  }

  function Tail(s: string): (n: nat)
    ensures n <= |s| && (forall i :: n <= i < |s| ==> Space(s[i])) && (n > 0 ==> !Space(s[n - 1]))
  {
    if |s| > 0 && Space(s[|s| - 1]) then Tail(s[..|s| - 1]) else |s|
  }

  function Strip(s: string): string {
    if Lead(s) <= Tail(s) then s[Lead(s)..Tail(s)] else ""
  }

  function Clean(s: string): string {
    Strip(Collapse(s))
  }

  ghost predicate Unpadded(s: string) {
    |s| > 0 ==> !Space(s[0]) && !Space(s[|s| - 1])
  }

  /** The characters that are not white space. */
  ghost function Solid(s: string): string
  {
    if |s| == 0 then "" else Solid(s[..|s| - 1]) + (if Space(s[|s| - 1]) then "" else [s[|s| - 1]])
  }

  lemma {:induction false} SolidAppend(s: string, t: string)
    ensures Solid(s + t) == Solid(s) + Solid(t)
  {
    if |t| == 0 {
      assert s + t == s;
    } else {
      assert (s + t)[..|s + t| - 1] == s + t[..|t| - 1];
      SolidAppend(s, t[..|t| - 1]);
    }
  }

  lemma {:induction false} SolidSpaces(s: string)
    requires forall i :: 0 <= i < |s| ==> Space(s[i])
    ensures Solid(s) == ""
  {
    if |s| > 0 {
      SolidSpaces(s[..|s| - 1]);
    }
  }

  lemma {:induction false} SolidStrip(s: string)
    ensures Solid(Strip(s)) == Solid(s)
  {
    hide Solid, Space, Lead, Tail;
    var a, b := Lead(s), Tail(s);
    if a <= b {
      assert s == s[..a] + s[a..b] + s[b..];
      SolidAppend(s[..a] + s[a..b], s[b..]);
      SolidAppend(s[..a], s[a..b]);
      SolidSpaces(s[..a]);
      SolidSpaces(s[b..]);
    } else {
      SolidSpaces(s);
      SolidSpaces("");
    }
  }

  lemma {:induction false} SolidCollapse(s: string)
    ensures Solid(Collapse(s)) == Solid(s)
  {
    if |s| > 0 {
      var init, last := s[..|s| - 1], s[|s| - 1];
      SolidCollapse(init);
      SolidAppend(Collapse(init), [last]);
      assert Solid([last]) == if Space(last) then "" else [last];
    }
  }

  /** Cleaning loses white space only, and leaves none at either end. */
  lemma {:induction false} CleanKeepsSolid(s: string)
    ensures Solid(Clean(s)) == Solid(s) && Unpadded(Clean(s))
  {
    hide Solid;
    SolidCollapse(s);
    SolidStrip(Collapse(s));
    StripUnpadded(Collapse(s));
  }

  lemma {:induction false} StripUnpadded(s: string)
    ensures Unpadded(Strip(s))
  {
  }

  lemma {:induction false} CollapseLast(s: string)
    ensures |s| > 0 ==> |Collapse(s)| > 0 && (Collapse(s)[|Collapse(s)| - 1] == '\n' ==> s[|s| - 1] == '\n')
  {
    CollapseEmpty(s);
    if |s| > 0 && Collapse(s) == Collapse(s[..|s| - 1]) {
      CollapseEmpty(s[..|s| - 1]);
    }
  }

  lemma {:induction false} CollapseEmpty(s: string)
    ensures Collapse(s) == "" <==> s == ""
  {
    if |s| > 0 {
      CollapseEmpty(s[..|s| - 1]);
    }
  }

  ghost predicate EndsInTwo(s: string) {
    |s| >= 2 && s[|s| - 1] == '\n' && s[|s| - 2] == '\n'
  }

  lemma {:induction false} CollapseEndsInTwo(s: string)
    requires EndsInTwo(Collapse(s))
    ensures EndsInTwo(s)
  {
    CollapseEmpty(s);
    CollapseLast(s[..|s| - 1]);
    CollapseEmpty(s[..|s| - 1]);
  }

  ghost predicate Triple(s: string, i: int) {
    0 <= i < |s| - 2 && s[i] == '\n' && s[i + 1] == '\n' && s[i + 2] == '\n'
  }

  /** No three newlines in a row are left. */
  lemma {:induction false} CollapseNoTriple(s: string)
    ensures forall i :: !Triple(Collapse(s), i)
  {
    if |s| > 0 {
      var init := s[..|s| - 1];
      CollapseNoTriple(init);
      if EndsInTwo(Collapse(init)) {
        CollapseEndsInTwo(init);
      }
      forall i ensures !Triple(Collapse(s), i) {
        assert !Triple(Collapse(init), i);
      }
    }
  }

  /** `k` newlines. */
  function Newlines(k: nat): (s: string)
    ensures |s| == k && forall i :: 0 <= i < k ==> s[i] == '\n'
  {
    seq(k, _ => '\n')
  }

  ghost predicate Meets(a: string, b: string) {
    |a| > 0 && |b| > 0 && a[|a| - 1] == '\n' && b[0] == '\n'
  }

  lemma {:induction false} CollapseApart(a: string, b: string)
    requires !Meets(a, b)
    ensures Collapse(a + b) == Collapse(a) + Collapse(b)
    decreases |b|
  {
    if |b| == 0 {
      assert a + b == a;
    } else {
      var n := |b| - 1;
      assert (a + b)[..|a + b| - 1] == a + b[..n];
      CollapseApart(a, b[..n]);
      assert n >= 2 ==> (a + b)[|a| + n - 1] == b[n - 1] && (a + b)[|a| + n - 2] == b[n - 2];
    }
  }

  lemma {:induction false} CollapseNewlines(k: nat)
    ensures Collapse(Newlines(k)) == Newlines(Min(k, 2))
  {
    hide Collapse, Newlines;
    if k == 0 {
      CollapseEmpty("");
    } else {
      CollapseNewlines(k - 1);
      assert Newlines(k) == Newlines(k - 1) + ['\n'];
      OneMoreNewline(Newlines(k - 1), k - 1);
    }
  }

  lemma {:induction false} OneMoreNewline(s: string, k: nat)
    requires |s| == k && forall i :: 0 <= i < k ==> s[i] == '\n'
    ensures Collapse(s + ['\n']) == if k >= 2 then Collapse(s) else Collapse(s) + ['\n']
  {
    assert (s + ['\n'])[..k] == s;
  }

  /** Each run of newlines becomes one of at most two, and the text around it is collapsed on its own. */
  lemma {:induction false} CollapseRun(a: string, k: nat, b: string)
    requires |a| > 0 ==> a[|a| - 1] != '\n'
    requires |b| > 0 ==> b[0] != '\n'
    ensures Collapse(a + Newlines(k) + b) == Collapse(a) + Newlines(Min(k, 2)) + Collapse(b)
  {
    hide Collapse, Newlines;
    CollapseNewlines(k);
    CollapseApart(a, Newlines(k));
    if |b| > 0 {
      CollapseApart(a + Newlines(k), b);
    } else {
      assert a + Newlines(k) + b == a + Newlines(k);
      CollapseEmpty("");
    }
  }

  /** Only white space at the two ends is stripped. */
  lemma {:induction false} StripExactly(s: string) returns (left: string, right: string)
    ensures s == left + Strip(s) + right && Unpadded(Strip(s))
    ensures (forall i :: 0 <= i < |left| ==> Space(left[i])) && forall i :: 0 <= i < |right| ==> Space(right[i])
  {
    hide Space, Lead, Tail, Strip;
    StripUnpadded(s);
    StripIs(s);
    if Lead(s) <= Tail(s) {
      left, right := s[..Lead(s)], s[Tail(s)..];
    } else {
      left, right := s, "";
    }
  }

  lemma {:induction false} StripIs(s: string)
    ensures Strip(s) == if Lead(s) <= Tail(s) then s[Lead(s)..Tail(s)] else ""
  {
  }

  // ----- where a window ends

  predicate At(s: string, pat: string, i: int) {
    0 <= i && i + |pat| <= |s| && s[i..i + |pat|] == pat
  }

  /** The last place of `pat`, or -1. */
  function RFind(s: string, pat: string): (r: int)
    requires |pat| > 0
    ensures r == -1 || At(s, pat, r)
    ensures forall i :: r < i ==> !At(s, pat, i)
  {
    RFindFrom(s, pat, |s|)
  }

  function RFindFrom(s: string, pat: string, k: nat): (r: int)
    requires |pat| > 0 && k <= |s|
    ensures -1 <= r <= k && (r == -1 || At(s, pat, r))
    ensures forall i :: r < i <= k ==> !At(s, pat, i)
    decreases k
  {
    if At(s, pat, k) then k else if k == 0 then -1 else RFindFrom(s, pat, k - 1)
  }

  predicate BreaksAt(s: string, i: int) {
    At(s, "\n\n", i) || At(s, ". ", i) || At(s, "? ", i) || At(s, "! ", i)
  }

  function BreakPos(window: string): (r: int)
    ensures r == -1 || (BreaksAt(window, r) && r + 2 <= |window|)
    ensures forall i :: r < i ==> !BreaksAt(window, i)
  {
    Max(Max(RFind(window, "\n\n"), RFind(window, ". ")), Max(RFind(window, "? "), RFind(window, "! ")))
  }

  /** Where a Python slice puts a bound of its own: negative ones count from the end. */
  function Bound(x: int, n: nat): (b: nat)
    ensures b <= n
  {
    if x < 0 then Max(0, n + x) else Min(x, n)
  }

  /** `t[a:b]` */
  function Slice(t: string, a: int, b: int): (s: string)
    ensures a <= b ==> |s| <= b - a
  {
    var lo, hi := Bound(a, |t|), Bound(b, |t|);
    if lo < hi then t[lo..hi] else ""
  }

  /** The shortest window a size allows. */
  function Least(size: nat): nat {
    Min(size, size / 2 + 2)
  }

  function WindowEnd(text: string, size: nat, start: int): (end: int)
    requires start + size < |text|
    ensures start + Least(size) <= end <= start + size
  {
    var b := BreakPos(Slice(text, start, start + size));
    if b > size / 2 then start + b + 1 else start + size
  }

  /** The next start; it may be behind this one, and before the text. */
  function Next(text: string, size: nat, overlap: nat, start: int): (next: int)
    requires start + size < |text|
    ensures start + Least(size) - overlap <= next <= start + size - overlap
  {
    WindowEnd(text, size, start) - overlap
  }

  // ----- when the loop ends

  /** The loop ends after at most `n` more steps. */
  ghost predicate Ends(text: string, size: nat, overlap: nat, start: int, n: nat)
    decreases n
  {
    start + size >= |text| || (n > 0 && Ends(text, size, overlap, Next(text, size, overlap, start), n - 1))
  }

  ghost predicate Terminates(text: string, size: nat, overlap: nat) {
    exists n: nat :: Ends(text, size, overlap, 0, n)
  }

  lemma {:induction false} EndsMore(text: string, size: nat, overlap: nat, start: int, n: nat, more: nat)
    requires Ends(text, size, overlap, start, n) && n <= more
    ensures Ends(text, size, overlap, start, more)
    decreases n
  {
    if start + size < |text| {
      EndsMore(text, size, overlap, Next(text, size, overlap, start), n - 1, more - 1);
    }
  }

  /** A small overlap moves every step forward, so the loop ends. */
  lemma {:induction false} SmallOverlapEnds(text: string, size: nat, overlap: nat, start: int)
    requires overlap < Least(size)
    ensures Ends(text, size, overlap, start, Max(0, |text| - start))
    ensures start + size < |text| ==> start < Next(text, size, overlap, start)
    decreases |text| - start
  {
    hide WindowEnd, Least;
    if start + size < |text| {
      var next := Next(text, size, overlap, start);
      hide Next;
      SmallOverlapEnds(text, size, overlap, next);
      EndsMore(text, size, overlap, next, Max(0, |text| - next), |text| - start - 1);
    }
  }

  /** A text whose only separator is at `at`. */
  function OneBreak(size: nat, at: nat): (t: string)
    ensures |t| == size + 4
    ensures forall i :: 0 <= i < size + 4 ==> t[i] == if i == at then '.' else if i == at + 1 then ' ' else 'a'
  {
    seq(size + 4, i => if i == at then '.' else if i == at + 1 then ' ' else 'a')
  }

  lemma {:induction false} CollapseSame(s: string)
    requires '\n' !in s
    ensures Collapse(s) == s
  {
    if |s| > 0 {
      CollapseSame(s[..|s| - 1]);
      assert s[|s| - 1] in s;
    }
  }

  lemma {:induction false} OneBreakClean(size: nat, at: nat)
    requires at <= size + 1
    ensures Clean(OneBreak(size, at)) == OneBreak(size, at)
  {
    hide Collapse, OneBreak;
    var t := OneBreak(size, at);
    CollapseSame(t);
    assert !Space(t[0]) && !Space(t[size + 3]);
    assert Lead(t) == 0 && Tail(t) == |t|;
  }

  lemma {:induction false} OneBreakEnd(size: nat, at: nat)
    requires size / 2 < at && at + 2 <= size
    ensures WindowEnd(OneBreak(size, at), size, 0) == at + 1
  {
    hide OneBreak, BreakPos;
    var t := OneBreak(size, at);
    var window := Slice(t, 0, size);
    assert window == t[0..size];
    forall i | 0 <= i && i + 2 <= size && i != at ensures !BreaksAt(window, i) {
      assert window[i..i + 2] == [t[i], t[i + 1]];
    }
    assert window[at..at + 2] == [t[at], t[at + 1]] == ". ";
    assert BreaksAt(window, at);
  }

  /** An overlap of a window's own length comes back to the same start, for good. */
  lemma {:induction false} StaysInPlace(size: nat, overlap: nat, n: nat)
    requires size / 2 + 2 <= overlap < size
    ensures !Ends(OneBreak(size, overlap - 1), size, overlap, 0, n)
    decreases n
  {
    hide OneBreak, WindowEnd;
    OneBreakEnd(size, overlap - 1);
    if n > 0 {
      StaysInPlace(size, overlap, n - 1);
    }
  }

  /** An overlap of a full window or more never gets past the first start. */
  lemma {:induction false} NeverAdvances(text: string, size: nat, overlap: nat, start: int, n: nat)
    requires size <= overlap && size < |text| && start <= 0
    ensures !Ends(text, size, overlap, start, n)
    decreases n
  {
    hide WindowEnd;
    if n > 0 {
      NeverAdvances(text, size, overlap, Next(text, size, overlap, start), n - 1);
    }
  }

  /** A cleaned text on which the loop never ends. */
  lemma {:induction false} EndlessWitness(size: nat, overlap: nat) returns (text: string)
    requires Least(size) <= overlap
    ensures Clean(text) == text && !Terminates(text, size, overlap)
  {
    hide Clean, OneBreak;
    if overlap < size {
      text := OneBreak(size, overlap - 1);
      OneBreakClean(size, overlap - 1);
      forall n: nat ensures !Ends(text, size, overlap, 0, n) {
        StaysInPlace(size, overlap, n);
      }
    } else {
      text := OneBreak(size, 1);
      OneBreakClean(size, 1);
      forall n: nat ensures !Ends(text, size, overlap, 0, n) {
        NeverAdvances(text, size, overlap, 0, n);
      }
    }
  }

  /** The loop ends on every text exactly when the overlap is below `Least(size)`; the defaults, 800 and 100, are. */
  lemma {:induction false} TerminationExactly(size: nat, overlap: nat)
    ensures (forall text: string :: Terminates(Clean(text), size, overlap)) <==> overlap < Least(size)
  {
    hide Clean, Ends, Least;
    if overlap < Least(size) {
      forall text: string ensures Terminates(Clean(text), size, overlap) {
        SmallOverlapEnds(Clean(text), size, overlap, 0);
      }
    } else {
      var text := EndlessWitness(size, overlap);
      assert !Terminates(Clean(text), size, overlap);
    }
  }

  // ----- the windows

  type Window = (int, int)

  lemma {:induction false} EndsNext(text: string, size: nat, overlap: nat, start: int, n: nat)
    requires Ends(text, size, overlap, start, n) && start + size < |text|
    ensures n > 0 && Ends(text, size, overlap, Next(text, size, overlap, start), n - 1)
  {
  }

  ghost function Windows(text: string, size: nat, overlap: nat, start: int, n: nat): seq<Window>
    requires Ends(text, size, overlap, start, n)
    decreases n
  {
    if start + size >= |text| then [(start, |text|)]
    else
      EndsNext(text, size, overlap, start, n);
      [(start, WindowEnd(text, size, start))] + Windows(text, size, overlap, Next(text, size, overlap, start), n - 1)
  }

  /**
  The windows run from `start` to the end of the text, each shares exactly `overlap` characters
  with the next, and all but the last are as long as a size allows.
  */
  ghost predicate Covering(ws: seq<Window>, text: string, size: nat, overlap: nat, start: int) {
    |ws| > 0 && ws[0].0 == start && ws[|ws| - 1].1 == |text|
    && (forall k :: 0 <= k < |ws| ==> ws[k].1 - ws[k].0 <= size)
    && (forall k :: 0 <= k < |ws| - 1 ==> ws[k].0 + Least(size) <= ws[k].1 <= ws[k].0 + size < |text|)
    && (forall k :: 0 <= k < |ws| - 1 ==> ws[k + 1].0 == ws[k].1 - overlap)
  }

  lemma {:induction false} CoverOne(ws: seq<Window>, text: string, size: nat, overlap: nat, start: int, end: int)
    requires start + Least(size) <= end <= start + size < |text|
    requires Covering(ws, text, size, overlap, end - overlap)
    ensures Covering([(start, end)] + ws, text, size, overlap, start)
  {
    hide Least;
    var all := [(start, end)] + ws;
    forall k | 0 <= k < |all| - 1
      ensures all[k].0 + Least(size) <= all[k].1 <= all[k].0 + size < |text| && all[k + 1].0 == all[k].1 - overlap
    {
      if k > 0 {
        assert all[k] == ws[k - 1] && all[k + 1] == ws[k];
      }
    }
  }

  lemma {:induction false} CoverLast(text: string, size: nat, overlap: nat, start: int)
    requires |text| <= start + size
    ensures Covering([(start, |text|)], text, size, overlap, start)
  {
  }

  lemma {:induction false} WindowsCover(text: string, size: nat, overlap: nat, start: int, n: nat)
    requires Ends(text, size, overlap, start, n)
    ensures Covering(Windows(text, size, overlap, start, n), text, size, overlap, start)
    decreases n
  {
    hide WindowEnd, Covering, Least;
    if start + size < |text| {
      var next := Next(text, size, overlap, start);
      WindowsCover(text, size, overlap, next, n - 1);
      CoverOne(Windows(text, size, overlap, next, n - 1), text, size, overlap, start, WindowEnd(text, size, start));
    } else {
      CoverLast(text, size, overlap, start);
    }
  }

  /** With a small overlap the windows only move forward, so they lie on the text. */
  lemma {:induction false} WindowsAdvance(ws: seq<Window>, text: string, size: nat, overlap: nat, k: nat)
    requires Covering(ws, text, size, overlap, 0) && overlap < Least(size) && 0 < k < |ws|
    ensures 0 <= ws[k - 1].0 < ws[k].0
    decreases k
  {
    hide Least;
    if k > 1 {
      WindowsAdvance(ws, text, size, overlap, k - 1);
    }
    assert ws[k - 1 + 1].0 == ws[k - 1].1 - overlap;
  }

  /** A window that is not cut at full length ends inside the last separator of its full length. */
  ghost predicate CutAtBreak(text: string, size: nat, w: Window) {
    w.0 + size < |text| && size / 2 + 1 < w.1 - w.0 && BreaksAt(text, w.1 - 1)
    && forall i :: w.1 <= i && i + 2 <= w.0 + size ==> !BreaksAt(text, i)
  }

  ghost predicate NoLateBreak(text: string, size: nat, w: Window) {
    forall i :: w.0 + size / 2 < i && i + 2 <= w.1 ==> !BreaksAt(text, i)
  }

  lemma {:induction false} BreakInWindow(text: string, a: nat, b: nat, i: nat)
    requires a + i + 2 <= b <= |text|
    ensures BreaksAt(text[a..b], i) <==> BreaksAt(text, a + i)
  {
    var window := text[a..b];
    assert window[i] == text[a + i] && window[i + 1] == text[a + i + 1];
    assert window[i..i + 2] == [window[i], window[i + 1]];
    assert text[a + i..a + i + 2] == [text[a + i], text[a + i + 1]];
  }

  lemma {:induction false} WindowEndCuts(text: string, size: nat, start: nat)
    requires start + size < |text|
    ensures var w := (start, WindowEnd(text, size, start));
            CutAtBreak(text, size, w) || (w.1 == start + size && NoLateBreak(text, size, w))
  {
    hide BreakPos, BreaksAt;
    var window := Slice(text, start, start + size);
    assert window == text[start..start + size];
    var b := BreakPos(window);
    forall i: nat | i + 2 <= size ensures BreaksAt(window, i) <==> BreaksAt(text, start + i) {
      BreakInWindow(text, start, start + size, i);
    }
    forall i | start + b < i && start <= i && i + 2 <= start + size ensures !BreaksAt(text, i) {
      assert !BreaksAt(window, i - start);
      BreakInWindow(text, start, start + size, i - start);
    }
  }

  /** Every window on the text but the last is cut at the last separator past its middle, or full for want of one. */
  lemma {:induction false} WindowsCutWell(text: string, size: nat, overlap: nat, start: int, n: nat, k: nat)
    requires Ends(text, size, overlap, start, n) && k < |Windows(text, size, overlap, start, n)| - 1
    ensures var w := Windows(text, size, overlap, start, n)[k];
            w.0 >= 0 ==> CutAtBreak(text, size, w) || (w.1 == w.0 + size && NoLateBreak(text, size, w))
    decreases k
  {
    hide WindowEnd, CutAtBreak, NoLateBreak;
    if start >= 0 {
      WindowEndCuts(text, size, start);
    }
    if k > 0 {
      WindowsCutWell(text, size, overlap, Next(text, size, overlap, start), n - 1, k - 1);
    }
  }

  // ----- the chunks

  function Piece(text: string, w: Window): seq<string> {
    var chunk := Strip(Slice(text, w.0, w.1));
    if chunk == "" then [] else [chunk]
  }

  ghost function Pieces(text: string, size: nat, overlap: nat, start: int, n: nat): seq<string>
    requires Ends(text, size, overlap, start, n)
    decreases n
  {
    if start + size >= |text| then Piece(text, (start, |text|))
    else
      EndsNext(text, size, overlap, start, n);
      Piece(text, (start, WindowEnd(text, size, start)))
      + Pieces(text, size, overlap, Next(text, size, overlap, start), n - 1)
  }

  ghost function Emit(text: string, ws: seq<Window>): seq<string> {
    if |ws| == 0 then [] else Piece(text, ws[0]) + Emit(text, ws[1..])
  }

  /** The pieces are those of the covering windows, in order. */
  lemma {:induction false} PiecesOfWindows(text: string, size: nat, overlap: nat, start: int, n: nat)
    requires Ends(text, size, overlap, start, n)
    ensures Pieces(text, size, overlap, start, n) == Emit(text, Windows(text, size, overlap, start, n))
    decreases n
  {
    hide WindowEnd, Piece;
    var ws := Windows(text, size, overlap, start, n);
    if start + size < |text| {
      var next := Next(text, size, overlap, start);
      PiecesOfWindows(text, size, overlap, next, n - 1);
      assert ws[1..] == Windows(text, size, overlap, next, n - 1);
    } else {
      assert ws[1..] == [];
      assert Piece(text, ws[0]) + [] == Piece(text, ws[0]);
    }
  }

  lemma {:induction false} PiecesAnyBudget(text: string, size: nat, overlap: nat, start: int, m: nat, n: nat)
    requires Ends(text, size, overlap, start, m) && Ends(text, size, overlap, start, n)
    ensures Pieces(text, size, overlap, start, m) == Pieces(text, size, overlap, start, n)
    decreases n
  {
    hide WindowEnd, Piece;
    if start + size < |text| {
      PiecesAnyBudget(text, size, overlap, Next(text, size, overlap, start), m - 1, n - 1);
    }
  }

  /** The stripped windows, empty ones left out; a text that fits is one chunk. */
  ghost function Chunks(text: string, size: nat, overlap: nat): seq<string>
    requires Terminates(Clean(text), size, overlap)
  {
    var t := Clean(text);
    if |t| <= size then (if t == "" then [] else [t])
    else
      var n: nat :| Ends(t, size, overlap, 0, n);
      Pieces(t, size, overlap, 0, n)
  }

  lemma {:induction false} LastPiece(text: string, start: nat)
    requires start < |text| && !Space(text[|text| - 1])
    ensures Piece(text, (start, |text|)) == [Strip(text[start..])]
  {
    var s := text[start..];
    assert Slice(text, start, |text|) == s;
    assert s[|s| - 1] == text[|text| - 1];
    assert Tail(s) == |s| && Lead(s) < |s|;
  }

  lemma {:induction false} PiecesStep(text: string, size: nat, overlap: nat, start: int, n: nat)
    requires Ends(text, size, overlap, start, n)
    ensures start + size >= |text| ==> Pieces(text, size, overlap, start, n) == Piece(text, (start, |text|))
    ensures start + size < |text| ==>
      n > 0 && Ends(text, size, overlap, Next(text, size, overlap, start), n - 1)
      && Pieces(text, size, overlap, start, n)
         == Piece(text, (start, WindowEnd(text, size, start)))
            + Pieces(text, size, overlap, Next(text, size, overlap, start), n - 1)
  {
  }

  /** The loop answers the chunks of every text on which it ends. */
  method SplitText(text: string, size: nat, overlap: nat) returns (chunks: seq<string>)
    requires Terminates(Clean(text), size, overlap)
    ensures chunks == Chunks(text, size, overlap)
  {
    hide Clean, WindowEnd, Strip, Pieces, Space, Solid, Ends, Slice, Least;
    var t := Clean(text);
    CleanKeepsSolid(text);
    if |t| <= size {
      return if t == "" then [] else [t];
    }
    chunks := [];
    var start: int := 0;
    ghost var n: nat :| Ends(t, size, overlap, 0, n);
    ghost var all := Pieces(t, size, overlap, 0, n);
    SameChunks(text, size, overlap, n);
    while start < |t|
      invariant start < |t| && Ends(t, size, overlap, start, n)
      invariant chunks + Pieces(t, size, overlap, start, n) == all
      decreases n
    {
      PiecesStep(t, size, overlap, start, n);
      var end := start + size;
      if end >= |t| {
        LastPiece(t, start);
        chunks := chunks + [Strip(Slice(t, start, |t|))];
        break;
      }
      end := WindowEnd(t, size, start);
      var chunk := Strip(Slice(t, start, end));
      if chunk != "" {
        chunks := chunks + [chunk];
      }
      start := end - overlap;
      n := n - 1;
    }
  }

  lemma {:induction false} SameChunks(text: string, size: nat, overlap: nat, n: nat)
    requires Ends(Clean(text), size, overlap, 0, n) && |Clean(text)| > size
    ensures Terminates(Clean(text), size, overlap)
    ensures Chunks(text, size, overlap) == Pieces(Clean(text), size, overlap, 0, n)
  {
    hide Clean, Ends, Pieces;
    var t := Clean(text);
    forall m: nat | Ends(t, size, overlap, 0, m)
      ensures Pieces(t, size, overlap, 0, m) == Pieces(t, size, overlap, 0, n)
    {
      PiecesAnyBudget(t, size, overlap, 0, m, n);
    }
  }

  // ----- what the chunks keep

  /** A chunk worth storing: not empty, not padded, not longer than asked for. */
  ghost predicate Tidy(chunk: string, size: nat) {
    0 < |chunk| <= size && Unpadded(chunk)
  }

  lemma {:induction false} PieceTidy(text: string, w: Window, size: nat)
    requires w.0 <= w.1 <= w.0 + size
    ensures forall c :: c in Piece(text, w) ==> Tidy(c, size)
  {
    hide Slice;
    StripUnpadded(Slice(text, w.0, w.1));
  }

  lemma {:induction false} PiecesTidy(text: string, size: nat, overlap: nat, start: int, n: nat)
    requires Ends(text, size, overlap, start, n) && start <= |text|
    ensures forall c :: c in Pieces(text, size, overlap, start, n) ==> Tidy(c, size)
    decreases n
  {
    hide Piece, WindowEnd, Tidy;
    if start + size >= |text| {
      PieceTidy(text, (start, |text|), size);
    } else {
      PieceTidy(text, (start, WindowEnd(text, size, start)), size);
      PiecesTidy(text, size, overlap, Next(text, size, overlap, start), n - 1);
    }
  }

  lemma {:induction false} ChunksTidy(text: string, size: nat, overlap: nat)
    requires Terminates(Clean(text), size, overlap)
    ensures forall c :: c in Chunks(text, size, overlap) ==> Tidy(c, size)
  {
    hide Collapse, Pieces, Strip, Ends;
    var t := Clean(text);
    StripUnpadded(Collapse(text));
    if |t| > size {
      var n: nat :| Ends(t, size, overlap, 0, n);
      SameChunks(text, size, overlap, n);
      PiecesTidy(t, size, overlap, 0, n);
    }
  }

  /** Chunk `k` is the piece of `text` from `at` on, and holds position `p`. */
  ghost predicate Holds(chunks: seq<string>, text: string, k: nat, at: nat, p: nat) {
    k < |chunks| && at <= p < at + |chunks[k]| <= |text| && chunks[k] == text[at..at + |chunks[k]|]
  }

  ghost predicate Kept(chunks: seq<string>, text: string, p: nat) {
    exists k, at :: Holds(chunks, text, k, at, p)
  }

  lemma {:induction false} KeptLater(before: seq<string>, chunks: seq<string>, text: string, p: nat)
    requires Kept(chunks, text, p)
    ensures Kept(before + chunks, text, p)
  {
    var k, at :| Holds(chunks, text, k, at, p);
    assert Holds(before + chunks, text, |before| + k, at, p);
  }

  lemma {:induction false} KeptEarlier(chunks: seq<string>, after: seq<string>, text: string, p: nat)
    requires Kept(chunks, text, p)
    ensures Kept(chunks + after, text, p)
  {
    var k, at :| Holds(chunks, text, k, at, p);
    assert Holds(chunks + after, text, k, at, p);
  }

  /** Stripping cuts around a character that is not white space. */
  lemma {:induction false} StripBounds(s: string, i: nat) returns (a: nat, b: nat)
    requires i < |s| && !Space(s[i])
    ensures a <= i < b <= |s| && Strip(s) == s[a..b]
  {
    hide Space, Lead, Tail;
    a, b := Lead(s), Tail(s);
  }

  lemma {:induction false} SliceOfSlice(text: string, u: nat, v: nat, a: nat, b: nat)
    requires u <= v <= |text| && a <= b <= v - u
    ensures text[u..v][a..b] == text[u + a..u + b]
  {
    var inner, direct := text[u..v][a..b], text[u + a..u + b];
    forall k | 0 <= k < b - a ensures inner[k] == direct[k] {
      assert inner[k] == text[u..v][a + k] == text[u + (a + k)];
      assert direct[k] == text[(u + a) + k];
    }
  }

  lemma {:induction false} SliceOnText(text: string, a: nat, b: nat)
    requires a <= b <= |text|
    ensures Slice(text, a, b) == text[a..b]
  {
  }

  lemma {:induction false} PieceHolds(text: string, w: Window, a: nat, b: nat, p: nat)
    requires 0 <= w.0 <= w.1 <= |text| && w.0 + a <= p < w.0 + b && w.0 + b <= w.1
    requires Piece(text, w) == [text[w.0 + a..w.0 + b]]
    ensures Kept(Piece(text, w), text, p)
  {
    hide Piece;
    assert Holds(Piece(text, w), text, 0, w.0 + a, p);
  }

  lemma {:induction false} PieceOfStrip(text: string, w: Window, chunk: string)
    requires 0 <= w.0 <= w.1 <= |text| && Strip(text[w.0..w.1]) == chunk && chunk != ""
    ensures Piece(text, w) == [chunk]
  {
    hide Strip, Slice;
    SliceOnText(text, w.0, w.1);
  }

  lemma {:induction false} KeptInPiece(text: string, w: Window, p: nat)
    requires 0 <= w.0 <= p < w.1 <= |text| && !Space(text[p])
    ensures Kept(Piece(text, w), text, p)
  {
    hide Space, Strip, Kept, Piece;
    var a, b := StripBounds(text[w.0..w.1], p - w.0);
    SliceOfSlice(text, w.0, w.1, a, b);
    PieceOfStrip(text, w, text[w.0 + a..w.0 + b]);
    PieceHolds(text, w, a, b, p);
  }

  /**
  Nothing from `covered` on is lost. A start behind the text comes only from an overlap longer
  than a shortest window, and the steps from there land within what is covered already.
  */
  lemma {:induction false} PiecesKeep(text: string, size: nat, overlap: nat, start: int, n: nat, covered: nat, p: nat)
    requires Ends(text, size, overlap, start, n) && size < |text|
    requires start <= covered <= p < |text| && !Space(text[p])
    requires start < 0 ==> Least(size) < overlap && Least(size) <= covered
    ensures Kept(Pieces(text, size, overlap, start, n), text, p)
    decreases n
  {
    hide Piece, WindowEnd, Kept, Space, Pieces;
    PiecesStep(text, size, overlap, start, n);
    if start + size >= |text| {
      KeptInPiece(text, (start, |text|), p);
    } else {
      var end, next := WindowEnd(text, size, start), Next(text, size, overlap, start);
      var first, rest := Piece(text, (start, end)), Pieces(text, size, overlap, next, n - 1);
      if 0 <= start && p < end {
        KeptInPiece(text, (start, end), p);
        KeptEarlier(first, rest, text, p);
      } else {
        PiecesKeep(text, size, overlap, next, n - 1, if start < 0 then covered else Max(covered, end), p);
        KeptLater(first, rest, text, p);
      }
    }
  }

  /** No character of the cleaned text that is not white space is lost, wherever the steps go. */
  lemma {:induction false} ChunksKeepEverything(text: string, size: nat, overlap: nat, p: nat)
    requires Terminates(Clean(text), size, overlap) && p < |Clean(text)| && !Space(Clean(text)[p])
    ensures Kept(Chunks(text, size, overlap), Clean(text), p)
  {
    hide Clean, Pieces, Ends;
    var t := Clean(text);
    if |t| <= size {
      assert Holds([t], t, 0, 0, p);
    } else {
      var n: nat :| Ends(t, size, overlap, 0, n);
      SameChunks(text, size, overlap, n);
      PiecesKeep(t, size, overlap, 0, n, 0, p);
    }
  }
}
