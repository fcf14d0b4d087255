/** Global matching of the regular expression `O([^C]+)C` for an opening
    character O and a closing character C, as in the global patterns
    `\*([^*]+)\*` (emphasis) and `【([^】]+)】` (flagged words).  A match
    starts at an O that is followed by at least one character other than
    C, and ends at the first C after it; a global scan resumes after the
    end of each match. */
module Delimited {
  import opened Wrappers
  import JsText

  /** One match: `s[start..end]` is the opening character, the captured
      text and the closing character. */
  datatype Span = Span(start: nat, end: nat) {
    function Shift(d: nat): Span { Span(d + start, d + end) }
  }

  /** The captured group `$1` of a match. */
  function Inner(s: string, m: Span): string
    requires m.start + 2 <= m.end <= |s|
  {
    s[m.start + 1..m.end - 1]
  }

  /** The first index at or after `from` that holds `c`, or `|s|`. */
  function NextFrom(s: string, from: nat, c: char): (q: nat)
    requires from <= |s|
    ensures from <= q <= |s|
    ensures q < |s| ==> s[q] == c
    ensures forall i :: from <= i < q ==> s[i] != c
    decreases |s| - from
  {
    if from == |s| || s[from] == c then from else NextFrom(s, from + 1, c)
  }

  /** The match that starts exactly at `p`, if any. */
  function MatchAt(s: string, p: nat, open: char, close: char): (r: Option<Span>)
    ensures r.Some? ==> r.value.start == p && p + 3 <= r.value.end <= |s|
  {
    if p + 1 < |s| && s[p] == open && s[p + 1] != close then
      var q := NextFrom(s, p + 1, close);
      if q < |s| then Some(Span(p, q + 1)) else None
    else None
  }

  /** What a match covers, and when there is one: an opening character,
      then a non-empty run free of the closing character, then the closing
      character. */
  lemma MatchAtShape(s: string, p: nat, open: char, close: char)
    ensures var r := MatchAt(s, p, open, close);
      (r.Some? ==> s[p] == open && s[r.value.end - 1] == close &&
                   Inner(s, r.value) != [] && close !in Inner(s, r.value)) &&
      (p + 1 < |s| && s[p] == open && s[p + 1] != close && close in s[p + 1..] ==> r.Some?) &&
      (p < |s| && s[p] != open ==> r.None?)
  {
  }

  /** What `RegExp.prototype.exec` finds when the scan resumes at `from`:
      the leftmost match starting at or after `from`. */
  function FirstMatchFrom(s: string, from: nat, open: char, close: char): (r: Option<Span>)
    ensures r.Some? ==> from <= r.value.start && MatchAt(s, r.value.start, open, close) == r
    decreases |s| - from
  {
    if from >= |s| then None
    else if MatchAt(s, from, open, close).Some? then MatchAt(s, from, open, close)
    else FirstMatchFrom(s, from + 1, open, close)
  }

  /** No match starts between `from` and the match found, and none at all
      when nothing is found. */
  lemma {:induction false} FirstMatchLeftmost(s: string, from: nat, open: char, close: char, p: nat)
    requires from <= p
    requires var r := FirstMatchFrom(s, from, open, close); r.None? || p < r.value.start
    ensures MatchAt(s, p, open, close).None?
    decreases |s| - from
  {
    if from < |s| && MatchAt(s, from, open, close).None? && from < p {
      FirstMatchLeftmost(s, from + 1, open, close, p);
    }
  }

  /** All matches of a global scan that starts at `from`, in order. */
  function MatchesFrom(s: string, from: nat, open: char, close: char): seq<Span>
    decreases |s| - from
  {
    match FirstMatchFrom(s, from, open, close)
    case None => []
    case Some(m) => [m] + MatchesFrom(s, m.end, open, close)
  }

  /** The matches lie inside the text in increasing order without
      overlapping; each is the match at its own start, and the scan
      resumed after one of them finds the rest. */
  lemma {:induction false} MatchesOrdered(s: string, from: nat, open: char, close: char, k: nat)
    requires k < |MatchesFrom(s, from, open, close)|
    ensures var ms := MatchesFrom(s, from, open, close);
      from <= ms[k].start && ms[k].start + 3 <= ms[k].end <= |s| &&
      MatchAt(s, ms[k].start, open, close) == Some(ms[k]) &&
      FirstMatchFrom(s, ms[k].start, open, close) == Some(ms[k]) &&
      MatchesFrom(s, ms[k].end, open, close) == ms[k + 1..] &&
      (k + 1 < |ms| ==> ms[k].end <= ms[k + 1].start)
    decreases |s| - from
  {
    var m := FirstMatchFrom(s, from, open, close).value;
    var ms := MatchesFrom(s, from, open, close);
    var rest := MatchesFrom(s, m.end, open, close);
    assert ms == [m] + rest;
    if k > 0 {
      MatchesOrdered(s, m.end, open, close, k - 1);
      assert ms[k] == rest[k - 1] && ms[k + 1..] == rest[k..];
      assert k + 1 < |ms| ==> ms[k + 1] == rest[k];
    } else {
      assert ms[0] == m && ms[1..] == rest;
      assert FirstMatchFrom(s, m.start, open, close) == Some(m);
      if 1 < |ms| {
        MatchesOrdered(s, m.end, open, close, 0);
        assert ms[1] == rest[0];
      }
    }
  }

  /** The replacement `pre + $1 + post` of one match. */
  function Piece(s: string, m: Span, pre: string, post: string): string
    requires m.start + 2 <= m.end <= |s|
  {
    pre + Inner(s, m) + post
  }

  /** `s.slice(from)` with every match replaced by `pre + $1 + post`. */
  function Rewrite(s: string, from: nat, open: char, close: char, pre: string, post: string): string
    requires from <= |s|
    decreases |s| - from
  {
    match FirstMatchFrom(s, from, open, close)
    case None => s[from..]
    case Some(m) => s[from..m.start] + (Piece(s, m, pre, post) + Rewrite(s, m.end, open, close, pre, post))
  }

  /** The rewrite brings in no character besides those of the text and of
      the two sides of the replacement. */
  lemma {:induction false} RewriteChars(s: string, from: nat, open: char, close: char, pre: string, post: string)
    requires from <= |s|
    ensures forall x :: x in Rewrite(s, from, open, close, pre, post) ==> x in s[from..] || x in pre || x in post
    decreases |s| - from
  {
    match FirstMatchFrom(s, from, open, close)
    case None =>
    case Some(m) =>
      RewriteChars(s, m.end, open, close, pre, post);
      var t := s[from..];
      assert s[from..m.start] == t[..m.start - from];
      assert Inner(s, m) == t[m.start - from + 1..m.end - from - 1];
      assert s[m.end..] == t[m.end - from..];
  }

  // ---------------------------------------------------------------------
  // Walking the matches of a scan starting at 0 one at a time

  /** The start of match `k`, or `|s|` past the last match. */
  function Boundary(s: string, ms: seq<Span>, k: nat): nat
    requires k <= |ms|
  {
    if k == |ms| then |s| else ms[k].start
  }

  /** Rewriting from the start of a match begins with its replacement. */
  lemma RewriteAtStart(s: string, open: char, close: char, pre: string, post: string, m: Span)
    requires FirstMatchFrom(s, m.start, open, close) == Some(m)
    ensures Rewrite(s, m.start, open, close, pre, post)
      == Piece(s, m, pre, post) + Rewrite(s, m.end, open, close, pre, post)
  {
    assert s[m.start..m.start] == [];
  }

  /** Rewriting from the end of match `k` copies the gap up to the next
      match and goes on from there. */
  lemma RewriteAfterMatch(s: string, open: char, close: char, pre: string, post: string, k: nat)
    requires k < |MatchesFrom(s, 0, open, close)|
    ensures var ms := MatchesFrom(s, 0, open, close);
      ms[k].start + 3 <= ms[k].end <= Boundary(s, ms, k + 1) <= |s| &&
      Rewrite(s, ms[k].end, open, close, pre, post) ==
        s[ms[k].end..Boundary(s, ms, k + 1)] + Rewrite(s, Boundary(s, ms, k + 1), open, close, pre, post)
  {
    var ms := MatchesFrom(s, 0, open, close);
    var m := ms[k];
    MatchesOrdered(s, 0, open, close, k);
    if k + 1 < |ms| {
      var n := ms[k + 1];
      MatchesOrdered(s, 0, open, close, k + 1);
      assert FirstMatchFrom(s, m.end, open, close) == Some(n);
      RewriteAtStart(s, open, close, pre, post, n);
    } else {
      assert FirstMatchFrom(s, m.end, open, close).None?;
      assert s[|s|..] == [];
      assert s[m.end..] + [] == s[m.end..];
    }
  }

  /** Rewriting from the start of match `k` emits that match's replacement,
      then the text up to the next match, then the rewrite from there. */
  lemma RewriteStep(s: string, open: char, close: char, pre: string, post: string, k: nat)
    requires k < |MatchesFrom(s, 0, open, close)|
    ensures var ms := MatchesFrom(s, 0, open, close);
      ms[k].start + 3 <= ms[k].end <= Boundary(s, ms, k + 1) <= |s| &&
      Rewrite(s, ms[k].start, open, close, pre, post) ==
        Piece(s, ms[k], pre, post) + (s[ms[k].end..Boundary(s, ms, k + 1)]
        + Rewrite(s, Boundary(s, ms, k + 1), open, close, pre, post))
  {
    var ms := MatchesFrom(s, 0, open, close);
    MatchesOrdered(s, 0, open, close, k);
    RewriteAtStart(s, open, close, pre, post, ms[k]);
    RewriteAfterMatch(s, open, close, pre, post, k);
  }

  /** The rewrite from 0 begins with the text before the first match. */
  lemma RewriteFirst(s: string, open: char, close: char, pre: string, post: string)
    requires 0 < |MatchesFrom(s, 0, open, close)|
    ensures var m := MatchesFrom(s, 0, open, close)[0];
      m.start <= |s| &&
      Rewrite(s, 0, open, close, pre, post) == s[..m.start] + Rewrite(s, m.start, open, close, pre, post)
  {
    var m := MatchesFrom(s, 0, open, close)[0];
    MatchesOrdered(s, 0, open, close, 0);
    RewriteAtStart(s, open, close, pre, post, m);
  }

  /** Dropping a prefix of a concatenation. */
  lemma DropConcat(x: string, a: string, g: string, r: string)
    requires x == a + (g + r)
    ensures x[|a| + |g|..] == r
  {
    assert x[|a|..] == g + r;
    assert x[|a| + |g|..] == x[|a|..][|g|..];
  }

  /** Before match `k` the rewritten text has a prefix whose length is the
      match's start adjusted by the length change of the `k` earlier
      replacements; the rewrite from the match's start follows it. */
  lemma {:induction false} RewritePrefix(s: string, open: char, close: char, pre: string, post: string, k: nat)
    requires k < |MatchesFrom(s, 0, open, close)|
    ensures var ms := MatchesFrom(s, 0, open, close);
      var r := Rewrite(s, 0, open, close, pre, post);
      var at := ms[k].start + k * (|pre| + |post| - 2);
      ms[k].start <= |s| && 0 <= at <= |r| && r[at..] == Rewrite(s, ms[k].start, open, close, pre, post)
  {
    var ms := MatchesFrom(s, 0, open, close);
    var r := Rewrite(s, 0, open, close, pre, post);
    MatchesOrdered(s, 0, open, close, k);
    if k == 0 {
      RewriteFirst(s, open, close, pre, post);
      var a := s[..ms[0].start];
      var rest := Rewrite(s, ms[0].start, open, close, pre, post);
      assert r == a + rest;
      assert |a| == ms[0].start;
      assert r[|a|..] == rest;
      assert 0 * (|pre| + |post| - 2) == 0;
    } else {
      RewritePrefix(s, open, close, pre, post, k - 1);
      RewritePrefixStep(s, open, close, pre, post, k);
    }
  }

  /** One step of `RewritePrefix`: from match `k - 1` to match `k`. */
  lemma RewritePrefixStep(s: string, open: char, close: char, pre: string, post: string, k: nat)
    requires 0 < k < |MatchesFrom(s, 0, open, close)|
    requires var ms := MatchesFrom(s, 0, open, close);
      var r := Rewrite(s, 0, open, close, pre, post);
      var at := ms[k - 1].start + (k - 1) * (|pre| + |post| - 2);
      ms[k - 1].start <= |s| && 0 <= at <= |r| && r[at..] == Rewrite(s, ms[k - 1].start, open, close, pre, post)
    ensures var ms := MatchesFrom(s, 0, open, close);
      var r := Rewrite(s, 0, open, close, pre, post);
      var at := ms[k].start + k * (|pre| + |post| - 2);
      ms[k].start <= |s| && 0 <= at <= |r| && r[at..] == Rewrite(s, ms[k].start, open, close, pre, post)
  {
    var ms := MatchesFrom(s, 0, open, close);
    var r := Rewrite(s, 0, open, close, pre, post);
    var m := ms[k - 1];
    RewriteStepNext(s, open, close, pre, post, k);
    var at := ms[k - 1].start + (k - 1) * (|pre| + |post| - 2);
    var p := Piece(s, m, pre, post);
    var g := s[m.end..ms[k].start];
    var rest := Rewrite(s, ms[k].start, open, close, pre, post);
    DropStep(r, at, p, g, rest);
    PieceLength(s, m, pre, post);
    OffsetStep(m.start, m.end, ms[k].start, k, |pre| + |post|);
  }

  /** `RewriteStep` for a match that has a successor. */
  lemma RewriteStepNext(s: string, open: char, close: char, pre: string, post: string, k: nat)
    requires 0 < k < |MatchesFrom(s, 0, open, close)|
    ensures var ms := MatchesFrom(s, 0, open, close);
      ms[k - 1].start + 3 <= ms[k - 1].end <= ms[k].start <= |s| &&
      Rewrite(s, ms[k - 1].start, open, close, pre, post) ==
        Piece(s, ms[k - 1], pre, post) + (s[ms[k - 1].end..ms[k].start]
        + Rewrite(s, ms[k].start, open, close, pre, post))
  {
    RewriteStep(s, open, close, pre, post, k - 1);
    assert k - 1 + 1 == k;
  }

  /** Past a known prefix of a tail of `r`. */
  lemma DropStep(r: string, at: int, p: string, g: string, rest: string)
    requires 0 <= at <= |r| && r[at..] == p + (g + rest)
    ensures at + (|p| + |g|) <= |r| && r[at + (|p| + |g|)..] == rest
  {
    DropConcat(r[at..], p, g, rest);
    DropTwice(r, at, |p| + |g|);
  }

  lemma PieceLength(s: string, m: Span, pre: string, post: string)
    requires m.start + 2 <= m.end <= |s|
    ensures |Piece(s, m, pre, post)| == |pre| + |post| + (m.end - m.start - 2)
  {
  }

  /** The offset of match `k` from that of match `k - 1`. */
  lemma OffsetStep(s0: int, e0: int, s1: int, k: nat, sides: int)
    requires k > 0
    ensures s1 + k * (sides - 2) == (s0 + (k - 1) * (sides - 2)) + (sides + (e0 - s0 - 2)) + (s1 - e0)
  {
    assert k * (sides - 2) == (k - 1) * (sides - 2) + (sides - 2);
  }

  /** Dropping twice is dropping once. */
  lemma DropTwice(r: string, at: int, n: int)
    requires 0 <= at && 0 <= n
    requires at + n <= |r|
    ensures r[at..][n..] == r[at + n..]
  {
  }

  /** In the rewritten text, the replacement of match `k` sits at offset
      `start + k * (|pre| + |post| - 2)`. */
  lemma MatchInRewrite(s: string, open: char, close: char, pre: string, post: string, k: nat)
    requires k < |MatchesFrom(s, 0, open, close)|
    ensures var ms := MatchesFrom(s, 0, open, close);
      var r := Rewrite(s, 0, open, close, pre, post);
      ms[k].start + 2 <= ms[k].end <= |s| &&
      var w := Piece(s, ms[k], pre, post);
      var at := ms[k].start + k * (|pre| + |post| - 2);
      0 <= at && at + |w| <= |r| && r[at..at + |w|] == w
  {
    var ms := MatchesFrom(s, 0, open, close);
    var r := Rewrite(s, 0, open, close, pre, post);
    RewritePrefix(s, open, close, pre, post, k);
    RewriteStep(s, open, close, pre, post, k);
    var at := ms[k].start + k * (|pre| + |post| - 2);
    var w := Piece(s, ms[k], pre, post);
    assert r[at..][..|w|] == w;
  }

  /** Rewriting with empty sides changes no count of a character other
      than the two delimiters. */
  lemma {:induction false} RewriteCount(s: string, from: nat, open: char, close: char, c: char)
    requires from <= |s| && c != open && c != close
    ensures JsText.Count(Rewrite(s, from, open, close, [], []), c) == JsText.Count(s[from..], c)
    decreases |s| - from
  {
    var f := FirstMatchFrom(s, from, open, close);
    if f.Some? {
      var m := f.value;
      RewriteUnfold(s, from, m, open, close, [], []);
      MatchAtShape(s, m.start, open, close);
      RewriteCount(s, m.end, open, close, c);
      RewriteSplit(s, from, m, c);
      var a, x := s[from..m.start], Inner(s, m);
      var rest := Rewrite(s, m.end, open, close, [], []);
      PieceBare(s, m);
      JsText.CountAppend(x, rest, c);
      JsText.CountAppend(a, x + rest, c);
    }
  }

  /** With empty sides the replacement is the captured text. */
  lemma PieceBare(s: string, m: Span)
    requires m.start + 2 <= m.end <= |s|
    ensures Piece(s, m, [], []) == Inner(s, m)
  {
    assert [] + Inner(s, m) + [] == Inner(s, m);
  }

  /** The counts of a character other than the delimiters in the three
      parts around a match. */
  lemma RewriteSplit(s: string, from: nat, m: Span, c: char)
    requires from <= m.start && m.start + 2 <= m.end <= |s|
    requires c != s[m.start] && c != s[m.end - 1]
    ensures JsText.Count(s[from..], c)
      == JsText.Count(s[from..m.start], c) + JsText.Count(Inner(s, m), c) + JsText.Count(s[m.end..], c)
  {
    var a, x, b := s[from..m.start], Inner(s, m), s[m.end..];
    var o, e := [s[m.start]], [s[m.end - 1]];
    assert s[from..] == a + (o + (x + (e + b)));
    JsText.CountAppend(e, b, c);
    JsText.CountAppend(x, e + b, c);
    JsText.CountAppend(o, x + (e + b), c);
    JsText.CountAppend(a, o + (x + (e + b)), c);
  }

  // ---------------------------------------------------------------------
  // Rewriting a text whose first match is known

  /** `v` is the tail of `t` from `d` on. */
  predicate TailAt(t: string, d: nat, v: string) {
    d <= |t| && t[d..] == v
  }

  lemma {:induction false} NextFromShift(t: string, d: nat, v: string, from: nat, c: char)
    requires TailAt(t, d, v) && from <= |v|
    ensures NextFrom(t, d + from, c) == d + NextFrom(v, from, c)
    decreases |v| - from
  {
    if from < |v| {
      assert t[d + from] == v[from];
      if v[from] != c { NextFromShift(t, d, v, from + 1, c); }
    }
  }

  lemma MatchAtShift(t: string, d: nat, v: string, p: nat, open: char, close: char)
    requires TailAt(t, d, v)
    ensures MatchAt(t, d + p, open, close).None? == MatchAt(v, p, open, close).None?
    ensures MatchAt(v, p, open, close).Some? ==>
      MatchAt(t, d + p, open, close).value == MatchAt(v, p, open, close).value.Shift(d)
  {
    if p + 1 < |v| {
      assert t[d + p] == v[p] && t[d + p + 1] == v[p + 1];
      if v[p] == open && v[p + 1] != close {
        NextFromShift(t, d, v, p + 1, close);
      }
    }
  }

  lemma {:induction false} FirstMatchShift(t: string, d: nat, v: string, p: nat, open: char, close: char)
    requires TailAt(t, d, v)
    ensures FirstMatchFrom(t, d + p, open, close).None? == FirstMatchFrom(v, p, open, close).None?
    ensures FirstMatchFrom(v, p, open, close).Some? ==>
      FirstMatchFrom(t, d + p, open, close).value == FirstMatchFrom(v, p, open, close).value.Shift(d)
    decreases |v| - p
  {
    if p < |v| {
      MatchAtShift(t, d, v, p, open, close);
      if MatchAt(v, p, open, close).None? { FirstMatchShift(t, d, v, p + 1, open, close); }
    }
  }

  /** `FirstMatchShift` for a scan known to find `m`. */
  lemma FirstMatchShiftSome(t: string, d: nat, v: string, p: nat, m: Span, open: char, close: char)
    requires TailAt(t, d, v) && FirstMatchFrom(v, p, open, close) == Some(m)
    ensures FirstMatchFrom(t, d + p, open, close) == Some(Span(d + m.start, d + m.end))
  {
    FirstMatchShift(t, d, v, p, open, close);
  }

  /** A slice of the tail. */
  lemma SliceShift(t: string, d: nat, v: string, i: nat, j: nat)
    requires TailAt(t, d, v) && i <= j <= |v|
    ensures t[d + i..d + j] == v[i..j]
  {
    forall k | 0 <= k < j - i ensures t[d + i..d + j][k] == v[i..j][k] {
      assert t[d..][i + k] == t[d + i + k];
    }
  }

  lemma PieceShift(t: string, d: nat, v: string, m: Span, pre: string, post: string)
    requires TailAt(t, d, v) && m.start + 2 <= m.end <= |v|
    ensures Piece(t, Span(d + m.start, d + m.end), pre, post) == Piece(v, m, pre, post)
  {
    SliceShift(t, d, v, m.start + 1, m.end - 1);
  }

  /** The rewrite from `from` when its first match is `m`. */
  lemma RewriteUnfold(s: string, from: nat, m: Span, open: char, close: char, pre: string, post: string)
    requires from <= |s| && FirstMatchFrom(s, from, open, close) == Some(m)
    ensures from <= m.start && m.start + 2 <= m.end <= |s|
    ensures Rewrite(s, from, open, close, pre, post)
      == s[from..m.start] + (Piece(s, m, pre, post) + Rewrite(s, m.end, open, close, pre, post))
  {
  }

  /** The same, with the match given by its two ends. */
  lemma RewriteUnfoldAt(s: string, from: nat, start: nat, end: nat, open: char, close: char, pre: string, post: string)
    requires from <= |s| && FirstMatchFrom(s, from, open, close) == Some(Span(start, end))
    ensures from <= start && start + 2 <= end <= |s|
    ensures Rewrite(s, from, open, close, pre, post)
      == s[from..start] + (Piece(s, Span(start, end), pre, post) + Rewrite(s, end, open, close, pre, post))
  {
    RewriteUnfold(s, from, Span(start, end), open, close, pre, post);
  }

  lemma RewriteShiftNone(t: string, d: nat, v: string, p: nat, open: char, close: char, pre: string, post: string)
    requires TailAt(t, d, v) && p <= |v| && FirstMatchFrom(v, p, open, close).None?
    ensures Rewrite(t, d + p, open, close, pre, post) == Rewrite(v, p, open, close, pre, post)
  {
    FirstMatchShift(t, d, v, p, open, close);
    assert t[d + p..] == v[p..] by {
      assert t[d + p..] == t[d..][p..];
    }
  }

  lemma RewriteShiftSome(t: string, d: nat, v: string, p: nat, m: Span, open: char, close: char, pre: string, post: string)
    requires TailAt(t, d, v) && p <= |v| && FirstMatchFrom(v, p, open, close) == Some(m)
    requires Rewrite(t, d + m.end, open, close, pre, post) == Rewrite(v, m.end, open, close, pre, post)
    ensures Rewrite(t, d + p, open, close, pre, post) == Rewrite(v, p, open, close, pre, post)
  {
    FirstMatchShiftSome(t, d, v, p, m, open, close);
    RewriteUnfold(v, p, m, open, close, pre, post);
    SliceShift(t, d, v, p, m.start);
    PieceShift(t, d, v, m, pre, post);
    RewriteUnfoldAt(t, d + p, d + m.start, d + m.end, open, close, pre, post);
  }

  /** Rewriting the tail of a text from `d` on is rewriting it as a text
      of its own. */
  lemma {:induction false} RewriteShift(t: string, d: nat, v: string, p: nat, open: char, close: char, pre: string, post: string)
    requires TailAt(t, d, v) && p <= |v|
    ensures Rewrite(t, d + p, open, close, pre, post) == Rewrite(v, p, open, close, pre, post)
    decreases |v| - p
  {
    var f := FirstMatchFrom(v, p, open, close);
    if f.None? {
      RewriteShiftNone(t, d, v, p, open, close, pre, post);
    } else {
      RewriteShift(t, d, v, f.value.end, open, close, pre, post);
      RewriteShiftSome(t, d, v, p, f.value, open, close, pre, post);
    }
  }

  lemma {:induction false} FirstMatchBefore(s: string, from: nat, p: nat, open: char, close: char)
    requires from <= p && MatchAt(s, p, open, close).Some?
    requires forall i :: from <= i < p ==> MatchAt(s, i, open, close).None?
    ensures FirstMatchFrom(s, from, open, close) == MatchAt(s, p, open, close)
    decreases p - from
  {
    if from < p { FirstMatchBefore(s, from + 1, p, open, close); }
  }

  /** When the text before a complete match holds no opening character,
      the rewrite copies that text, replaces the match and goes on with the
      rest as a text of its own. */
  lemma FirstMatchRewrite(a: string, x: string, b: string, open: char, close: char, pre: string, post: string)
    requires open !in a && x != [] && close !in x
    ensures Rewrite(a + [open] + x + [close] + b, 0, open, close, pre, post)
      == a + ((pre + x + post) + Rewrite(b, 0, open, close, pre, post))
  {
    var h := a + [open] + x + [close];
    var t := h + b;
    FirstMatchIs(a, x, b, open, close);
    RewriteUnfoldAt(t, 0, |a|, |h|, open, close, pre, post);
    CompleteMatchParts(a, x, b, open, close);
    assert Piece(t, Span(|a|, |h|), pre, post) == pre + x + post;
    RewriteTail(t, |h|, b, open, close, pre, post);
  }

  /** Rewriting a text from `d` on is rewriting its tail from there. */
  lemma RewriteTail(t: string, d: nat, v: string, open: char, close: char, pre: string, post: string)
    requires TailAt(t, d, v)
    ensures Rewrite(t, d, open, close, pre, post) == Rewrite(v, 0, open, close, pre, post)
  {
    RewriteShift(t, d, v, 0, open, close, pre, post);
    assert d + 0 == d;
  }

  /** Scanning a text from `d` on finds the matches of its tail, moved. */
  lemma MatchesTail(t: string, d: nat, v: string, open: char, close: char)
    requires TailAt(t, d, v)
    ensures MatchesFrom(t, d, open, close) == ShiftAll(MatchesFrom(v, 0, open, close), d)
  {
    MatchesShift(t, d, v, 0, open, close);
    assert d + 0 == d;
  }

  /** The parts of a text made of `a`, a complete match around `x`, and `b`. */
  lemma CompleteMatchParts(a: string, x: string, b: string, open: char, close: char)
    ensures var h := a + [open] + x + [close];
      var t := h + b;
      |h| == |a| + |x| + 2 && t[0..|a|] == a && t[|a| + 1..|h| - 1] == x && TailAt(t, |h|, b)
  {
    var h := a + [open] + x + [close];
    var t := h + b;
    assert t[0..|a|] == h[0..|a|];
    assert t[|a| + 1..|h| - 1] == h[|a| + 1..|h| - 1];
  }

  /** The first match of such a text is the complete match after `a`. */
  lemma FirstMatchIs(a: string, x: string, b: string, open: char, close: char)
    requires open !in a && x != [] && close !in x
    ensures var h := a + [open] + x + [close];
      FirstMatchFrom(h + b, 0, open, close) == Some(Span(|a|, |h|))
  {
    var h := a + [open] + x + [close];
    var t := h + b;
    var m := Span(|a|, |h|);
    assert t[|a|] == open && t[|a| + 1] == x[0];
    assert MatchAt(t, |a|, open, close) == Some(m) by {
      var q := NextFrom(t, |a| + 1, close);
      assert q == |h| - 1 by {
        assert t[|h| - 1] == close;
      }
    }
    forall i | 0 <= i < |a| ensures MatchAt(t, i, open, close).None? {
      assert t[i] == a[i];
    }
    FirstMatchBefore(t, 0, |a|, open, close);
  }

  /** The spans `ms`, each moved `d` characters to the right. */
  function ShiftAll(ms: seq<Span>, d: nat): (r: seq<Span>)
    ensures |r| == |ms|
    ensures forall k :: 0 <= k < |ms| ==> r[k] == ms[k].Shift(d)
  {
    seq(|ms|, k requires 0 <= k < |ms| => ms[k].Shift(d))
  }

  /** The matches from `from` when the first of them is `m`. */
  lemma MatchesUnfold(s: string, from: nat, m: Span, open: char, close: char)
    requires FirstMatchFrom(s, from, open, close) == Some(m)
    ensures MatchesFrom(s, from, open, close) == [m] + MatchesFrom(s, m.end, open, close)
  {
  }

  /** Scanning the tail `v` of a text finds the matches of `v`, moved. */
  lemma {:induction false} MatchesShift(t: string, d: nat, v: string, p: nat, open: char, close: char)
    requires TailAt(t, d, v) && p <= |v|
    ensures MatchesFrom(t, d + p, open, close) == ShiftAll(MatchesFrom(v, p, open, close), d)
    decreases |v| - p
  {
    FirstMatchShift(t, d, v, p, open, close);
    var f := FirstMatchFrom(v, p, open, close);
    if f.Some? {
      var m := f.value;
      MatchAtShape(v, m.start, open, close);
      MatchesShift(t, d, v, m.end, open, close);
      FirstMatchShiftSome(t, d, v, p, m, open, close);
      MatchesUnfoldAt(t, d + p, d + m.start, d + m.end, open, close);
      MatchesUnfold(v, p, m, open, close);
      ShiftAllCons(m, MatchesFrom(v, m.end, open, close), d);
    } else {
      assert ShiftAll([], d) == [];
    }
  }

  lemma MatchesUnfoldAt(s: string, from: nat, start: nat, end: nat, open: char, close: char)
    requires FirstMatchFrom(s, from, open, close) == Some(Span(start, end))
    ensures MatchesFrom(s, from, open, close) == [Span(start, end)] + MatchesFrom(s, end, open, close)
  {
    MatchesUnfold(s, from, Span(start, end), open, close);
  }

  lemma ShiftAllCons(m: Span, rest: seq<Span>, d: nat)
    ensures ShiftAll([m] + rest, d) == [Span(d + m.start, d + m.end)] + ShiftAll(rest, d)
  {
    var x, y := ShiftAll([m] + rest, d), [Span(d + m.start, d + m.end)] + ShiftAll(rest, d);
    assert |x| == |y|;
    forall k | 0 <= k < |x| ensures x[k] == y[k] {
      if k > 0 { assert ([m] + rest)[k] == rest[k - 1]; }
    }
  }

  /** A text that starts with a complete match after a stretch without an
      opening character: that match, then the matches of the rest. */
  lemma MatchesAfterFirst(a: string, x: string, b: string, open: char, close: char)
    requires open !in a && x != [] && close !in x
    ensures var h := a + [open] + x + [close];
      MatchesFrom(h + b, 0, open, close) ==
        [Span(|a|, |h|)] + ShiftAll(MatchesFrom(b, 0, open, close), |h|)
  {
    var h := a + [open] + x + [close];
    var t := h + b;
    FirstMatchIs(a, x, b, open, close);
    MatchesUnfold(t, 0, Span(|a|, |h|), open, close);
    CompleteMatchParts(a, x, b, open, close);
    MatchesTail(t, |h|, b, open, close);
  }

  /** A text without any opening character is left as it is. */
  lemma {:induction false} RewriteNoOpen(s: string, from: nat, open: char, close: char, pre: string, post: string)
    requires from <= |s| && open !in s
    ensures FirstMatchFrom(s, from, open, close).None?
    ensures Rewrite(s, from, open, close, pre, post) == s[from..]
    decreases |s| - from
  {
    if from < |s| {
      MatchAtShape(s, from, open, close);
      RewriteNoOpen(s, from + 1, open, close, pre, post);
    }
  }
}
