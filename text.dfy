/** String primitives with the semantics of the JavaScript built-ins the
    teleprompter's code relies on: the `\s` character class and `trim`,
    `indexOf`, global replacement of a literal, `padStart` and number
    formatting.  Strings are sequences of characters. */
module JsText {

  /** The characters of the JavaScript class `\s`; `String.prototype.trim`
      removes exactly these from both ends. */
  predicate IsWhitespace(c: char) {
    c == ' ' || c == '\t' || c == '\n' || c == '\U{B}' || c == '\U{C}' || c == '\r'
    || c == '\U{A0}' || c == '\U{1680}' || ('\U{2000}' <= c <= '\U{200A}')
    || c == '\U{2028}' || c == '\U{2029}' || c == '\U{202F}' || c == '\U{205F}'
    || c == '\U{3000}' || c == '\U{FEFF}'
  }

  /** The characters that `.` in a JavaScript regular expression does not match. */
  predicate IsLineTerminator(c: char) {
    c == '\n' || c == '\r' || c == '\U{2028}' || c == '\U{2029}'
  }

  predicate AllWhitespace(s: string) {
    forall i :: 0 <= i < |s| ==> IsWhitespace(s[i])
  }

  /** No leading and no trailing whitespace. */
  predicate Trimmed(s: string) {
    s == [] || (!IsWhitespace(s[0]) && !IsWhitespace(s[|s| - 1]))
  }

  /** Every whitespace character is a plain space and no two are adjacent. */
  predicate SingleSpaced(s: string) {
    forall i :: 0 <= i < |s| && IsWhitespace(s[i]) ==>
      s[i] == ' ' && (i + 1 < |s| ==> !IsWhitespace(s[i + 1]))
  }

  /** A slice of a slice is a slice. */
  lemma SliceOfSlice(s: string, i: nat, j: nat, k: nat, l: nat)
    requires i <= j <= |s| && k <= l <= j - i
    ensures s[i..j][k..l] == s[i + k..i + l]
  {
    assert |s[i..j][k..l]| == l - k;
    forall x | 0 <= x < l - k ensures s[i..j][k..l][x] == s[i + k..i + l][x] {
      assert s[i..j][k..l][x] == s[i..j][k + x] == s[i + k + x];
    }
  }

  /** A character of a slice is a character of the text. */
  lemma SliceChars(s: string, i: nat, j: nat)
    requires i <= j <= |s|
    ensures forall x :: x in s[i..j] ==> x in s
  {
    forall x | x in s[i..j] ensures x in s {
      var k :| 0 <= k < j - i && s[i..j][k] == x;
      assert s[i + k] == x;
    }
  }

  lemma SingleSpacedSlice(s: string, a: nat, b: nat)
    requires SingleSpaced(s) && a <= b <= |s|
    ensures SingleSpaced(s[a..b])
  {
    var t := s[a..b];
    forall i | 0 <= i < |t| && IsWhitespace(t[i])
      ensures t[i] == ' ' && (i + 1 < |t| ==> !IsWhitespace(t[i + 1]))
    {
      assert t[i] == s[a + i];
      if i + 1 < |t| { assert t[i + 1] == s[a + i + 1]; }
    }
  }

  /** Length of the longest all-whitespace prefix. */
  function LeadingWhitespace(s: string): (n: nat)
    ensures n <= |s| && AllWhitespace(s[..n])
    ensures n == |s| || !IsWhitespace(s[n])
  {
    if s != [] && IsWhitespace(s[0]) then
      var k := LeadingWhitespace(s[1..]);
      assert s[..k + 1] == [s[0]] + s[1..][..k];
      k + 1
    else 0
  }

  /** Length of the longest all-whitespace suffix. */
  function TrailingWhitespace(s: string): (n: nat)
    ensures n <= |s| && AllWhitespace(s[|s| - n..])
    ensures n == |s| || !IsWhitespace(s[|s| - n - 1])
  {
    if s != [] && IsWhitespace(s[|s| - 1]) then
      var k := TrailingWhitespace(s[..|s| - 1]);
      assert s[|s| - (k + 1)..] == s[..|s| - 1][|s| - 1 - k..] + [s[|s| - 1]];
      k + 1
    else 0
  }

  /** `s.trim()`. */
  function Trim(s: string): (r: string)
    ensures Trimmed(r)
    ensures LeadingWhitespace(s) + |r| <= |s|
    ensures r == s[LeadingWhitespace(s)..LeadingWhitespace(s) + |r|]
  {
    var a := LeadingWhitespace(s);
    var t := s[a..];
    var b := TrailingWhitespace(t);
    TrimFacts(s, a, t, b);
    t[..|t| - b]
  }

  lemma TrimFacts(s: string, a: nat, t: string, b: nat)
    requires a == LeadingWhitespace(s) && t == s[a..] && b == TrailingWhitespace(t)
    ensures var r := t[..|t| - b];
      Trimmed(r) && a + |r| <= |s| && r == s[a..a + |r|]
  {
    TakeDrop(s, a, |t| - b);
    if t != [] {
      assert t[0] == s[a];
    }
    TrimEnds(t, b);
  }

  lemma TakeDrop(s: string, a: nat, c: nat)
    requires a + c <= |s|
    ensures s[a..][..c] == s[a..a + c]
  {
  }

  lemma TrimEnds(t: string, b: nat)
    requires t == [] || !IsWhitespace(t[0])
    requires b <= |t| && (b < |t| ==> !IsWhitespace(t[|t| - b - 1]))
    ensures Trimmed(t[..|t| - b])
  {
    var r := t[..|t| - b];
    if r != [] {
      assert r[0] == t[0];
      assert r[|r| - 1] == t[|t| - b - 1];
    }
  }

  /** What `trim` removes is whitespace, and it removes everything exactly
      when the text is all whitespace. */
  lemma TrimShape(s: string)
    ensures AllWhitespace(s[..LeadingWhitespace(s)])
    ensures AllWhitespace(s[LeadingWhitespace(s) + |Trim(s)|..])
    ensures Trim(s) == [] <==> AllWhitespace(s)
  {
    TrimTail(s);
    TrimEmptyAll(s);
  }

  lemma TrimTail(s: string)
    ensures AllWhitespace(s[LeadingWhitespace(s) + |Trim(s)|..])
  {
    var a := LeadingWhitespace(s);
    var t := s[a..];
    var b := TrailingWhitespace(t);
    assert |Trim(s)| == |t| - b;
    DropDrop(s, a, |t| - b);
  }

  lemma DropDrop(s: string, a: nat, c: nat)
    requires a + c <= |s|
    ensures s[a..][c..] == s[a + c..]
  {
  }

  lemma TrimEmptyAll(s: string)
    ensures Trim(s) == [] ==> AllWhitespace(s)
  {
    var a := LeadingWhitespace(s);
    var t := s[a..];
    var b := TrailingWhitespace(t);
    if Trim(s) == [] {
      assert |t| == b && t[|t| - b..] == t;
      assert t == [];
      forall i | 0 <= i < |s| ensures IsWhitespace(s[i]) {
        assert s[i] == s[..a][i];
      }
    }
  }

  lemma TrimSingleSpaced(s: string)
    requires SingleSpaced(s)
    ensures SingleSpaced(Trim(s))
  {
    SingleSpacedSlice(s, LeadingWhitespace(s), LeadingWhitespace(s) + |Trim(s)|);
  }

  /** `trim` brings in no character. */
  lemma TrimChars(s: string)
    ensures forall x :: x in Trim(s) ==> x in s
  {
    SliceChars(s, LeadingWhitespace(s), LeadingWhitespace(s) + |Trim(s)|);
  }

  lemma TrimOfTrimmed(s: string)
    requires Trimmed(s)
    ensures Trim(s) == s
  {
    if s != [] {
      assert LeadingWhitespace(s) == 0;
    }
  }

  /** Number of occurrences of `c` in `s`. */
  function Count(s: string, c: char): (n: nat)
    ensures n <= |s|
    ensures n == 0 <==> c !in s
  {
    if s == [] then 0 else (if s[0] == c then 1 else 0) + Count(s[1..], c)
  }

  lemma {:induction false} CountAppend(a: string, b: string, c: char)
    ensures Count(a + b, c) == Count(a, c) + Count(b, c)
  {
    if a != [] {
      assert (a + b)[0] == a[0];
      assert (a + b)[1..] == a[1..] + b;
      CountAppend(a[1..], b, c);
    } else {
      assert a + b == b;
    }
  }

  /** `s.indexOf(c)`: the first index of `c`, or -1. */
  function IndexOf(s: string, c: char): (i: int)
    ensures -1 <= i < |s|
    ensures i == -1 <==> c !in s
    ensures i >= 0 ==> s[i] == c && c !in s[..i]
  {
    if s == [] then -1
    else if s[0] == c then 0
    else
      var k := IndexOf(s[1..], c);
      assert k >= 0 ==> s[..k + 1] == [s[0]] + s[1..][..k];
      if k == -1 then -1 else k + 1
  }

  /** `s` with every `c` removed. */
  function Remove(s: string, c: char): (r: string)
    ensures c !in r
    ensures |r| == |s| - Count(s, c)
    ensures forall x :: x in r ==> x in s
  {
    if s == [] then [] else (if s[0] == c then [] else [s[0]]) + Remove(s[1..], c)
  }

  lemma {:induction false} RemoveAppend(a: string, b: string, c: char)
    ensures Remove(a + b, c) == Remove(a, c) + Remove(b, c)
  {
    if a != [] {
      assert (a + b)[0] == a[0];
      assert (a + b)[1..] == a[1..] + b;
      RemoveAppend(a[1..], b, c);
    } else {
      assert a + b == b;
    }
  }

  lemma {:induction false} RemoveAbsent(s: string, c: char)
    requires c !in s
    ensures Remove(s, c) == s
  {
    if s != [] { RemoveAbsent(s[1..], c); }
  }

  lemma {:induction false} CountRemoveOther(s: string, c: char, d: char)
    requires c != d
    ensures Count(Remove(s, c), d) == Count(s, d)
  {
    if s != [] {
      CountRemoveOther(s[1..], c, d);
      CountAppend(if s[0] == c then [] else [s[0]], Remove(s[1..], c), d);
    }
  }

  /** `s.replace(/c/g, rep)` for a single character `c`. */
  function ReplaceChar(s: string, c: char, rep: string): (r: string)
    ensures forall x :: x in r ==> (x in s && x != c) || x in rep
    ensures c !in s ==> r == s
  {
    if s == [] then [] else (if s[0] == c then rep else [s[0]]) + ReplaceChar(s[1..], c, rep)
  }

  lemma {:induction false} ReplaceCharAppend(a: string, b: string, c: char, rep: string)
    ensures ReplaceChar(a + b, c, rep) == ReplaceChar(a, c, rep) + ReplaceChar(b, c, rep)
    decreases |a|
  {
    if a == [] {
      assert a + b == b;
    } else {
      assert (a + b)[1..] == a[1..] + b;
      ReplaceCharAppend(a[1..], b, c, rep);
    }
  }

  /** `s.replace(/pat/g, rep)` for a literal pattern: occurrences are replaced
      left to right and do not overlap. */
  function ReplaceAll(s: string, pat: string, rep: string): (r: string)
    requires pat != []
    ensures forall x :: x in r ==> x in s || x in rep
    ensures pat[0] !in s ==> r == s
    decreases |s|
  {
    if |s| < |pat| then s
    else if s[..|pat|] == pat then rep + ReplaceAll(s[|pat|..], pat, rep)
    else [s[0]] + ReplaceAll(s[1..], pat, rep)
  }

  /** Text before any possible start of the pattern is copied as it is. */
  lemma {:induction false} ReplaceAllPlainPrefix(a: string, t: string, pat: string, rep: string)
    requires pat != [] && pat[0] !in a
    ensures ReplaceAll(a + t, pat, rep) == a + ReplaceAll(t, pat, rep)
    decreases |a|
  {
    if a != [] {
      var s := a + t;
      assert s[0] == a[0];
      if |s| >= |pat| {
        assert s[..|pat|] != pat;
        assert s[1..] == a[1..] + t;
        ReplaceAllPlainPrefix(a[1..], t, pat, rep);
        assert ReplaceAll(s, pat, rep) == [a[0]] + (a[1..] + ReplaceAll(t, pat, rep));
        assert [a[0]] + a[1..] == a;
      } else {
        assert ReplaceAll(t, pat, rep) == t;
      }
    } else {
      assert a + t == t;
    }
  }

  /** An occurrence at the start is replaced. */
  lemma ReplaceAllAtStart(b: string, pat: string, rep: string)
    requires pat != []
    ensures ReplaceAll(pat + b, pat, rep) == rep + ReplaceAll(b, pat, rep)
  {
    var s := pat + b;
    assert s[..|pat|] == pat && s[|pat|..] == b;
  }

  /** A different word of the pattern's length, starting with the pattern's
      first character but never again, is left alone with what follows. */
  lemma ReplaceAllNearMiss(g: string, b: string, pat: string, rep: string)
    requires pat != [] && |g| == |pat| && g != pat && g[0] == pat[0]
    requires pat[0] !in g[1..] && pat[0] !in b
    ensures ReplaceAll(g + b, pat, rep) == g + b
  {
    var s := g + b;
    assert s[..|pat|] == g;
    assert s[1..] == g[1..] + b;
    assert pat[0] !in s[1..];
    assert s == [s[0]] + s[1..];
  }

  /** A text whose only possible start of the pattern is the word `g` of
      the pattern's length: the word is replaced exactly when it is the
      pattern. */
  lemma ReplaceAllOneCandidate(a: string, g: string, b: string, pat: string, rep: string)
    requires pat != [] && |g| == |pat| && g[0] == pat[0]
    requires pat[0] !in a && pat[0] !in g[1..] && pat[0] !in b
    ensures ReplaceAll(a + g + b, pat, rep) == if g == pat then a + rep + b else a + g + b
  {
    ReplaceAllPlainPrefix(a, g + b, pat, rep);
    assert a + g + b == a + (g + b);
    if g == pat {
      ReplaceAllAtStart(b, pat, rep);
      assert a + (rep + b) == a + rep + b;
    } else {
      ReplaceAllNearMiss(g, b, pat, rep);
    }
  }

  /** `s.replace(/[...]/g, '')`: every character of the class `cs` deleted. */
  function DeleteChars(s: string, cs: set<char>): (r: string)
    ensures forall i :: 0 <= i < |r| ==> r[i] !in cs
    ensures forall x :: x in r ==> x in s && x !in cs
    ensures (forall i :: 0 <= i < |s| ==> s[i] !in cs) ==> r == s
  {
    if s == [] then [] else (if s[0] in cs then [] else [s[0]]) + DeleteChars(s[1..], cs)
  }

  lemma {:induction false} DeleteCharsAppend(a: string, b: string, cs: set<char>)
    ensures DeleteChars(a + b, cs) == DeleteChars(a, cs) + DeleteChars(b, cs)
    decreases |a|
  {
    if a == [] {
      assert a + b == b;
    } else {
      assert (a + b)[1..] == a[1..] + b;
      DeleteCharsAppend(a[1..], b, cs);
    }
  }

  /** A deleted character may as well not be there. */
  lemma DeleteCharsDrop(a: string, c: char, b: string, cs: set<char>)
    requires c in cs
    ensures DeleteChars(a + [c] + b, cs) == DeleteChars(a + b, cs)
  {
    var x, y := DeleteChars(a, cs), DeleteChars(b, cs);
    assert [c][1..] == [];
    var z := DeleteChars([c], cs);
    assert z == [];
    DeleteCharsAppend(a, [c], cs);
    assert DeleteChars(a + [c], cs) == x;
    DeleteCharsAppend(a + [c], b, cs);
    DeleteCharsAppend(a, b, cs);
  }

  /** `s.includes(sub)`. */
  predicate Contains(s: string, sub: string)
    decreases |s|
  {
    sub <= s || (s != [] && Contains(s[1..], sub))
  }

  /** `parts.join(sep)`. */
  function Join(parts: seq<string>, sep: string): (r: string)
    ensures parts == [] ==> r == []
    ensures |parts| == 1 ==> r == parts[0]
  {
    if parts == [] then []
    else if |parts| == 1 then parts[0]
    else Join(parts[..|parts| - 1], sep) + sep + parts[|parts| - 1]
  }

  /** Two or more parts join as the first part, the separator and the join
      of the rest: the parts in order, with one separator between each two
      of them. */
  lemma {:induction false} JoinCons(parts: seq<string>, sep: string)
    requires |parts| >= 2
    ensures Join(parts, sep) == parts[0] + sep + Join(parts[1..], sep)
    decreases |parts|
  {
    var init, tail, last := parts[..|parts| - 1], parts[1..], parts[|parts| - 1];
    JoinParts(parts, init, tail);
    if |parts| > 2 {
      JoinCons(init, sep);
      assert Join(tail, sep) == Join(init[1..], sep) + sep + last;
      JoinRegroup(parts[0], sep, Join(init[1..], sep), last);
    }
  }

  /** The last part comes after the join of the others. */
  lemma JoinLast(parts: seq<string>, sep: string)
    requires parts != []
    ensures Join(parts, sep) == if |parts| == 1 then parts[0]
      else Join(parts[..|parts| - 1], sep) + sep + parts[|parts| - 1]
  {
  }

  lemma JoinParts(parts: seq<string>, init: seq<string>, tail: seq<string>)
    requires |parts| >= 2 && init == parts[..|parts| - 1] && tail == parts[1..]
    ensures |init| == |parts| - 1 && init[0] == parts[0]
    ensures tail[..|tail| - 1] == init[1..] && tail[|tail| - 1] == parts[|parts| - 1]
    ensures |parts| == 2 ==> init == [parts[0]] && tail == [parts[|parts| - 1]]
  {
  }

  lemma JoinRegroup(a: string, sep: string, m: string, z: string)
    ensures (a + sep + m) + sep + z == a + sep + (m + sep + z)
  {
  }

  // ---------------------------------------------------------------------
  // Decimal numbers: `String(n)` and `padStart`

  predicate IsDigit(c: char) { '0' <= c <= '9' }

  function DigitChar(d: nat): (c: char)
    requires d < 10
    ensures IsDigit(c)
  {
    ['0', '1', '2', '3', '4', '5', '6', '7', '8', '9'][d]
  }

  function DigitValue(c: char): (d: nat)
    requires IsDigit(c)
    ensures d < 10 && DigitChar(d) == c
  {
    if c == '0' then 0 else if c == '1' then 1 else if c == '2' then 2
    else if c == '3' then 3 else if c == '4' then 4 else if c == '5' then 5
    else if c == '6' then 6 else if c == '7' then 7 else if c == '8' then 8 else 9
  }

  predicate AllDigits(s: string) {
    forall i :: 0 <= i < |s| ==> IsDigit(s[i])
  }

  /** `String(n)` for a non-negative integer: its decimal digits, without
      leading zeros. */
  function NatToString(n: nat): (r: string)
    ensures r != [] && AllDigits(r)
    ensures |r| > 1 ==> r[0] != '0'
    decreases n
  {
    if n < 10 then [DigitChar(n)] else NatToString(n / 10) + [DigitChar(n % 10)]
  }

  /** The number a string of decimal digits denotes (the inverse of NatToString). */
  function DigitsValue(s: string): nat
    requires AllDigits(s)
  {
    if s == [] then 0 else DigitsValue(s[..|s| - 1]) * 10 + DigitValue(s[|s| - 1])
  }

  lemma {:induction false} NatToStringRoundTrip(n: nat)
    ensures DigitsValue(NatToString(n)) == n
    decreases n
  {
    if n >= 10 {
      var r := NatToString(n);
      assert r[..|r| - 1] == NatToString(n / 10);
      NatToStringRoundTrip(n / 10);
    }
  }

  lemma NatToStringInjective(m: nat, n: nat)
    requires NatToString(m) == NatToString(n)
    ensures m == n
  {
    NatToStringRoundTrip(m);
    NatToStringRoundTrip(n);
  }

  function Zeros(k: nat): (r: string)
    ensures |r| == k && AllDigits(r)
  {
    if k == 0 then [] else Zeros(k - 1) + ['0']
  }

  /** `s.padStart(len, '0')`. */
  function PadStart(s: string, len: nat): (r: string)
    ensures |r| == if |s| >= len then |s| else len
    ensures r[|r| - |s|..] == s
    ensures AllDigits(s) ==> AllDigits(r)
  {
    if |s| >= len then s else Zeros(len - |s|) + s
  }

  lemma {:induction false} DigitsValueZeros(k: nat)
    ensures DigitsValue(Zeros(k)) == 0
  {
    if k > 0 {
      assert Zeros(k)[..k - 1] == Zeros(k - 1);
      DigitsValueZeros(k - 1);
    }
  }

  lemma {:induction false} DigitsValueLeadingZeros(k: nat, s: string)
    requires AllDigits(s)
    ensures DigitsValue(Zeros(k) + s) == DigitsValue(s)
    decreases |s|
  {
    if s == [] {
      assert Zeros(k) + s == Zeros(k);
      DigitsValueZeros(k);
    } else {
      var t := Zeros(k) + s;
      var u := s[..|s| - 1];
      assert t[..|t| - 1] == Zeros(k) + u;
      assert t[|t| - 1] == s[|s| - 1];
      DigitsValueLeadingZeros(k, u);
      assert DigitsValue(t) == DigitsValue(Zeros(k) + u) * 10 + DigitValue(s[|s| - 1]);
    }
  }

  /** Zero-padding a decimal string does not change the number it denotes. */
  lemma PadStartValue(n: nat, len: nat)
    ensures AllDigits(PadStart(NatToString(n), len))
    ensures DigitsValue(PadStart(NatToString(n), len)) == n
  {
    var s := NatToString(n);
    NatToStringRoundTrip(n);
    if |s| < len { DigitsValueLeadingZeros(len - |s|, s); }
  }
}
