/** The subtitle export of the editor: `formatSrtTime` renders a time as
    `HH:MM:SS,mmm` and `toSrt` numbers and joins the subtitle blocks.
    Times are whole milliseconds, the value `Math.floor(seconds * 1000)`
    the code starts from. */
module Subtitles {
  import opened Wrappers
  import opened JsText

  /** `pad(n, len)`: `String(n).padStart(len, '0')`. */
  function Pad(n: nat, len: nat): string
  {
    PadStart(NatToString(n), len)
  }

  /** A time split into hours, minutes, seconds and milliseconds. */
  datatype Clock = Clock(hours: nat, minutes: nat, seconds: nat, millis: nat)

  /** The fields `formatSrtTime` computes with `Math.floor` and `%`. */
  function ClockOf(ms: nat): (c: Clock)
    ensures c.minutes < 60 && c.seconds < 60 && c.millis < 1000
    ensures c.hours * 3600000 + c.minutes * 60000 + c.seconds * 1000 + c.millis == ms
  {
    var c := Clock(ms / 3600000, (ms % 3600000) / 60000, (ms % 60000) / 1000, ms % 1000);
    ClockArith(ms);
    c
  }

  lemma ClockArith(ms: nat)
    ensures (ms % 3600000) / 60000 < 60 && (ms % 60000) / 1000 < 60
    ensures (ms / 3600000) * 3600000 + ((ms % 3600000) / 60000) * 60000 +
      ((ms % 60000) / 1000) * 1000 + ms % 1000 == ms
  {
    var h, r1 := ms / 3600000, ms % 3600000;
    assert ms == h * 3600000 + r1;
    var m, r2 := r1 / 60000, r1 % 60000;
    assert r1 == m * 60000 + r2;
    Mod60000(ms, h * 60 + m, r2);
    var s, r3 := r2 / 1000, r2 % 1000;
    assert r2 == s * 1000 + r3;
    Mod1000(ms, (h * 60 + m) * 60 + s, r3);
  }

  /** The remainder of `q * 60000 + r` by 60000, for `r` below it. */
  lemma Mod60000(x: nat, q: nat, r: nat)
    requires x == q * 60000 + r && r < 60000
    ensures x % 60000 == r
  {
    var k := x / 60000;
    assert q * 60000 <= x < q * 60000 + 60000;
    assert k * 60000 <= x < k * 60000 + 60000;
    assert q == k;
  }

  /** The remainder of `q * 1000 + r` by 1000, for `r` below it. */
  lemma Mod1000(x: nat, q: nat, r: nat)
    requires x == q * 1000 + r && r < 1000
    ensures x % 1000 == r
  {
    var k := x / 1000;
    assert q * 1000 <= x < q * 1000 + 1000;
    assert k * 1000 <= x < k * 1000 + 1000;
    assert q == k;
  }

  /** `formatSrtTime`. */
  function FormatSrtTime(ms: nat): string
  {
    var c := ClockOf(ms);
    Pad(c.hours, 2) + ":" + Pad(c.minutes, 2) + ":" + Pad(c.seconds, 2) + "," + Pad(c.millis, 3)
  }

  /** The shape of a rendered time: digits, then `:MM:SS,mmm`. */
  predicate IsSrtTime(t: string) {
    |t| >= 12 && AllDigits(t[..|t| - 10]) && t[|t| - 10] == ':' &&
    AllDigits(t[|t| - 9..|t| - 7]) && t[|t| - 7] == ':' &&
    AllDigits(t[|t| - 6..|t| - 4]) && t[|t| - 4] == ',' &&
    AllDigits(t[|t| - 3..])
  }

  /** The fields a rendered time shows. */
  function SrtClock(t: string): Clock
    requires IsSrtTime(t)
  {
    Clock(DigitsValue(t[..|t| - 10]), DigitsValue(t[|t| - 9..|t| - 7]),
      DigitsValue(t[|t| - 6..|t| - 4]), DigitsValue(t[|t| - 3..]))
  }

  /** The time, in milliseconds, that the fields denote. */
  function ClockValue(c: Clock): nat
  {
    c.hours * 3600000 + c.minutes * 60000 + c.seconds * 1000 + c.millis
  }

  /** A number below `10^len` is at most `len` digits long. */
  lemma {:induction false} NatToStringLength(n: nat, len: nat, bound: nat)
    requires 1 <= len && bound == Pow10(len) && n < bound
    ensures |NatToString(n)| <= len
    decreases len
  {
    assert Pow10(1) == 10;
    if n >= 10 {
      assert n / 10 < Pow10(len - 1);
      NatToStringLength(n / 10, len - 1, Pow10(len - 1));
    }
  }

  function Pow10(k: nat): (p: nat)
    ensures p >= 1
  {
    if k == 0 then 1 else 10 * Pow10(k - 1)
  }

  /** A padded field below `10^len` is exactly `len` digits long. */
  lemma PadLength(n: nat, len: nat)
    requires 1 <= len && n < Pow10(len)
    ensures |Pad(n, len)| == len && AllDigits(Pad(n, len)) && DigitsValue(Pad(n, len)) == n
  {
    NatToStringLength(n, len, Pow10(len));
    PadStartValue(n, len);
  }

  /** The fields of a rendered time sit at fixed offsets from its end. */
  lemma SrtSlices(hh: string, mm: string, ss: string, mmm: string)
    requires |mm| == 2 && |ss| == 2 && |mmm| == 3
    ensures var t := hh + ":" + mm + ":" + ss + "," + mmm;
      var n := |t|;
      n == |hh| + 10 &&
      t[..n - 10] == hh && t[n - 10] == ':' && t[n - 9..n - 7] == mm && t[n - 7] == ':' &&
      t[n - 6..n - 4] == ss && t[n - 4] == ',' && t[n - 3..] == mmm
  {
    var rest := ":" + mm + ":" + ss + "," + mmm;
    assert rest[1..3] == mm && rest[4..6] == ss && rest[7..] == mmm;
    var t := hh + rest;
    assert t == hh + ":" + mm + ":" + ss + "," + mmm;
    var n := |t|;
    assert t[..n - 10] == hh && t[n - 10..] == rest;
    assert t[n - 9..n - 7] == rest[1..3];
    assert t[n - 6..n - 4] == rest[4..6];
    assert t[n - 3..] == rest[7..];
  }

  lemma SrtFields(hh: string, mm: string, ss: string, mmm: string)
    requires |hh| >= 2 && |mm| == 2 && |ss| == 2 && |mmm| == 3
    requires AllDigits(hh) && AllDigits(mm) && AllDigits(ss) && AllDigits(mmm)
    ensures var t := hh + ":" + mm + ":" + ss + "," + mmm;
      IsSrtTime(t) && |t| == |hh| + 10 &&
      SrtClock(t) == Clock(DigitsValue(hh), DigitsValue(mm), DigitsValue(ss), DigitsValue(mmm))
  {
    SrtSlices(hh, mm, ss, mmm);
  }

  /** At most two digits denote a number below 100. */
  lemma DigitsBelow(s: string)
    requires AllDigits(s) && |s| <= 2
    ensures DigitsValue(s) < 100
  {
    if |s| == 2 {
      assert s[..1][..0] == [];
    }
  }

  /** The hours take exactly two digits below 100 hours. */
  lemma HoursWidth(h: nat)
    ensures |Pad(h, 2)| >= 2 && AllDigits(Pad(h, 2)) && DigitsValue(Pad(h, 2)) == h
    ensures |Pad(h, 2)| == 2 <==> h < 100
  {
    PadStartValue(h, 2);
    assert Pow10(2) == 100;
    if h < 100 {
      PadLength(h, 2);
    } else if |NatToString(h)| <= 2 {
      NatToStringRoundTrip(h);
      DigitsBelow(NatToString(h));
    }
  }

  /** Reading a rendered time back gives its fields, and so the time; the
      hours take two digits below 100 hours and more from then on. */
  lemma FormatSrtTimeRoundTrip(ms: nat)
    ensures var t := FormatSrtTime(ms);
      IsSrtTime(t) && SrtClock(t) == ClockOf(ms) && ClockValue(SrtClock(t)) == ms &&
      (|t| == 12 <==> ms < 360000000)
  {
    var c := ClockOf(ms);
    HoursWidth(c.hours);
    assert Pow10(2) == 100 && Pow10(3) == 1000;
    PadLength(c.minutes, 2);
    PadLength(c.seconds, 2);
    PadLength(c.millis, 3);
    SrtFields(Pad(c.hours, 2), Pad(c.minutes, 2), Pad(c.seconds, 2), Pad(c.millis, 3));
    assert c.hours < 100 <==> ms < 360000000;
  }

  // ---------------------------------------------------------------------
  // toSrt

  /** One subtitle as the export receives it; times are in milliseconds,
      and each field may be absent. */
  datatype Subtitle = Subtitle(
    start: Option<nat>, startTime: Option<nat>,
    end: Option<nat>, endTime: Option<nat>,
    text: Option<string>, content: Option<string>)

  /** `a || b` on times: zero and absent are both falsy. */
  function OrTime(a: Option<nat>, b: Option<nat>): (r: Option<nat>)
    ensures r == if a.Some? && a.value != 0 then a else b
  {
    if a.Some? && a.value != 0 then a else b
  }

  /** `item.text || item.content || ''`. */
  function SubtitleText(item: Subtitle): (r: string)
    ensures item.text.Some? && item.text.value != [] ==> r == item.text.value
    ensures (item.text.None? || item.text.value == []) ==>
      r == if item.content.Some? then item.content.value else []
  {
    if item.text.Some? && item.text.value != [] then item.text.value
    else if item.content.Some? && item.content.value != [] then item.content.value
    else []
  }

  /** `formatSrtTime` of a time, or of `undefined`, where every field is
      `NaN`. */
  function TimeText(t: Option<nat>): string
  {
    match t
    case Some(ms) => FormatSrtTime(ms)
    case None => "NaN:NaN:NaN,NaN"
  }

  /** A block: its number, the two times and the text, one per line. */
  function BlockOf(num: string, start: string, end: string, text: string): string
  {
    num + "\n" + start + " --> " + end + "\n" + text + "\n"
  }

  /** The block of the subtitle at index `idx`. */
  function Block(item: Subtitle, idx: nat): string
  {
    BlockOf(NatToString(idx + 1),
      TimeText(OrTime(item.start, item.startTime)), TimeText(OrTime(item.end, item.endTime)),
      SubtitleText(item))
  }

  /** The blocks in order, each opening with its 1-based number on a line
      of its own and closing with a line break. */
  function Blocks(items: seq<Subtitle>): (r: seq<string>)
    ensures |r| == |items|
    ensures forall i :: 0 <= i < |items| ==> r[i] == Block(items[i], i)
    ensures forall i :: 0 <= i < |items| ==>
      NatToString(i + 1) + "\n" <= r[i] && DigitsValue(NatToString(i + 1)) == i + 1 &&
      r[i][|r[i]| - 1] == '\n'
  {
    var r := seq(|items|, i requires 0 <= i < |items| => Block(items[i], i));
    BlocksNumbered(items, r);
    r
  }

  lemma BlocksNumbered(items: seq<Subtitle>, r: seq<string>)
    requires |r| == |items| && forall i :: 0 <= i < |items| ==> r[i] == Block(items[i], i)
    ensures forall i :: 0 <= i < |items| ==>
      NatToString(i + 1) + "\n" <= r[i] && DigitsValue(NatToString(i + 1)) == i + 1 &&
      r[i][|r[i]| - 1] == '\n'
  {
    forall i | 0 <= i < |items| ensures NatToString(i + 1) + "\n" <= r[i] &&
      DigitsValue(NatToString(i + 1)) == i + 1 && r[i][|r[i]| - 1] == '\n' {
      BlockNumber(items[i], i);
    }
  }

  /** `toSrt(subtitles)`. */
  function ToSrt(items: seq<Subtitle>): string
  {
    Join(Blocks(items), "\n")
  }

  /** No subtitles give the empty file. */
  lemma ToSrtEmpty()
    ensures ToSrt([]) == []
  {
  }

  /** Appending a subtitle appends its block, numbered after the others,
      behind a blank line. */
  lemma ToSrtSnoc(items: seq<Subtitle>, x: Subtitle)
    ensures ToSrt(items + [x]) ==
      if items == [] then Block(x, 0) else ToSrt(items) + "\n" + Block(x, |items|)
  {
    var bs := Blocks(items + [x]);
    assert bs[..|items|] == Blocks(items);
    assert bs[|items|] == Block(x, |items|);
    JoinLast(bs, "\n");
  }

  /** A block starts with its 1-based number on a line of its own and ends
      with a line break. */
  lemma BlockNumber(item: Subtitle, idx: nat)
    ensures var b := Block(item, idx);
      var num := NatToString(idx + 1);
      num + "\n" <= b && DigitsValue(num) == idx + 1 && b[|b| - 1] == '\n'
  {
    NatToStringRoundTrip(idx + 1);
    BlockOfShape(NatToString(idx + 1),
      TimeText(OrTime(item.start, item.startTime)), TimeText(OrTime(item.end, item.endTime)),
      SubtitleText(item));
  }

  /** A block's lines: the number, then `start --> end`, then the text,
      each ended by a line break. */
  lemma BlockOfShape(num: string, start: string, end: string, text: string)
    ensures var b := BlockOf(num, start, end, text);
      var times := start + " --> " + end;
      num + "\n" <= b && b[|b| - 1] == '\n' &&
      b[|num| + 1..][..|start| + 5] == start + " --> " &&
      b[|num| + 1..][..|times| + 1] == times + "\n" &&
      b[|num| + 1 + |times| + 1..] == text + "\n"
  {
    var b := BlockOf(num, start, end, text);
    var times := start + " --> " + end;
    assert b == (num + "\n") + ((times + "\n") + (text + "\n"));
    assert b[|num| + 1..] == (times + "\n") + (text + "\n");
    assert b[|num| + 1..][|times| + 1..] == text + "\n";
    assert times[..|start| + 5] == start + " --> ";
  }

  /** `0` is falsy: a subtitle that starts at time zero takes `startTime`,
      and with no `startTime` its start prints as `NaN:NaN:NaN,NaN`. */
  lemma ZeroStartFallsBack(item: Subtitle, idx: nat)
    requires item.start == Some(0) || item.start.None?
    ensures var b := Block(item, idx);
      var num := NatToString(idx + 1);
      var start := TimeText(item.startTime);
      b[|num| + 1..][..|start| + 5] == start + " --> " &&
      (item.startTime.None? ==> start == "NaN:NaN:NaN,NaN")
  {
    var num := NatToString(idx + 1);
    var start := TimeText(item.startTime);
    var end := TimeText(OrTime(item.end, item.endTime));
    assert OrTime(item.start, item.startTime) == item.startTime;
    assert Block(item, idx) == BlockOf(num, start, end, SubtitleText(item));
    BlockOfShape(num, start, end, SubtitleText(item));
  }

  /** A subtitle with neither a non-empty `text` nor a non-empty `content`
      has an empty text line. */
  lemma EmptyTextLine(item: Subtitle, idx: nat)
    requires item.text.None? || item.text.value == []
    requires item.content.None? || item.content.value == []
    ensures var b := Block(item, idx);
      |b| >= 2 && b[|b| - 2..] == "\n\n"
  {
    var num := NatToString(idx + 1);
    var start := TimeText(OrTime(item.start, item.startTime));
    var end := TimeText(OrTime(item.end, item.endTime));
    assert SubtitleText(item) == [];
    var b := Block(item, idx);
    assert b == num + "\n" + start + " --> " + end + "\n" + "\n";
  }
}
