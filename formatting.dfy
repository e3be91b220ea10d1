/** The number and duration formatters of function/utils.js:
    `toTimeString`, `formatNumber` and `timeAgo`. */
module Formatting {
  import opened Wrappers
  import opened Decimal
  import opened Arith

  // ---------------------------------------------------------------------
  // toTimeString
  // ---------------------------------------------------------------------

  /** `toTimeString(seconds)` for a natural number of seconds. */
  function ToTimeString(seconds: nat): string {
    Clock(seconds / 3600, seconds % 3600 / 60, seconds % 60)
  }

  /** Hours, minutes and seconds, each rendered by `String` and padded to
      two digits, joined by ':'. */
  function Clock(hn: nat, mn: nat, sn: nat): string {
    PadStart(NatToString(hn), 2) + ":" + PadStart(NatToString(mn), 2) + ":" + PadStart(NatToString(sn), 2)
  }

  /** Reads `HH:MM:SS` (at least two hour digits) back as a number of seconds. */
  function ParseTimeString(t: string): Option<nat> {
    if |t| >= 8 && t[|t| - 6] == ':' && t[|t| - 3] == ':'
       && AllDigits(t[..|t| - 6]) && AllDigits(t[|t| - 5..|t| - 3]) && AllDigits(t[|t| - 2..])
    then Some(Value(t[..|t| - 6]) * 3600 + Value(t[|t| - 5..|t| - 3]) * 60 + Value(t[|t| - 2..]))
    else None
  }

  lemma TwoDigits(n: nat)
    requires n < 100
    ensures |NatToString(n)| <= 2
  {
    if n >= 10 {
      assert NatToString(n) == NatToString(n / 10) + [DigitChar(n % 10)];
    }
  }

  /** Where the separators and fields sit in `h:m:s` when m and s have two
      characters. */
  lemma ClockLayout(h: string, m: string, s: string)
    requires |h| >= 2 && |m| == 2 && |s| == 2
    ensures var t := h + ":" + m + ":" + s;
      && |t| >= 8 && t[|t| - 6] == ':' && t[|t| - 3] == ':'
      && t[..|t| - 6] == h && t[|t| - 5..|t| - 3] == m && t[|t| - 2..] == s
  {
  }

  lemma ClockRanges(seconds: nat)
    ensures seconds % 3600 / 60 < 60 && seconds % 60 < 60
  {
  }

  /** Hours, minutes and seconds put back together give the input. */
  lemma ClockArithmetic(seconds: nat)
    ensures (seconds / 3600) * 3600 + (seconds % 3600 / 60) * 60 + seconds % 60 == seconds
  {
    var h, r := seconds / 3600, seconds % 3600;
    var m, sec := r / 60, r % 60;
    assert r == m * 60 + sec;
    assert seconds == (h * 60 + m) * 60 + sec;
    ModUnique(seconds, 60, h * 60 + m, sec);
  }

  /** Division by d leaves the remainder rem whenever x is q * d + rem. */
  lemma ModUnique(x: nat, d: nat, q: nat, rem: nat)
    requires 0 <= rem < d && x == q * d + rem
    ensures x % d == rem
  {
    var q' := x / d;
    MulMonotone(q' + 1, q, d);
    MulMonotone(q + 1, q', d);
  }

  /** t reads as h hours, m minutes and s seconds: at least two hour
      digits, ':', two minute digits, ':', two second digits. */
  predicate ClockReads(t: string, h: nat, m: nat, s: nat) {
    && |t| >= 8 && t[|t| - 6] == ':' && t[|t| - 3] == ':'
    && AllDigits(t[..|t| - 6]) && AllDigits(t[|t| - 5..|t| - 3]) && AllDigits(t[|t| - 2..])
    && Value(t[..|t| - 6]) == h && Value(t[|t| - 5..|t| - 3]) == m && Value(t[|t| - 2..]) == s
  }

  lemma ClockFields(hn: nat, mn: nat, sn: nat)
    requires mn < 60 && sn < 60
    ensures ClockReads(Clock(hn, mn, sn), hn, mn, sn)
  {
    var hd, md, sd := NatToString(hn), NatToString(mn), NatToString(sn);
    TwoDigits(mn);
    TwoDigits(sn);
    PadStartValue(hd, 2);
    PadStartValue(md, 2);
    PadStartValue(sd, 2);
    ClockLayout(PadStart(hd, 2), PadStart(md, 2), PadStart(sd, 2));
  }

  /** The output reads as the hours (two digits or more), the minutes and
      the seconds (exactly two digits each, below 60) of the input. */
  lemma ToTimeStringFields(seconds: nat)
    ensures seconds % 3600 / 60 < 60 && seconds % 60 < 60
    ensures ClockReads(ToTimeString(seconds), seconds / 3600, seconds % 3600 / 60, seconds % 60)
  {
    ClockRanges(seconds);
    ClockFields(seconds / 3600, seconds % 3600 / 60, seconds % 60);
  }

  lemma ParseClock(t: string, h: nat, m: nat, s: nat)
    ensures ClockReads(t, h, m, s) ==> ParseTimeString(t) == Some(h * 3600 + m * 60 + s)
  {
  }

  /** Any text that reads as the hours, minutes and seconds of `seconds`
      parses back to `seconds`. */
  lemma ParseClockOf(t: string, seconds: nat)
    requires ClockReads(t, seconds / 3600, seconds % 3600 / 60, seconds % 60)
    ensures ParseTimeString(t) == Some(seconds)
  {
    ParseClock(t, seconds / 3600, seconds % 3600 / 60, seconds % 60);
    ClockArithmetic(seconds);
  }

  /** Reading the output back gives the input: no information is lost. */
  lemma ToTimeStringRoundTrip(seconds: nat)
    ensures ParseTimeString(ToTimeString(seconds)) == Some(seconds)
  {
    ToTimeStringFields(seconds);
    ParseClockOf(ToTimeString(seconds), seconds);
  }

  lemma ToTimeStringExample()
    ensures ToTimeString(3661) == "01:01:01"
  {
    assert 3661 / 3600 == 1 && 3661 % 3600 / 60 == 1 && 3661 % 60 == 1;
    assert NatToString(1) == "1";
    assert Zeros(1) == "0";
    assert PadStart("1", 2) == "01";
    assert Clock(1, 1, 1) == "01" + ":" + "01" + ":" + "01";
  }

  // ---------------------------------------------------------------------
  // formatNumber: a '.' at every non-boundary followed by whole groups
  // of three digits
  // ---------------------------------------------------------------------

  /** `\w` of a JavaScript regular expression. */
  predicate IsWordChar(c: char) {
    'a' <= c <= 'z' || 'A' <= c <= 'Z' || IsDigit(c) || c == '_'
  }

  /** `\B` at position p (between s[p-1] and s[p]): the characters on both
      sides are both word characters or both not (the string's ends count
      as non-word). */
  predicate NotWordBoundary(s: string, p: nat)
    requires p <= |s|
  {
    (0 < p && IsWordChar(s[p - 1])) == (p < |s| && IsWordChar(s[p]))
  }

  /** `(?=(\d{3})+(?!\d))` at position p: one or more groups of three
      digits follow, and no further digit after them (some number of
      groups works, which is what backtracking finds). */
  predicate DigitTriplesAhead(s: string, p: nat)
    requires p <= |s|
    decreases |s| - p
  {
    && p + 3 <= |s| && AllDigits(s[p..p + 3])
    && (p + 3 == |s| || !IsDigit(s[p + 3]) || DigitTriplesAhead(s, p + 3))
  }

  /** The whole pattern matches (with an empty match) at position p. */
  predicate SeparatorAt(s: string, p: nat)
    requires p <= |s|
  {
    NotWordBoundary(s, p) && DigitTriplesAhead(s, p)
  }

  /** Where the pattern matches in s: `Marks(s)[p]` says whether a '.'
      goes in front of `s[p]`. It never matches at the very end (no digit
      follows), so one mark per character is all there is. */
  function Marks(s: string): (m: seq<bool>)
    ensures |m| == |s|
  {
    seq(|s|, p requires 0 <= p < |s| => SeparatorAt(s, p))
  }

  /** The first n characters of s, each preceded by a '.' where its mark
      is set. */
  function Interleave(s: string, m: seq<bool>, n: nat): string
    requires |m| == |s| && n <= |s|
  {
    if n == 0 then "" else Interleave(s, m, n - 1) + (if m[n - 1] then "." else "") + [s[n - 1]]
  }

  /** The global replace. */
  function InsertSeparators(s: string): string {
    Interleave(s, Marks(s), |s|)
  }

  /** `formatNumber(n)` for a natural number n up to 2^53, the range where
      `String(n)` gives the exact decimal digits. */
  function FormatNumber(n: nat): string {
    InsertSeparators(NatToString(n))
  }

  /** On a string of digits the pattern matches exactly at the inner
      positions whose distance to the end is a multiple of three. */
  lemma {:induction false} SeparatorAtDigits(ds: string, p: nat)
    requires AllDigits(ds) && p <= |ds|
    ensures SeparatorAt(ds, p) <==> 0 < p < |ds| && (|ds| - p) % 3 == 0
  {
    TriplesAheadDigits(ds, p);
  }

  lemma {:induction false} TriplesAheadDigits(ds: string, p: nat)
    requires AllDigits(ds) && p <= |ds|
    ensures DigitTriplesAhead(ds, p) <==> p < |ds| && (|ds| - p) % 3 == 0
    decreases |ds| - p
  {
    if p + 3 <= |ds| {
      assert AllDigits(ds[p..p + 3]);
      if p + 3 < |ds| {
        TriplesAheadDigits(ds, p + 3);
      }
    }
  }

  /** The marks of a digit string of the given length: every inner position
      whose distance to the end is a multiple of three. */
  function DigitMarks(len: nat): (m: seq<bool>)
    ensures |m| == len
  {
    seq(len, p requires 0 <= p < len => 0 < p && (len - p) % 3 == 0)
  }

  lemma MarksOfDigits(ds: string)
    requires AllDigits(ds)
    ensures Marks(ds) == DigitMarks(|ds|)
  {
    forall p | 0 <= p < |ds| ensures Marks(ds)[p] == DigitMarks(|ds|)[p] {
      SeparatorAtDigits(ds, p);
    }
  }

  /** Interleave only looks at the first n characters and marks. */
  lemma {:induction false} InterleaveAgrees(s1: string, m1: seq<bool>, s2: string, m2: seq<bool>, n: nat)
    requires |m1| == |s1| && |m2| == |s2| && n <= |s1| && n <= |s2|
    requires forall p :: 0 <= p < n ==> s1[p] == s2[p] && m1[p] == m2[p]
    ensures Interleave(s1, m1, n) == Interleave(s2, m2, n)
  {
    if n > 0 {
      InterleaveAgrees(s1, m1, s2, m2, n - 1);
    }
  }

  /** Without marks, Interleave copies its input. */
  lemma {:induction false} InterleaveUnmarked(s: string, m: seq<bool>, n: nat)
    requires |m| == |s| && n <= |s|
    requires forall p :: 0 <= p < n ==> !m[p]
    ensures Interleave(s, m, n) == s[..n]
  {
    if n > 0 {
      InterleaveUnmarked(s, m, n - 1);
      assert s[..n] == s[..n - 1] + [s[n - 1]];
    }
  }

  /** The string with every '.' deleted, written from the back. */
  function WithoutDots(r: string): string {
    if |r| == 0 then ""
    else WithoutDots(r[..|r| - 1]) + (if r[|r| - 1] == '.' then "" else [r[|r| - 1]])
  }

  lemma {:induction false} WithoutDotsAppend(a: string, b: string)
    ensures WithoutDots(a + b) == WithoutDots(a) + WithoutDots(b)
    decreases |b|
  {
    if |b| == 0 {
      assert a + b == a;
    } else {
      var ab := a + b;
      assert ab[..|ab| - 1] == a + b[..|b| - 1];
      assert ab[|ab| - 1] == b[|b| - 1];
      WithoutDotsAppend(a, b[..|b| - 1]);
    }
  }

  lemma {:induction false} WithoutDotsOfDigits(ds: string)
    requires AllDigits(ds)
    ensures WithoutDots(ds) == ds
  {
    if |ds| > 0 {
      WithoutDotsOfDigits(ds[..|ds| - 1]);
      assert ds == ds[..|ds| - 1] + [ds[|ds| - 1]];
    }
  }

  lemma {:induction false} InterleaveDropsOnlyDots(ds: string, m: seq<bool>, n: nat)
    requires AllDigits(ds) && |m| == |ds| && n <= |ds|
    ensures WithoutDots(Interleave(ds, m, n)) == ds[..n]
  {
    if n > 0 {
      InterleaveDropsOnlyDots(ds, m, n - 1);
      var prev := Interleave(ds, m, n - 1);
      var front := prev + (if m[n - 1] then "." else "");
      var r := front + [ds[n - 1]];
      assert r[..|r| - 1] == front;
      if m[n - 1] {
        assert front[..|front| - 1] == prev;
      } else {
        assert front == prev;
      }
      assert ds[..n] == ds[..n - 1] + [ds[n - 1]];
    }
  }

  /** Removing the separators gives back the decimal digits of n. */
  lemma FormatNumberDigits(n: nat)
    ensures WithoutDots(FormatNumber(n)) == NatToString(n)
  {
    var ds := NatToString(n);
    InterleaveDropsOnlyDots(ds, Marks(ds), |ds|);
    assert ds[..|ds|] == ds;
  }

  /** One, two or three digits get no separator. */
  lemma InsertSeparatorsShort(ds: string)
    requires AllDigits(ds) && 1 <= |ds| <= 3
    ensures InsertSeparators(ds) == ds
  {
    MarksOfDigits(ds);
    InterleaveUnmarked(ds, DigitMarks(|ds|), |ds|);
    assert ds[..|ds|] == ds;
  }

  /** Where only the third-last of n characters is marked, the last three
      come out as one group behind a single '.'. */
  lemma LastGroupSeparated(s: string, m: seq<bool>, n: nat)
    requires |m| == |s| && 3 <= n <= |s|
    requires m[n - 3] && !m[n - 2] && !m[n - 1]
    ensures Interleave(s, m, n) == Interleave(s, m, n - 3) + "." + s[n - 3..n]
  {
    var head := Interleave(s, m, n - 3);
    var a, b, c := s[n - 3], s[n - 2], s[n - 1];
    assert Interleave(s, m, n - 2) == head + "." + [a];
    assert Interleave(s, m, n - 1) == head + "." + [a] + [b];
    assert Interleave(s, m, n) == head + "." + [a] + [b] + [c];
    assert s[n - 3..n] == [a] + [b] + [c];
  }

  /** For at least four digits, the last three form the last group. */
  lemma SeparateSplitsLastGroup(ds: string)
    requires AllDigits(ds) && |ds| >= 4
    ensures InsertSeparators(ds) == InsertSeparators(ds[..|ds| - 3]) + "." + ds[|ds| - 3..]
  {
    var front := ds[..|ds| - 3];
    assert AllDigits(front);
    MarksOfDigits(ds);
    MarksOfDigits(front);
    LastGroupSeparated(ds, DigitMarks(|ds|), |ds|);
    assert ds[|ds| - 3..|ds|] == ds[|ds| - 3..];
    InterleaveAgrees(ds, DigitMarks(|ds|), front, DigitMarks(|front|), |front|);
  }

  /** Groups of digits separated by '.': the first of 1 to 3 digits, every
      later one of exactly 3 (read from the right). */
  predicate WellGrouped(r: string)
    decreases |r|
  {
    if |r| <= 3 then 1 <= |r| && AllDigits(r)
    else |r| >= 5 && r[|r| - 4] == '.' && AllDigits(r[|r| - 3..]) && WellGrouped(r[..|r| - 4])
  }

  /** Every digit string of length one or more comes out correctly grouped. */
  lemma {:induction false} InsertSeparatorsGroups(ds: string)
    requires AllDigits(ds) && |ds| >= 1
    ensures WellGrouped(InsertSeparators(ds))
    decreases |ds|
  {
    if |ds| <= 3 {
      InsertSeparatorsShort(ds);
    } else {
      var front := ds[..|ds| - 3];
      assert AllDigits(front);
      SeparateSplitsLastGroup(ds);
      InsertSeparatorsGroups(front);
      var r := InsertSeparators(ds);
      assert r[..|r| - 4] == InsertSeparators(front);
    }
  }

  /** The output of `formatNumber` is correctly grouped. */
  lemma FormatNumberGroups(n: nat)
    ensures WellGrouped(FormatNumber(n))
  {
    InsertSeparatorsGroups(NatToString(n));
  }

  lemma {:induction false} WellGroupedDigits(r: string)
    requires WellGrouped(r)
    ensures AllDigits(WithoutDots(r)) && |WithoutDots(r)| >= 1
    decreases |r|
  {
    if |r| <= 3 {
      WithoutDotsOfDigits(r);
    } else {
      var front, tail := r[..|r| - 4], r[|r| - 3..];
      WellGroupedDigits(front);
      assert r == front + "." + tail;
      WithoutDotsAppend(front + ".", tail);
      WithoutDotsAppend(front, ".");
      WithoutDotsOfDigits(tail);
      assert WithoutDots(".") == "" by {
        assert "."[..0] == "";
      }
    }
  }

  /** Grouping determines the output: a well-grouped string whose digits
      are `ds` is exactly what the replace produces from `ds`. */
  lemma {:induction false} WellGroupedIsInsertSeparators(r: string)
    requires WellGrouped(r)
    ensures AllDigits(WithoutDots(r)) && r == InsertSeparators(WithoutDots(r))
    decreases |r|
  {
    WellGroupedDigits(r);
    if |r| <= 3 {
      WithoutDotsOfDigits(r);
      InsertSeparatorsShort(r);
    } else {
      var front, tail := r[..|r| - 4], r[|r| - 3..];
      WellGroupedIsInsertSeparators(front);
      WellGroupedDigits(front);
      assert r == front + "." + tail;
      WithoutDotsAppend(front + ".", tail);
      WithoutDotsAppend(front, ".");
      WithoutDotsOfDigits(tail);
      assert WithoutDots(".") == "" by {
        assert "."[..0] == "";
      }
      var ds := WithoutDots(r);
      assert ds == WithoutDots(front) + tail;
      assert ds[..|ds| - 3] == WithoutDots(front);
      assert ds[|ds| - 3..] == tail;
      SeparateSplitsLastGroup(ds);
    }
  }

  lemma DigitsOf1234567()
    ensures NatToString(1234567) == "1234567"
  {
    assert NatToString(1) == "1";
    assert NatToString(12) == NatToString(1) + "2";
    assert NatToString(123) == NatToString(12) + "3";
    assert NatToString(1234) == NatToString(123) + "4";
    assert NatToString(12345) == NatToString(1234) + "5";
    assert NatToString(123456) == NatToString(12345) + "6";
    assert NatToString(1234567) == NatToString(123456) + "7";
  }

  lemma SeparatorsOfExample()
    ensures WithoutDots("1.234.567") == "1234567"
  {
    var r := "1.234.567";
    assert WithoutDots(r[..1]) == "1";
    assert r[..2][..1] == r[..1];
    assert WithoutDots(r[..2]) == "1";
    assert r[..3][..2] == r[..2];
    assert WithoutDots(r[..3]) == "12";
    assert r[..4][..3] == r[..3];
    assert WithoutDots(r[..4]) == "123";
    assert r[..5][..4] == r[..4];
    assert WithoutDots(r[..5]) == "1234";
    assert r[..6][..5] == r[..5];
    assert WithoutDots(r[..6]) == "1234";
    assert r[..7][..6] == r[..6];
    assert WithoutDots(r[..7]) == "12345";
    assert r[..8][..7] == r[..7];
    assert WithoutDots(r[..8]) == "123456";
    assert r[..9][..8] == r[..8];
    assert WithoutDots(r[..9]) == "1234567";
    assert r[..9] == r;
  }

  lemma GroupingOfExample()
    ensures WellGrouped("1.234.567")
  {
    var r := "1.234.567";
    assert r[..|r| - 4] == "1.234";
    assert "1.234"[..1] == "1";
    assert WellGrouped("1");
    assert WellGrouped("1.234");
  }

  lemma FormatNumberExample()
    ensures FormatNumber(1234567) == "1.234.567"
  {
    DigitsOf1234567();
    GroupingOfExample();
    SeparatorsOfExample();
    WellGroupedIsInsertSeparators("1.234.567");
  }

  // ---------------------------------------------------------------------
  // timeAgo, as a function of the elapsed whole seconds
  // ---------------------------------------------------------------------

  /** The unit table of `timeAgo`, largest first: label and length in seconds
      (a year is 365 days, a month 30 days). */
  const Intervals: seq<(string, nat)> := [
    ("tahun", 31536000),
    ("bulan", 2592000),
    ("hari", 86400),
    ("jam", 3600),
    ("menit", 60)
  ]

  predicate PositiveLengths(table: seq<(string, nat)>) {
    forall i :: 0 <= i < |table| ==> table[i].1 > 0
  }

  /** The first unit of the table whose count `Math.floor(seconds / sec)` is
      positive, with that count. */
  function FirstUnit(seconds: int, table: seq<(string, nat)>): Option<(string, nat)>
    requires PositiveLengths(table)
  {
    if |table| == 0 then None
    else if seconds / table[0].1 > 0 then Some((table[0].0, seconds / table[0].1))
    else FirstUnit(seconds, table[1..])
  }

  /** `timeAgo` for `seconds` elapsed (negative for a date in the future). */
  function TimeAgo(seconds: int): string {
    match FirstUnit(seconds, Intervals)
    case Some(unit) => Ago(unit.1, unit.0)
    case None => "baru saja"
  }

  /** `${val} ${label} lalu` ("ago"). */
  function Ago(count: nat, unitName: string): string {
    NatToString(count) + " " + unitName + " lalu"
  }

  /** Walking the table stops at the first (largest) unit that fits. */
  lemma FirstUnitOfIntervals(seconds: int)
    ensures FirstUnit(seconds, Intervals) ==
      if seconds >= 31536000 then Some(("tahun", seconds / 31536000))
      else if seconds >= 2592000 then Some(("bulan", seconds / 2592000))
      else if seconds >= 86400 then Some(("hari", seconds / 86400))
      else if seconds >= 3600 then Some(("jam", seconds / 3600))
      else if seconds >= 60 then Some(("menit", seconds / 60))
      else None
  {
    var t0: seq<(string, nat)> := Intervals;
    var t1, t2, t3, t4 := t0[1..], t0[2..], t0[3..], t0[4..];
    assert t1[1..] == t2 && t2[1..] == t3 && t3[1..] == t4 && t4[1..] == [];
    assert FirstUnit(seconds, t4) == if seconds >= 60 then Some(("menit", seconds / 60)) else None;
    assert FirstUnit(seconds, t3) == if seconds >= 3600 then Some(("jam", seconds / 3600)) else FirstUnit(seconds, t4);
    assert FirstUnit(seconds, t2) == if seconds >= 86400 then Some(("hari", seconds / 86400)) else FirstUnit(seconds, t3);
    assert FirstUnit(seconds, t1) == if seconds >= 2592000 then Some(("bulan", seconds / 2592000)) else FirstUnit(seconds, t2);
    assert FirstUnit(seconds, t0) == if seconds >= 31536000 then Some(("tahun", seconds / 31536000)) else FirstUnit(seconds, t1);
  }

  /** The label is that of the largest unit that fits at least once into the
      elapsed time, counted in whole units; under a minute it is "baru saja". */
  lemma TimeAgoLabels(seconds: int)
    ensures seconds < 60 ==> TimeAgo(seconds) == "baru saja"
    ensures 60 <= seconds < 3600 ==> TimeAgo(seconds) == Ago(seconds / 60, "menit")
    ensures 3600 <= seconds < 86400 ==> TimeAgo(seconds) == Ago(seconds / 3600, "jam")
    ensures 86400 <= seconds < 2592000 ==> TimeAgo(seconds) == Ago(seconds / 86400, "hari")
    ensures 2592000 <= seconds < 31536000 ==>
      TimeAgo(seconds) == Ago(seconds / 2592000, "bulan") && seconds / 2592000 <= 12
    ensures 31536000 <= seconds ==> TimeAgo(seconds) == Ago(seconds / 31536000, "tahun")
  {
    FirstUnitOfIntervals(seconds);
  }
}
