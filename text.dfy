/** The text scanners of function/utils.js: `parseMentions` and `isEmail`
    (with the `trim` it applies first). */
module Text {
  import opened Decimal

  // ---------------------------------------------------------------------
  // parseMentions: every '@' followed by 5 to 16 digits, as a WhatsApp JID
  // ---------------------------------------------------------------------

  const JidSuffix: string := "@s.whatsapp.net"

  /** How many digits `\d{0,cap}` takes greedily at the start of t. */
  function LeadingDigits(t: string, cap: nat): (n: nat)
    ensures n <= cap && n <= |t| && AllDigits(t[..n])
    ensures n < cap && n < |t| ==> !IsDigit(t[n])
  {
    if cap == 0 || |t| == 0 || !IsDigit(t[0]) then 0
    else
      var rest := LeadingDigits(t[1..], cap - 1);
      assert t[..1 + rest] == [t[0]] + t[1..][..rest];
      1 + rest
  }

  /** A mention as `parseMentions` reports it: 5 to 16 digits and the
      WhatsApp JID suffix. */
  predicate IsJid(m: string) {
    && 5 + |JidSuffix| <= |m| <= 16 + |JidSuffix|
    && AllDigits(m[..|m| - |JidSuffix|])
    && m[|m| - |JidSuffix|..] == JidSuffix
  }

  /** The global match loop: at each position, an '@' followed by at least
      five digits is a match that takes up to sixteen of them, and the
      search resumes after the match; otherwise it resumes one character
      further on. */
  function ParseMentions(text: string): (r: seq<string>)
    ensures forall k :: 0 <= k < |r| ==> IsJid(r[k])
    ensures 6 * |r| <= |text|
    decreases |text|
  {
    if |text| == 0 then []
    else
      var n := MentionLength(text);
      if n > 0 then
        var jid := text[1..1 + n] + JidSuffix;
        [jid] + ParseMentions(text[1 + n..])
      else ParseMentions(text[1..])
  }

  /** Length of the number matched at the start of text (0: no match). */
  function MentionLength(text: string): (n: nat)
    ensures n == 0 || (5 <= n <= 16 && 1 + n <= |text| && AllDigits(text[1..1 + n]))
  {
    if |text| > 0 && text[0] == '@' then
      var n := LeadingDigits(text[1..], 16);
      assert text[1..][..n] == text[1..1 + n];
      if n >= 5 then n else 0
    else 0
  }

  /** A match is an '@' and 5 to 16 digits, as many as there are up to 16;
      there is one whenever the text starts with an '@' and five digits. */
  lemma MentionLengthIsGreedyMatch(text: string)
    ensures var n := MentionLength(text);
      && (n > 0 ==> text[0] == '@')
      && (n > 0 ==> n == 16 || 1 + n == |text| || !IsDigit(text[1 + n]))
      && (|text| >= 6 && text[0] == '@' && AllDigits(text[1..6]) ==> n > 0)
  {
    if |text| > 0 && text[0] == '@' {
      var t := text[1..];
      var n := LeadingDigits(t, 16);
      assert n < |t| ==> t[n] == text[1 + n];
      assert |text| >= 6 && n < 5 ==> t[n] == text[1..6][n];
    }
  }

  // ---- where the matches are, for any text ----

  /** A match starts at position p of text. */
  predicate MentionAt(text: string, p: nat) {
    p < |text| && MentionLength(text[p..]) > 0
  }

  /** Where the search resumes after the match at p. */
  function MentionEnd(text: string, p: nat): (e: nat)
    requires p < |text|
    ensures p < e <= |text|
  {
    p + 1 + MentionLength(text[p..])
  }

  /** What the match at p is reported as. */
  function JidAt(text: string, p: nat): string
    requires MentionAt(text, p)
  {
    text[p + 1..MentionEnd(text, p)] + JidSuffix
  }

  /** The search from position i on, as positions in text: the '@' of each
      match, in the order the matches are found. */
  function ScanFrom(text: string, i: nat): seq<nat>
    decreases |text| - i
  {
    if i >= |text| then []
    else if MentionAt(text, i) then [i] + ScanFrom(text, MentionEnd(text, i))
    else ScanFrom(text, i + 1)
  }

  /** The positions of the matches `parseMentions` reports. */
  function MentionStarts(text: string): seq<nat> {
    ScanFrom(text, 0)
  }

  /** Every position in ps holds a match, and each match ends before the
      next one starts: in text order, without overlap. */
  predicate Located(text: string, ps: seq<nat>) {
    forall k :: 0 <= k < |ps| ==>
      MentionAt(text, ps[k]) && (k + 1 < |ps| ==> MentionEnd(text, ps[k]) <= ps[k + 1])
  }

  lemma LocatedCons(text: string, i: nat, qs: seq<nat>)
    requires MentionAt(text, i) && Located(text, qs)
    requires |qs| > 0 ==> MentionEnd(text, i) <= qs[0]
    ensures Located(text, [i] + qs)
  {
    var ps := [i] + qs;
    forall k | 1 <= k < |ps| ensures ps[k] == qs[k - 1] {
    }
  }

  lemma {:induction false} ScanLocated(text: string, i: nat)
    ensures Located(text, ScanFrom(text, i))
    ensures forall k :: 0 <= k < |ScanFrom(text, i)| ==> i <= ScanFrom(text, i)[k]
    decreases |text| - i
  {
    if i < |text| {
      if MentionAt(text, i) {
        var e := MentionEnd(text, i);
        ScanLocated(text, e);
        LocatedCons(text, i, ScanFrom(text, e));
      } else {
        ScanLocated(text, i + 1);
      }
    }
  }

  /** Every reported position holds a match, and the matches come in text
      order without overlap. */
  lemma MentionStartsLocated(text: string)
    ensures Located(text, MentionStarts(text))
  {
    ScanLocated(text, 0);
  }

  /** rs are the reports of the matches at the positions ps. */
  predicate Reported(text: string, ps: seq<nat>, rs: seq<string>) {
    |rs| == |ps| && forall k :: 0 <= k < |ps| ==> MentionAt(text, ps[k]) && rs[k] == JidAt(text, ps[k])
  }

  lemma ReportedCons(text: string, i: nat, qs: seq<nat>, rs: seq<string>)
    requires MentionAt(text, i) && Reported(text, qs, rs)
    ensures Reported(text, [i] + qs, [JidAt(text, i)] + rs)
  {
    var ps, ts := [i] + qs, [JidAt(text, i)] + rs;
    forall k | 0 <= k < |ps| ensures MentionAt(text, ps[k]) && ts[k] == JidAt(text, ps[k]) {
      if k > 0 {
        var q, r := qs[k - 1], rs[k - 1];
        assert ps[k] == q && ts[k] == r;
        assert MentionAt(text, q) && r == JidAt(text, q);
      }
    }
  }

  /** `parseMentions` of the text from i on reports the matches the search
      from i finds. */
  lemma {:induction false} ScanReported(text: string, i: nat)
    requires i <= |text|
    ensures Reported(text, ScanFrom(text, i), ParseMentions(text[i..]))
    decreases |text| - i
  {
    if i < |text| {
      var t := text[i..];
      if MentionAt(text, i) {
        var e := MentionEnd(text, i);
        var n := MentionLength(t);
        ParseMentionsMatch(t);
        assert t[1 + n..] == text[e..];
        assert t[1..1 + n] == text[i + 1..e];
        ScanReported(text, e);
        ReportedCons(text, i, ScanFrom(text, e), ParseMentions(text[e..]));
      } else {
        ParseMentionsNoMatch(t);
        assert t[1..] == text[i + 1..];
        ScanReported(text, i + 1);
      }
    }
  }

  /** The results are the matches at the reported positions, one for one. */
  lemma ParseMentionsAtStarts(text: string)
    ensures Reported(text, MentionStarts(text), ParseMentions(text))
  {
    ScanReported(text, 0);
    assert text[0..] == text;
  }

  /** k indexes a match among ps that spans p. */
  predicate SpansAt(text: string, ps: seq<nat>, k: nat, p: nat) {
    k < |ps| && ps[k] < |text| && ps[k] <= p < MentionEnd(text, ps[k])
  }

  /** Some match in ps spans position p. */
  predicate Covers(text: string, ps: seq<nat>, p: nat) {
    exists k: nat :: k < |ps| && SpansAt(text, ps, k, p)
  }

  lemma CoverHere(text: string, i: nat, p: nat)
    requires MentionAt(text, i) && i <= p < MentionEnd(text, i)
    ensures SpansAt(text, ScanFrom(text, i), 0, p)
  {
  }

  lemma CoverAfter(text: string, i: nat, p: nat, j: nat)
    requires MentionAt(text, i) && SpansAt(text, ScanFrom(text, MentionEnd(text, i)), j, p)
    ensures SpansAt(text, ScanFrom(text, i), j + 1, p)
  {
    assert ScanFrom(text, i)[j + 1] == ScanFrom(text, MentionEnd(text, i))[j];
  }

  lemma CoverSkip(text: string, i: nat, p: nat, j: nat)
    requires i < |text| && !MentionAt(text, i) && SpansAt(text, ScanFrom(text, i + 1), j, p)
    ensures SpansAt(text, ScanFrom(text, i), j, p)
  {
  }

  /** The index, among the matches the search from i finds, of the one that
      spans p. */
  lemma {:induction false} ScanCovering(text: string, i: nat, p: nat) returns (k: nat)
    requires i <= p && MentionAt(text, p)
    ensures SpansAt(text, ScanFrom(text, i), k, p)
    decreases |text| - i
  {
    if MentionAt(text, i) {
      var e := MentionEnd(text, i);
      if p < e {
        CoverHere(text, i, p);
        k := 0;
      } else {
        var j := ScanCovering(text, e, p);
        CoverAfter(text, i, p, j);
        k := j + 1;
      }
    } else {
      k := ScanCovering(text, i + 1, p);
      CoverSkip(text, i, p, k);
    }
  }

  /** Nothing is missed: every position where a match could start is reported
      or lies inside a reported match. */
  lemma MentionStartsComplete(text: string, p: nat)
    requires MentionAt(text, p)
    ensures Covers(text, MentionStarts(text), p)
  {
    var k := ScanCovering(text, 0, p);
    assert SpansAt(text, MentionStarts(text), k, p);
  }

  /** Since a match holds no '@' after its first character, the match that
      spans a possible start is the one starting there: every '@' followed
      by five digits is reported. */
  lemma MentionFound(text: string, p: nat)
    requires MentionAt(text, p)
    ensures p in MentionStarts(text)
  {
    var ps := MentionStarts(text);
    var k := ScanCovering(text, 0, p);
    var q := ps[k];
    MentionLengthIsGreedyMatch(text[p..]);
    assert text[p] == text[p..][0] == '@';
    NoAtInsideMatch(text, q, p);
    assert ps[k] == p;
  }

  /** Past its first character a match holds only digits. */
  lemma NoAtInsideMatch(text: string, q: nat, p: nat)
    requires MentionAt(text, q)
    ensures q < p < MentionEnd(text, q) ==> IsDigit(text[p])
  {
    if q < p < MentionEnd(text, q) {
      var run := text[q..][1..1 + MentionLength(text[q..])];
      assert run[p - q - 1] == text[p];
    }
  }

  predicate IsMentionNumber(id: string) {
    5 <= |id| <= 16 && AllDigits(id)
  }

  /** A text that mentions each of `ids` as "@<id> ". */
  function MentionText(ids: seq<string>): string {
    if |ids| == 0 then "" else "@" + ids[0] + " " + MentionText(ids[1..])
  }

  function WithSuffix(ids: seq<string>): (r: seq<string>)
    ensures |r| == |ids|
    ensures forall k :: 0 <= k < |ids| ==> r[k] == ids[k] + JidSuffix
  {
    if |ids| == 0 then [] else [ids[0] + JidSuffix] + WithSuffix(ids[1..])
  }

  /** The digit run of a mention stops where the number does. */
  lemma {:induction false} LeadingDigitsOfNumber(id: string, rest: string, cap: nat)
    requires AllDigits(id) && |id| <= cap
    requires |rest| > 0 && !IsDigit(rest[0])
    ensures LeadingDigits(id + rest, cap) == |id|
    decreases |id|
  {
    if |id| > 0 {
      assert (id + rest)[1..] == id[1..] + rest;
      LeadingDigitsOfNumber(id[1..], rest, cap - 1);
    } else {
      assert id + rest == rest;
    }
  }

  /** Every number written as "@<number> " is found, in order, and nothing
      else is. */
  lemma {:induction false} ParseMentionsRoundTrip(ids: seq<string>)
    requires forall k :: 0 <= k < |ids| ==> IsMentionNumber(ids[k])
    ensures ParseMentions(MentionText(ids)) == WithSuffix(ids)
  {
    if |ids| > 0 {
      var id, rest := ids[0], MentionText(ids[1..]);
      var text := MentionText(ids);
      assert text == "@" + id + (" " + rest);
      MentionLengthOfNumber(id, " " + rest);
      ParseMentionsMatch(text);
      assert text[1..1 + |id|] == id;
      assert text[1 + |id|..] == " " + rest;
      ParseMentionsNoMatch(" " + rest);
      assert (" " + rest)[1..] == rest;
      ParseMentionsRoundTrip(ids[1..]);
    }
  }

  lemma MentionLengthOfNumber(id: string, rest: string)
    requires IsMentionNumber(id) && |rest| > 0 && !IsDigit(rest[0])
    ensures MentionLength("@" + id + rest) == |id|
  {
    var text := "@" + id + rest;
    assert text[1..] == id + rest;
    LeadingDigitsOfNumber(id, rest, 16);
  }

  lemma ParseMentionsMatch(text: string)
    requires MentionLength(text) > 0
    ensures var n := MentionLength(text);
      ParseMentions(text) == [text[1..1 + n] + JidSuffix] + ParseMentions(text[1 + n..])
  {
  }

  /** The greedy run takes exactly the digits that are there, up to the cap. */
  lemma LeadingDigitsExact(t: string, cap: nat, k: nat)
    requires k <= cap && k <= |t| && AllDigits(t[..k])
    requires k < cap && k < |t| ==> !IsDigit(t[k])
    ensures LeadingDigits(t, cap) == k
  {
  }

  /** An '@' followed by sixteen digits or more yields the first sixteen, and
      the search goes on right after them. */
  lemma ParseMentionsTakesAtMostSixteen(text: string)
    requires |text| >= 17 && text[0] == '@' && AllDigits(text[1..17])
    ensures ParseMentions(text) == [text[1..17] + JidSuffix] + ParseMentions(text[17..])
  {
    assert text[1..][..16] == text[1..17];
    LeadingDigitsExact(text[1..], 16, 16);
    assert MentionLength(text) == 16;
  }

  /** An '@' followed by fewer than five digits is no match; the search goes
      on at the next character. */
  lemma ParseMentionsSkipsShortRuns(text: string, k: nat)
    requires |text| > 0 && text[0] == '@' && k < 5 && 1 + k <= |text| && AllDigits(text[1..1 + k])
    requires 1 + k < |text| ==> !IsDigit(text[1 + k])
    ensures ParseMentions(text) == ParseMentions(text[1..])
  {
    ShortRunIsNoMention(text, k);
    ParseMentionsNoMatch(text);
  }

  lemma ShortRunIsNoMention(text: string, k: nat)
    requires |text| > 0 && text[0] == '@' && k < 5 && 1 + k <= |text| && AllDigits(text[1..1 + k])
    requires 1 + k < |text| ==> !IsDigit(text[1 + k])
    ensures MentionLength(text) == 0
  {
    var t := text[1..];
    assert t[..k] == text[1..1 + k];
    assert k < |t| ==> t[k] == text[1 + k];
    LeadingDigitsExact(t, 16, k);
  }

  lemma ParseMentionsNoMatch(text: string)
    requires |text| > 0 && MentionLength(text) == 0
    ensures ParseMentions(text) == ParseMentions(text[1..])
  {
  }


  // ---------------------------------------------------------------------
  // isEmail: the trimmed value against the pattern field '@' field '.' field
  // ---------------------------------------------------------------------

  /** `\s` of a JavaScript regular expression, which is also the set of
      characters `String.prototype.trim` removes. */
  predicate IsSpace(c: char) {
    || c == '\t' || c == '\n' || c == '\U{B}' || c == '\U{C}' || c == '\r' || c == ' '
    || c == '\U{A0}' || c == '\U{1680}' || '\U{2000}' <= c <= '\U{200A}'
    || c == '\U{2028}' || c == '\U{2029}' || c == '\U{202F}' || c == '\U{205F}'
    || c == '\U{3000}' || c == '\U{FEFF}'
  }

  function TrimStart(s: string): (r: string)
    ensures |r| <= |s| && r == s[|s| - |r|..]
    ensures forall k :: 0 <= k < |s| - |r| ==> IsSpace(s[k])
    ensures |r| > 0 ==> !IsSpace(r[0])
  {
    if |s| > 0 && IsSpace(s[0]) then TrimStart(s[1..]) else s
  }

  function TrimEnd(s: string): (r: string)
    ensures |r| <= |s| && r == s[..|r|]
    ensures forall k :: |r| <= k < |s| ==> IsSpace(s[k])
    ensures |r| > 0 ==> !IsSpace(r[|r| - 1])
  {
    if |s| > 0 && IsSpace(s[|s| - 1]) then TrimEnd(s[..|s| - 1]) else s
  }

  /** `String.prototype.trim`. */
  function Trim(s: string): (r: string)
    ensures |r| > 0 ==> !IsSpace(r[0]) && !IsSpace(r[|r| - 1])
    ensures var i := |s| - |TrimStart(s)|;
      && i + |r| <= |s| && r == s[i..i + |r|]
      && (forall k :: 0 <= k < i ==> IsSpace(s[k]))
      && (forall k :: i + |r| <= k < |s| ==> IsSpace(s[k]))
  {
    TrimEnd(TrimStart(s))
  }

  /** A run that `[^\s@]+` matches. */
  predicate Field(t: string) {
    |t| > 0 && forall k :: 0 <= k < |t| ==> !IsSpace(t[k]) && t[k] != '@'
  }

  /** The anchored pattern as the regular expression states it: some split
      of s into field '@' field '.' field. */
  ghost predicate MatchesEmailPattern(s: string) {
    exists i, j :: 0 <= i < j < |s| && s[i] == '@' && s[j] == '.'
      && Field(s[..i]) && Field(s[i + 1..j]) && Field(s[j + 1..])
  }

  /** Index of the first `c` in s, or |s| when there is none. */
  function IndexOf(s: string, c: char): (i: nat)
    ensures i <= |s| && c !in s[..i]
    ensures i < |s| ==> s[i] == c
  {
    if |s| == 0 then 0
    else if s[0] == c then 0
    else
      var i := 1 + IndexOf(s[1..], c);
      assert s[..i] == [s[0]] + s[1..][..i - 1];
      i
  }

  predicate NoSpace(s: string) {
    forall k :: 0 <= k < |s| ==> !IsSpace(s[k])
  }

  /** What `isEmail` checks of the trimmed string: no whitespace, exactly
      one '@' with something before it, and a '.' after it with something
      on both sides. */
  predicate EmailShape(s: string) {
    var at := IndexOf(s, '@');
    && NoSpace(s)
    && 0 < at && at + 3 < |s|
    && '@' !in s[at + 1..]
    && '.' in s[at + 2..|s| - 1]
  }

  /** `isEmail(v)` for a string v. */
  function IsEmail(v: string): bool {
    EmailShape(Trim(v))
  }

  lemma EmailShapeMatches(s: string)
    requires EmailShape(s)
    ensures MatchesEmailPattern(s)
  {
    var at := IndexOf(s, '@');
    var mid := s[at + 2..|s| - 1];
    var q :| 0 <= q < |mid| && mid[q] == '.';
    var j := at + 2 + q;
    assert s[j] == '.';
    forall k | 0 <= k < at ensures !IsSpace(s[..at][k]) && s[..at][k] != '@' {
      assert s[..at][k] == s[k];
    }
    var domain, after := s[at + 1..], s[at + 1..j];
    forall k | 0 <= k < |after| ensures !IsSpace(after[k]) && after[k] != '@' {
      assert after[k] == s[at + 1 + k] == domain[k];
    }
    var tld := s[j + 1..];
    forall k | 0 <= k < |tld| ensures !IsSpace(tld[k]) && tld[k] != '@' {
      assert tld[k] == s[j + 1 + k] == domain[j - at + k];
    }
    assert Field(s[..at]) && Field(s[at + 1..j]) && Field(s[j + 1..]);
  }

  /** A field that is the slice s[lo..hi] constrains those characters of s. */
  lemma FieldChars(s: string, lo: nat, hi: nat)
    requires lo <= hi <= |s| && Field(s[lo..hi])
    ensures forall k :: lo <= k < hi ==> !IsSpace(s[k]) && s[k] != '@'
  {
    forall k | lo <= k < hi ensures !IsSpace(s[k]) && s[k] != '@' {
      assert s[lo..hi][k - lo] == s[k];
    }
  }

  /** A split field '@' field '.' field has the shape `isEmail` checks. */
  lemma SplitHasEmailShape(s: string, i: nat, j: nat)
    requires i < j < |s| && s[i] == '@' && s[j] == '.'
    requires Field(s[..i]) && Field(s[i + 1..j]) && Field(s[j + 1..])
    ensures EmailShape(s)
  {
    assert s[..i] == s[0..i];
    assert s[j + 1..] == s[j + 1..|s|];
    FieldChars(s, 0, i);
    FieldChars(s, i + 1, j);
    FieldChars(s, j + 1, |s|);
    var at := IndexOf(s, '@');
    assert at == i;
    assert '@' !in s[i + 1..];
    assert s[i + 2..|s| - 1][j - i - 2] == '.';
  }

  lemma MatchesEmailShape(s: string)
    requires MatchesEmailPattern(s)
    ensures EmailShape(s)
  {
    var i, j :| 0 <= i < j < |s| && s[i] == '@' && s[j] == '.'
      && Field(s[..i]) && Field(s[i + 1..j]) && Field(s[j + 1..]);
    SplitHasEmailShape(s, i, j);
  }

  /** The check agrees with the regular expression, in both directions. */
  lemma IsEmailMatchesPattern(v: string)
    ensures IsEmail(v) <==> MatchesEmailPattern(Trim(v))
  {
    var s := Trim(v);
    if IsEmail(v) {
      EmailShapeMatches(s);
    }
    if MatchesEmailPattern(s) {
      MatchesEmailShape(s);
    }
  }
}
