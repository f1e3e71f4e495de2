/**
 * Row extraction from the SH announcement board (src/collector/index.ts): the
 * string helpers and the bounded loop of `parseShBoard`. Every regular
 * expression is written as an explicit scanner: a predicate or function saying
 * whether (and how) the pattern matches at one position, and a search for the
 * leftmost position where it does.
 */
module Collector {
  import opened Wrappers
  import opened Text

  /** The SH board list page; the base of every detail URL. */
  const ShBoardUrl: string := "https://www.i-sh.co.kr/main/lay2/program/S1T294C295/www/brd/m_247/list.do?multi_itm_seq=0"

  /** One announcement as the collector hands it downstream. */
  datatype ShAnnouncement = ShAnnouncement(announcementId: string, title: string, detailUrl: string, postedAt: string)

  // ---------------------------------------------------------------------------
  // Searching.
  // ---------------------------------------------------------------------------

  /** The first index at or after `i` holding `c`. */
  function IndexOf(s: string, i: nat, c: char): (r: Option<nat>)
    requires i <= |s|
    ensures r.Some? ==> i <= r.value < |s| && s[r.value] == c
    ensures forall k :: i <= k < |s| && (r.None? || k < r.value) ==> s[k] != c
    decreases |s| - i
  {
    if i == |s| then None else if s[i] == c then Some(i) else IndexOf(s, i + 1, c)
  }

  /** The first index at or after `i` where `lit` occurs, ignoring ASCII case (a `/i` search). */
  function FindIgnoreCase(s: string, i: nat, lit: string): (r: Option<nat>)
    requires i <= |s|
    ensures r.Some? ==> i <= r.value && r.value + |lit| <= |s| && LiteralAtIgnoreCase(s, r.value, lit)
    ensures forall k: nat :: i <= k <= |s| && (r.None? || k < r.value) ==> !LiteralAtIgnoreCase(s, k, lit)
    decreases |s| - i
  {
    if LiteralAtIgnoreCase(s, i, lit) then Some(i) else if i == |s| then None else FindIgnoreCase(s, i + 1, lit)
  }

  // ---------------------------------------------------------------------------
  // stripHtml.
  // ---------------------------------------------------------------------------

  /** `replace(/<[^>]+>/g, ' ')` from index `i`: a `<`, at least one character, and the first `>` after it. */
  function ReplaceTags(s: string, i: nat): string
    requires i <= |s|
    decreases |s| - i
  {
    if i == |s| then []
    else if s[i] == '<' && i + 1 < |s| && s[i + 1] != '>' then
      match IndexOf(s, i + 2, '>')
      case Some(j) => " " + ReplaceTags(s, j + 1)
      case None => [s[i]] + ReplaceTags(s, i + 1)
    else [s[i]] + ReplaceTags(s, i + 1)
  }

  /** `replace(/lit/g, rep)` from index `i`, for a non-empty literal. */
  function ReplaceAll(s: string, i: nat, lit: string, rep: string): string
    requires i <= |s| && |lit| > 0
    decreases |s| - i
  {
    if i == |s| then []
    else if LiteralAt(s, i, lit) then rep + ReplaceAll(s, i + |lit|, lit, rep)
    else [s[i]] + ReplaceAll(s, i + 1, lit, rep)
  }

  /** No two white-space characters are adjacent. */
  ghost predicate NoWhitespaceRun(s: string) {
    forall i, j :: 0 <= i < j < |s| && j == i + 1 ==> !(IsWhitespace(s[i]) && IsWhitespace(s[j]))
  }

  /** The only white space is the plain space. */
  predicate OnlyPlainSpaces(s: string) {
    forall i :: 0 <= i < |s| ==> IsWhitespace(s[i]) ==> s[i] == ' '
  }

  /** `replace(/\s+/g, ' ')` from index `i`: every run of white space becomes one space. */
  function CollapseWhitespace(s: string, i: nat): (r: string)
    requires i <= |s|
    ensures NoWhitespaceRun(r)
    ensures OnlyPlainSpaces(r)
    ensures |r| > 0 ==> i < |s| && (IsWhitespace(r[0]) <==> IsWhitespace(s[i]))
    decreases |s| - i
  {
    if i == |s| then []
    else if IsWhitespace(s[i]) then
      var rest := CollapseWhitespace(s, SkipSpace(s, i));
      assert rest == [] || !IsWhitespace(rest[0]);
      " " + rest
    else [s[i]] + CollapseWhitespace(s, i + 1)
  }

  /** `stripHtml`: tags and `&nbsp;` to spaces, `&amp;` to `&`, white space collapsed, then trimmed. */
  function StripHtml(value: string): (r: string)
    ensures IsTrimmed(r)
    ensures NoWhitespaceRun(r)
    ensures OnlyPlainSpaces(r)
  {
    var untagged := ReplaceTags(value, 0);
    var spaced := ReplaceAll(untagged, 0, "&nbsp;", " ");
    var unescaped := ReplaceAll(spaced, 0, "&amp;", "&");
    var collapsed := CollapseWhitespace(unescaped, 0);
    TrimKeepsSpacing(collapsed);
    Trim(collapsed)
  }

  /** The characters of `s` that are not white space, in order. */
  function NonWhitespace(s: string): string {
    if s == [] then [] else (if IsWhitespace(s[0]) then [] else [s[0]]) + NonWhitespace(s[1..])
  }

  /** Skipping a run of white space drops nothing that `NonWhitespace` keeps. */
  lemma {:induction false} SkippedSpaceIsInvisible(s: string, i: nat, j: nat)
    requires i <= j <= |s|
    requires forall k :: i <= k < j ==> IsWhitespace(s[k])
    ensures NonWhitespace(s[i..]) == NonWhitespace(s[j..])
    decreases j - i
  {
    if i < j {
      assert s[i..][1..] == s[i + 1..];
      SkippedSpaceIsInvisible(s, i + 1, j);
    }
  }

  /** Collapsing white space keeps every other character, in order: only the runs of white space change. */
  lemma {:induction false} CollapseKeepsContent(s: string, i: nat)
    requires i <= |s|
    ensures NonWhitespace(CollapseWhitespace(s, i)) == NonWhitespace(s[i..])
    decreases |s| - i
  {
    if i < |s| {
      assert s[i..][1..] == s[i + 1..];
      if IsWhitespace(s[i]) {
        var j := SkipSpace(s, i);
        var rest := CollapseWhitespace(s, j);
        CollapseKeepsContent(s, j);
        assert (" " + rest)[1..] == rest;
        SkippedSpaceIsInvisible(s, i, j);
      } else {
        var rest := CollapseWhitespace(s, i + 1);
        CollapseKeepsContent(s, i + 1);
        assert ([s[i]] + rest)[1..] == rest;
      }
    }
  }

  /** A string that is already single-spaced with plain spaces comes out of the collapse unchanged. */
  lemma {:induction false} CollapseKeepsSingleSpaced(s: string, i: nat)
    requires i <= |s|
    requires NoWhitespaceRun(s) && OnlyPlainSpaces(s)
    ensures CollapseWhitespace(s, i) == s[i..]
    decreases |s| - i
  {
    if i < |s| {
      CollapseKeepsSingleSpaced(s, i + 1);
      assert s[i..] == [s[i]] + s[i + 1..];
      if IsWhitespace(s[i]) {
        assert i + 1 == |s| || !IsWhitespace(s[i + 1]);
        assert SkipSpace(s, i + 1) == i + 1;
      }
    }
  }

  /** A text without `<` is left as it is by the tag replacement. */
  lemma {:induction false} NoTagsUnchanged(s: string, i: nat)
    requires i <= |s|
    requires forall k :: i <= k < |s| ==> s[k] != '<'
    ensures ReplaceTags(s, i) == s[i..]
    decreases |s| - i
  {
    if i < |s| {
      NoTagsUnchanged(s, i + 1);
      assert s[i..] == [s[i]] + s[i + 1..];
    }
  }

  /** A text in which the literal's first character never occurs is left as it is by the replacement. */
  lemma {:induction false} NoLiteralUnchanged(s: string, i: nat, lit: string, rep: string)
    requires i <= |s| && |lit| > 0
    requires forall k :: i <= k < |s| ==> s[k] != lit[0]
    ensures ReplaceAll(s, i, lit, rep) == s[i..]
    decreases |s| - i
  {
    if i < |s| {
      NoLiteralUnchanged(s, i + 1, lit, rep);
      assert s[i..] == [s[i]] + s[i + 1..];
    }
  }

  /** Plain text (no `<`, no `&`, single plain spaces) comes out of `stripHtml` only trimmed. */
  lemma StripHtmlKeepsPlainText(value: string)
    requires forall k :: 0 <= k < |value| ==> value[k] != '<' && value[k] != '&'
    requires NoWhitespaceRun(value) && OnlyPlainSpaces(value)
    ensures StripHtml(value) == Trim(value)
  {
    NoTagsUnchanged(value, 0);
    assert value[0..] == value;
    NoLiteralUnchanged(value, 0, "&nbsp;", " ");
    NoLiteralUnchanged(value, 0, "&amp;", "&");
    CollapseKeepsSingleSpaced(value, 0);
  }

  /** `stripHtml` keeps every character that is not white space, once tags and the two entities are rewritten. */
  lemma StripHtmlKeepsContent(value: string)
    ensures NonWhitespace(StripHtml(value)) ==
      NonWhitespace(ReplaceAll(ReplaceAll(ReplaceTags(value, 0), 0, "&nbsp;", " "), 0, "&amp;", "&"))
  {
    var unescaped := ReplaceAll(ReplaceAll(ReplaceTags(value, 0), 0, "&nbsp;", " "), 0, "&amp;", "&");
    var collapsed := CollapseWhitespace(unescaped, 0);
    CollapseKeepsContent(unescaped, 0);
    assert unescaped[0..] == unescaped;
    TrimKeepsContent(collapsed);
  }

  /** `NonWhitespace` distributes over concatenation. */
  lemma {:induction false} NonWhitespaceConcat(x: string, y: string)
    ensures NonWhitespace(x + y) == NonWhitespace(x) + NonWhitespace(y)
    decreases |x|
  {
    if x == [] {
      assert x + y == y;
    } else {
      assert (x + y)[1..] == x[1..] + y;
      NonWhitespaceConcat(x[1..], y);
    }
  }

  /** A blank string keeps nothing. */
  lemma {:induction false} BlankIsInvisible(s: string)
    requires IsBlank(s)
    ensures NonWhitespace(s) == []
    decreases |s|
  {
    if s != [] {
      assert forall k :: 0 <= k < |s| - 1 ==> s[1..][k] == s[k + 1];
      BlankIsInvisible(s[1..]);
    }
  }

  /** Blank text around `y` is invisible to `NonWhitespace`. */
  lemma BetweenBlanks(x: string, y: string, z: string)
    requires IsBlank(x) && IsBlank(z)
    ensures NonWhitespace(x + (y + z)) == NonWhitespace(y)
  {
    BlankIsInvisible(x);
    BlankIsInvisible(z);
    NonWhitespaceConcat(x, y + z);
    NonWhitespaceConcat(y, z);
  }

  /** The part of `s` from `i` to `j` is blank when every character in that range is white space. */
  lemma BlankRange(s: string, i: nat, j: nat)
    requires i <= j <= |s|
    requires forall k :: i <= k < j ==> IsWhitespace(s[k])
    ensures IsBlank(s[i..j])
  {
    assert forall k :: 0 <= k < j - i ==> s[i..j][k] == s[i + k];
  }

  /** Trimming drops white space only. */
  lemma TrimKeepsContent(s: string)
    ensures NonWhitespace(Trim(s)) == NonWhitespace(s)
  {
    var r := Trim(s);
    if r == [] {
      BlankIsInvisible(s);
    } else {
      var a := LeadingSpace(s);
      var t := TrailingSpace(s);
      var b := |s| - t;
      assert r == s[a..b];
      BlankRange(s, 0, a);
      BlankRange(s, b, |s|);
      assert s == s[0..a] + (s[a..b] + s[b..|s|]);
      BetweenBlanks(s[0..a], s[a..b], s[b..|s|]);
    }
  }

  /** When the three replacements already give trimmed, single-spaced text, that text is the result. */
  lemma StripHtmlOfReplaced(value: string, u: string)
    requires ReplaceAll(ReplaceAll(ReplaceTags(value, 0), 0, "&nbsp;", " "), 0, "&amp;", "&") == u
    requires NoWhitespaceRun(u) && OnlyPlainSpaces(u) && IsTrimmed(u)
    ensures StripHtml(value) == u
  {
    CollapseKeepsSingleSpaced(u, 0);
    assert u[0..] == u;
  }

  /** The fixture title of the collector test has no markup and comes back unchanged. */
  lemma FixtureTitleIsKept()
    ensures StripHtml("2026-001 1차 행복주택 입주자 모집") == "2026-001 1차 행복주택 입주자 모집"
  {
    var t := "2026-001 1차 행복주택 입주자 모집";
    assert forall k :: 0 <= k < |t| ==> t[k] == ' ' || (IsVisible(t[k]) && t[k] != '<' && t[k] != '&');
    assert forall k :: 0 <= k < |t| - 1 ==> t[k] != ' ' || t[k + 1] != ' ';
    VisibleWordsAreKept(t);
  }

  /** Words of visible characters other than `<` and `&`, one plain space apart, come back unchanged. */
  lemma VisibleWordsAreKept(t: string)
    requires forall k :: 0 <= k < |t| ==> t[k] == ' ' || (IsVisible(t[k]) && t[k] != '<' && t[k] != '&')
    requires forall k :: 0 <= k < |t| - 1 ==> t[k] != ' ' || t[k + 1] != ' '
    requires t == [] || (t[0] != ' ' && t[|t| - 1] != ' ')
    ensures StripHtml(t) == t
  {
    SpacedWords(t);
    StripHtmlKeepsPlainText(t);
  }

  /** Printable ASCII other than the space, and Hangul syllables. */
  predicate IsVisible(c: char) {
    ('!' <= c <= '~') || ('\U{AC00}' <= c <= '\U{D7A3}')
  }

  /** Words of visible characters separated by single plain spaces are single-spaced and trimmed. */
  lemma SpacedWords(s: string)
    requires forall k :: 0 <= k < |s| ==> s[k] == ' ' || IsVisible(s[k])
    requires forall k :: 0 <= k < |s| - 1 ==> s[k] != ' ' || s[k + 1] != ' '
    requires s == [] || (s[0] != ' ' && s[|s| - 1] != ' ')
    ensures NoWhitespaceRun(s) && OnlyPlainSpaces(s) && IsTrimmed(s)
  {
    assert forall k :: 0 <= k < |s| ==> (IsWhitespace(s[k]) <==> s[k] == ' ');
  }

  /** The tag pass turns `a<br>b` into `a b`. */
  lemma TagPass()
    ensures ReplaceTags("a<br>b", 0) == "a b"
  {
    var s := "a<br>b";
    assert IndexOf(s, 3, '>') == Some(4);
    assert ReplaceTags(s, 5) == "b";
  }

  /** The three rewriting passes turn `a<br>b` into `a b`. */
  lemma TagRewritten()
    ensures ReplaceAll(ReplaceAll(ReplaceTags("a<br>b", 0), 0, "&nbsp;", " "), 0, "&amp;", "&") == "a b"
  {
    var t := "a b";
    assert t[0..] == t;
    assert ReplaceTags("a<br>b", 0) == t by { TagPass(); }
    assert ReplaceAll(t, 0, "&nbsp;", " ") == t by { NoLiteralUnchanged(t, 0, "&nbsp;", " "); }
    assert ReplaceAll(t, 0, "&amp;", "&") == t by { NoLiteralUnchanged(t, 0, "&amp;", "&"); }
  }

  /** A tag becomes a space. */
  lemma TagBecomesSpace()
    ensures StripHtml("a<br>b") == "a b"
  {
    TagRewritten();
    SingleSpaceBetween('a', 'b');
    StripHtmlOfReplaced("a<br>b", "a b");
  }

  /** Three visible characters make a single-spaced, trimmed string. */
  lemma NoSpaceIsPlain(a: char, b: char, c: char)
    requires IsVisible(a) && IsVisible(b) && IsVisible(c)
    ensures var u := [a, b, c]; NoWhitespaceRun(u) && OnlyPlainSpaces(u) && IsTrimmed(u)
  {
    SpacedWords([a, b, c]);
  }

  /** Two visible characters around one space make a single-spaced, trimmed string. */
  lemma SingleSpaceBetween(a: char, b: char)
    requires IsVisible(a) && IsVisible(b)
    ensures var u := [a, ' ', b]; NoWhitespaceRun(u) && OnlyPlainSpaces(u) && IsTrimmed(u)
  {
    SpacedWords([a, ' ', b]);
  }

  /** The `&nbsp;` pass leaves `x&amp;y` alone: its `&` does not start `&nbsp;`. */
  lemma AmpSurvivesNbspPass()
    ensures ReplaceAll("x&amp;y", 0, "&nbsp;", " ") == "x&amp;y"
  {
    var s := "x&amp;y";
    assert !LiteralAt(s, 1, "&nbsp;") by {
      LiteralAtMeaning(s, 1, "&nbsp;");
      assert s[2] != "&nbsp;"[1];
    }
    NoLiteralUnchanged(s, 2, "&nbsp;", " ");
    assert s[1..] == [s[1]] + s[2..];
  }

  /** The `&amp;` pass turns `x&amp;y` into `x&y`. */
  lemma AmpPass()
    ensures ReplaceAll("x&amp;y", 0, "&amp;", "&") == "x&y"
  {
    var s := "x&amp;y";
    assert LiteralAt(s, 1, "&amp;") by {
      LiteralAtMeaning(s, 1, "&amp;");
    }
    NoLiteralUnchanged(s, 6, "&amp;", "&");
  }

  /** The three rewriting passes turn `x&amp;y` into `x&y`. */
  lemma AmpRewritten()
    ensures ReplaceAll(ReplaceAll(ReplaceTags("x&amp;y", 0), 0, "&nbsp;", " "), 0, "&amp;", "&") == "x&y"
  {
    var s := "x&amp;y";
    assert ReplaceTags(s, 0) == s by { NoTagsUnchanged(s, 0); assert s[0..] == s; }
    assert ReplaceAll(s, 0, "&nbsp;", " ") == s by { AmpSurvivesNbspPass(); }
    AmpPass();
  }

  /** `&amp;` becomes `&`. */
  lemma AmpIsDecoded()
    ensures StripHtml("x&amp;y") == "x&y"
  {
    AmpRewritten();
    NoSpaceIsPlain('x', '&', 'y');
    StripHtmlOfReplaced("x&amp;y", "x&y");
  }

  /** The `&nbsp;` pass turns `x&nbsp;y` into `x y`. */
  lemma NbspPass()
    ensures ReplaceAll("x&nbsp;y", 0, "&nbsp;", " ") == "x y"
  {
    var s := "x&nbsp;y";
    assert LiteralAt(s, 1, "&nbsp;") by {
      LiteralAtMeaning(s, 1, "&nbsp;");
    }
    NoLiteralUnchanged(s, 7, "&nbsp;", " ");
  }

  /** The three rewriting passes turn `x&nbsp;y` into `x y`. */
  lemma NbspRewritten()
    ensures ReplaceAll(ReplaceAll(ReplaceTags("x&nbsp;y", 0), 0, "&nbsp;", " "), 0, "&amp;", "&") == "x y"
  {
    var s := "x&nbsp;y";
    var u := "x y";
    assert ReplaceTags(s, 0) == s by { NoTagsUnchanged(s, 0); assert s[0..] == s; }
    assert ReplaceAll(s, 0, "&nbsp;", " ") == u by { NbspPass(); }
    NoLiteralUnchanged(u, 0, "&amp;", "&");
    assert u[0..] == u;
  }

  /** `&nbsp;` becomes a space. */
  lemma NbspBecomesSpace()
    ensures StripHtml("x&nbsp;y") == "x y"
  {
    NbspRewritten();
    SingleSpaceBetween('x', 'y');
    StripHtmlOfReplaced("x&nbsp;y", "x y");
  }

  /** Trimming keeps a string single-spaced. */
  lemma TrimKeepsSpacing(s: string)
    requires NoWhitespaceRun(s) && OnlyPlainSpaces(s)
    ensures NoWhitespaceRun(Trim(s)) && OnlyPlainSpaces(Trim(s))
  {
    var r := Trim(s);
    var a := LeadingSpace(s);
    assert a + |r| <= |s|;
    assert forall k :: 0 <= k < |r| ==> r[k] == s[a + k];
    SliceKeepsSpacing(s, a, r);
  }

  /** A string read off `s` from index `a` on is as single-spaced as `s`. */
  lemma SliceKeepsSpacing(s: string, a: nat, r: string)
    requires NoWhitespaceRun(s) && OnlyPlainSpaces(s)
    requires a + |r| <= |s|
    requires forall k :: 0 <= k < |r| ==> r[k] == s[a + k]
    ensures NoWhitespaceRun(r) && OnlyPlainSpaces(r)
  {
    forall i, j | 0 <= i < j < |r| && j == i + 1 ensures !(IsWhitespace(r[i]) && IsWhitespace(r[j])) {
      assert r[i] == s[a + i] && r[j] == s[a + j];
    }
  }

  // ---------------------------------------------------------------------------
  // extractNoticeNumber, extractRecruitRound, buildAnnouncementId.
  // ---------------------------------------------------------------------------

  /** `n` digits start at `i`. */
  predicate DigitsAt(s: string, i: nat, n: nat) {
    i + n <= |s| && forall k :: i <= k < i + n ==> IsDigit(s[k])
  }

  predicate AllDigits(s: string) {
    forall k :: 0 <= k < |s| ==> IsDigit(s[k])
  }

  predicate IsNoticeSeparator(c: char) {
    c == '-' || c == '.' || c == '/' || c == '년'
  }

  /**
   * `/(\d{4})\s*[-./년]\s*(\d{1,4})(?!\d)/` at position `p`, as `year-number`.
   * Each `\s*` is followed by a non-space, so it takes the whole run; `\d{1,4}(?!\d)`
   * matches exactly when the run of digits has one to four of them.
   */
  function NoticeMatchAt(s: string, p: nat): Option<string> {
    if !DigitsAt(s, p, 4) then None
    else
      var q := SkipSpace(s, p + 4);
      if q == |s| || !IsNoticeSeparator(s[q]) then None
      else
        var r := SkipSpace(s, q + 1);
        var e := DigitRunEnd(s, r);
        if e == r || e - r > 4 then None
        else Some(s[p..p + 4] + "-" + s[r..e])
  }

  /** The leftmost position at or after `p` where the notice pattern matches. */
  function FirstNotice(s: string, p: nat): (r: Option<nat>)
    requires p <= |s|
    ensures r.Some? ==> p <= r.value <= |s| && NoticeMatchAt(s, r.value).Some?
    ensures forall j: nat :: p <= j <= |s| && (r.None? || j < r.value) ==> NoticeMatchAt(s, j).None?
    decreases |s| - p
  {
    if NoticeMatchAt(s, p).Some? then Some(p) else if p == |s| then None else FirstNotice(s, p + 1)
  }

  /** A notice number: `UNKNOWN`, or four digits, `-`, and one to four digits. */
  predicate IsNoticeNumber(t: string) {
    t == "UNKNOWN" || (6 <= |t| <= 9 && AllDigits(t[..4]) && t[4] == '-' && AllDigits(t[5..]))
  }

  /** `extractNoticeNumber`: the leftmost match as `year-number`, else `UNKNOWN`. */
  function ExtractNoticeNumber(value: string): (r: string)
    ensures IsNoticeNumber(r)
    ensures r == "UNKNOWN" <==> forall p: nat :: p <= |value| ==> NoticeMatchAt(value, p).None?
    ensures r != "UNKNOWN" ==> exists p: nat :: (p <= |value| && NoticeMatchAt(value, p) == Some(r)
      && forall j: nat :: j < p ==> NoticeMatchAt(value, j).None?)
  {
    match FirstNotice(value, 0)
    case None => "UNKNOWN"
    case Some(p) =>
      NoticeMatchShape(value, p);
      NoticeMatchAt(value, p).value
  }

  /** A notice match is four digits, `-`, and one to four digits. */
  lemma NoticeMatchShape(s: string, p: nat)
    requires NoticeMatchAt(s, p).Some?
    ensures IsNoticeNumber(NoticeMatchAt(s, p).value)
    ensures NoticeMatchAt(s, p).value != "UNKNOWN"
  {
    var q := SkipSpace(s, p + 4);
    var r := SkipSpace(s, q + 1);
    var e := DigitRunEnd(s, r);
    var year := s[p..p + 4];
    var number := s[r..e];
    var t := year + "-" + number;
    assert t == NoticeMatchAt(s, p).value;
    assert t[..4] == year;
    assert t[5..] == number;
    assert AllDigits(year);
    assert AllDigits(number);
    assert t[0] != "UNKNOWN"[0];
  }

  /** `/(\d+)\s*차/` at position `p`: the digits (the whole run; a shorter one leaves a digit before `차`). */
  function RoundMatchAt(s: string, p: nat): Option<string> {
    if p >= |s| then None
    else
      var e := DigitRunEnd(s, p);
      var q := SkipSpace(s, e);
      if e == p || q == |s| || s[q] != '차' then None else Some(s[p..e])
  }

  /** The leftmost position at or after `p` where the round pattern matches. */
  function FirstRound(s: string, p: nat): (r: Option<nat>)
    requires p <= |s|
    ensures r.Some? ==> p <= r.value <= |s| && RoundMatchAt(s, r.value).Some?
    ensures forall j: nat :: p <= j <= |s| && (r.None? || j < r.value) ==> RoundMatchAt(s, j).None?
    decreases |s| - p
  {
    if RoundMatchAt(s, p).Some? then Some(p) else if p == |s| then None else FirstRound(s, p + 1)
  }

  /** `extractRecruitRound`: the digits of the leftmost match, else `1`. */
  function ExtractRecruitRound(value: string): (r: string)
    ensures |r| > 0 && AllDigits(r)
    ensures (forall p: nat :: p <= |value| ==> RoundMatchAt(value, p).None?) ==> r == "1"
    ensures (exists p: nat :: p <= |value| && RoundMatchAt(value, p).Some?) ==>
      exists p: nat :: p <= |value| && RoundMatchAt(value, p) == Some(r) && forall j: nat :: j < p ==> RoundMatchAt(value, j).None?
  {
    match FirstRound(value, 0)
    case None => "1"
    case Some(p) => RoundMatchAt(value, p).value
  }

  /** `buildAnnouncementId`: `SH-` + notice number + `-` + recruit round. */
  function BuildAnnouncementId(rawText: string): string {
    "SH-" + ExtractNoticeNumber(rawText) + "-" + ExtractRecruitRound(rawText)
  }

  /** In `n + "-" + r` with a dash-free `r`, the last dash stands at `|n|`. */
  lemma LastDashAt(n: string, r: string)
    requires '-' !in r
    ensures (n + "-" + r)[|n|] == '-'
    ensures forall k :: |n| < k < |n + "-" + r| ==> (n + "-" + r)[k] != '-'
  {
    forall k | |n| < k < |n + "-" + r| ensures (n + "-" + r)[k] != '-' {
      assert (n + "-" + r)[k] == r[k - |n| - 1];
    }
  }

  /** Joining at a dash before a dash-free part can be undone. */
  lemma SplitAtLastDash(n1: string, r1: string, n2: string, r2: string)
    requires '-' !in r1 && '-' !in r2
    requires n1 + "-" + r1 == n2 + "-" + r2
    ensures n1 == n2 && r1 == r2
  {
    var s := n1 + "-" + r1;
    LastDashAt(n1, r1);
    LastDashAt(n2, r2);
    assert |n1| == |n2|;
    assert n1 == s[..|n1|] == n2;
    assert r1 == s[|n1| + 1..] == r2;
  }

  /** The recruit round never holds a dash. */
  lemma RoundHasNoDash(value: string)
    ensures '-' !in ExtractRecruitRound(value)
  {
    var r := ExtractRecruitRound(value);
    assert forall k :: 0 <= k < |r| ==> r[k] != '-';
  }

  /** The id tells its notice number and recruit round apart: equal ids come from equal parts. */
  lemma AnnouncementIdDetermined(a: string, b: string)
    requires BuildAnnouncementId(a) == BuildAnnouncementId(b)
    ensures ExtractNoticeNumber(a) == ExtractNoticeNumber(b)
    ensures ExtractRecruitRound(a) == ExtractRecruitRound(b)
  {
    var na := ExtractNoticeNumber(a);
    var nb := ExtractNoticeNumber(b);
    RoundHasNoDash(a);
    RoundHasNoDash(b);
    SplitAtLastDash("SH-" + na, ExtractRecruitRound(a), "SH-" + nb, ExtractRecruitRound(b));
    assert na == ("SH-" + na)[3..];
    assert nb == ("SH-" + nb)[3..];
  }

  // ---------------------------------------------------------------------------
  // normalizeDetailUrl, parsePostedAt.
  // ---------------------------------------------------------------------------

  /**
   * `normalizeDetailUrl`: the board URL for an empty href; otherwise the href resolved
   * against the board URL by `resolveUrl`, which is `None` where `new URL` throws.
   */
  function NormalizeDetailUrl(href: string, resolveUrl: string -> Option<string>): (r: string)
    ensures href == [] ==> r == ShBoardUrl
    ensures href != [] && resolveUrl(href).None? ==> r == ShBoardUrl
    ensures href != [] && resolveUrl(href).Some? ==> r == resolveUrl(href).value
  {
    if |href| == 0 then ShBoardUrl
    else
      match resolveUrl(href)
      case Some(url) => url
      case None => ShBoardUrl
  }

  predicate IsDateSeparator(c: char) {
    c == '.' || c == '-'
  }

  /** `/\d{4}[.-]\d{2}[.-]\d{2}/` at position `p`. */
  predicate DateAt(s: string, p: nat) {
    && DigitsAt(s, p, 4) && p + 10 <= |s| && IsDateSeparator(s[p + 4])
    && DigitsAt(s, p + 5, 2) && IsDateSeparator(s[p + 7]) && DigitsAt(s, p + 8, 2)
  }

  /** The leftmost position at or after `p` where a date starts. */
  function FirstDate(s: string, p: nat): (r: Option<nat>)
    requires p <= |s|
    ensures r.Some? ==> p <= r.value <= |s| && DateAt(s, r.value)
    ensures forall j: nat :: p <= j <= |s| && (r.None? || j < r.value) ==> !DateAt(s, j)
    decreases |s| - p
  {
    if DateAt(s, p) then Some(p) else if p == |s| then None else FirstDate(s, p + 1)
  }

  /** `replace(/\./g, '-')`. */
  function DotsToDashes(t: string): (r: string)
    ensures |r| == |t|
    ensures forall k :: 0 <= k < |t| ==> r[k] == if t[k] == '.' then '-' else t[k]
  {
    seq(|t|, k requires 0 <= k < |t| => if t[k] == '.' then '-' else t[k])
  }

  /** A date written `YYYY-MM-DD` in digits. */
  predicate IsDashedDate(t: string) {
    |t| == 10 && t[4] == '-' && t[7] == '-'
    && forall k :: 0 <= k < 10 && k != 4 && k != 7 ==> IsDigit(t[k])
  }

  /** `parsePostedAt`: the leftmost date with its dots turned to dashes, or empty. */
  function ParsePostedAt(rowText: string): (r: string)
    ensures r == [] <==> forall p: nat :: p <= |rowText| ==> !DateAt(rowText, p)
    ensures r != [] ==> IsDashedDate(r)
    ensures r != [] ==> exists p: nat :: (p <= |rowText| && DateAt(rowText, p) && r == DotsToDashes(rowText[p..p + 10])
      && forall j: nat :: j < p ==> !DateAt(rowText, j))
  {
    match FirstDate(rowText, 0)
    case None => []
    case Some(p) => DotsToDashes(rowText[p..p + 10])
  }

  // ---------------------------------------------------------------------------
  // parseShBoard.
  // ---------------------------------------------------------------------------

  /** `/<tr[\s\S]*?<\/tr>/i` at position `p`: the end of the row through the first `</tr>` after `<tr`. */
  function RowAt(s: string, p: nat): (r: Option<nat>)
    ensures r.Some? ==> p + 8 <= r.value <= |s|
  {
    if !LiteralAtIgnoreCase(s, p, "<tr") then None
    else
      match FindIgnoreCase(s, p + 3, "</tr>")
      case Some(c) => Some(c + 5)
      case None => None
  }

  /** The leftmost position at or after `p` where a row block starts. */
  function FirstRow(s: string, p: nat): (r: Option<nat>)
    requires p <= |s|
    ensures r.Some? ==> p <= r.value <= |s| && RowAt(s, r.value).Some?
    ensures forall j: nat :: p <= j <= |s| && (r.None? || j < r.value) ==> RowAt(s, j).None?
    decreases |s| - p
  {
    if RowAt(s, p).Some? then Some(p) else if p == |s| then None else FirstRow(s, p + 1)
  }

  /** `html.match(/<tr[\s\S]*?<\/tr>/gi)` from index `p`: every row block, left to right, without overlap. */
  function RowBlocks(s: string, p: nat): (rows: seq<string>)
    requires p <= |s|
    decreases |s| - p
  {
    match FirstRow(s, p)
    case None => []
    case Some(k) =>
      var end := RowAt(s, k).value;
      [s[k..end]] + RowBlocks(s, end)
  }

  /** A case-insensitive occurrence in a slice is one in the whole text, shifted, and back. */
  lemma LiteralAtIgnoreCaseSlice(s: string, i: nat, j: nat, q: nat, lit: string)
    requires i <= j <= |s| && q + |lit| <= j - i
    ensures LiteralAtIgnoreCase(s[i..j], q, lit) <==> LiteralAtIgnoreCase(s, i + q, lit)
  {
    forall k | 0 <= k < |lit|
      ensures UpperAscii(s[i..j][q + k]) == UpperAscii(lit[k]) <==> UpperAscii(s[i + q + k]) == UpperAscii(lit[k])
    {
      assert s[i..j][q + k] == s[i + q + k];
    }
  }

  /** The block of one row match: `<tr`, no `</tr>` before the end, and `</tr>` at the end. */
  predicate RowBlockShape(b: string) {
    && |b| >= 8
    && LiteralAtIgnoreCase(b, 0, "<tr")
    && LiteralAtIgnoreCase(b, |b| - 5, "</tr>")
    && forall q: nat :: 3 <= q < |b| - 5 ==> !LiteralAtIgnoreCase(b, q, "</tr>")
  }

  /** The lazy row match at `k` has the shape of a row block. */
  lemma RowAtShape(s: string, k: nat)
    requires RowAt(s, k).Some?
    ensures RowBlockShape(s[k..RowAt(s, k).value])
  {
    var c := FindIgnoreCase(s, k + 3, "</tr>").value;
    var end := c + 5;
    var b := s[k..end];
    LiteralAtIgnoreCaseSlice(s, k, end, 0, "<tr");
    LiteralAtIgnoreCaseSlice(s, k, end, c - k, "</tr>");
    forall q: nat | 3 <= q < |b| - 5 ensures !LiteralAtIgnoreCase(b, q, "</tr>") {
      LiteralAtIgnoreCaseSlice(s, k, end, q, "</tr>");
    }
  }

  /** Every block that the row pattern matches starts with `<tr` and runs through the first `</tr>` after it. */
  lemma {:induction false} RowBlocksShape(s: string, p: nat)
    requires p <= |s|
    ensures forall b :: b in RowBlocks(s, p) ==> RowBlockShape(b)
    decreases |s| - p
  {
    match FirstRow(s, p)
    case None =>
    case Some(k) =>
      var end := RowAt(s, k).value;
      RowAtShape(s, k);
      RowBlocksShape(s, end);
      assert RowBlocks(s, p) == [s[k..end]] + RowBlocks(s, end);
  }

  /** The two groups of the title pattern: the href value and the anchor's inner HTML. */
  datatype TitleMatch = TitleMatch(href: string, inner: string)

  const HrefOpen: string := "href=\""

  /** The rest of the title pattern once `href="` is placed at `h`: `([^"]*)"[^>]*>([\s\S]*?)<\/a>`. */
  function TitleAfterHref(s: string, h: nat): Option<TitleMatch>
    requires h + |HrefOpen| <= |s|
  {
    var v := h + |HrefOpen|;
    match IndexOf(s, v, '"')
    case None => None
    case Some(e) =>
      match IndexOf(s, e + 1, '>')
      case None => None
      case Some(m) =>
        match FindIgnoreCase(s, m + 1, "</a>")
        case None => None
        case Some(c) => Some(TitleMatch(s[v..e], s[m + 1..c]))
  }

  /**
   * Backtracking over the leading `[^>]*`: it first takes everything up to the first `>`,
   * so the candidate places for `href="` are tried from the last one (`h`) back to `lo`.
   */
  function LastHrefMatch(s: string, lo: nat, h: nat): Option<TitleMatch>
    decreases h
  {
    var here := if LiteralAtIgnoreCase(s, h, HrefOpen) then TitleAfterHref(s, h) else None;
    if here.Some? then here else if h <= lo then None else LastHrefMatch(s, lo, h - 1)
  }

  /** `/<a[^>]*href="([^"]*)"[^>]*>([\s\S]*?)<\/a>/i` at position `p`. */
  function TitleAt(s: string, p: nat): Option<TitleMatch> {
    if !LiteralAtIgnoreCase(s, p, "<a") then None
    else
      var firstGt := match IndexOf(s, p + 2, '>') case Some(j) => j case None => |s|;
      LastHrefMatch(s, p + 2, firstGt)
  }

  /** The leftmost position at or after `p` where the title pattern matches. */
  function FirstTitle(s: string, p: nat): (r: Option<nat>)
    requires p <= |s|
    ensures r.Some? ==> p <= r.value <= |s| && TitleAt(s, r.value).Some?
    ensures forall j: nat :: p <= j <= |s| && (r.None? || j < r.value) ==> TitleAt(s, j).None?
    decreases |s| - p
  {
    if TitleAt(s, p).Some? then Some(p) else if p == |s| then None else FirstTitle(s, p + 1)
  }

  /** `rowBlock.match(titlePattern)`: the leftmost title match. */
  function FindTitle(row: string): Option<TitleMatch> {
    match FirstTitle(row, 0)
    case None => None
    case Some(p) => TitleAt(row, p)
  }

  /** `rowBlock.match(titlePattern)` finds the match at the leftmost position where the pattern matches, if any. */
  lemma FindTitleLeftmost(row: string)
    ensures FindTitle(row).None? <==> forall p: nat :: p <= |row| ==> TitleAt(row, p).None?
    ensures FindTitle(row).Some? ==>
      exists p: nat :: p <= |row| && FindTitle(row) == TitleAt(row, p) && forall j: nat :: j < p ==> TitleAt(row, j).None?
  {
  }

  /** The item one row block yields, if any. */
  function RowItem(row: string, resolveUrl: string -> Option<string>): Option<ShAnnouncement> {
    match FindTitle(row)
    case None => None
    case Some(m) =>
      var title := StripHtml(m.inner);
      if |title| == 0 then None
      else
        var rowText := StripHtml(row);
        Some(ShAnnouncement(BuildAnnouncementId(title + " " + rowText), title, NormalizeDetailUrl(Trim(m.href), resolveUrl), ParsePostedAt(rowText)))
  }

  /**
   * A row yields no item without a title anchor or with a blank stripped title; otherwise
   * its id is built from the title followed by the row's text, and its date is read from the row's text.
   */
  lemma RowItemCases(row: string, resolveUrl: string -> Option<string>)
    ensures RowItem(row, resolveUrl).None? <==> FindTitle(row).None? || StripHtml(FindTitle(row).value.inner) == []
    ensures RowItem(row, resolveUrl).Some? ==>
      var item := RowItem(row, resolveUrl).value;
      var rowText := StripHtml(row);
      && item.title == StripHtml(FindTitle(row).value.inner)
      && item.announcementId == "SH-" + ExtractNoticeNumber(item.title + " " + rowText) + "-" + ExtractRecruitRound(item.title + " " + rowText)
      && item.detailUrl == NormalizeDetailUrl(Trim(FindTitle(row).value.href), resolveUrl)
      && item.postedAt == ParsePostedAt(rowText)
  {
  }

  /** An item has a non-blank, trimmed, single-spaced title and an empty or `YYYY-MM-DD` date. */
  ghost predicate WellFormedItem(item: ShAnnouncement) {
    && item.title != [] && IsTrimmed(item.title) && NoWhitespaceRun(item.title)
    && (item.postedAt == [] || IsDashedDate(item.postedAt))
  }

  lemma RowItemWellFormed(row: string, resolveUrl: string -> Option<string>)
    ensures RowItem(row, resolveUrl).Some? ==> WellFormedItem(RowItem(row, resolveUrl).value)
  {
  }

  /** The item each row yields, if any, row by row. */
  function RowItems(rows: seq<string>, resolveUrl: string -> Option<string>): (opts: seq<Option<ShAnnouncement>>)
    ensures |opts| == |rows|
    ensures forall j :: 0 <= j < |rows| ==> opts[j] == RowItem(rows[j], resolveUrl)
  {
    seq(|rows|, j requires 0 <= j < |rows| => RowItem(rows[j], resolveUrl))
  }

  /** The present values among `opts`, in order. */
  function PresentItems(opts: seq<Option<ShAnnouncement>>): seq<ShAnnouncement> {
    if opts == [] then []
    else
      var n := |opts| - 1;
      PresentItems(opts[..n]) + match opts[n] case Some(item) => [item] case None => []
  }

  /** The items of the rows, in row order, before any limit. */
  function BoardItems(rows: seq<string>, resolveUrl: string -> Option<string>): seq<ShAnnouncement> {
    PresentItems(RowItems(rows, resolveUrl))
  }

  /** `parseShBoard`: the items of the first rows, stopping once `recentLimit` items are collected. */
  method ParseShBoard(html: string, recentLimit: int, resolveUrl: string -> Option<string>) returns (items: seq<ShAnnouncement>)
    ensures items <= BoardItems(RowBlocks(html, 0), resolveUrl)
    ensures |items| == if recentLimit <= 0 then 0
      else if recentLimit < |BoardItems(RowBlocks(html, 0), resolveUrl)| then recentLimit
      else |BoardItems(RowBlocks(html, 0), resolveUrl)|
  {
    var rowBlocks := RowBlocks(html, 0);
    ghost var opts := RowItems(rowBlocks, resolveUrl);
    items := [];
    var i := 0;
    while i < |rowBlocks|
      invariant 0 <= i <= |rowBlocks|
      invariant items == PresentItems(opts[..i])
      invariant |items| <= if recentLimit < 0 then 0 else recentLimit
    {
      if |items| >= recentLimit {
        break;
      }
      var rowBlock := rowBlocks[i];
      PresentItemsStep(opts, i);
      assert opts[i] == RowItem(rowBlock, resolveUrl);
      var titleMatch := FindTitle(rowBlock);
      if titleMatch.None? {
        assert opts[i] == None;
        i := i + 1;
        continue;
      }
      var rawHref := Trim(titleMatch.value.href);
      var title := StripHtml(titleMatch.value.inner);
      if |title| == 0 {
        assert opts[i] == None;
        i := i + 1;
        continue;
      }
      var rowText := StripHtml(rowBlock);
      var item := ShAnnouncement(BuildAnnouncementId(title + " " + rowText), title, NormalizeDetailUrl(rawHref, resolveUrl), ParsePostedAt(rowText));
      assert opts[i] == Some(item);
      items := items + [item];
      i := i + 1;
    }
    PresentItemsPrefix(opts, i);
    if i == |rowBlocks| {
      assert opts[..i] == opts;
    }
  }

  /** One more option adds its value, if any. */
  lemma PresentItemsStep(opts: seq<Option<ShAnnouncement>>, i: nat)
    requires i < |opts|
    ensures PresentItems(opts[..i + 1]) == PresentItems(opts[..i]) + match opts[i] case Some(item) => [item] case None => []
  {
    assert opts[..i + 1][..i] == opts[..i];
  }

  /** The present values of a prefix are a prefix of the present values. */
  lemma {:induction false} PresentItemsPrefix(opts: seq<Option<ShAnnouncement>>, i: nat)
    requires i <= |opts|
    ensures PresentItems(opts[..i]) <= PresentItems(opts)
    decreases |opts|
  {
    if i < |opts| {
      var n := |opts| - 1;
      var prefix := opts[..n];
      assert prefix[..i] == opts[..i];
      PresentItemsPrefix(prefix, i);
    } else {
      assert opts[..i] == opts;
    }
  }

  /** Every present value is the value of one of the options. */
  lemma {:induction false} PresentItemsFrom(opts: seq<Option<ShAnnouncement>>)
    ensures forall item :: item in PresentItems(opts) ==> exists j :: 0 <= j < |opts| && opts[j] == Some(item)
  {
    if opts != [] {
      var n := |opts| - 1;
      var prefix := opts[..n];
      PresentItemsFrom(prefix);
      forall item | item in PresentItems(opts) ensures exists j :: 0 <= j < |opts| && opts[j] == Some(item) {
        if item in PresentItems(prefix) {
          var j :| 0 <= j < n && prefix[j] == Some(item);
          assert opts[j] == Some(item);
        } else {
          assert opts[n] == Some(item);
        }
      }
    }
  }

  /** Every item comes from one of the rows and is well formed. */
  lemma BoardItemsWellFormed(rows: seq<string>, resolveUrl: string -> Option<string>)
    ensures forall item :: item in BoardItems(rows, resolveUrl) ==>
      WellFormedItem(item) && exists j :: 0 <= j < |rows| && RowItem(rows[j], resolveUrl) == Some(item)
  {
    var opts := RowItems(rows, resolveUrl);
    PresentItemsFrom(opts);
    forall item | item in BoardItems(rows, resolveUrl)
      ensures WellFormedItem(item) && exists j :: 0 <= j < |rows| && RowItem(rows[j], resolveUrl) == Some(item)
    {
      var j :| 0 <= j < |opts| && opts[j] == Some(item);
      RowItemWellFormed(rows[j], resolveUrl);
    }
  }

  // ---------------------------------------------------------------------------
  // Examples.
  // ---------------------------------------------------------------------------

  /** The notice number of `2026-001 1차 ...` is `2026-001`. */
  lemma NoticeNumberExample(rest: string)
    ensures ExtractNoticeNumber("2026-001 1차" + rest) == "2026-001"
  {
    var s := "2026-001 1차" + rest;
    assert s[0] == '2' && s[1] == '0' && s[2] == '2' && s[3] == '6' && s[4] == '-';
    assert s[5] == '0' && s[6] == '0' && s[7] == '1' && s[8] == ' ';
    assert SkipSpace(s, 4) == 4 && SkipSpace(s, 5) == 5;
    assert DigitRunEnd(s, 5) == 8;
    assert DigitsAt(s, 0, 4);
    assert IsNoticeSeparator(s[4]);
    assert s[0..4] == "2026";
    assert s[5..8] == "001";
    assert "2026" + "-" + "001" == "2026-001";
    assert NoticeMatchAt(s, 0) == Some("2026-001");
  }

  /** The recruit round of `2026-001 1차 ...` is `1`: the digits before it are not followed by `차`. */
  lemma RecruitRoundExample(rest: string)
    ensures ExtractRecruitRound("2026-001 1차" + rest) == "1"
  {
    var s := "2026-001 1차" + rest;
    assert s[0] == '2' && s[1] == '0' && s[2] == '2' && s[3] == '6' && s[4] == '-';
    assert s[5] == '0' && s[6] == '0' && s[7] == '1' && s[8] == ' ' && s[9] == '1' && s[10] == '차';
    assert DigitRunEnd(s, 9) == 10 && SkipSpace(s, 10) == 10;
    assert s[9..10] == "1";
    assert RoundMatchAt(s, 9) == Some("1");
    forall j: nat | j < 9 ensures RoundMatchAt(s, j).None? {
      if j < 4 {
        assert DigitRunEnd(s, j) == 4;
      } else if 5 <= j < 8 {
        assert DigitRunEnd(s, j) == 8;
        assert SkipSpace(s, 8) == 9;
      }
    }
  }

  /** `2026.03.01` at the start of a row's text is posted at `2026-03-01`. */
  lemma PostedAtExample(rest: string)
    ensures ParsePostedAt("2026.03.01" + rest) == "2026-03-01"
  {
    var s := "2026.03.01" + rest;
    assert s[..10] == "2026.03.01";
    assert DateAt(s, 0);
    assert DotsToDashes(s[0..10]) == "2026-03-01";
  }

}
