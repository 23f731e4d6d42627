// scripts/export_for_indexer_tsv.py: the HTML cleaning, title choice,
// field sanitising and numbering that turn stored pages into the TSV
// lines build_index reads.

module HtmlExport {
  import opened Wrappers
  import opened Bytes
  import opened Utf8
  import opened TsvParsing

  // ---------------------------------------------------------------------
  // safe_text: three single-character str.replace calls.

  /** str.replace of one character by another. */
  function Replace(s: string, a: char, b: char): (r: string)
    ensures |r| == |s|
    ensures forall i | 0 <= i < |s| :: r[i] == if s[i] == a then b else s[i]
  {
    if s == [] then [] else [if s[0] == a then b else s[0]] + Replace(s[1..], a, b)
  }

  predicate IsBreak(c: char) { c == '\t' || c == '\n' || c == '\r' }

  /** Tab, LF and CR each become a space; every other character stays
      where it was. */
  function SafeText(s: string): (r: string)
    ensures |r| == |s|
    ensures forall i | 0 <= i < |s| :: r[i] == if IsBreak(s[i]) then ' ' else s[i]
  {
    Replace(Replace(Replace(s, '\t', ' '), '\n', ' '), '\r', ' ')
  }

  /** The output of safe_text has no field or line separator left, and
      leaves a text without them as it was. */
  lemma SafeTextSeparatorFree(s: string)
    ensures '\t' !in SafeText(s) && '\n' !in SafeText(s) && '\r' !in SafeText(s)
    ensures (forall i | 0 <= i < |s| :: !IsBreak(s[i])) ==> SafeText(s) == s
    ensures '\0' !in s ==> '\0' !in SafeText(s)
  {
    var r := SafeText(s);
    forall i | 0 <= i < |r| ensures !IsBreak(r[i]) && (r[i] == '\0' ==> s[i] == '\0') {
    }
  }

  // ---------------------------------------------------------------------
  // strip_html: three pattern substitutions, whitespace collapsing, strip.

  /** The three patterns strip_html replaces by a space:
      `<[^>]+>`, `&[a-zA-Z]+;` and `&#\d+;`. */
  datatype Pattern = Tag | NamedEntity | NumericEntity

  predicate IsAsciiLetter(c: char) { 'a' <= c <= 'z' || 'A' <= c <= 'Z' }
  predicate IsAsciiDigit(c: char) { '0' <= c <= '9' }

  predicate InClass(c: char, digits: bool)
  {
    if digits then IsAsciiDigit(c) else IsAsciiLetter(c)
  }

  /** The first index at or after `i` holding `c`, or |s|. */
  function IndexFrom(s: string, c: char, i: nat): (k: nat)
    requires i <= |s|
    ensures i <= k <= |s| && (k < |s| ==> s[k] == c)
    ensures forall m | i <= m < k :: s[m] != c
    decreases |s| - i
  {
    if i == |s| || s[i] == c then i else IndexFrom(s, c, i + 1)
  }

  /** The end of the run of letters (or digits) that starts at `i`. */
  function RunFrom(s: string, i: nat, digits: bool): (k: nat)
    requires i <= |s|
    ensures i <= k <= |s| && (k < |s| ==> !InClass(s[k], digits))
    ensures forall m | i <= m < k :: InClass(s[m], digits)
    decreases |s| - i
  {
    if i == |s| || !InClass(s[i], digits) then i else RunFrom(s, i + 1, digits)
  }

  /** The character every match of `p` starts with. */
  function Lead(p: Pattern): char
  {
    if p == Tag then '<' else '&'
  }

  /** The length of the match of `p` at the front of `s`, or 0 when none
      starts there. A tag runs to the first '>' and needs one character
      before it; an entity needs at least one letter (digit) and a ';'
      right after them. */
  function MatchLen(s: string, p: Pattern): (n: nat)
    ensures n <= |s| && n != 1
    ensures n > 0 ==> s[0] == Lead(p)
  {
    if s == [] || s[0] != Lead(p) then 0
    else match p
      case Tag =>
        var j := IndexFrom(s, '>', 1);
        if 1 < j < |s| then j + 1 else 0
      case NamedEntity =>
        var j := RunFrom(s, 1, false);
        if 1 < j < |s| && s[j] == ';' then j + 1 else 0
      case NumericEntity =>
        if |s| < 2 || s[1] != '#' then 0
        else
          var j := RunFrom(s, 2, true);
          if 2 < j < |s| && s[j] == ';' then j + 1 else 0
  }

  /** re.sub(pattern, ' ', s): scanning left to right, each match becomes
      one space and scanning resumes after it. */
  function SubAll(s: string, p: Pattern): (r: string)
    ensures |r| <= |s|
    decreases |s|
  {
    if s == [] then []
    else if s[0] != Lead(p) || MatchLen(s, p) == 0 then [s[0]] + SubAll(s[1..], p)
    else [' '] + SubAll(s[MatchLen(s, p)..], p)
  }

  /** Substitution brings in no character but the space. */
  lemma {:induction false} SubAllChars(s: string, p: Pattern, c: char)
    requires c != ' ' && c !in s
    ensures c !in SubAll(s, p)
    decreases |s|
  {
    if s != [] {
      var n := MatchLen(s, p);
      if n > 0 {
        assert c !in s[n..];
        SubAllChars(s[n..], p, c);
      } else {
        assert c !in s[1..];
        SubAllChars(s[1..], p, c);
      }
    }
  }

  lemma SubHead(s: string, p: Pattern)
    requires s != []
    ensures SubAll(s, p) != []
    ensures SubAll(s, p)[0] == if MatchLen(s, p) > 0 then ' ' else s[0]
  {
  }

  /** A stretch without the pattern's first character is copied as it is. */
  lemma {:induction false} SubKeepsPrefix(s: string, m: nat, p: Pattern)
    requires m <= |s| && forall i | 0 <= i < m :: s[i] != Lead(p)
    ensures SubAll(s, p) == s[..m] + SubAll(s[m..], p)
  {
    if m > 0 {
      SubKeepsPrefix(s[1..], m - 1, p);
      assert s[1..][m - 1..] == s[m..];
      assert s[..m] == [s[0]] + s[1..][..m - 1];
    }
  }

  /** The end of a run is where the first character out of the class is. */
  lemma {:induction false} RunFromExact(s: string, i: nat, j: nat, digits: bool)
    requires i <= j <= |s|
    requires forall m | i <= m < j :: InClass(s[m], digits)
    requires j == |s| || !InClass(s[j], digits)
    ensures RunFrom(s, i, digits) == j
    decreases j - i
  {
    if i < j {
      RunFromExact(s, i + 1, j, digits);
    }
  }

  /** A '<' left in place does not start a tag in the output either. */
  lemma TagSurvivor(s: string)
    requires s != [] && s[0] == '<' && MatchLen(s, Tag) == 0
    ensures MatchLen(SubAll(s, Tag), Tag) == 0
  {
    var r := SubAll(s, Tag);
    var j := IndexFrom(s, '>', 1);
    assert r == [s[0]] + SubAll(s[1..], Tag);
    if j == |s| {
      assert '>' !in s[1..];
      SubAllChars(s[1..], Tag, '>');
      assert IndexFrom(r, '>', 1) == |r|;
    } else {
      assert j == 1;
      SubHead(s[1..], Tag);
      assert r[1] == '>';
    }
  }

  /** An '&' left in place does not start an entity in the output either:
      the run of letters (digits) after it is copied unchanged, and what
      ends it is still neither in the class nor a ';'. */
  lemma EntitySurvivor(s: string, p: Pattern)
    requires p != Tag
    requires s != [] && s[0] == '&' && MatchLen(s, p) == 0
    ensures MatchLen(SubAll(s, p), p) == 0
  {
    var r := SubAll(s, p);
    var digits := p == NumericEntity;
    var q := if digits then 2 else 1;
    var j := if p == NumericEntity && (|s| < 2 || s[1] != '#') then 1 else RunFrom(s, q, digits);
    EntityCopied(s, p, j);
    var tail := SubAll(s[j..], p);
    assert r == s[..j] + tail;
    if j < |s| {
      SubHead(s[j..], p);
      assert r[j] == tail[0];
    }
    if j > 1 {
      forall m | q <= m < j ensures InClass(r[m], digits) {
        assert r[m] == s[..j][m] == s[m];
      }
      RunFromExact(r, q, j, digits);
      assert r[q - 1] == s[q - 1];
    }
  }

  /** Behind a surviving '&', a stretch free of '&' is copied as it is. */
  lemma EntityCopied(s: string, p: Pattern, j: nat)
    requires p != Tag
    requires s != [] && s[0] == '&' && MatchLen(s, p) == 0
    requires 1 <= j <= |s| && forall m | 1 <= m < j :: s[m] != '&'
    ensures SubAll(s, p) == s[..j] + SubAll(s[j..], p)
  {
    var t := s[1..];
    assert SubAll(s, p) == [s[0]] + SubAll(t, p);
    forall i | 0 <= i < j - 1 ensures t[i] != Lead(p) {
      assert t[i] == s[i + 1];
    }
    SubKeepsPrefix(t, j - 1, p);
    assert t[j - 1..] == s[j..];
    assert s[..j] == [s[0]] + t[..j - 1];
    Associative([s[0]], t[..j - 1], SubAll(s[j..], p));
  }

  lemma Associative<T>(a: seq<T>, b: seq<T>, c: seq<T>)
    ensures a + (b + c) == (a + b) + c
  {
  }

  /** Once re.sub has run, no match of its pattern is left anywhere in
      its output. */
  lemma {:induction false} NoMatchLeft(s: string, p: Pattern)
    ensures forall k | 0 <= k < |SubAll(s, p)| :: MatchLen(SubAll(s, p)[k..], p) == 0
    decreases |s|
  {
    if s != [] {
      var r := SubAll(s, p);
      var n := MatchLen(s, p);
      var rest := if n > 0 then s[n..] else s[1..];
      NoMatchLeft(rest, p);
      assert r[1..] == SubAll(rest, p);
      forall k | 0 <= k < |r| ensures MatchLen(r[k..], p) == 0 {
        if k > 0 {
          assert r[k..] == SubAll(rest, p)[k - 1..];
        } else if n == 0 && s[0] == Lead(p) {
          if p == Tag { TagSurvivor(s); } else { EntitySurvivor(s, p); }
        }
      }
    }
  }

  /** Running a substitution a second time changes nothing. */
  lemma SubAllIdempotent(s: string, p: Pattern)
    ensures SubAll(SubAll(s, p), p) == SubAll(s, p)
  {
    NoMatchLeft(s, p);
    NoMatchIsIdentity(SubAll(s, p), p);
  }

  lemma {:induction false} NoMatchIsIdentity(s: string, p: Pattern)
    requires forall k | 0 <= k < |s| :: MatchLen(s[k..], p) == 0
    ensures SubAll(s, p) == s
    decreases |s|
  {
    if s != [] {
      assert MatchLen(s[0..], p) == 0 && s[0..] == s;
      forall k | 0 <= k < |s[1..]| ensures MatchLen(s[1..][k..], p) == 0 {
        assert s[1..][k..] == s[k + 1..];
      }
      NoMatchIsIdentity(s[1..], p);
    }
  }

  /** Python's str.isspace, the class both `\s` and str.strip use. */
  predicate IsPySpace(c: char)
  {
    var v := c as int;
    9 <= v <= 13 || 0x1C <= v <= 0x20 || v == 0x85 || v == 0xA0 || v == 0x1680 ||
    0x2000 <= v <= 0x200A || v == 0x2028 || v == 0x2029 || v == 0x202F ||
    v == 0x205F || v == 0x3000
  }

  /** How many whitespace characters start `s`. */
  function LeadingSpace(s: string): (n: nat)
    ensures n <= |s| && (n == |s| || !IsPySpace(s[n]))
    ensures s != [] && IsPySpace(s[0]) ==> n > 0
  {
    if s == [] || !IsPySpace(s[0]) then 0 else LeadingSpace(s[1..]) + 1
  }

  /** The characters of `s` that are not whitespace, in order. */
  function NonSpace(s: string): string
  {
    if s == [] then [] else (if IsPySpace(s[0]) then [] else [s[0]]) + NonSpace(s[1..])
  }

  /** Every whitespace character is a plain space, and no two come in a
      row. */
  predicate SingleSpaced(s: string)
  {
    (forall i | 0 <= i < |s| :: IsPySpace(s[i]) ==> s[i] == ' ') &&
    (forall i | 0 <= i < |s| - 1 :: !(IsPySpace(s[i]) && IsPySpace(s[i + 1])))
  }

  lemma SliceSingleSpaced(s: string, a: nat, b: nat)
    requires a <= b <= |s| && SingleSpaced(s)
    ensures SingleSpaced(s[a..b])
  {
    var t := s[a..b];
    forall i | 0 <= i < |t| - 1 ensures !(IsPySpace(t[i]) && IsPySpace(t[i + 1])) {
      assert t[i] == s[a + i] && t[i + 1] == s[a + i + 1];
    }
  }

  /** re.sub(r'\s+', ' ', s): each run of whitespace becomes one space. */
  function Collapse(s: string): (r: string)
    ensures r == [] <==> s == []
    ensures r != [] ==> (IsPySpace(r[0]) <==> IsPySpace(s[0]))
    decreases |s|
  {
    if s == [] then []
    else if IsPySpace(s[0]) then [' '] + Collapse(s[LeadingSpace(s)..])
    else [s[0]] + Collapse(s[1..])
  }

  /** After collapsing, every whitespace character is a plain space and no
      two come in a row. */
  lemma {:induction false} CollapseSingleSpaced(s: string)
    ensures SingleSpaced(Collapse(s))
    decreases |s|
  {
    if s != [] {
      var rest := if IsPySpace(s[0]) then s[LeadingSpace(s)..] else s[1..];
      CollapseSingleSpaced(rest);
      var r := Collapse(s);
      var tail := Collapse(rest);
      assert r == [r[0]] + tail;
      forall i | 0 <= i < |r| ensures IsPySpace(r[i]) ==> r[i] == ' ' {
        if i > 0 {
          assert r[i] == tail[i - 1];
        }
      }
      forall i | 0 <= i < |r| - 1 ensures !(IsPySpace(r[i]) && IsPySpace(r[i + 1])) {
        if i > 0 {
          assert r[i] == tail[i - 1] && r[i + 1] == tail[i];
        }
      }
    }
  }

  /** Collapsing keeps every other character, in order, and brings in no
      character but the space. */
  lemma {:induction false} CollapseKeeps(s: string, c: char)
    ensures NonSpace(Collapse(s)) == NonSpace(s)
    ensures c != ' ' && c !in s ==> c !in Collapse(s)
    decreases |s|
  {
    if s != [] {
      if IsPySpace(s[0]) {
        var t := s[LeadingSpace(s)..];
        LeadingSpaceNonSpace(s);
        CollapseKeeps(t, c);
        assert c !in s ==> c !in t;
        assert NonSpace([' '] + Collapse(t)) == NonSpace(Collapse(t));
      } else {
        CollapseKeeps(s[1..], c);
        assert NonSpace([s[0]] + Collapse(s[1..])) == [s[0]] + NonSpace(Collapse(s[1..]));
      }
    }
  }

  lemma {:induction false} LeadingSpaceNonSpace(s: string)
    ensures NonSpace(s[LeadingSpace(s)..]) == NonSpace(s)
  {
    if s != [] && IsPySpace(s[0]) {
      LeadingSpaceNonSpace(s[1..]);
      assert s[1..][LeadingSpace(s[1..])..] == s[LeadingSpace(s)..];
    }
  }

  /** How many whitespace characters end `s`. */
  function TrailingSpace(s: string): (n: nat)
    ensures n <= |s|
    ensures forall i | |s| - n <= i < |s| :: IsPySpace(s[i])
    ensures n == |s| || !IsPySpace(s[|s| - n - 1])
  {
    if s == [] || !IsPySpace(s[|s| - 1]) then 0 else TrailingSpace(s[..|s| - 1]) + 1
  }

  /** str.strip(): the slice of `s` between its leading and trailing
      whitespace. */
  function Strip(s: string): (r: string)
    ensures LeadingSpace(s) + |r| <= |s|
    ensures r == s[LeadingSpace(s)..LeadingSpace(s) + |r|]
    ensures r == [] || (!IsPySpace(r[0]) && !IsPySpace(r[|r| - 1]))
  {
    var a := LeadingSpace(s);
    var t := s[a..];
    s[a..a + |t| - TrailingSpace(t)]
  }

  /** The three pattern substitutions strip_html makes, in order. */
  function Substituted(h: string): string
  {
    SubAll(SubAll(SubAll(h, Tag), NamedEntity), NumericEntity)
  }

  /** strip_html. */
  function StripHtml(h: string): string
  {
    Strip(Collapse(Substituted(h)))
  }

  /** strip_html leaves no whitespace at either end of its result, and
      inside it every whitespace character is a plain space and never two
      come in a row. */
  lemma StripHtmlShape(h: string)
    ensures var r := StripHtml(h); r == [] || (!IsPySpace(r[0]) && !IsPySpace(r[|r| - 1]))
    ensures SingleSpaced(StripHtml(h))
  {
    var c := Collapse(Substituted(h));
    CollapseSingleSpaced(Substituted(h));
    SliceSingleSpaced(c, LeadingSpace(c), LeadingSpace(c) + |Strip(c)|);
  }

  /** strip_html brings in no character but the space. */
  lemma StripHtmlChars(h: string, x: char)
    requires x != ' ' && x !in h
    ensures x !in StripHtml(h)
  {
    SubAllChars(h, Tag, x);
    SubAllChars(SubAll(h, Tag), NamedEntity, x);
    SubAllChars(SubAll(SubAll(h, Tag), NamedEntity), NumericEntity, x);
    CollapseKeeps(Substituted(h), x);
    var c := Collapse(Substituted(h));
    assert StripHtml(h) == Strip(c) == c[LeadingSpace(c)..LeadingSpace(c) + |Strip(c)|];
  }

  /** Cleaned text is already safe: safe_text leaves it unchanged. */
  lemma StripHtmlIsSafe(h: string)
    ensures SafeText(StripHtml(h)) == StripHtml(h)
  {
    var r := StripHtml(h);
    StripHtmlShape(h);
    forall i | 0 <= i < |r| ensures !IsBreak(r[i]) {
      assert IsBreak(r[i]) ==> IsPySpace(r[i]);
    }
    SafeTextSeparatorFree(r);
  }

  // ---------------------------------------------------------------------
  // extract_title_from_html

  predicate OpensHeading(s: string, i: nat)
  {
    i + 4 <= |s| && s[i] == '<' && s[i + 1] == 'h' && (s[i + 2] == '1' || s[i + 2] == '2') && s[i + 3] == '>'
  }

  predicate ClosesHeading(s: string, i: nat)
  {
    i + 5 <= |s| && s[i] == '<' && s[i + 1] == '/' && s[i + 2] == 'h' &&
    (s[i + 3] == '1' || s[i + 3] == '2') && s[i + 4] == '>'
  }

  /** The lazy `(.*?)</h[12]>` from `j`: the nearest closing tag, provided
      no line break comes first ('.' does not match a newline). */
  function CloseFrom(s: string, j: nat): (k: Option<nat>)
    requires j <= |s|
    ensures k.Some? ==> j <= k.value && ClosesHeading(s, k.value)
    ensures k.Some? ==> forall m | j <= m < k.value :: s[m] != '\n' && !ClosesHeading(s, m)
    ensures k.None? ==> forall m | j <= m <= |s| :: ClosesHeading(s, m) ==> exists n | j <= n < m :: s[n] == '\n'
    decreases |s| - j
  {
    if ClosesHeading(s, j) then Some(j)
    else if j == |s| || s[j] == '\n' then None
    else CloseFrom(s, j + 1)
  }

  predicate HeadingAt(s: string, i: nat)
  {
    OpensHeading(s, i) && CloseFrom(s, i + 4).Some?
  }

  /** re.search: the leftmost start at or after `i` where the heading
      pattern matches, with the group's bounds. */
  function HeadingFrom(s: string, i: nat): (m: Option<(nat, nat)>)
    requires i <= |s|
    ensures m.None? ==> forall k | i <= k <= |s| :: !HeadingAt(s, k)
    ensures m.Some? ==> 4 <= m.value.0 && i <= m.value.0 - 4 && HeadingAt(s, m.value.0 - 4)
    ensures m.Some? ==> Some(m.value.1) == CloseFrom(s, m.value.0)
    ensures m.Some? ==> forall k | i <= k < m.value.0 - 4 :: !HeadingAt(s, k)
    decreases |s| - i
  {
    if HeadingAt(s, i) then Some((i + 4, CloseFrom(s, i + 4).value))
    else if i == |s| then None
    else HeadingFrom(s, i + 1)
  }

  /** extract_title_from_html. */
  function ExtractTitle(h: string): (t: string)
  {
    match HeadingFrom(h, 0)
    case Some((a, b)) => StripHtml(h[a..b])
    case None =>
      var text := StripHtml(h);
      if |text| > 100 then text[..97] + "..." else if text == [] then "Untitled" else text
  }

  /** Without a heading, the title is the cleaned page cut to exactly 100
      characters ending in "..." when longer than 100, "Untitled" when
      empty, and the cleaned page itself otherwise; so it is never empty
      and never longer than 100 characters. */
  lemma FallbackTitle(h: string)
    requires HeadingFrom(h, 0).None?
    ensures var text := StripHtml(h); var t := ExtractTitle(h);
      0 < |t| <= 100 &&
      (|text| > 100 ==> |t| == 100 && t[..97] == text[..97] && t[97..] == "...") &&
      (text == [] ==> t == "Untitled") &&
      (0 < |text| <= 100 ==> t == text)
  {
  }

  /** A heading on one line wins, even when it cleans to nothing: the
      title is then empty and "Untitled" is not used. */
  lemma EmptyHeadingGivesEmptyTitle(h: string)
    requires h == "<h1></h1>"
    ensures ExtractTitle(h) == ""
  {
    assert HeadingAt(h, 0);
    assert HeadingFrom(h, 0) == Some((4, 4));
    assert h[4..4] == [];
  }

  /** Every title is built from the page's own characters, spaces and the
      letters of "Untitled" and "...". */
  lemma TitleChars(h: string, x: char)
    requires x != ' ' && x !in h && x !in "Untitled."
    ensures x !in ExtractTitle(h)
  {
    match HeadingFrom(h, 0)
    case Some((a, b)) =>
      assert x !in h[a..b];
      StripHtmlChars(h[a..b], x);
    case None =>
      StripHtmlChars(h, x);
      var text := StripHtml(h);
      if |text| > 100 {
        assert x !in text[..97];
      }
  }

  /** A NUL-free page gives a NUL-free title. */
  lemma TitleNulFree(h: string)
    requires '\0' !in h
    ensures '\0' !in ExtractTitle(h)
  {
    assert '\0' !in "Untitled.";
    TitleChars(h, '\0');
  }

  /** A title never holds a tab, LF or CR, so safe_text leaves it as it is. */
  lemma TitleIsSafe(h: string)
    ensures SafeText(ExtractTitle(h)) == ExtractTitle(h)
  {
    var t := ExtractTitle(h);
    match HeadingFrom(h, 0)
    case Some((a, b)) =>
      StripHtmlIsSafe(h[a..b]);
    case None =>
      var text := StripHtml(h);
      StripHtmlIsSafe(h);
      if |text| > 100 {
        forall i | 0 <= i < |t| ensures !IsBreak(t[i]) {
          if i < 97 {
            assert t[i] == text[i];
            assert !IsBreak(SafeText(text)[i]);
          }
        }
        SafeTextSeparatorFree(t);
      }
  }

  // ---------------------------------------------------------------------
  // export_for_indexer: numbering and the skip rule.

  /** A stored page as the export reads it (missing fields read as ""). */
  datatype Page = Page(url: string, html: string)

  /** A written row: the id and what was derived from the page. */
  datatype Row = Row(docId: nat, page: Cleaned)

  /** What the export derives from one page before deciding on it: the
      url, the title and the cleaned text. */
  datatype Cleaned = Cleaned(url: string, title: string, text: string)

  function Clean(p: Page): Cleaned
  {
    Cleaned(p.url, ExtractTitle(p.html), StripHtml(p.html))
  }

  function CleanAll(pages: seq<Page>): seq<Cleaned>
  {
    seq(|pages|, i requires 0 <= i < |pages| => Clean(pages[i]))
  }

  /** A page is written when its cleaned text has at least 100 characters. */
  predicate Kept(c: Cleaned)
  {
    |c.text| >= 100
  }

  /** The rows written for the cleaned pages `cs`, numbered from `first`. */
  function Exported(cs: seq<Cleaned>, first: nat): seq<Row>
  {
    if cs == [] then []
    else (if Kept(cs[0]) then [Row(first, cs[0])] else []) + Exported(cs[1..], first + 1)
  }

  /** How many of the cleaned pages are kept. */
  function KeptCount(cs: seq<Cleaned>): nat
  {
    if cs == [] then 0 else (if Kept(cs[0]) then 1 else 0) + KeptCount(cs[1..])
  }

  /** Ids count every fetched page, so the written ids rise strictly and
      skip the pages that were dropped: every row's id is that of a kept
      page, and the row carries that page. */
  lemma {:induction false} ExportedNumbering(cs: seq<Cleaned>, first: nat)
    ensures var rows := Exported(cs, first);
      |rows| == KeptCount(cs) <= |cs| &&
      (forall k | 0 <= k < |rows| :: first <= rows[k].docId < first + |cs| &&
        rows[k].page == cs[rows[k].docId - first] && Kept(rows[k].page)) &&
      (forall k, l | 0 <= k < l < |rows| :: rows[k].docId < rows[l].docId)
  {
    if cs != [] {
      var rows := Exported(cs, first);
      var tail := Exported(cs[1..], first + 1);
      ExportedNumbering(cs[1..], first + 1);
      var head := if Kept(cs[0]) then [Row(first, cs[0])] else [];
      assert rows == head + tail;
      forall k | 0 <= k < |rows| ensures first <= rows[k].docId < first + |cs| &&
        rows[k].page == cs[rows[k].docId - first] && Kept(rows[k].page)
      {
        if k >= |head| {
          var row := tail[k - |head|];
          assert rows[k] == row;
          assert cs[row.docId - first] == cs[1..][row.docId - (first + 1)];
        }
      }
    }
  }

  /** Every kept page is written, under its own id, after exactly the kept
      pages before it. */
  lemma {:induction false} ExportedCovers(cs: seq<Cleaned>, first: nat, i: nat)
    requires i < |cs| && Kept(cs[i])
    ensures var rows := Exported(cs, first);
      KeptCount(cs[..i]) < |rows| && rows[KeptCount(cs[..i])] == Row(first + i, cs[i])
  {
    var rows := Exported(cs, first);
    var head := if Kept(cs[0]) then [Row(first, cs[0])] else [];
    var tail := Exported(cs[1..], first + 1);
    assert rows == head + tail;
    if i == 0 {
      assert cs[..0] == [];
    } else {
      ExportedCovers(cs[1..], first + 1, i - 1);
      assert cs[..i][1..] == cs[1..][..i - 1];
      var k := KeptCount(cs[1..][..i - 1]);
      assert KeptCount(cs[..i]) == |head| + k;
      assert rows[|head| + k] == tail[k];
    }
  }

  /** The pages the query yields: a positive limit keeps that many, while
      no limit or a limit of 0 (falsy in Python) keeps all. */
  function Fetched(pages: seq<Page>, limit: Option<nat>): (r: seq<Page>)
    ensures limit.Some? && 0 < limit.value <= |pages| ==> r == pages[..limit.value]
    ensures limit.None? || limit.value == 0 || limit.value >= |pages| ==> r == pages
  {
    if limit.Some? && 0 < limit.value < |pages| then pages[..limit.value] else pages
  }

  /** A TSV line from its four fields. */
  function Line(id: nat, url: string, title: string, content: string): string
  {
    Decimal(id) + ("\t" + (url + ("\t" + (title + ("\t" + (content + "\n"))))))
  }

  /** The line written for a row: the fields pass through safe_text. */
  function LineOf(r: Row): string
  {
    Line(r.docId, SafeText(r.page.url), SafeText(r.page.title), SafeText(r.page.text))
  }

  /** The lines written for the rows, in order. */
  function LinesOf(rows: seq<Row>): (r: seq<string>)
    ensures |r| == |rows|
  {
    if rows == [] then [] else [LineOf(rows[0])] + LinesOf(rows[1..])
  }

  lemma {:induction false} LinesOfAppend(rows: seq<Row>, r: Row)
    ensures LinesOf(rows + [r]) == LinesOf(rows) + [LineOf(r)]
  {
    if rows != [] {
      assert (rows + [r])[1..] == rows[1..] + [r];
      LinesOfAppend(rows[1..], r);
    } else {
      assert [] + [r] == [r];
    }
  }

  /** One step of the export loop: the page at index i, numbered i + 1,
      is written or skipped, and the rest is numbered from i + 2. */
  lemma ExportedStep(cs: seq<Cleaned>, i: nat)
    requires i < |cs|
    ensures Exported(cs[i..], i + 1) ==
      (if Kept(cs[i]) then [Row(i + 1, cs[i])] else []) + Exported(cs[i + 1..], i + 1 + 1)
  {
    assert cs[i..][1..] == cs[i + 1..];
  }

  /** export_for_indexer: walks the fetched pages numbering them from 1,
      writes the line of each kept one and returns how many it wrote. */
  method ExportForIndexer(pages: seq<Page>, limit: Option<nat>) returns (lines: seq<string>, exported: nat)
    ensures lines == LinesOf(Exported(CleanAll(Fetched(pages, limit)), 1))
    ensures exported == |lines|
  {
    var query := Fetched(pages, limit);
    ghost var cs := CleanAll(query);
    ghost var rows: seq<Row> := [];
    lines := [];
    exported := 0;
    var i := 0;
    assert cs[i..] == cs;
    while i < |query|
      invariant 0 <= i <= |query|
      invariant rows + Exported(cs[i..], i + 1) == Exported(cs, 1)
      invariant lines == LinesOf(rows)
      invariant exported == |lines|
    {
      ExportedStep(cs, i);
      var page := query[i];
      var docId := i + 1;
      var title := ExtractTitle(page.html);
      var clean := StripHtml(page.html);
      assert cs[i] == Cleaned(page.url, title, clean);
      if clean != [] && |clean| >= 100 {
        var line := Line(docId, SafeText(page.url), SafeText(title), SafeText(clean));
        Associative(rows, [Row(docId, cs[i])], Exported(cs[i + 1..], i + 1 + 1));
        LinesOfAppend(rows, Row(docId, cs[i]));
        rows := rows + [Row(docId, cs[i])];
        lines := lines + [line];
        exported := exported + 1;
      } else {
        assert !Kept(cs[i]);
        assert Exported(cs[i..], i + 1) == Exported(cs[i + 1..], i + 1 + 1);
      }
      assert rows + Exported(cs[i + 1..], i + 1 + 1) == Exported(cs, 1);
      i := i + 1;
    }
    assert cs[i..] == [];
    assert rows + [] == rows;
    assert rows == Exported(cs, 1);
  }

  // ---------------------------------------------------------------------
  // From the exported line to the C parser.

  /** A written line, once encoded as UTF-8, is read back by
      parse_tsv_line into exactly the safe_text'ed fields, as long as the
      fields hold no NUL, the id fits atoi, the url is non-empty and each
      field's bytes fit their buffers. */
  lemma ExportedLineParses(id: nat, c: Cleaned)
    requires 0 < id < 0x8000_0000 && Kept(c)
    requires '\0' !in c.url && '\0' !in c.title && '\0' !in c.text
    requires 0 < ByteLength(SafeText(c.url)) <= URL_LIMIT && ByteLength(SafeText(c.title)) <= TITLE_LIMIT &&
      ByteLength(SafeText(c.text)) <= CONTENT_LIMIT
    ensures '\0' !in SafeText(c.url) && '\0' !in SafeText(c.title) && '\0' !in SafeText(c.text)
    ensures ParseTsv(Encode(LineOf(Row(id, c)))) ==
      Some(TsvLine(id, Encode(SafeText(c.url)), Encode(SafeText(c.title)), Encode(SafeText(c.text))))
  {
    SafeTextSeparatorFree(c.url);
    SafeTextSeparatorFree(c.title);
    SafeTextSeparatorFree(c.text);
    LineParses(id, SafeText(c.url), SafeText(c.title), SafeText(c.text));
  }

  /** The string-level half: fields with no NUL, no separator inside a
      field and that fit their buffers are parsed back field for field. */
  lemma LineParses(id: nat, url: string, title: string, content: string)
    requires 0 < id < 0x8000_0000
    requires '\0' !in url && '\0' !in title && '\0' !in content
    requires '\t' !in url && '\t' !in title && '\n' !in content && '\r' !in content && content != []
    requires 0 < ByteLength(url) <= URL_LIMIT && ByteLength(title) <= TITLE_LIMIT &&
      ByteLength(content) <= CONTENT_LIMIT
    ensures '\0' !in Line(id, url, title, content)
    ensures ParseTsv(Encode(Line(id, url, title, content))) ==
      Some(TsvLine(id, Encode(url), Encode(title), Encode(content)))
  {
    var eu, et, ec := Encode(url), Encode(title), Encode(content);
    LineEncoding(id, url, title, content);
    EncodeLength(url);
    EncodeLength(title);
    EncodeLength(content);
    AsciiByteIn(url, '\t');
    AsciiByteIn(title, '\t');
    AsciiByteIn(content, '\n');
    AsciiByteIn(content, '\r');
    LineRoundTrip(id, eu, et, ec);
  }

  /** The bytes of a written line are the TSV line of its fields' bytes. */
  lemma LineEncoding(id: nat, url: string, title: string, content: string)
    requires '\0' !in url && '\0' !in title && '\0' !in content
    ensures '\0' !in Line(id, url, title, content)
    ensures Encode(Line(id, url, title, content)) == TsvLineOf(id, Encode(url), Encode(title), Encode(content))
  {
    var d: string := Decimal(id);
    var cn := content + "\n";
    var tc := "\t" + cn;
    var ti := title + tc;
    var tt := "\t" + ti;
    var ur := url + tt;
    var tu := "\t" + ur;
    EncodeAscii("\t");
    EncodeAscii("\n");
    EncodeAscii(d);
    EncodeAppend(content, "\n");
    EncodeAppend("\t", cn);
    EncodeAppend(title, tc);
    EncodeAppend("\t", ti);
    EncodeAppend(url, tt);
    EncodeAppend("\t", ur);
    EncodeAppend(d, tu);
  }

  /** A page without NUL gives a title and a cleaned text without NUL. */
  lemma CleanNulFree(p: Page)
    requires '\0' !in p.html
    ensures '\0' !in Clean(p).title && '\0' !in Clean(p).text
  {
    TitleNulFree(p.html);
    StripHtmlChars(p.html, '\0');
  }

  /** A title chosen without a heading always fits the 511-byte title
      buffer: at most 100 characters of at most four bytes each. */
  lemma FallbackTitleFits(h: string)
    requires HeadingFrom(h, 0).None?
    ensures ByteLength(ExtractTitle(h)) <= 400 < TITLE_LIMIT
  {
    FallbackTitle(h);
  }
}
