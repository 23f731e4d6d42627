/** parse_tsv_line of src/build_index.cpp: one line of the indexer's input,
    "doc_id<TAB>url<TAB>title<TAB>content<LF>", split into its fields.

    The line is the C string fgets left in the buffer (so it holds no NUL and
    keeps its line break). The doc id is what atoi reads at the front of the
    line, stored in a uint32. url and title are copied up to the next tab,
    at most 511 bytes each; content up to LF, CR or the end, at most 99999
    bytes. After each of the first three fields the parser steps over one
    byte, which it takes to be the tab, and fails if the line has ended. */
module TsvParsing {
  import opened Bytes
  import opened IndexTypes
  import opened Wrappers

  /** The copy limits: the 512-byte url and title buffers and the
      100000-byte content buffer, less the terminating NUL. */
  const URL_LIMIT: nat := 511
  const TITLE_LIMIT: nat := 511
  const CONTENT_LIMIT: nat := 99999

  // ---------------------------------------------------------------------
  // atoi

  /** The line after the white space atoi skips. */
  function SkipSpace(s: seq<cchar>): (t: seq<cchar>)
    ensures |t| <= |s| && t == s[|s| - |t|..]
    ensures t == [] || !IsSpace(t[0])
  {
    if s != [] && IsSpace(s[0]) then SkipSpace(s[1..]) else s
  }

  predicate AllDigits(d: seq<cchar>)
  {
    forall k | 0 <= k < |d| :: IsDigit(d[k])
  }

  /** The value of the run of decimal digits at the front of `s`, read
      left to right onto `acc`. */
  function DigitsValue(s: seq<cchar>, acc: nat): nat
  {
    if s != [] && IsDigit(s[0]) then DigitsValue(s[1..], acc * 10 + (s[0] as int - '0' as int)) else acc
  }

  /** atoi: optional white space, an optional sign, then decimal digits. */
  function Atoi(s: seq<cchar>): int
  {
    var t := SkipSpace(s);
    if t != [] && t[0] == '-' then -(DigitsValue(t[1..], 0) as int)
    else if t != [] && t[0] == '+' then DigitsValue(t[1..], 0)
    else DigitsValue(t, 0)
  }

  /** `doc_id = atoi(p)`: the int converted to uint32, which keeps it modulo
      2^32 (so "-1" becomes 4294967295). */
  function DocIdOf(line: seq<cchar>): (id: u32)
    ensures 0 <= Atoi(line) < U32_MODULUS ==> id == Atoi(line)
  {
    Atoi(line) % U32_MODULUS
  }

  // ---------------------------------------------------------------------
  // The fields

  /** A byte that ends a field: a tab for the doc id, url and title, LF or
      CR for the content. */
  predicate EndsField(c: cchar, content: bool)
  {
    if content then c == '\n' || c == '\r' else c == '\t'
  }

  /** Where copying a field that starts at `from` stops: at the end of the
      line, at a byte that ends the field, or once `limit` bytes are copied. */
  function FieldEnd(line: seq<cchar>, from: nat, limit: nat, content: bool): (e: nat)
    requires from <= |line|
    ensures from <= e <= |line| && e - from <= limit
    decreases limit
  {
    if limit == 0 || from == |line| || EndsField(line[from], content) then from
    else FieldEnd(line, from + 1, limit - 1, content)
  }

  /** A copied field holds no byte that ends it, and copying stops at the
      end of the line, at such a byte, or with the buffer full. */
  lemma {:induction false} FieldEndStops(line: seq<cchar>, from: nat, limit: nat, content: bool)
    requires from <= |line|
    ensures var e := FieldEnd(line, from, limit, content);
      (forall k | from <= k < e :: !EndsField(line[k], content)) &&
      (e == |line| || EndsField(line[e], content) || e - from == limit)
    decreases limit
  {
    if !(limit == 0 || from == |line| || EndsField(line[from], content)) {
      FieldEndStops(line, from + 1, limit - 1, content);
    }
  }

  /** The first tab at or after `from`, or the end of the line. */
  function TabFrom(line: seq<cchar>, from: nat): (e: nat)
    requires from <= |line|
    ensures from <= e <= |line|
    ensures forall k | from <= k < e :: line[k] != '\t'
    ensures e == |line| || line[e] == '\t'
    decreases |line| - from
  {
    if from == |line| || line[from] == '\t' then from else TabFrom(line, from + 1)
  }

  datatype TsvLine = TsvLine(docId: u32, url: seq<cchar>, title: seq<cchar>, content: seq<cchar>)

  /** The fields parse_tsv_line accepts, or None where it returns false. */
  function ParseTsv(line: seq<cchar>): Option<TsvLine>
  {
    var tab := TabFrom(line, 0);
    if tab == |line| then None else ParseUrl(line, DocIdOf(line), tab + 1)
  }

  /** The rest of the parse once the url starts at `u0`: None when the line
      ends before a byte after the url. */
  function ParseUrl(line: seq<cchar>, id: u32, u0: nat): Option<TsvLine>
    requires u0 <= |line|
  {
    var u1 := FieldEnd(line, u0, URL_LIMIT, false);
    if u1 == |line| then None else ParseTitle(line, id, line[u0..u1], u1 + 1)
  }

  /** The rest of the parse once the title starts at `t0`. */
  function ParseTitle(line: seq<cchar>, id: u32, url: seq<cchar>, t0: nat): Option<TsvLine>
    requires t0 <= |line|
  {
    var t1 := FieldEnd(line, t0, TITLE_LIMIT, false);
    if t1 == |line| then None else ParseContent(line, id, url, line[t0..t1], t1 + 1)
  }

  /** The content from `c0`, and the final test: doc_id > 0, url and
      content non-empty. */
  function ParseContent(line: seq<cchar>, id: u32, url: seq<cchar>, title: seq<cchar>, c0: nat): Option<TsvLine>
    requires c0 <= |line|
  {
    var c1 := FieldEnd(line, c0, CONTENT_LIMIT, true);
    if id > 0 && |url| > 0 && c1 > c0 then Some(TsvLine(id, url, title, line[c0..c1])) else None
  }

  /** Once the url field is known to end at `u0 + n`, before the end of the
      line, the parse goes on with the title after the tab. */
  lemma UrlStep(line: seq<cchar>, id: u32, u0: nat, url: seq<cchar>)
    requires u0 + |url| < |line| && FieldEnd(line, u0, URL_LIMIT, false) == u0 + |url|
    requires line[u0..u0 + |url|] == url
    ensures ParseUrl(line, id, u0) == ParseTitle(line, id, url, u0 + |url| + 1)
  {
  }

  /** Once the title field is known to end at `t0 + |title|`, before the
      end of the line, the parse goes on with the content after the tab. */
  lemma TitleStep(line: seq<cchar>, id: u32, url: seq<cchar>, t0: nat, title: seq<cchar>)
    requires t0 + |title| < |line| && FieldEnd(line, t0, TITLE_LIMIT, false) == t0 + |title|
    requires line[t0..t0 + |title|] == title
    ensures ParseTitle(line, id, url, t0) == ParseContent(line, id, url, title, t0 + |title| + 1)
  {
  }

  /** The content field and the final test. */
  lemma ContentStep(line: seq<cchar>, id: u32, url: seq<cchar>, title: seq<cchar>, c0: nat, content: seq<cchar>)
    requires c0 + |content| <= |line| && FieldEnd(line, c0, CONTENT_LIMIT, true) == c0 + |content|
    requires line[c0..c0 + |content|] == content
    ensures ParseContent(line, id, url, title, c0) ==
      if id > 0 && |url| > 0 && |content| > 0 then Some(TsvLine(id, url, title, content)) else None
  {
  }

  /** What a successful parse guarantees of its fields. */
  predicate Parsed(t: TsvLine)
  {
    t.docId > 0 && 0 < |t.url| <= URL_LIMIT && |t.title| <= TITLE_LIMIT &&
    0 < |t.content| <= CONTENT_LIMIT &&
    '\t' !in t.url && '\t' !in t.title && '\n' !in t.content && '\r' !in t.content
  }

  /** An accepted line has a positive doc id, a non-empty url and content,
      fields within their buffers, no tab in url or title and no line break
      in the content; a line without a tab is refused. */
  lemma ParseTsvGuarantees(line: seq<cchar>)
    ensures ParseTsv(line).Some? ==> ParseTsv(line).value.docId == DocIdOf(line) && Parsed(ParseTsv(line).value)
    ensures '\t' !in line ==> ParseTsv(line).None?
  {
    var tab := TabFrom(line, 0);
    if tab < |line| {
      ParseUrlGuarantees(line, DocIdOf(line), tab + 1);
    }
  }

  lemma ParseUrlGuarantees(line: seq<cchar>, id: u32, u0: nat)
    requires u0 <= |line|
    ensures ParseUrl(line, id, u0).Some? ==> ParseUrl(line, id, u0).value.docId == id && Parsed(ParseUrl(line, id, u0).value)
  {
    var u1 := FieldEnd(line, u0, URL_LIMIT, false);
    if u1 < |line| {
      FieldEndStops(line, u0, URL_LIMIT, false);
      NoEndIn(line, u0, u1, false);
      ParseTitleGuarantees(line, id, line[u0..u1], u1 + 1);
    }
  }

  lemma ParseTitleGuarantees(line: seq<cchar>, id: u32, url: seq<cchar>, t0: nat)
    requires t0 <= |line| && |url| <= URL_LIMIT && '\t' !in url
    ensures ParseTitle(line, id, url, t0).Some? ==>
      ParseTitle(line, id, url, t0).value.docId == id && Parsed(ParseTitle(line, id, url, t0).value)
  {
    var t1 := FieldEnd(line, t0, TITLE_LIMIT, false);
    if t1 < |line| {
      FieldEndStops(line, t0, TITLE_LIMIT, false);
      NoEndIn(line, t0, t1, false);
      var c0 := t1 + 1;
      FieldEndStops(line, c0, CONTENT_LIMIT, true);
      NoEndIn(line, c0, FieldEnd(line, c0, CONTENT_LIMIT, true), true);
    }
  }

  lemma NoEndIn(line: seq<cchar>, from: nat, e: nat, content: bool)
    requires from <= e <= |line|
    requires forall k | from <= k < e :: !EndsField(line[k], content)
    ensures content ==> '\n' !in line[from..e] && '\r' !in line[from..e]
    ensures !content ==> '\t' !in line[from..e]
  {
    forall c | c in line[from..e] ensures !EndsField(c, content) {
      var k :| 0 <= k < e - from && line[from..e][k] == c;
      assert line[from + k] == c;
    }
  }

  /** One of parse_tsv_line's copy loops: `field` gets the bytes from `from`
      up to where FieldEnd stops. */
  method CopyField(line: seq<cchar>, from: nat, limit: nat, content: bool) returns (field: seq<cchar>, p: nat)
    requires from <= |line|
    ensures p == FieldEnd(line, from, limit, content)
    ensures field == line[from..p]
  {
    p := from;
    field := [];
    var i := 0;
    while p < |line| && !EndsField(line[p], content) && i < limit
      invariant from <= p <= |line| && i == p - from <= limit
      invariant field == line[from..p]
      invariant FieldEnd(line, p, limit - i, content) == FieldEnd(line, from, limit, content)
    {
      field := field + [line[p]];
      i := i + 1;
      p := p + 1;
    }
  }

  /** parse_tsv_line: `ok` is its return value; when it is true the four
      outputs hold the parsed fields. doc_id is set in every case. */
  method ParseTsvLine(line: seq<cchar>) returns (ok: bool, docId: u32, url: seq<cchar>, title: seq<cchar>, content: seq<cchar>)
    ensures docId == DocIdOf(line)
    ensures ok <==> ParseTsv(line).Some?
    ensures ok ==> ParseTsv(line) == Some(TsvLine(docId, url, title, content))
  {
    docId := DocIdOf(line);
    url, title, content := [], [], [];
    var p := 0;
    while p < |line| && line[p] != '\t'
      invariant p <= |line| && TabFrom(line, p) == TabFrom(line, 0)
    {
      p := p + 1;
    }
    if p == |line| {
      return false, docId, url, title, content;
    }
    ok, url, title, content := ParseFields(line, docId, p + 1);
  }

  /** The rest of parse_tsv_line once the url starts at `u0`: the url,
      title and content loops, each followed by the step over the tab. */
  method ParseFields(line: seq<cchar>, id: u32, u0: nat) returns (ok: bool, url: seq<cchar>, title: seq<cchar>, content: seq<cchar>)
    requires u0 <= |line|
    ensures ok <==> ParseUrl(line, id, u0).Some?
    ensures ok ==> ParseUrl(line, id, u0) == Some(TsvLine(id, url, title, content))
  {
    title, content := [], [];
    var p;
    url, p := CopyField(line, u0, URL_LIMIT, false);
    if p == |line| {
      return false, url, title, content;
    }
    p := p + 1;
    assert ParseUrl(line, id, u0) == ParseTitle(line, id, url, p);
    ghost var t0 := p;
    title, p := CopyField(line, p, TITLE_LIMIT, false);
    if p == |line| {
      return false, url, title, content;
    }
    p := p + 1;
    assert ParseTitle(line, id, url, t0) == ParseContent(line, id, url, title, p);
    content, p := CopyField(line, p, CONTENT_LIMIT, true);
    ok := id > 0 && |url| > 0 && |content| > 0;
  }

  // ---------------------------------------------------------------------
  // Lines the exporter writes parse back

  function DigitChar(d: nat): (c: cchar)
    requires d < 10
    ensures IsDigit(c) && c as int - '0' as int == d
  {
    ('0' as int + d) as char
  }

  /** The decimal numeral of `n`, as Python's str(n) and f"{n}" write it. */
  function Decimal(n: nat): (d: seq<cchar>)
    ensures d != [] && AllDigits(d)
    ensures n > 0 ==> d[0] != '0'
  {
    if n < 10 then [DigitChar(n)] else Decimal(n / 10) + [DigitChar(n % 10)]
  }

  /** Reading a run of digits and then more text is reading the run first. */
  lemma {:induction false} DigitsValueAppend(d: seq<cchar>, rest: seq<cchar>, acc: nat)
    requires AllDigits(d)
    ensures DigitsValue(d + rest, acc) == DigitsValue(rest, DigitsValue(d, acc))
  {
    if d != [] {
      assert (d + rest)[1..] == d[1..] + rest;
      DigitsValueAppend(d[1..], rest, acc * 10 + (d[0] as int - '0' as int));
    } else {
      assert d + rest == rest;
    }
  }

  /** atoi reads back the numeral Python writes. */
  lemma {:induction false} DecimalValue(n: nat)
    ensures DigitsValue(Decimal(n), 0) == n
  {
    if n >= 10 {
      DecimalValue(n / 10);
      DigitsValueAppend(Decimal(n / 10), [DigitChar(n % 10)], 0);
    }
  }

  /** The line the exporter writes for one document. */
  function TsvLineOf(id: nat, url: seq<cchar>, title: seq<cchar>, content: seq<cchar>): seq<cchar>
  {
    Decimal(id) + (['\t'] + UrlRest(url, title, content))
  }

  function UrlRest(url: seq<cchar>, title: seq<cchar>, content: seq<cchar>): seq<cchar>
  {
    url + (['\t'] + TitleRest(title, content))
  }

  function TitleRest(title: seq<cchar>, content: seq<cchar>): seq<cchar>
  {
    title + (['\t'] + (content + ['\n']))
  }

  lemma AtoiOfDecimalLine(id: nat, rest: seq<cchar>)
    requires rest != [] && rest[0] == '\t'
    ensures Atoi(Decimal(id) + rest) == id
  {
    var s := Decimal(id) + rest;
    assert !IsSpace(s[0]) && s[0] != '-' && s[0] != '+';
    assert SkipSpace(s) == s;
    DigitsValueAppend(Decimal(id), rest, 0);
    DecimalValue(id);
  }

  lemma {:induction false} FieldEndAt(line: seq<cchar>, from: nat, limit: nat, content: bool, e: nat)
    requires from <= e < |line| && e - from <= limit
    requires forall k | from <= k < e :: !EndsField(line[k], content)
    requires EndsField(line[e], content)
    ensures FieldEnd(line, from, limit, content) == e
    decreases e - from
  {
    if from < e {
      FieldEndAt(line, from + 1, limit - 1, content, e);
    }
  }

  /** `x` occurs in `line` starting at `at`. */
  predicate At(line: seq<cchar>, at: nat, x: seq<cchar>)
  {
    at + |x| <= |line| && forall k | 0 <= k < |x| :: line[at + k] == x[k]
  }

  lemma SuffixAt(line: seq<cchar>, at: nat, x: seq<cchar>)
    requires at <= |line| && line[at..] == x
    ensures At(line, at, x)
  {
    forall k | 0 <= k < |x| ensures line[at + k] == x[k] {
      assert line[at..][k] == x[k];
    }
  }

  /** A field followed by the byte that ends it: the copy stops right there,
      and the rest follows the separator. */
  lemma FieldThenRest(line: seq<cchar>, from: nat, field: seq<cchar>, sep: cchar, rest: seq<cchar>, limit: nat, content: bool)
    requires At(line, from, field + ([sep] + rest))
    requires EndsField(sep, content) && |field| <= limit
    requires forall k | 0 <= k < |field| :: !EndsField(field[k], content)
    ensures FieldEnd(line, from, limit, content) == from + |field| < |line|
    ensures line[from..from + |field|] == field && At(line, from + |field| + 1, rest)
  {
    var x := field + ([sep] + rest);
    var e := from + |field|;
    assert line[from + |field|] == x[|field|] == sep;
    forall k | from <= k < e ensures !EndsField(line[k], content) {
      assert line[from + (k - from)] == x[k - from] == field[k - from];
    }
    FieldEndAt(line, from, limit, content, e);
    forall k | 0 <= k < |field| ensures line[from..e][k] == field[k] {
      assert line[from + k] == x[k];
    }
    forall k | 0 <= k < |rest| ensures line[e + 1 + k] == rest[k] {
      assert line[from + (|field| + 1 + k)] == x[|field| + 1 + k];
    }
  }

  lemma NoEndsIn(s: seq<cchar>, content: bool)
    requires content ==> '\n' !in s && '\r' !in s
    requires !content ==> '\t' !in s
    ensures forall k | 0 <= k < |s| :: !EndsField(s[k], content)
  {
  }

  lemma TitleRoundTrip(line: seq<cchar>, id: u32, url: seq<cchar>, t0: nat, title: seq<cchar>, content: seq<cchar>)
    requires At(line, t0, TitleRest(title, content))
    requires |title| <= TITLE_LIMIT && 0 < |content| <= CONTENT_LIMIT
    requires '\t' !in title && '\n' !in content && '\r' !in content
    ensures ParseTitle(line, id, url, t0) == if id > 0 && |url| > 0 then Some(TsvLine(id, url, title, content)) else None
  {
    NoEndsIn(title, false);
    FieldThenRest(line, t0, title, '\t', content + ['\n'], TITLE_LIMIT, false);
    var c0 := t0 + |title| + 1;
    NoEndsIn(content, true);
    assert content + ['\n'] == content + (['\n'] + []);
    FieldThenRest(line, c0, content, '\n', [], CONTENT_LIMIT, true);
    TitleStep(line, id, url, t0, title);
    ContentStep(line, id, url, title, c0, content);
  }

  lemma UrlRoundTrip(line: seq<cchar>, id: u32, u0: nat, url: seq<cchar>, title: seq<cchar>, content: seq<cchar>)
    requires At(line, u0, UrlRest(url, title, content))
    requires 0 < |url| <= URL_LIMIT && |title| <= TITLE_LIMIT && 0 < |content| <= CONTENT_LIMIT
    requires '\t' !in url && '\t' !in title && '\n' !in content && '\r' !in content
    ensures ParseUrl(line, id, u0) == if id > 0 then Some(TsvLine(id, url, title, content)) else None
  {
    NoEndsIn(url, false);
    FieldThenRest(line, u0, url, '\t', TitleRest(title, content), URL_LIMIT, false);
    var t0 := u0 + |url| + 1;
    UrlStep(line, id, u0, url);
    TitleRoundTrip(line, id, url, t0, title, content);
  }

  /** A line "id<TAB>url<TAB>title<TAB>content<LF>" with a positive id that
      atoi can read, no tab in url and title, no line break in content, and
      every field within its buffer, parses back to exactly those fields. */
  lemma LineRoundTrip(id: nat, url: seq<cchar>, title: seq<cchar>, content: seq<cchar>)
    requires 0 < id < 0x8000_0000
    requires 0 < |url| <= URL_LIMIT && |title| <= TITLE_LIMIT && 0 < |content| <= CONTENT_LIMIT
    requires '\t' !in url && '\t' !in title && '\n' !in content && '\r' !in content
    ensures ParseTsv(TsvLineOf(id, url, title, content)) == Some(TsvLine(id, url, title, content))
  {
    var line := TsvLineOf(id, url, title, content);
    var d := Decimal(id);
    var rest := ['\t'] + UrlRest(url, title, content);
    assert line[..|d|] == d && line[|d|] == '\t';
    TabAfterDigits(line, d);
    AtoiOfDecimalLine(id, rest);
    assert line[|d| + 1..] == UrlRest(url, title, content);
    SuffixAt(line, |d| + 1, UrlRest(url, title, content));
    UrlRoundTrip(line, id, |d| + 1, url, title, content);
  }

  lemma {:induction false} TabAfterDigits(line: seq<cchar>, d: seq<cchar>)
    requires AllDigits(d) && |d| < |line| && line[..|d|] == d && line[|d|] == '\t'
    ensures TabFrom(line, 0) == |d|
  {
    assert forall k | 0 <= k < |d| :: line[k] == d[k];
    TabFromSkips(line, 0, |d|);
  }

  lemma {:induction false} TabFromSkips(line: seq<cchar>, from: nat, e: nat)
    requires from <= e < |line| && line[e] == '\t'
    requires forall k | from <= k < e :: line[k] != '\t'
    ensures TabFrom(line, from) == e
    decreases e - from
  {
    if from < e {
      TabFromSkips(line, from + 1, e);
    }
  }

  /** A field that runs to its limit stops there, whatever follows. */
  lemma {:induction false} FieldEndFull(line: seq<cchar>, from: nat, limit: nat, content: bool)
    requires from + limit <= |line|
    requires forall k | from <= k < from + limit :: !EndsField(line[k], content)
    ensures FieldEnd(line, from, limit, content) == from + limit
    decreases limit
  {
    if limit > 0 {
      FieldEndFull(line, from + 1, limit - 1, content);
    }
  }

  /** A url one byte longer than the buffer is cut at 511 bytes, and its
      last byte is stepped over as if it were the tab: the real tab then
      ends an empty title, and the title runs into the content. */
  lemma LongUrlSpills(id: nat, url: seq<cchar>, title: seq<cchar>, content: seq<cchar>)
    requires 0 < id < 0x8000_0000
    requires |url| == URL_LIMIT + 1 && '\t' !in url
    requires '\n' !in title && '\r' !in title && '\n' !in content && '\r' !in content
    requires |title| + 1 + |content| <= CONTENT_LIMIT
    ensures ParseTsv(TsvLineOf(id, url, title, content)) ==
      Some(TsvLine(id, url[..URL_LIMIT], [], title + ['\t'] + content))
  {
    var line := TsvLineOf(id, url, title, content);
    var d := Decimal(id);
    var rest := ['\t'] + UrlRest(url, title, content);
    assert line[..|d|] == d && line[|d|] == '\t';
    TabAfterDigits(line, d);
    AtoiOfDecimalLine(id, rest);
    assert line[|d| + 1..] == UrlRest(url, title, content);
    SuffixAt(line, |d| + 1, UrlRest(url, title, content));
    LongUrlRest(line, id, |d| + 1, url, title, content);
  }

  lemma LongUrlRest(line: seq<cchar>, id: u32, u0: nat, url: seq<cchar>, title: seq<cchar>, content: seq<cchar>)
    requires At(line, u0, UrlRest(url, title, content))
    requires |url| == URL_LIMIT + 1 && '\t' !in url
    requires '\n' !in title && '\r' !in title && '\n' !in content && '\r' !in content
    requires |title| + 1 + |content| <= CONTENT_LIMIT
    ensures ParseUrl(line, id, u0) ==
      if id > 0 then Some(TsvLine(id, url[..URL_LIMIT], [], title + ['\t'] + content)) else None
  {
    var body: seq<cchar> := title + ['\t'] + content;
    UrlCut(line, u0, url, title, content);
    var t0 := u0 + URL_LIMIT + 1;
    UrlStep(line, id, u0, url[..URL_LIMIT]);
    TitleRoundTrip(line, id, url[..URL_LIMIT], t0, [], body);
  }

  /** Copying a url one byte too long stops at the buffer's end; what
      follows the skipped byte reads as a line with an empty title. */
  lemma UrlCut(line: seq<cchar>, u0: nat, url: seq<cchar>, title: seq<cchar>, content: seq<cchar>)
    requires At(line, u0, UrlRest(url, title, content))
    requires |url| == URL_LIMIT + 1 && '\t' !in url
    ensures FieldEnd(line, u0, URL_LIMIT, false) == u0 + URL_LIMIT < |line|
    ensures line[u0..u0 + URL_LIMIT] == url[..URL_LIMIT]
    ensures At(line, u0 + URL_LIMIT + 1, TitleRest([], title + ['\t'] + content))
  {
    var x := UrlRest(url, title, content);
    forall k | u0 <= k < u0 + URL_LIMIT ensures !EndsField(line[k], false) {
      assert line[u0 + (k - u0)] == x[k - u0] == url[k - u0];
    }
    FieldEndFull(line, u0, URL_LIMIT, false);
    forall k | 0 <= k < URL_LIMIT ensures line[u0..u0 + URL_LIMIT][k] == url[..URL_LIMIT][k] {
      assert line[u0 + k] == x[k] == url[k];
    }
    var tail := ['\t'] + TitleRest(title, content);
    assert tail == TitleRest([], title + ['\t'] + content);
    forall k | 0 <= k < |tail| ensures line[u0 + URL_LIMIT + 1 + k] == tail[k] {
      assert line[u0 + (|url| + k)] == x[|url| + k] == tail[k];
    }
  }
}
