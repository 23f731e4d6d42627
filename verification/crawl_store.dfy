// What the two crawlers (scripts/crawler.py and scripts/fast_crawler.py)
// share: the URL key a page is stored under (normalize_url, identical in
// both files), the document record kept in the MongoDB collection, the
// statistics counters, and the insert / skip / update rule of
// save_document. The collection is a map from normalised URL to record;
// MD5 digests, timestamps and every network answer are inputs.

module CrawlStore {
  import opened Wrappers

  // ---------------------------------------------------------------------
  // normalize_url: urllib.parse.urlparse, then scheme://netloc + path,
  // lower-cased.

  predicate IsAsciiLetter(c: char) { 'a' <= c <= 'z' || 'A' <= c <= 'Z' }

  /** The characters urllib accepts in a scheme. */
  predicate IsSchemeChar(c: char) {
    IsAsciiLetter(c) || '0' <= c <= '9' || c == '+' || c == '-' || c == '.'
  }

  /** A scheme as urlsplit recognises one: an ASCII letter, then scheme
      characters. */
  predicate IsScheme(s: string) {
    |s| > 0 && IsAsciiLetter(s[0]) && forall k | 0 <= k < |s| :: IsSchemeChar(s[k])
  }

  /** str.lower on the ASCII letters. */
  function LowerChar(c: char): char {
    if 'A' <= c <= 'Z' then (c as int + 32) as char else c
  }

  function Lower(s: string): (r: string)
    ensures |r| == |s|
    ensures forall i | 0 <= i < |s| :: r[i] == LowerChar(s[i])
  {
    seq(|s|, i requires 0 <= i < |s| => LowerChar(s[i]))
  }

  lemma LowerAppend(a: string, b: string)
    ensures Lower(a + b) == Lower(a) + Lower(b)
  {
    assert forall i | 0 <= i < |a + b| :: Lower(a + b)[i] == (Lower(a) + Lower(b))[i];
  }

  /** The first index at or after `from` holding a character of `cs`, or
      |s| when there is none (str.find, with the length for -1). */
  function FirstOf(s: string, cs: set<char>, from: nat): (i: nat)
    requires from <= |s|
    ensures from <= i <= |s|
    ensures i < |s| ==> s[i] in cs
    ensures forall k | from <= k < i :: s[k] !in cs
    decreases |s| - from
  {
    if from == |s| || s[from] in cs then from else FirstOf(s, cs, from + 1)
  }

  const Colon: set<char> := {':'}
  const NetlocStops: set<char> := {'/', '?', '#'}
  const PathStops: set<char> := {'?', '#'}

  /** Text with neither a query nor a fragment marker. */
  predicate Plain(s: string) { forall k | 0 <= k < |s| :: s[k] !in PathStops }

  /** The position of the ':' that closes a scheme, or 0 when the text
      before the first ':' is not a scheme (or there is no ':'). */
  function SchemeEnd(u: string): (c: nat)
    ensures c < |u| || c == 0
    ensures c > 0 ==> u[c] == ':' && IsScheme(u[..c])
  {
    var c := FirstOf(u, Colon, 0);
    if 0 < c < |u| && IsScheme(u[..c]) then c else 0
  }

  /** What urlsplit goes on parsing once the scheme and its ':' are cut. */
  function AfterScheme(u: string): string {
    var c := SchemeEnd(u);
    if c > 0 then u[c + 1..] else u
  }

  /** The end of the network location after a leading "//", or 0 when
      there is none. */
  function NetlocEnd(rest: string): (n: nat)
    ensures n <= |rest| && (n == 0 || n >= 2)
  {
    if |rest| >= 2 && rest[0] == '/' && rest[1] == '/' then FirstOf(rest, NetlocStops, 2) else 0
  }

  /** The path: what is left, up to the query or the fragment. */
  function PathOf(tail: string): string {
    tail[..FirstOf(tail, PathStops, 0)]
  }

  /** The three parts of urlparse's answer that normalize_url keeps. */
  datatype UrlParts = UrlParts(scheme: string, netloc: string, path: string)

  /** urlsplit: a scheme when the text before the first ':' is one; a
      network location after a leading "//", up to the next '/', '?' or
      '#'; then the path, up to the query or the fragment. */
  function Parse(u: string): UrlParts {
    var rest := AfterScheme(u);
    var n := NetlocEnd(rest);
    UrlParts(u[..SchemeEnd(u)], if n >= 2 then rest[2..n] else "", PathOf(rest[n..]))
  }

  /** The text normalize_url lower-cases. */
  function Joined(p: UrlParts): string { p.scheme + ("://" + (p.netloc + p.path)) }

  /** normalize_url (scripts/crawler.py:78-81, scripts/fast_crawler.py:89-92). */
  function NormalizeUrl(u: string): (n: string)
  {
    Lower(Joined(Parse(u)))
  }

  /** What the parts may hold. */
  lemma PartsShape(u: string)
    ensures var p := Parse(u);
      && (p.scheme == [] || IsScheme(p.scheme))
      && (forall k | 0 <= k < |p.netloc| :: p.netloc[k] !in NetlocStops)
      && Plain(p.path)
  {
    var rest := AfterScheme(u);
    var n := NetlocEnd(rest);
    var tail := rest[n..];
    var e := FirstOf(tail, PathStops, 0);
    assert forall k | 0 <= k < e :: tail[..e][k] == tail[k];
  }

  /** Lower-casing leaves no ASCII capital behind. */
  lemma LowerHasNoCapital(s: string)
    ensures forall k | 0 <= k < |Lower(s)| :: !('A' <= Lower(s)[k] <= 'Z')
  {
  }

  /** The joined parts hold no '?' or '#'. */
  lemma JoinedPlain(u: string)
    ensures Plain(Joined(Parse(u)))
  {
    var p := Parse(u);
    PartsShape(u);
    var r := Joined(p);
    assert forall k | 0 <= k < |p.scheme| :: IsSchemeChar(p.scheme[k]);
    forall k | 0 <= k < |r| ensures r[k] !in PathStops {
      if k >= |p.scheme| + 3 + |p.netloc| {
        assert r[k] == p.path[k - |p.scheme| - 3 - |p.netloc|];
      }
    }
  }

  /** A normalised key is lower-case and free of '?' and '#'. */
  lemma NormalizedShape(u: string)
    ensures var n := NormalizeUrl(u);
      && (forall k | 0 <= k < |n| :: !('A' <= n[k] <= 'Z'))
      && Plain(n)
  {
    LowerHasNoCapital(Joined(Parse(u)));
    JoinedPlain(u);
    LowerPlain(Joined(Parse(u)));
  }

  lemma {:induction false} FirstOfFound(s: string, cs: set<char>, from: nat, i: nat)
    requires from <= i < |s| && s[i] in cs
    requires forall k | from <= k < i :: s[k] !in cs
    ensures FirstOf(s, cs, from) == i
    decreases i - from
  {
    if from < i {
      FirstOfFound(s, cs, from + 1, i);
    }
  }

  lemma {:induction false} FirstOfNone(s: string, cs: set<char>, from: nat)
    requires from <= |s|
    requires forall k | from <= k < |s| :: s[k] !in cs
    ensures FirstOf(s, cs, from) == |s|
    decreases |s| - from
  {
    if from < |s| {
      FirstOfNone(s, cs, from + 1);
    }
  }

  /** Appending text that starts with one of the searched characters does
      not move an earlier hit, and puts the hit at the seam otherwise. */
  lemma FirstOfAppend(s: string, x: string, cs: set<char>, from: nat)
    requires from <= |s| && x != [] && x[0] in cs
    ensures FirstOf(s + x, cs, from) == FirstOf(s, cs, from)
  {
    var i := FirstOf(s, cs, from);
    assert forall k | from <= k < i :: (s + x)[k] == s[k];
    FirstOfFound(s + x, cs, from, i);
  }

  /** A query or fragment appended after the text does not change where
      the scheme ends. */
  lemma SchemeEndAppend(u: string, x: string)
    requires x != [] && x[0] in PathStops
    ensures SchemeEnd(u + x) == SchemeEnd(u)
    ensures AfterScheme(u + x) == AfterScheme(u) + x
  {
    var v := u + x;
    var c := FirstOf(u, Colon, 0);
    var cv := FirstOf(v, Colon, 0);
    if c < |u| {
      FirstOfFound(v, Colon, 0, c);
      assert v[..c] == u[..c];
    } else if 0 < cv < |v| {
      assert forall k | 0 <= k < |u| :: v[k] == u[k];
      assert cv > |u| && v[..cv][|u|] == x[0];
      assert !IsScheme(v[..cv]);
    }
  }

  lemma NetlocEndAppend(rest: string, x: string)
    requires x != [] && x[0] in PathStops
    ensures NetlocEnd(rest + x) == NetlocEnd(rest)
  {
    var v := rest + x;
    if |rest| >= 2 {
      assert v[0] == rest[0] && v[1] == rest[1];
      FirstOfAppend(rest, x, NetlocStops, 2);
    } else if |rest| == 1 {
      assert v[1] == x[0];
    } else {
      assert v[0] == x[0];
    }
  }

  lemma PathOfAppend(tail: string, x: string)
    requires x != [] && x[0] in PathStops
    ensures PathOf(tail + x) == PathOf(tail)
  {
    FirstOfAppend(tail, x, PathStops, 0);
    var e := FirstOf(tail, PathStops, 0);
    assert (tail + x)[..e] == tail[..e];
  }

  /** Anything from a '?' or a '#' on is dropped: appending a query or a
      fragment leaves the key unchanged. */
  lemma QueryAndFragmentDropped(u: string, x: string)
    requires x != [] && x[0] in PathStops
    ensures NormalizeUrl(u + x) == NormalizeUrl(u)
  {
    SchemeEndAppend(u, x);
    var rest := AfterScheme(u);
    NetlocEndAppend(rest, x);
    var n := NetlocEnd(rest);
    assert (rest + x)[n..] == rest[n..] + x;
    PathOfAppend(rest[n..], x);
    assert (u + x)[..SchemeEnd(u)] == u[..SchemeEnd(u)];
    assert n >= 2 ==> (rest + x)[2..n] == rest[2..n];
    assert Parse(u + x) == Parse(u);
  }

  lemma SchemeEndOf(scheme: string, y: string)
    requires IsScheme(scheme) && y != [] && y[0] == ':'
    ensures SchemeEnd(scheme + y) == |scheme|
    ensures AfterScheme(scheme + y) == y[1..]
  {
    var u := scheme + y;
    assert forall k | 0 <= k < |scheme| :: u[k] == scheme[k] && u[k] != ':';
    FirstOfFound(u, Colon, 0, |scheme|);
    assert u[..|scheme|] == scheme;
  }

  /** After "//", the network location and the path together are what
      follows, when that is free of '?' and '#'. */
  lemma NetlocSplit(x: string)
    requires Plain(x)
    ensures var rest := "//" + x; var n := NetlocEnd(rest);
      n >= 2 && rest[2..n] + PathOf(rest[n..]) == x
  {
    var rest := "//" + x;
    var n := NetlocEnd(rest);
    var tail := rest[n..];
    assert forall k | 0 <= k < |tail| :: tail[k] == x[n - 2 + k];
    FirstOfNone(tail, PathStops, 0);
    assert PathOf(tail) == tail;
    assert rest[2..] == x;
  }

  /** After a recognised scheme and "://", a text free of '?' and '#' is
      kept whole: only the case changes. */
  lemma Schemed(scheme: string, x: string)
    requires IsScheme(scheme) && Plain(x)
    ensures Parse(scheme + ("://" + x)).scheme == scheme
    ensures NormalizeUrl(scheme + ("://" + x)) == Lower(scheme + ("://" + x))
  {
    var u := scheme + ("://" + x);
    SchemeEndOf(scheme, "://" + x);
    assert ("://" + x)[1..] == "//" + x;
    NetlocSplit(x);
    assert u[..|scheme|] == scheme;
  }

  lemma LowerScheme(s: string)
    requires IsScheme(s)
    ensures IsScheme(Lower(s))
  {
  }

  lemma LowerTwice(s: string)
    ensures Lower(Lower(s)) == Lower(s)
  {
  }

  lemma LowerPlain(s: string)
    requires Plain(s)
    ensures Plain(Lower(s))
  {
  }

  /** A text starting with "://" has no scheme and no network location:
      it is all path. */
  lemma SchemelessParts(n: string)
    requires |n| >= 3 && n[..3] == "://" && Plain(n)
    ensures Parse(n) == UrlParts("", "", n)
  {
    assert n[0] == ':';
    FirstOfFound(n, Colon, 0, 0);
    FirstOfNone(n, PathStops, 0);
    assert n[..|n|] == n;
  }

  /** normalize_url is idempotent exactly when the input has a scheme:
      without one the result starts with "://", which is not a scheme, and
      every further call prefixes another "://". */
  lemma NormalizeIdempotent(u: string)
    ensures NormalizeUrl(NormalizeUrl(u)) == NormalizeUrl(u) <==> Parse(u).scheme != ""
  {
    var p := Parse(u);
    PartsShape(u);
    var x := p.netloc + p.path;
    assert Plain(x) by {
      assert forall k | 0 <= k < |x| :: x[k] == if k < |p.netloc| then p.netloc[k] else p.path[k - |p.netloc|];
    }
    var n := NormalizeUrl(u);
    LowerAppend(p.scheme, "://" + x);
    LowerAppend("://", x);
    assert Lower("://") == "://";
    assert n == Lower(p.scheme) + ("://" + Lower(x));
    LowerPlain(x);
    if p.scheme != "" {
      LowerScheme(p.scheme);
      Schemed(Lower(p.scheme), Lower(x));
      LowerTwice(Joined(p));
    } else {
      assert n == "://" + Lower(x);
      assert n[..3] == "://";
      NormalizedShape(u);
      SchemelessParts(n);
      assert |NormalizeUrl(n)| == |n| + 3;
    }
  }

  /** The counterexample to idempotence for scheme-less input. */
  lemma SchemelessNotIdempotent()
    ensures NormalizeUrl("x") == "://x"
    ensures NormalizeUrl("://x") == "://://x"
  {
    FirstOfNone("x", Colon, 0);
    FirstOfNone("x", PathStops, 0);
    assert "x"[..1] == "x";
    assert Parse("x") == UrlParts("", "", "x");
    SchemelessParts("://x");
  }

  // ---------------------------------------------------------------------
  // The URLs the crawlers build and the cases scripts/test_crawler.py checks.

  const WikiPrefix: string := "https://tr.wikipedia.org/wiki/"

  /** f"https://tr.wikipedia.org/wiki/{quote(title)}", given the quoted
      title. */
  function WikiUrl(quoted: string): string { WikiPrefix + quoted }

  lemma HttpsIsScheme()
    ensures IsScheme("https") && Lower("https") == "https"
  {
  }

  /** Text without ASCII capitals is its own lower-case form. */
  lemma LowerKeeps(s: string)
    requires forall k | 0 <= k < |s| :: !('A' <= s[k] <= 'Z')
    ensures Lower(s) == s
  {
  }

  lemma PrefixIsLower()
    ensures Lower(WikiPrefix) == WikiPrefix
  {
    LowerKeeps(WikiPrefix);
  }

  const WikiPath: string := "tr.wikipedia.org/wiki/"

  lemma PlainAppend(a: string, b: string)
    requires Plain(a) && Plain(b)
    ensures Plain(a + b)
  {
    assert forall k | |a| <= k < |a + b| :: (a + b)[k] == b[k - |a|];
  }

  lemma WikiUrlSplit(quoted: string)
    ensures WikiUrl(quoted) == "https" + ("://" + (WikiPath + quoted))
    ensures Plain(WikiPath)
  {
  }

  /** The key of a crawled article: the prefix stays, the quoted title is
      lower-cased (quote escapes '?' and '#'). */
  lemma WikiKey(quoted: string)
    requires Plain(quoted)
    ensures Parse(WikiUrl(quoted)).scheme == "https"
    ensures NormalizeUrl(WikiUrl(quoted)) == WikiPrefix + Lower(quoted)
  {
    WikiUrlSplit(quoted);
    PlainAppend(WikiPath, quoted);
    HttpsIsScheme();
    Schemed("https", WikiPath + quoted);
    LowerAppend(WikiPrefix, quoted);
    PrefixIsLower();
  }

  lemma SplitAt(a: string, s: string, p: nat)
    requires p <= |s|
    ensures a + s == (a + s[..p]) + s[p..]
  {
    assert s == s[..p] + s[p..];
  }

  /** The key of any article URL: the prefix, then the quoted title up to
      a '?' or '#' it may hold, lower-cased. */
  lemma WikiUrlKey(quoted: string)
    ensures NormalizeUrl(WikiUrl(quoted)) == WikiPrefix + Lower(PathOf(quoted))
  {
    var p := FirstOf(quoted, PathStops, 0);
    var head := quoted[..p];
    assert Plain(head);
    WikiKey(head);
    if p < |quoted| {
      SplitAt(WikiPrefix, quoted, p);
      QueryAndFragmentDropped(WikiUrl(head), quoted[p..]);
    } else {
      assert head == quoted;
    }
  }

  lemma TestWord(t: string)
    requires t == "Test"
    ensures Plain(t) && Lower(t) == "test"
  {
  }

  /** The three cases of scripts/test_crawler.py:66-70. */
  lemma FragmentExample(u: string, title: string)
    requires title == "Test" && u == WikiUrl(title) + "#section"
    ensures NormalizeUrl(u) == WikiPrefix + "test"
  {
    TestWord(title);
    QueryAndFragmentDropped(WikiUrl(title), "#section");
    WikiKey(title);
  }

  lemma QueryExample(u: string, title: string)
    requires title == "Test" && u == WikiUrl(title) + "?query=1"
    ensures NormalizeUrl(u) == WikiPrefix + "test"
  {
    TestWord(title);
    QueryAndFragmentDropped(WikiUrl(title), "?query=1");
    WikiKey(title);
  }

  lemma CapitalScheme(scheme: string)
    requires scheme == "HTTPS"
    ensures IsScheme(scheme) && Lower(scheme) == "https"
  {
  }

  lemma CapitalHost(host: string)
    requires host == "TR.WIKIPEDIA.ORG/WIKI/"
    ensures Plain(host) && Lower(host) == WikiPath
  {
  }

  lemma CapitalPage(page: string)
    requires page == "PAGE"
    ensures Plain(page) && Lower(page) == "page"
  {
  }

  lemma CapitalPath(x: string)
    requires x == "TR.WIKIPEDIA.ORG/WIKI/PAGE"
    ensures Plain(x) && Lower(x) == WikiPath + "page"
  {
    var host, page := "TR.WIKIPEDIA.ORG/WIKI/", "PAGE";
    assert x == host + page;
    CapitalHost(host);
    CapitalPage(page);
    PlainAppend(host, page);
    LowerAppend(host, page);
  }

  lemma SeparatorLower()
    ensures Lower("://") == "://"
  {
  }

  lemma UpperCaseExample(u: string, scheme: string, x: string)
    requires scheme == "HTTPS" && x == "TR.WIKIPEDIA.ORG/WIKI/PAGE" && u == scheme + ("://" + x)
    ensures NormalizeUrl(u) == WikiPrefix + "page"
  {
    CapitalScheme(scheme);
    CapitalPath(x);
    Schemed(scheme, x);
    LowerAppend(scheme, "://" + x);
    LowerAppend("://", x);
    SeparatorLower();
    WikiUrlSplit("page");
  }

  /** Parse finds the scheme of a crawled article's URL whatever the
      quoted title holds. */
  lemma WikiScheme(quoted: string)
    ensures Parse(WikiUrl(quoted)).scheme == "https"
  {
    var y := "://" + (WikiPath + quoted);
    WikiUrlSplit(quoted);
    HttpsIsScheme();
    SchemeEndOf("https", y);
    assert WikiUrl(quoted)[..5] == "https";
  }

  // ---------------------------------------------------------------------
  // The collection and save_document.

  /** A stored document; update_date is absent until the first update. */
  datatype Doc = Doc(url: string, html: string, source: string, contentHash: string,
                     crawlDate: int, createDate: int, updateDate: Option<int>)

  /** The counters of self.stats; `inserted` is stats['new']. */
  datatype Stats = Stats(processed: nat, inserted: nat, updated: nat, skipped: nat, errors: nat)

  const NoStats := Stats(0, 0, 0, 0, 0)

  /** What save_document returns; Failed is the fast crawler's 'error'. */
  datatype Outcome = New | Updated | Skipped | Failed

  /** The counter a save outcome bumps ('error' bumps none). */
  function Tally(s: Stats, o: Outcome): Stats {
    match o
    case New => s.(inserted := s.inserted + 1)
    case Updated => s.(updated := s.updated + 1)
    case Skipped => s.(skipped := s.skipped + 1)
    case Failed => s
  }

  datatype Saving = Saving(outcome: Outcome, store: map<string, Doc>)

  /** save_document once the URL is normalised to `key`, on a collection
      that does not fail: insert a new key; skip an unchanged digest unless
      forced; otherwise overwrite the content, the digest and both dates,
      keeping the source and the creation date. */
  function Save(store: map<string, Doc>, key: string, html: string, source: string,
                digest: string, now: int, force: bool): Saving
  {
    if key !in store then
      Saving(New, store[key := Doc(key, html, source, digest, now, now, None)])
    else if store[key].contentHash == digest && !force then
      Saving(Skipped, store)
    else
      Saving(Updated, store[key := store[key].(html := html, contentHash := digest,
                                               crawlDate := now, updateDate := Some(now))])
  }

  /** Every record sits under its own url, and that url is a normalised
      key that normalises to itself. */
  predicate Normalized(store: map<string, Doc>) {
    forall k {:trigger Filed(store, k)} | k in store :: Filed(store, k)
  }

  /** The record under `k` has url `k`, and `k` normalises to itself. */
  predicate Filed(store: map<string, Doc>, k: string)
    requires k in store
  {
    store[k].url == k && NormalizeUrl(k) == k
  }

  lemma SaveInserts(store: map<string, Doc>, key: string, html: string, source: string,
                    digest: string, now: int, force: bool)
    requires key !in store
    ensures var r := Save(store, key, html, source, digest, now, force);
      && r.outcome == New
      && r.store.Keys == store.Keys + {key} && |r.store| == |store| + 1
      && r.store[key] == Doc(key, html, source, digest, now, now, None)
      && forall k | k in store :: r.store[k] == store[k]
  {
  }

  lemma SaveSkips(store: map<string, Doc>, key: string, html: string, source: string,
                  digest: string, now: int)
    requires key in store && store[key].contentHash == digest
    ensures Save(store, key, html, source, digest, now, false) == Saving(Skipped, store)
  {
  }

  lemma SaveUpdates(store: map<string, Doc>, key: string, html: string, source: string,
                    digest: string, now: int, force: bool)
    requires key in store && (force || store[key].contentHash != digest)
    ensures var r := Save(store, key, html, source, digest, now, force);
      && r.outcome == Updated
      && r.store.Keys == store.Keys && |r.store| == |store|
      && r.store[key].html == html && r.store[key].contentHash == digest
      && r.store[key].crawlDate == now && r.store[key].updateDate == Some(now)
      && r.store[key].url == store[key].url && r.store[key].source == store[key].source
      && r.store[key].createDate == store[key].createDate
      && forall k | k in store && k != key :: r.store[k] == store[k]
  {
  }

  /** Saving the same content again, unforced, is 'skipped' and changes
      nothing, whatever the first call did. */
  lemma SaveAgainSkips(store: map<string, Doc>, key: string, html: string, source: string,
                       digest: string, now: int, force: bool, source2: string, now2: int)
    ensures var first := Save(store, key, html, source, digest, now, force);
      Save(first.store, key, html, source2, digest, now2, false) == Saving(Skipped, first.store)
  {
  }

  /** A save never drops a document, adds at most the one key, and bumps
      the count only when it inserts. */
  lemma SaveGrows(store: map<string, Doc>, key: string, html: string, source: string,
                  digest: string, now: int, force: bool)
    ensures var r := Save(store, key, html, source, digest, now, force);
      && store.Keys <= r.store.Keys && r.store.Keys <= store.Keys + {key}
      && |r.store| == |store| + (if r.outcome == New then 1 else 0)
      && r.outcome != Failed
  {
  }

  /** An update happens only when forced or when the digest changed. */
  lemma UpdateNeedsChange(store: map<string, Doc>, key: string, html: string, source: string,
                          digest: string, now: int, force: bool)
    ensures Save(store, key, html, source, digest, now, force).outcome == Updated
      <==> key in store && (force || store[key].contentHash != digest)
  {
  }

  /** The saved record sits under its key; every other record is kept. */
  lemma SaveFrame(store: map<string, Doc>, key: string, html: string, source: string,
                  digest: string, now: int, force: bool)
    requires key in store ==> store[key].url == key
    ensures var r := Save(store, key, html, source, digest, now, force);
      && key in r.store && r.store[key].url == key
      && forall k | k in r.store && k != key :: k in store && r.store[k] == store[k]
  {
  }

  /** Saving under a key that normalises to itself keeps the collection
      normalised. */
  lemma SaveKeepsNormalized(store: map<string, Doc>, key: string, html: string, source: string,
                            digest: string, now: int, force: bool)
    requires Normalized(store) && NormalizeUrl(key) == key
    ensures Normalized(Save(store, key, html, source, digest, now, force).store)
  {
    if key in store {
      assert Filed(store, key);
    }
    SaveFrame(store, key, html, source, digest, now, force);
    var m := Save(store, key, html, source, digest, now, force).store;
    forall k | k in m
      ensures Filed(m, k)
    {
      if k != key {
        assert Filed(store, k);
      }
    }
  }

  // ---------------------------------------------------------------------
  // What the network, MD5, the word counter and urllib.parse.quote give.

  /** How processing an article can go wrong: an exception while its words
      are counted, or the collection raising inside save_document. */
  datatype Fault = Sound | Raises | StoreFails

  /** fetch_article's answer for a title (None when missing or failed), the
      \w+ word count and the MD5 digest of its HTML, and the fault hit
      while processing it. */
  datatype Fetch = Fetch(html: Option<string>, words: nat, digest: string, fault: Fault)

  /** The inputs a crawl run depends on: the upstream answers by title,
      urllib.parse.quote and unquote, the source name, the min_words and
      target_document_count settings, and the clock. */
  datatype Env = Env(upstream: string -> Fetch, quote: string -> string, unquote: string -> string,
                     source: string, minWords: int, target: int, now: int)

  // ---------------------------------------------------------------------
  // get_random_articles and get_random_articles_batch: ask for at most
  // `cap` titles at a time until `count` are collected; None is an answer
  // that stops the loop (an exception, or a batch without query.pages).

  function Min(a: int, b: int): int { if a < b then a else b }

  /** The titles of the answers, in order; a stopping answer adds none. */
  function Titles(answers: seq<Option<seq<string>>>): (r: seq<string>)
  {
    if answers == [] then [] else Titles(answers[..|answers| - 1]) + (if answers[|answers| - 1].Some? then answers[|answers| - 1].value else [])
  }

  lemma TitlesSnoc(answers: seq<Option<seq<string>>>, a: Option<seq<string>>)
    ensures Titles(answers + [a]) == Titles(answers) + (if a.Some? then a.value else [])
  {
    assert (answers + [a])[..|answers|] == answers;
  }

  /** Request k asked for min(cap, count - titles gathered before it), a
      positive number, and each was answered. */
  ghost predicate Asked(count: int, cap: nat, answers: seq<Option<seq<string>>>, requests: seq<int>) {
    |requests| <= |answers|
    && forall k | 0 <= k < |requests| :: requests[k] == Min(cap, count - |Titles(answers[..k])|) > 0
  }

  lemma AskedSnoc(count: int, cap: nat, answers: seq<Option<seq<string>>>, requests: seq<int>)
    requires Asked(count, cap, answers, requests) && |requests| < |answers|
    requires cap > 0 && |Titles(answers[..|requests|])| < count
    ensures Asked(count, cap, answers, requests + [Min(cap, count - |Titles(answers[..|requests|])|)])
  {
  }

  /** What the request loop leaves: the requests made, each asking for
      min(cap, still missing) titles; the titles of the answers they got;
      every answer but the last one a batch; and a reason to stop (enough
      titles, no answer left, or a stopping answer). */
  ghost predicate Collected(count: int, cap: nat, answers: seq<Option<seq<string>>>,
                            titles: seq<string>, requests: seq<int>)
  {
    && Asked(count, cap, answers, requests)
    && titles == Titles(answers[..|requests|])
    && (forall k | 0 <= k < |requests| - 1 :: answers[k].Some?)
    && (|titles| >= count || |requests| == |answers| || (0 < |requests| && answers[|requests| - 1].None?))
  }

  /** The request loop shared by both crawlers' random-article fetchers. */
  method Collect(count: int, cap: nat, answers: seq<Option<seq<string>>>)
    returns (titles: seq<string>, requests: seq<int>)
    requires cap > 0
    ensures Collected(count, cap, answers, titles, requests)
  {
    titles, requests := [], [];
    while |titles| < count
      invariant Asked(count, cap, answers, requests)
      invariant titles == Titles(answers[..|requests|])
      invariant forall k | 0 <= k < |requests| :: answers[k].Some?
      decreases |answers| - |requests|
    {
      if |requests| == |answers| {
        break;
      }
      var i := |requests|;
      AskedSnoc(count, cap, answers, requests);
      requests := requests + [Min(cap, count - |titles|)];
      TitlesSnoc(answers[..i], answers[i]);
      assert answers[..i + 1] == answers[..i] + [answers[i]];
      if answers[i].None? {
        break;
      }
      titles := titles + answers[i].value;
    }
  }

  /** A stopping answer is the last one asked for. */
  lemma CollectStopsAt(count: int, cap: nat, answers: seq<Option<seq<string>>>,
                       titles: seq<string>, requests: seq<int>, k: nat)
    requires Collected(count, cap, answers, titles, requests)
    requires k < |requests| && answers[k].None?
    ensures |requests| == k + 1
  {
  }

  /** An empty batch does not stop the loop: while titles are missing and
      answers remain, the next one is asked for. */
  lemma CollectGoesOnAfterEmpty(count: int, cap: nat, answers: seq<Option<seq<string>>>,
                                titles: seq<string>, requests: seq<int>, k: nat)
    requires Collected(count, cap, answers, titles, requests)
    requires k < |requests| && k + 1 < |answers| && answers[k] == Some([])
    requires |Titles(answers[..k])| < count
    ensures k + 1 < |requests|
  {
    TitlesSnoc(answers[..k], answers[k]);
    assert answers[..k + 1] == answers[..k] + [answers[k]];
  }

  /** No request asks for more than the cap. */
  lemma CollectAsksAtMostCap(count: int, cap: nat, answers: seq<Option<seq<string>>>,
                             titles: seq<string>, requests: seq<int>)
    requires Collected(count, cap, answers, titles, requests)
    ensures forall k | 0 <= k < |requests| :: 0 < requests[k] <= cap
  {
  }
}
