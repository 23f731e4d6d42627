// scripts/crawler.py: the sequential crawler. Its per-title rule in
// crawl_source, the two ways it gathers titles (a category's members, page
// by page, and batches of random articles) and the re-crawl of stale
// documents, over the collection and counters of CrawlStore.

module Crawling {
  import opened Wrappers
  import opened CrawlStore

  /** The collection and self.stats together. */
  datatype State = State(store: map<string, Doc>, stats: Stats)

  /** Where a run over titles ended, and whether it stopped because the
      collection reached target_document_count. */
  datatype Pass = Pass(state: State, reached: bool)

  /** The key an article's URL https://tr.wikipedia.org/wiki/ +
      quote(title) is stored under, in the closed form KeyIsNormalizedUrl
      proves normalize_url gives it. */
  function Key(env: Env, title: string): string {
    WikiPrefix + Lower(PathOf(env.quote(title)))
  }

  lemma KeyIsNormalizedUrl(env: Env, title: string)
    ensures Key(env, title) == NormalizeUrl(WikiUrl(env.quote(title)))
  {
    WikiUrlKey(env.quote(title));
  }

  /** The article is fetched, long enough, and its save does not raise. */
  predicate Saves(env: Env, title: string) {
    var f := env.upstream(title);
    f.html.Some? && f.fault == Sound && f.words >= env.minWords
  }

  /** The try-block of crawl_source for one title, after the target check:
      a missing article and one below min_words are passed over; an
      exception (while counting words, or raised by the collection inside
      save_document) bumps `errors`; otherwise the page is saved, unforced,
      and `processed` goes up after the save. */
  function Visit(st: State, title: string, env: Env): (r: State)
  {
    var f := env.upstream(title);
    if f.html.None? then st
    else if f.fault == Raises then st.(stats := st.stats.(errors := st.stats.errors + 1))
    else if f.words < env.minWords then st
    else if f.fault == StoreFails then st.(stats := st.stats.(errors := st.stats.errors + 1))
    else
      var s := Save(st.store, Key(env, title), f.html.value, env.source, f.digest, env.now, false);
      State(s.store, Tally(st.stats, s.outcome).(processed := st.stats.processed + 1))
  }

  /** The loop of crawl_source over a list of titles: before each title,
      stop once the collection holds target_document_count documents. */
  function Crawl(st: State, titles: seq<string>, env: Env): (p: Pass)
    decreases |titles|
  {
    if titles == [] then Pass(st, false)
    else if |st.store| >= env.target then Pass(st, true)
    else Crawl(Visit(st, titles[0], env), titles[1..], env)
  }

  // ---------------------------------------------------------------------
  // The per-title rule.

  /** Only a save touches the collection or `processed`; a title that is
      missing or short leaves everything as it was. */
  lemma VisitRule(st: State, title: string, env: Env)
    ensures var r := Visit(st, title, env); var f := env.upstream(title);
      && (Saves(env, title) ==>
            var s := Save(st.store, Key(env, title), f.html.value, env.source, f.digest, env.now, false);
            r.store == s.store && r.stats == Tally(st.stats, s.outcome).(processed := st.stats.processed + 1))
      && (!Saves(env, title) ==> r.store == st.store && r.stats.processed == st.stats.processed)
      && (f.html.None? || (f.fault != Raises && f.words < env.minWords) ==> r == st)
      && r.stats.errors == st.stats.errors
           + (if f.html.Some? && (f.fault == Raises || (f.fault == StoreFails && f.words >= env.minWords)) then 1 else 0)
  {
  }

  /** processed == new + updated + skipped: every save is counted once, in
      `processed` and in the counter of its outcome. */
  predicate Balanced(s: Stats) {
    s.processed == s.inserted + s.updated + s.skipped
  }

  lemma VisitKeepsBalance(st: State, title: string, env: Env)
    requires Balanced(st.stats)
    ensures Balanced(Visit(st, title, env).stats)
  {
    var f := env.upstream(title);
    if Saves(env, title) {
      SaveGrows(st.store, Key(env, title), f.html.value, env.source, f.digest, env.now, false);
    }
  }

  /** A visit adds at most one document and drops none. */
  lemma VisitGrows(st: State, title: string, env: Env)
    ensures var r := Visit(st, title, env);
      st.store.Keys <= r.store.Keys && |st.store| <= |r.store| <= |st.store| + 1
  {
    var f := env.upstream(title);
    if Saves(env, title) {
      SaveGrows(st.store, Key(env, title), f.html.value, env.source, f.digest, env.now, false);
    }
  }

  /** The key of a crawled title normalises to itself: its scheme is
      "https", so normalising again changes nothing. */
  lemma KeyIsNormal(env: Env, title: string)
    ensures NormalizeUrl(Key(env, title)) == Key(env, title)
  {
    KeyIsNormalizedUrl(env, title);
    WikiScheme(env.quote(title));
    NormalizeIdempotent(WikiUrl(env.quote(title)));
  }

  lemma VisitKeepsNormalized(st: State, title: string, env: Env)
    requires Normalized(st.store)
    ensures Normalized(Visit(st, title, env).store)
  {
    var f := env.upstream(title);
    if Saves(env, title) {
      KeyIsNormal(env, title);
      SaveKeepsNormalized(st.store, Key(env, title), f.html.value, env.source, f.digest, env.now, false);
    }
  }

  // ---------------------------------------------------------------------
  // The loop over titles.

  /** A run that stops for the target has reached it; one that does not
      has gone through every title. */
  lemma {:induction false} CrawlReached(st: State, titles: seq<string>, env: Env)
    ensures var p := Crawl(st, titles, env);
      p.reached ==> titles != [] && |p.state.store| >= env.target
    decreases |titles|
  {
    if titles != [] && |st.store| < env.target {
      CrawlReached(Visit(st, titles[0], env), titles[1..], env);
    }
  }

  /** Checking the count before each title means the run never overshoots:
      starting at or below the target, it ends at or below it, and exactly
      on it when it stops for it. */
  lemma {:induction false} CrawlNeverOvershoots(st: State, titles: seq<string>, env: Env)
    requires |st.store| <= env.target
    ensures var p := Crawl(st, titles, env);
      |p.state.store| <= env.target && (p.reached ==> |p.state.store| == env.target)
    decreases |titles|
  {
    if titles != [] && |st.store| < env.target {
      VisitGrows(st, titles[0], env);
      CrawlNeverOvershoots(Visit(st, titles[0], env), titles[1..], env);
    }
  }

  /** The counters stay balanced over a whole run. */
  lemma {:induction false} CrawlKeepsBalance(st: State, titles: seq<string>, env: Env)
    requires Balanced(st.stats)
    ensures Balanced(Crawl(st, titles, env).state.stats)
    decreases |titles|
  {
    if titles != [] && |st.store| < env.target {
      VisitKeepsBalance(st, titles[0], env);
      CrawlKeepsBalance(Visit(st, titles[0], env), titles[1..], env);
    }
  }

  /** Every record a run leaves sits under its own normalised url. */
  lemma {:induction false} CrawlKeepsNormalized(st: State, titles: seq<string>, env: Env)
    requires Normalized(st.store)
    ensures Normalized(Crawl(st, titles, env).state.store)
    decreases |titles|
  {
    if titles != [] && |st.store| < env.target {
      VisitKeepsNormalized(st, titles[0], env);
      CrawlKeepsNormalized(Visit(st, titles[0], env), titles[1..], env);
    }
  }

  /** A run never loses a document. */
  lemma {:induction false} CrawlGrows(st: State, titles: seq<string>, env: Env)
    ensures st.store.Keys <= Crawl(st, titles, env).state.store.Keys
    decreases |titles|
  {
    if titles != [] && |st.store| < env.target {
      VisitGrows(st, titles[0], env);
      CrawlGrows(Visit(st, titles[0], env), titles[1..], env);
    }
  }

  // ---------------------------------------------------------------------
  // The random-article branch of crawl_source: rounds of up to 100 titles
  // until `processed` reaches the source's batch_size.

  /** The rounds of the random branch, given the titles each call of
      get_random_articles returned; `processed` is the branch's own count
      of saves. The branch ends when it has saved enough, when the target
      is reached (before a round or inside one), or when no answer is
      left. */
  function RandomRounds(st: State, batches: seq<seq<string>>, processed: int, targetCount: int, env: Env): (p: Pass)
    decreases |batches|
  {
    if processed >= targetCount then Pass(st, false)
    else if |st.store| >= env.target then Pass(st, true)
    else if batches == [] then Pass(st, false)
    else
      var q := Crawl(st, batches[0], env);
      if q.reached then q
      else RandomRounds(q.state, batches[1..], processed + q.state.stats.processed - st.stats.processed, targetCount, env)
  }

  /** The counters balanced, and the collection no larger than the
      target. */
  predicate Healthy(st: State, env: Env) {
    Balanced(st.stats) && |st.store| <= env.target
  }

  lemma CrawlKeepsHealthy(st: State, titles: seq<string>, env: Env)
    requires Healthy(st, env)
    ensures Healthy(Crawl(st, titles, env).state, env)
  {
    CrawlKeepsBalance(st, titles, env);
    CrawlNeverOvershoots(st, titles, env);
  }

  /** The random branch keeps the crawler healthy, and it reports the
      target only when the collection holds exactly that many documents. */
  lemma {:induction false} RandomKeepsHealthy(st: State, batches: seq<seq<string>>, processed: int,
                                              targetCount: int, env: Env)
    requires Healthy(st, env)
    ensures var p := RandomRounds(st, batches, processed, targetCount, env);
      Healthy(p.state, env) && (p.reached ==> |p.state.store| == env.target)
    decreases |batches|
  {
    if processed < targetCount && |st.store| < env.target && batches != [] {
      CrawlKeepsHealthy(st, batches[0], env);
      CrawlNeverOvershoots(st, batches[0], env);
      var q := Crawl(st, batches[0], env);
      if !q.reached {
        RandomKeepsHealthy(q.state, batches[1..], processed + q.state.stats.processed - st.stats.processed,
                           targetCount, env);
      }
    }
  }

  /** The random branch leaves every record under its normalised url. */
  lemma {:induction false} RandomKeepsNormalized(st: State, batches: seq<seq<string>>, processed: int,
                                                 targetCount: int, env: Env)
    requires Normalized(st.store)
    ensures Normalized(RandomRounds(st, batches, processed, targetCount, env).state.store)
    decreases |batches|
  {
    if processed < targetCount && |st.store| < env.target && batches != [] {
      CrawlKeepsNormalized(st, batches[0], env);
      var q := Crawl(st, batches[0], env);
      if !q.reached {
        RandomKeepsNormalized(q.state, batches[1..], processed + q.state.stats.processed - st.stats.processed,
                              targetCount, env);
      }
    }
  }

  // ---------------------------------------------------------------------
  // get_category_members: pages of a category's members, following
  // cmcontinue, until `limit` titles are collected.

  /** One answer of the categorymembers query: an exception, or the
      members it lists (none when query.categorymembers is absent) and its
      continue.cmcontinue, if any. */
  datatype CategoryAnswer = PageError | Page(members: seq<string>, next: Option<string>)

  /** What a request asks: cmlimit, and the cmcontinue sent with it. */
  datatype CategoryRequest = CategoryRequest(size: int, cont: Option<string>)

  /** `if cmcontinue:` sends the continuation only when it is non-empty. */
  function Sent(cont: Option<string>): (r: Option<string>)
    ensures r.Some? <==> cont.Some? && cont.value != ""
    ensures r.Some? ==> r == cont
  {
    if cont.Some? && cont.value != "" then cont else None
  }

  /** The loop of get_category_members with what it has gathered so far:
      `got` titles, the requests `sent`, and the last continuation. It asks
      for min(500, limit - collected) while fewer than `limit` are
      collected, and stops after an answer without a continuation or an
      exception, or when no answer is left. */
  function Paging(limit: int, pages: seq<CategoryAnswer>, got: seq<string>,
                  sent: seq<CategoryRequest>, cont: Option<string>): (seq<string>, seq<CategoryRequest>)
    decreases |pages|
  {
    if |got| >= limit || pages == [] then (got, sent)
    else
      var request := CategoryRequest(Min(500, limit - |got|), Sent(cont));
      match pages[0]
      case PageError => (got, sent + [request])
      case Page(members, next) =>
        if next.None? then (got + members, sent + [request])
        else Paging(limit, pages[1..], got + members, sent + [request], next)
  }

  /** A first answer without a continuation (or an exception) means
      exactly one request, sent without cmcontinue. */
  lemma OneRequestWithoutContinuation(limit: int, pages: seq<CategoryAnswer>)
    requires limit > 0 && pages != [] && (pages[0].PageError? || pages[0].next.None?)
    ensures var r := Paging(limit, pages, [], [], None);
      r.1 == [CategoryRequest(Min(500, limit), None)]
      && r.0 == (if pages[0].Page? then pages[0].members else [])
  {
  }

  /** Every request asks for between 1 and 500 members, no more than are
      still missing, and no more requests are made than answers exist. */
  lemma {:induction false} PagingRequests(limit: int, pages: seq<CategoryAnswer>, got: seq<string>,
                                          sent: seq<CategoryRequest>, cont: Option<string>)
    requires forall k | 0 <= k < |sent| :: 0 < sent[k].size <= 500
    ensures var r := Paging(limit, pages, got, sent, cont);
      && |sent| <= |r.1| <= |sent| + |pages|
      && (forall k | 0 <= k < |r.1| :: 0 < r.1[k].size <= 500)
      && r.1[..|sent|] == sent
      && (|r.1| > |sent| ==> r.1[|sent|] == CategoryRequest(Min(500, limit - |got|), Sent(cont)))
    decreases |pages|
  {
    if |got| < limit && pages != [] {
      var request := CategoryRequest(Min(500, limit - |got|), Sent(cont));
      if pages[0].Page? && pages[0].next.Some? {
        PagingRequests(limit, pages[1..], got + pages[0].members, sent + [request], pages[0].next);
        var r := Paging(limit, pages, got, sent, cont);
        assert r.1[..|sent| + 1][..|sent|] == r.1[..|sent|];
      }
    }
  }

  /** The titles gathered so far are kept, in order, at the front. */
  lemma {:induction false} PagingExtends(limit: int, pages: seq<CategoryAnswer>, got: seq<string>,
                                              sent: seq<CategoryRequest>, cont: Option<string>)
    ensures var r := Paging(limit, pages, got, sent, cont);
      |r.0| >= |got| && r.0[..|got|] == got
    decreases |pages|
  {
    if |got| < limit && pages != [] && pages[0].Page? && pages[0].next.Some? {
      var request := CategoryRequest(Min(500, limit - |got|), Sent(cont));
      PagingExtends(limit, pages[1..], got + pages[0].members, sent + [request], pages[0].next);
      var r := Paging(limit, pages, got, sent, cont);
      assert r.0[..|got + pages[0].members|][..|got|] == r.0[..|got|];
    }
  }

  /** get_category_members (scripts/crawler.py:103-144). */
  method GetCategoryMembers(limit: int, pages: seq<CategoryAnswer>)
    returns (titles: seq<string>, requests: seq<CategoryRequest>)
    ensures (titles, requests) == Paging(limit, pages, [], [], None)
  {
    titles, requests := [], [];
    var cont: Option<string> := None;
    var i := 0;
    while |titles| < limit && i < |pages|
      invariant 0 <= i <= |pages|
      invariant Paging(limit, pages[i..], titles, requests, cont) == Paging(limit, pages, [], [], None)
      decreases |pages| - i
    {
      requests := requests + [CategoryRequest(Min(500, limit - |titles|), Sent(cont))];
      var answer := pages[i];
      if answer.PageError? {
        return;
      }
      titles := titles + answer.members;
      if answer.next.None? {
        return;
      }
      cont := answer.next;
      assert pages[i..][1..] == pages[i + 1..];
      i := i + 1;
    }
  }

  /** get_random_articles (scripts/crawler.py:146-178): ten titles per
      request at most; an exception (None) stops it, an answer without
      query.random is an empty batch and does not. */
  method GetRandomArticles(count: int, answers: seq<Option<seq<string>>>)
    returns (titles: seq<string>, requests: seq<int>)
    ensures Collected(count, 10, answers, titles, requests)
  {
    titles, requests := Collect(count, 10, answers);
  }

  // ---------------------------------------------------------------------
  // reindex_old_documents: the documents crawled before the cutoff are
  // fetched again under the title their url ends with, and saved forced.

  const Mark: string := "/wiki/"

  /** "/wiki/" starts at position i. */
  predicate MarkAt(s: string, i: nat) {
    i + 6 <= |s| && s[i..i + 6] == Mark
  }

  /** The first "/wiki/" starting at or after `from`, or |s|. */
  function NextMark(s: string, from: nat): (i: nat)
    requires from <= |s|
    ensures from <= i <= |s|
    ensures i < |s| ==> MarkAt(s, i)
    ensures forall j | from <= j < i :: !MarkAt(s, j)
    decreases |s| - from
  {
    if from == |s| || MarkAt(s, from) then from else NextMark(s, from + 1)
  }

  /** The last piece of s[from..].split('/wiki/'): the pieces are cut left
      to right, so it is what follows the last separator found that way,
      and it holds no "/wiki/" of its own. */
  function LastPiece(s: string, from: nat): (t: string)
    requires from <= |s|
    ensures |t| <= |s| - from && t == s[|s| - |t|..]
    ensures |t| < |s| - from ==> |s| - |t| >= from + 6 && MarkAt(s, |s| - |t| - 6)
    ensures forall j | |s| - |t| <= j <= |s| :: !MarkAt(s, j)
    decreases |s| - from
  {
    var i := NextMark(s, from);
    if i == |s| then s[from..] else LastPiece(s, i + 6)
  }

  /** `url.split('/wiki/')[-1] if '/wiki/' in url else None`. */
  function WikiTitle(url: string): (t: Option<string>)
    ensures t.None? <==> forall j | 0 <= j <= |url| :: !MarkAt(url, j)
    ensures t.Some? ==> && |t.value| + 6 <= |url|
                        && url[|url| - |t.value|..] == t.value
                        && MarkAt(url, |url| - |t.value| - 6)
                        && forall j | |url| - |t.value| <= j <= |url| :: !MarkAt(url, j)
  {
    if NextMark(url, 0) < |url| then Some(LastPiece(url, 0)) else None
  }

  /** The crawl_date bound of the query: reindex_period_days days ago. */
  function Cutoff(now: int, periodDays: int): int { now - periodDays * 86400 }

  /** The keys the query `crawl_date < cutoff` selects. */
  function Stale(store: map<string, Doc>, cutoff: int): set<string> {
    set k | k in store && store[k].crawlDate < cutoff
  }

  /** A stale document is saved again when its url has a non-empty title,
      the unquoted title fetches an article, and the save does not raise. */
  predicate Refetched(d: Doc, env: Env) {
    var t := WikiTitle(d.url);
    t.Some? && t.value != "" && env.upstream(env.unquote(t.value)).html.Some?
      && env.upstream(env.unquote(t.value)).fault != StoreFails
  }

  /** The record after its forced save: new content, digest and dates. */
  function Refreshed(d: Doc, env: Env): (r: Doc)
    requires Refetched(d, env)
    ensures r.url == d.url && r.source == d.source && r.createDate == d.createDate
    ensures r.crawlDate == env.now && r.updateDate == Some(env.now)
  {
    var f := env.upstream(env.unquote(WikiTitle(d.url).value));
    d.(html := f.html.value, contentHash := f.digest, crawlDate := env.now, updateDate := Some(env.now))
  }

  /** What the re-crawl makes of a document: its refreshed record, or
      None when it is passed over. */
  function Renewal(d: Doc, env: Env): (r: Option<Doc>)
    ensures r.Some? <==> Refetched(d, env)
  {
    if Refetched(d, env) then Some(Refreshed(d, env)) else None
  }

  /** The renewal of every document of the collection. */
  function Plan(store: map<string, Doc>, env: Env): (plan: map<string, Option<Doc>>)
    ensures plan.Keys == store.Keys
  {
    map k | k in store :: Renewal(store[k], env)
  }

  /** The collection once the documents among `keys` have been renewed as
      the plan says. */
  function Apply(store: map<string, Doc>, keys: set<string>, plan: map<string, Option<Doc>>): (m: map<string, Doc>)
    ensures m.Keys == store.Keys
  {
    map k | k in store :: if k in keys && k in plan && plan[k].Some? then plan[k].value else store[k]
  }

  /** The keys among `keys` the plan renews. */
  function Picked(keys: set<string>, plan: map<string, Option<Doc>>): (s: set<string>)
    ensures s <= keys
  {
    set k | k in keys && k in plan && plan[k].Some?
  }

  lemma ApplyStep(store: map<string, Doc>, keys: set<string>, plan: map<string, Option<Doc>>, k: string)
    requires k in store && k !in keys
    ensures Apply(store, keys + {k}, plan)
            == if k in plan && plan[k].Some? then Apply(store, keys, plan)[k := plan[k].value]
               else Apply(store, keys, plan)
  {
    var a := Apply(store, keys + {k}, plan);
    var b := if k in plan && plan[k].Some? then Apply(store, keys, plan)[k := plan[k].value]
             else Apply(store, keys, plan);
    assert a.Keys == b.Keys;
    forall j | j in a
      ensures a[j] == b[j]
    {
    }
  }

  lemma PickedStep(keys: set<string>, plan: map<string, Option<Doc>>, k: string)
    requires k !in keys
    ensures |Picked(keys + {k}, plan)| == |Picked(keys, plan)| + if k in plan && plan[k].Some? then 1 else 0
  {
    if k in plan && plan[k].Some? {
      assert Picked(keys + {k}, plan) == Picked(keys, plan) + {k};
    } else {
      assert Picked(keys + {k}, plan) == Picked(keys, plan);
    }
  }

  /** Moving a key from the work list to the finished ones keeps the two
      apart and their union the same. */
  lemma MoveOne(todo: set<string>, done: set<string>, all: set<string>, k: string)
    requires todo !! done && todo + done == all && k in todo
    ensures (todo - {k}) !! (done + {k}) && (todo - {k}) + (done + {k}) == all
  {
  }

  /** reindex_old_documents on the collection: the stale documents are
      renewed. */
  function Reindexed(store: map<string, Doc>, cutoff: int, env: Env): map<string, Doc> {
    Apply(store, Stale(store, cutoff), Plan(store, env))
  }

  /** The stale documents that are saved again. */
  function Due(store: map<string, Doc>, cutoff: int, env: Env): set<string> {
    Picked(Stale(store, cutoff), Plan(store, env))
  }

  /** Every stale document whose article is fetched again gets the new
      content, digest and dates and keeps its url, source and creation
      date; every other document is left as it was. Those renewed are the
      ones counted. */
  lemma ReindexedRecords(store: map<string, Doc>, cutoff: int, env: Env, k: string)
    requires k in store
    ensures var m := Reindexed(store, cutoff, env);
      && k in m
      && (k in Due(store, cutoff, env) <==> store[k].crawlDate < cutoff && Refetched(store[k], env))
      && (k in Due(store, cutoff, env) ==>
            && m[k].url == store[k].url && m[k].source == store[k].source
            && m[k].createDate == store[k].createDate
            && m[k].html == env.upstream(env.unquote(WikiTitle(store[k].url).value)).html.value
            && m[k].crawlDate == env.now && m[k].updateDate == Some(env.now))
      && (k !in Due(store, cutoff, env) ==> m[k] == store[k])
  {
  }

  /** should_reindex (scripts/crawler.py:216-221): the document's age in
      whole days, rounded down, is at least the period. */
  predicate ShouldReindex(crawlDate: int, now: int, periodDays: int) {
    (now - crawlDate) / 86400 >= periodDays
  }

  /** should_reindex and the query of reindex_old_documents agree except
      on a document crawled exactly at the cutoff, which should_reindex
      accepts and the query (`$lt`) leaves out. */
  lemma ShouldReindexVersusCutoff(crawlDate: int, now: int, periodDays: int)
    ensures ShouldReindex(crawlDate, now, periodDays) <==> crawlDate <= Cutoff(now, periodDays)
  {
    var age := now - crawlDate;
    assert age / 86400 >= periodDays <==> age >= periodDays * 86400;
  }

  // ---------------------------------------------------------------------
  // The crawler object.

  class Crawler {
    var store: map<string, Doc>
    var stats: Stats

    /** A crawler over an existing collection, with zeroed counters. */
    constructor (collection: map<string, Doc>)
      ensures store == collection && stats == NoStats
    {
      store := collection;
      stats := NoStats;
    }

    /** save_document (scripts/crawler.py:223-263): the URL is normalised
        and the insert / skip / update rule applied; the counter of the
        outcome goes up. */
    method SaveDocument(url: string, html: string, source: string, force: bool,
                        digest: string, now: int) returns (outcome: Outcome)
      modifies this
      ensures Saving(outcome, store) == Save(old(store), NormalizeUrl(url), html, source, digest, now, force)
      ensures stats == Tally(old(stats), outcome)
    {
      var r := Save(store, NormalizeUrl(url), html, source, digest, now, force);
      store := r.store;
      stats := Tally(stats, r.outcome);
      outcome := r.outcome;
    }

    /** One title of crawl_source's loop, after the target check. */
    method VisitTitle(title: string, env: Env)
      modifies this
      ensures State(store, stats) == Visit(old(State(store, stats)), title, env)
    {
      var f := env.upstream(title);
      if f.html.None? {
        return;
      }
      if f.fault == Raises {
        stats := stats.(errors := stats.errors + 1);
        return;
      }
      if f.words < env.minWords {
        return;
      }
      if f.fault == StoreFails {
        stats := stats.(errors := stats.errors + 1);
        return;
      }
      var _ := SaveArticle(title, f.html.value, f.digest, env);
      stats := stats.(processed := stats.processed + 1);
    }

    /** The save of crawl_source's loop: the article's URL is
        https://tr.wikipedia.org/wiki/ + quote(title), which save_document
        files under Key(env, title). */
    method SaveArticle(title: string, html: string, digest: string, env: Env) returns (outcome: Outcome)
      modifies this
      ensures Saving(outcome, store) == Save(old(store), Key(env, title), html, env.source, digest, env.now, false)
      ensures stats == Tally(old(stats), outcome)
    {
      KeyIsNormalizedUrl(env, title);
      outcome := SaveDocument(WikiUrl(env.quote(title)), html, env.source, false, digest, env.now);
    }

    /** The loop of crawl_source over a list of titles. */
    method CrawlTitles(titles: seq<string>, env: Env) returns (reached: bool)
      modifies this
      ensures Pass(State(store, stats), reached) == Crawl(old(State(store, stats)), titles, env)
    {
      var i := 0;
      reached := false;
      while i < |titles|
        invariant 0 <= i <= |titles|
        invariant Crawl(State(store, stats), titles[i..], env) == Crawl(old(State(store, stats)), titles, env)
      {
        if |store| >= env.target {
          reached := true;
          return;
        }
        assert titles[i..][1..] == titles[i + 1..];
        VisitTitle(titles[i], env);
        i := i + 1;
      }
    }

    /** The random-article branch of crawl_source (scripts/crawler.py:271-325),
        given the titles each get_random_articles call returned. */
    method CrawlRandom(targetCount: int, batches: seq<seq<string>>, env: Env) returns (reached: bool)
      modifies this
      ensures Pass(State(store, stats), reached) == RandomRounds(old(State(store, stats)), batches, 0, targetCount, env)
    {
      var processed := 0;
      var i := 0;
      reached := false;
      while processed < targetCount
        invariant 0 <= i <= |batches|
        invariant RandomRounds(State(store, stats), batches[i..], processed, targetCount, env)
                  == RandomRounds(old(State(store, stats)), batches, 0, targetCount, env)
        decreases |batches| - i
      {
        if |store| >= env.target {
          reached := true;
          return;
        }
        if i == |batches| {
          return;
        }
        var before := stats.processed;
        assert batches[i..][1..] == batches[i + 1..];
        reached := CrawlTitles(batches[i], env);
        if reached {
          return;
        }
        processed := processed + (stats.processed - before);
        i := i + 1;
      }
    }

    /** The category branch of crawl_source (scripts/crawler.py:327-370):
        the members of the category, at most 5000, then the title loop. */
    method CrawlCategory(pages: seq<CategoryAnswer>, env: Env) returns (reached: bool)
      modifies this
      ensures Pass(State(store, stats), reached) == Crawl(old(State(store, stats)), Paging(5000, pages, [], [], None).0, env)
    {
      var titles, _ := GetCategoryMembers(5000, pages);
      reached := CrawlTitles(titles, env);
    }

    /** One document of reindex_old_documents: its title is the last piece
        of its url after "/wiki/"; a document without one is passed over;
        the unquoted title is fetched and, when an article comes back, saved
        forced under the same url. */
    method ReindexDocument(doc: Doc, env: Env) returns (saved: bool)
      requires Normalized(store) && doc.url in store && store[doc.url] == doc
      modifies this
      ensures saved == Refetched(doc, env)
      ensures store == if saved then old(store)[doc.url := Refreshed(doc, env)] else old(store)
      ensures stats == old(stats).(updated := old(stats).updated + if saved then 1 else 0)
      ensures Normalized(store)
    {
      saved := false;
      var title := WikiTitle(doc.url);
      if title.None? || title.value == "" {
        return;
      }
      var f := env.upstream(env.unquote(title.value));
      if f.html.None? || f.fault == StoreFails {
        return;
      }
      assert Filed(store, doc.url);
      SaveUpdates(store, doc.url, f.html.value, doc.source, f.digest, env.now, true);
      SaveKeepsNormalized(store, doc.url, f.html.value, doc.source, f.digest, env.now, true);
      var _ := SaveDocument(doc.url, f.html.value, doc.source, true, f.digest, env.now);
      saved := true;
    }

    /** One turn of reindex_old_documents' loop, stated against the plan:
        the collection moves one key further along, and the count and the
        `updated` counter go up together when the document is saved. */
    method ReindexNext(ghost snapshot: map<string, Doc>, ghost plan: map<string, Option<Doc>>,
                       ghost done: set<string>, k: string, doc: Doc, env: Env,
                       count: nat, ghost stats0: Stats) returns (count': nat)
      requires plan == Plan(snapshot, env) && Normalized(snapshot) && k in snapshot && k !in done
      requires doc == snapshot[k]
      requires store == Apply(snapshot, done, plan) && Normalized(store)
      requires count == |Picked(done, plan)| && stats == stats0.(updated := stats0.updated + count)
      modifies this
      ensures store == Apply(snapshot, done + {k}, plan) && Normalized(store)
      ensures count' == |Picked(done + {k}, plan)| && stats == stats0.(updated := stats0.updated + count')
    {
      assert Filed(snapshot, k);
      assert doc.url == k && store[k] == doc;
      ApplyStep(snapshot, done, plan, k);
      PickedStep(done, plan, k);
      assert plan[k] == Renewal(doc, env);
      var saved := ReindexDocument(doc, env);
      count' := count + if saved then 1 else 0;
    }

    /** reindex_old_documents (scripts/crawler.py:372-408), over a
        collection whose records sit under their own normalised urls: the
        documents crawled before the cutoff, in any order, are refreshed
        when their article can be fetched again, and counted. */
    method ReindexOldDocuments(periodDays: int, env: Env) returns (count: nat)
      requires Normalized(store)
      modifies this
      ensures store == Reindexed(old(store), Cutoff(env.now, periodDays), env)
      ensures count == |Due(old(store), Cutoff(env.now, periodDays), env)|
      ensures stats == old(stats).(updated := old(stats).updated + count)
      ensures Normalized(store)
    {
      var cutoff := Cutoff(env.now, periodDays);
      var snapshot := store;
      var todo := Stale(store, cutoff);
      ghost var stats0 := stats;
      ghost var stale := todo;
      ghost var plan := Plan(snapshot, env);
      ghost var done: set<string> := {};
      count := 0;
      assert Apply(snapshot, done, plan) == snapshot;
      while todo != {}
        invariant todo !! done && todo + done == stale
        invariant store == Apply(snapshot, done, plan) && Normalized(store)
        invariant count == |Picked(done, plan)| && stats == stats0.(updated := stats0.updated + count)
        decreases |todo|
      {
        var k :| k in todo;
        count := ReindexNext(snapshot, plan, done, k, snapshot[k], env, count, stats0);
        MoveOne(todo, done, stale, k);
        todo := todo - {k};
        done := done + {k};
      }
    }
  }
}
