// scripts/fast_crawler.py: the multi-threaded crawler. Its save_document,
// which has no forced save and turns a failing collection into an 'error'
// outcome, its per-article rule, crawl_parallel (modelled one article after
// another, in the order of the titles) and the batch loop of run().

module FastCrawling {
  import opened Wrappers
  import opened CrawlStore
  import opened Crawling

  /** save_document of the fast crawler, once the URL is normalised to
      `key`: a collection that raises (`fails`) gives 'error' and changes
      nothing; otherwise the insert / skip / update rule, never forced. */
  function FastSave(store: map<string, Doc>, key: string, html: string, source: string,
                    digest: string, now: int, fails: bool): Saving
  {
    if fails then Saving(Failed, store) else Save(store, key, html, source, digest, now, false)
  }

  /** What process_article leaves, and what it returns: the outcome of the
      save, or None when the article was passed over or raised. */
  datatype Processed = Processed(state: State, result: Option<Outcome>)

  /** process_article: a missing article and one below min_words give None;
      an exception while counting its words bumps `errors` and gives None;
      otherwise the page is saved and `processed` goes up whatever the save
      returned, 'error' included. */
  function Process(st: State, title: string, env: Env): (r: Processed)
  {
    var f := env.upstream(title);
    if f.html.None? then Processed(st, None)
    else if f.fault == Raises then Processed(st.(stats := st.stats.(errors := st.stats.errors + 1)), None)
    else if f.words < env.minWords then Processed(st, None)
    else
      var s := FastSave(st.store, Key(env, title), f.html.value, env.source, f.digest, env.now, f.fault == StoreFails);
      Processed(State(s.store, Tally(st.stats, s.outcome).(processed := st.stats.processed + 1)), Some(s.outcome))
  }

  /** crawl_parallel, one article at a time in the order of the titles:
      after each article, stop once the collection holds
      target_document_count documents. There is no check before the first
      article. */
  function FastCrawl(st: State, titles: seq<string>, env: Env): (p: Pass)
    decreases |titles|
  {
    if titles == [] then Pass(st, false)
    else
      var r := Process(st, titles[0], env).state;
      if |r.store| >= env.target then Pass(r, true) else FastCrawl(r, titles[1..], env)
  }

  /** The loop of run(), given the titles each get_random_articles_batch
      call returned: stop once the target is reached (checked first, and
      again after each batch), or on an empty batch. */
  function FastRounds(st: State, batches: seq<seq<string>>, env: Env): (p: Pass)
    decreases |batches|
  {
    if |st.store| >= env.target then Pass(st, true)
    else if batches == [] || batches[0] == [] then Pass(st, false)
    else FastRounds(FastCrawl(st, batches[0], env).state, batches[1..], env)
  }

  // ---------------------------------------------------------------------
  // The per-article rule.

  /** An article is saved (or its save fails) exactly when it is fetched,
      does not raise and is long enough; `processed` counts those, failed
      saves included; `errors` counts only the exceptions of word counting;
      a failed save leaves the collection as it was. */
  lemma ProcessRule(st: State, title: string, env: Env)
    ensures var r := Process(st, title, env); var f := env.upstream(title);
      && (r.result.Some? <==> f.html.Some? && f.fault != Raises && f.words >= env.minWords)
      && r.state.stats.processed == st.stats.processed + (if r.result.Some? then 1 else 0)
      && r.state.stats.errors == st.stats.errors + (if f.html.Some? && f.fault == Raises then 1 else 0)
      && (r.result == Some(Failed) <==> r.result.Some? && f.fault == StoreFails)
      && (r.result.None? || r.result == Some(Failed) ==> r.state.store == st.store)
  {
  }

  /** The fast crawler never forces a save: an article whose digest is the
      stored one is skipped, and an update means the content changed. */
  lemma ProcessSkipsSameDigest(st: State, title: string, env: Env)
    ensures var r := Process(st, title, env); var f := env.upstream(title); var key := Key(env, title);
      && (r.result == Some(Updated) ==> key in st.store && st.store[key].contentHash != f.digest)
      && ((r.result.Some? && r.result != Some(Failed) && key in st.store && st.store[key].contentHash == f.digest)
            ==> r.result == Some(Skipped) && r.state.store == st.store)
  {
  }

  /** On the collection both crawlers agree: processing an article changes
      it exactly as the sequential crawler's visit does. Their counters
      differ only on a failing save, which the sequential crawler counts as
      an error and the fast one as processed. */
  lemma ProcessAgreesWithVisit(st: State, title: string, env: Env)
    ensures var r := Process(st, title, env); var v := Visit(st, title, env);
      && r.state.store == v.store
      && (env.upstream(title).fault != StoreFails ==> r.state.stats == v.stats)
      && (env.upstream(title).fault == StoreFails && r.result.Some? ==>
            r.state.stats == st.stats.(processed := st.stats.processed + 1)
            && v.stats == st.stats.(errors := st.stats.errors + 1))
  {
  }

  /** new + updated + skipped never exceed processed: every save that
      returns one of them is also counted as processed. */
  predicate Covered(s: Stats) {
    s.inserted + s.updated + s.skipped <= s.processed
  }

  lemma ProcessKeepsCovered(st: State, title: string, env: Env)
    requires Covered(st.stats)
    ensures Covered(Process(st, title, env).state.stats)
  {
  }

  /** Processing adds at most one document and drops none. */
  lemma ProcessGrows(st: State, title: string, env: Env)
    ensures var r := Process(st, title, env).state;
      st.store.Keys <= r.store.Keys && |st.store| <= |r.store| <= |st.store| + 1
  {
    ProcessAgreesWithVisit(st, title, env);
    VisitGrows(st, title, env);
  }

  lemma ProcessKeepsNormalized(st: State, title: string, env: Env)
    requires Normalized(st.store)
    ensures Normalized(Process(st, title, env).state.store)
  {
    ProcessAgreesWithVisit(st, title, env);
    VisitKeepsNormalized(st, title, env);
  }

  // ---------------------------------------------------------------------
  // crawl_parallel.

  /** Started below the target, a pass ends at or below it, and it reports
      the target exactly when the collection holds that many documents;
      otherwise it has gone through every title. */
  lemma {:induction false} FastCrawlStopsAtTarget(st: State, titles: seq<string>, env: Env)
    requires |st.store| < env.target
    ensures var p := FastCrawl(st, titles, env);
      |p.state.store| <= env.target && (p.reached <==> |p.state.store| == env.target)
    decreases |titles|
  {
    if titles != [] {
      ProcessGrows(st, titles[0], env);
      var r := Process(st, titles[0], env).state;
      if |r.store| < env.target {
        FastCrawlStopsAtTarget(r, titles[1..], env);
      }
    }
  }

  lemma {:induction false} FastCrawlKeepsCovered(st: State, titles: seq<string>, env: Env)
    requires Covered(st.stats)
    ensures Covered(FastCrawl(st, titles, env).state.stats)
    decreases |titles|
  {
    if titles != [] {
      ProcessKeepsCovered(st, titles[0], env);
      var r := Process(st, titles[0], env).state;
      if |r.store| < env.target {
        FastCrawlKeepsCovered(r, titles[1..], env);
      }
    }
  }

  /** A pass never loses a document and adds at most one per title. */
  lemma {:induction false} FastCrawlGrows(st: State, titles: seq<string>, env: Env)
    ensures var p := FastCrawl(st, titles, env);
      st.store.Keys <= p.state.store.Keys && |p.state.store| <= |st.store| + |titles|
    decreases |titles|
  {
    if titles != [] {
      ProcessGrows(st, titles[0], env);
      var r := Process(st, titles[0], env).state;
      if |r.store| < env.target {
        FastCrawlGrows(r, titles[1..], env);
      }
    }
  }

  lemma {:induction false} FastCrawlKeepsNormalized(st: State, titles: seq<string>, env: Env)
    requires Normalized(st.store)
    ensures Normalized(FastCrawl(st, titles, env).state.store)
    decreases |titles|
  {
    if titles != [] {
      ProcessKeepsNormalized(st, titles[0], env);
      var r := Process(st, titles[0], env).state;
      if |r.store| < env.target {
        FastCrawlKeepsNormalized(r, titles[1..], env);
      }
    }
  }

  // ---------------------------------------------------------------------
  // The batch loop of run().

  /** Started at or below the target, run() ends at or below it, and it
      reports the target exactly when the collection holds that many
      documents. */
  lemma {:induction false} FastRoundsStopAtTarget(st: State, batches: seq<seq<string>>, env: Env)
    requires |st.store| <= env.target
    ensures var p := FastRounds(st, batches, env);
      |p.state.store| <= env.target && (p.reached <==> |p.state.store| == env.target)
    decreases |batches|
  {
    if |st.store| < env.target && batches != [] && batches[0] != [] {
      FastCrawlStopsAtTarget(st, batches[0], env);
      FastRoundsStopAtTarget(FastCrawl(st, batches[0], env).state, batches[1..], env);
    }
  }

  /** An empty batch ends the run: the batches after it are never used. */
  lemma {:induction false} FastRoundsStopOnEmptyBatch(st: State, batches: seq<seq<string>>, env: Env, k: nat)
    requires k < |batches| && batches[k] == []
    ensures FastRounds(st, batches, env) == FastRounds(st, batches[..k + 1], env)
    decreases k
  {
    if |st.store| < env.target && batches[0] != [] {
      assert k > 0;
      assert batches[..k + 1][1..] == batches[1..][..k];
      FastRoundsStopOnEmptyBatch(FastCrawl(st, batches[0], env).state, batches[1..], env, k - 1);
    }
  }

  lemma {:induction false} FastRoundsKeepCovered(st: State, batches: seq<seq<string>>, env: Env)
    requires Covered(st.stats)
    ensures Covered(FastRounds(st, batches, env).state.stats)
    decreases |batches|
  {
    if |st.store| < env.target && batches != [] && batches[0] != [] {
      FastCrawlKeepsCovered(st, batches[0], env);
      FastRoundsKeepCovered(FastCrawl(st, batches[0], env).state, batches[1..], env);
    }
  }

  /** run() never loses a document. */
  lemma {:induction false} FastRoundsGrow(st: State, batches: seq<seq<string>>, env: Env)
    ensures st.store.Keys <= FastRounds(st, batches, env).state.store.Keys
    decreases |batches|
  {
    if |st.store| < env.target && batches != [] && batches[0] != [] {
      FastCrawlGrows(st, batches[0], env);
      FastRoundsGrow(FastCrawl(st, batches[0], env).state, batches[1..], env);
    }
  }

  lemma {:induction false} FastRoundsKeepNormalized(st: State, batches: seq<seq<string>>, env: Env)
    requires Normalized(st.store)
    ensures Normalized(FastRounds(st, batches, env).state.store)
    decreases |batches|
  {
    if |st.store| < env.target && batches != [] && batches[0] != [] {
      FastCrawlKeepsNormalized(st, batches[0], env);
      FastRoundsKeepNormalized(FastCrawl(st, batches[0], env).state, batches[1..], env);
    }
  }

  /** get_random_articles_batch (scripts/fast_crawler.py:113-145): at most
      500 titles per request; an exception or an answer without
      query.pages (None) stops it. */
  method GetRandomArticlesBatch(count: int, answers: seq<Option<seq<string>>>)
    returns (titles: seq<string>, requests: seq<int>)
    ensures Collected(count, 500, answers, titles, requests)
  {
    titles, requests := Collect(count, 500, answers);
  }

  class FastCrawler {
    var store: map<string, Doc>
    var stats: Stats

    /** A crawler over an existing collection, with zeroed counters. */
    constructor (collection: map<string, Doc>)
      ensures store == collection && stats == NoStats
    {
      store := collection;
      stats := NoStats;
    }

    /** save_document (scripts/fast_crawler.py:184-229); `fails` says
        whether the collection raises. */
    method SaveDocument(url: string, html: string, source: string, digest: string, now: int, fails: bool)
      returns (outcome: Outcome)
      modifies this
      ensures Saving(outcome, store) == FastSave(old(store), NormalizeUrl(url), html, source, digest, now, fails)
      ensures stats == Tally(old(stats), outcome)
    {
      if fails {
        return Failed;
      }
      var r := Save(store, NormalizeUrl(url), html, source, digest, now, false);
      store := r.store;
      stats := Tally(stats, r.outcome);
      outcome := r.outcome;
    }

    /** process_article (scripts/fast_crawler.py:231-257). */
    method ProcessArticle(title: string, env: Env) returns (result: Option<Outcome>)
      modifies this
      ensures Processed(State(store, stats), result) == Process(old(State(store, stats)), title, env)
    {
      var f := env.upstream(title);
      if f.html.None? {
        return None;
      }
      if f.fault == Raises {
        stats := stats.(errors := stats.errors + 1);
        return None;
      }
      if f.words < env.minWords {
        return None;
      }
      var outcome := SaveArticle(title, f.html.value, f.digest, f.fault == StoreFails, env);
      stats := stats.(processed := stats.processed + 1);
      result := Some(outcome);
    }

    /** The save of process_article: the article's URL is
        https://tr.wikipedia.org/wiki/ + quote(title), which save_document
        files under Key(env, title). */
    method SaveArticle(title: string, html: string, digest: string, fails: bool, env: Env)
      returns (outcome: Outcome)
      modifies this
      ensures Saving(outcome, store) == FastSave(old(store), Key(env, title), html, env.source, digest, env.now, fails)
      ensures stats == Tally(old(stats), outcome)
    {
      KeyIsNormalizedUrl(env, title);
      outcome := SaveDocument(WikiUrl(env.quote(title)), html, env.source, digest, env.now, fails);
    }

    /** crawl_parallel (scripts/fast_crawler.py:259-282), one article after
        another. */
    method CrawlParallel(titles: seq<string>, env: Env) returns (reached: bool)
      modifies this
      ensures Pass(State(store, stats), reached) == FastCrawl(old(State(store, stats)), titles, env)
    {
      var i := 0;
      reached := false;
      while i < |titles|
        invariant 0 <= i <= |titles|
        invariant FastCrawl(State(store, stats), titles[i..], env) == FastCrawl(old(State(store, stats)), titles, env)
      {
        assert titles[i..][1..] == titles[i + 1..];
        var _ := ProcessArticle(titles[i], env);
        i := i + 1;
        if |store| >= env.target {
          reached := true;
          return;
        }
      }
    }

    /** run() (scripts/fast_crawler.py:298-341), given the titles each
        get_random_articles_batch(1000) call returned. */
    method Run(batches: seq<seq<string>>, env: Env) returns (reached: bool)
      modifies this
      ensures Pass(State(store, stats), reached) == FastRounds(old(State(store, stats)), batches, env)
    {
      var i := 0;
      while |store| < env.target
        invariant 0 <= i <= |batches|
        invariant FastRounds(State(store, stats), batches[i..], env) == FastRounds(old(State(store, stats)), batches, env)
        decreases |batches| - i
      {
        if i == |batches| || batches[i] == [] {
          return false;
        }
        assert batches[i..][1..] == batches[i + 1..];
        var _ := CrawlParallel(batches[i], env);
        i := i + 1;
      }
      reached := true;
    }
  }
}
