/** The batch run of scripts/tech-watch-bot/main.py: configuration, the
    dedup filter against the URLs already stored, the per-article loop
    (scrape, comments, analysis, save) with its two accumulators, and the one
    digest write at the end. Everything outside this code is a field of
    `World`; the clock is read as `collectedAt` and the run date `today`. */
module Pipeline {
  import opened Outcomes
  import Rss
  import Scraper
  import Analyzer
  import Db

  /** The environment values read at start-up. */
  datatype Config = Config(supabaseUrl: Option<string>, serviceRoleKey: Option<string>, userId: Option<string>)

  const MissingStoreConfig: string := "Missing SUPABASE_URL or SUPABASE_SERVICE_ROLE_KEY environment variables"
  const MissingUserId: string := "Missing USER_ID environment variable"

  /** `get_supabase_client()` then `get_user_id()`: the user id, or the
      `ValueError` the first missing value raises. */
  function Setup(cfg: Config): (r: Call<string>)
    ensures r.Returned? <==> Present(cfg.supabaseUrl) && Present(cfg.serviceRoleKey) && Present(cfg.userId)
    ensures r.Returned? ==> r.value == cfg.userId.value
    ensures r.Raised? && !(Present(cfg.supabaseUrl) && Present(cfg.serviceRoleKey)) ==> r.message == MissingStoreConfig
  {
    if !Present(cfg.supabaseUrl) || !Present(cfg.serviceRoleKey) then Raised(MissingStoreConfig)
    else if !Present(cfg.userId) then Raised(MissingUserId)
    else Returned(cfg.userId.value)
  }

  /** What the collaborators do during one run. Each is a function of the
      argument the code passes it. */
  datatype World = World(
    parse: string -> Call<Rss.ParsedFeed>,               // the feed parse, by feed URL
    download: string -> Call<Option<string>>,            // page download, by article link
    extract: string -> Call<Option<string>>,             // text extraction, by downloaded page
    algolia: string -> Call<Option<seq<Scraper.Child>>>, // items API, by request URL
    geminiKey: Option<string>,                           // GEMINI_API_KEY
    generate: string -> Call<string>,                    // the language model, by prompt
    urlsRaised: bool,                                    // the stored-URL select raised
    insert: string -> Db.InsertReply,                    // article insert, by article link
    collectedAt: string -> string,                       // clock at the insert, by article link
    digestFault: Option<string>,                         // exception of the digest requests
    today: string)                                       // the run date, YYYY-MM-DD

  /** What happened to one new article. `stored` is the row the insert wrote,
      `id` the id handed back to the loop. */
  datatype Step =
    | Skipped(article: Rss.Article)
    | Processed(article: Rss.Article, analysis: Analyzer.Analysis, stored: Option<Db.ArticleRow>, id: Option<Db.Id>)

  /** How `main` ends. `ConfigError` is `sys.exit(1)`; otherwise it returns. */
  datatype RunOutcome =
    | ConfigError(message: string)
    | NoNewArticles
    | Batch(steps: seq<Step>, digestSaved: Option<bool>)

  function ExitStatus(o: RunOutcome): int {
    if o.ConfigError? then 1 else 0
  }

  // ---------------------------------------------------------------------
  // The dedup filter
  // ---------------------------------------------------------------------

  /** `[a for a in articles if a["link"] not in processed_urls]`. */
  function NewArticles(articles: seq<Rss.Article>, processedUrls: seq<string>): (r: seq<Rss.Article>)
    ensures |r| <= |articles|
    ensures forall a :: a in r <==> a in articles && a.link !in processedUrls
    ensures forall a :: multiset(r)[a] == if a.link in processedUrls then 0 else multiset(articles)[a]
    decreases |articles|
  {
    if articles == [] then []
    else
      var rest := NewArticles(articles[1..], processedUrls);
      assert articles == [articles[0]] + articles[1..];
      if articles[0].link in processedUrls then rest else [articles[0]] + rest
  }

  /** The filter keeps feed order: filtering a concatenation filters each part. */
  lemma {:induction false} NewArticlesAppend(a: seq<Rss.Article>, b: seq<Rss.Article>, processedUrls: seq<string>)
    ensures NewArticles(a + b, processedUrls) == NewArticles(a, processedUrls) + NewArticles(b, processedUrls)
    decreases |a|
  {
    if a == [] {
      assert a + b == b;
    } else {
      assert (a + b)[1..] == a[1..] + b;
      NewArticlesAppend(a[1..], b, processedUrls);
    }
  }

  // ---------------------------------------------------------------------
  // One article
  // ---------------------------------------------------------------------

  /** `clean_html_content(article['link'])`. */
  function ContentFor(w: World, link: string): Option<string> {
    Scraper.CleanHtmlContent(w.download(link), w.extract)
  }

  /** `analyze_article(content, fetch_hn_comments(comments_link), title)`. */
  function AnalysisFor(w: World, a: Rss.Article, content: string): Analyzer.Analysis {
    Analyzer.AnalyzeArticle(content, Scraper.CommentsFor(a.commentsLink, Scraper.DefaultLimit, w.algolia),
                            a.title, w.geminiKey, w.generate)
  }

  /** `step` is what the loop body does with `a`: skip it when there is no
      content; otherwise analyse it and pass the analysis text unchanged to
      the insert. */
  predicate StepFollows(step: Step, a: Rss.Article, w: World, userId: string) {
    && step.article == a
    && (step.Skipped? <==> ContentFor(w, a.link).None?)
    && (step.Processed? ==>
          var content := ContentFor(w, a.link).value;
          && step.analysis == AnalysisFor(w, a, content)
          && (step.stored.None? <==> w.insert(a.link).InsertRaised?)
          && (step.stored.Some? ==>
                step.stored.value == Db.NewArticleRow(step.stored.value.id, userId, a.title, a.link, content,
                                                      step.analysis.text, Some(a.published), w.collectedAt(a.link)))
          && step.id == (if w.insert(a.link) == Db.Inserted(true) then Some(step.stored.value.id) else None))
  }

  /** The body of the loop of `main` for one article. */
  method ProcessArticle(store: Db.Store, userId: string, w: World, a: Rss.Article) returns (step: Step)
    requires store.Valid()
    modifies store
    ensures store.Valid()
    ensures StepFollows(step, a, w, userId)
    ensures store.digests == old(store.digests) && store.nextDigestId == old(store.nextDigestId)
    ensures store.articles == old(store.articles) + StoredRows([step])
    ensures step.Processed? && step.stored.Some? ==> step.stored.value.id == old(store.nextArticleId)
  {
    var content := Scraper.CleanHtmlContent(w.download(a.link), w.extract);
    if !Present(content) {
      return Skipped(a);
    }
    // An empty comment list is only logged: the article goes on with its content alone.
    var comments := Scraper.FetchHnComments(a.commentsLink, Scraper.DefaultLimit, w.algolia);
    var analysis := Analyzer.AnalyzeArticle(content.value, comments, a.title, w.geminiKey, w.generate);
    var nextId := store.nextArticleId;
    var id := store.SaveArticle(userId, a.title, a.link, a.commentsLink, content.value, analysis.text,
                                Some(a.published), w.collectedAt(a.link), w.insert(a.link));
    var stored := if w.insert(a.link).InsertRaised? then None
                  else Some(Db.NewArticleRow(nextId, userId, a.title, a.link, content.value, analysis.text,
                                             Some(a.published), w.collectedAt(a.link)));
    step := Processed(a, analysis, stored, id);
  }

  // ---------------------------------------------------------------------
  // The accumulators
  // ---------------------------------------------------------------------

  /** The rows the steps wrote, in order. */
  function StoredRows(steps: seq<Step>): seq<Db.ArticleRow>
    decreases |steps|
  {
    if steps == [] then []
    else
      var last := steps[|steps| - 1];
      StoredRows(steps[..|steps| - 1])
      + (if last.Processed? && last.stored.Some? then [last.stored.value] else [])
  }

  /** The entry `main` appends to `processed_articles` for a processed step. */
  function EntryOf(step: Step): Db.DigestEntry
    requires step.Processed?
  {
    Db.DigestEntry(step.article.title, step.article.link, step.article.commentsLink, step.analysis.text)
  }

  /** A step whose save handed back an id. */
  predicate Saved(step: Step) {
    step.Processed? && step.id.Some?
  }

  /** `article_ids` after the steps. */
  function SavedIds(steps: seq<Step>): seq<Db.Id>
    decreases |steps|
  {
    if steps == [] then []
    else
      var last := steps[|steps| - 1];
      SavedIds(steps[..|steps| - 1]) + (if Saved(last) then [last.id.value] else [])
  }

  /** `processed_articles` after the steps. */
  function SavedEntries(steps: seq<Step>): seq<Db.DigestEntry>
    decreases |steps|
  {
    if steps == [] then []
    else
      var last := steps[|steps| - 1];
      SavedEntries(steps[..|steps| - 1]) + (if Saved(last) then [EntryOf(last)] else [])
  }

  /** The two accumulators grow together: the same length, and the k-th id
      and the k-th entry come from the same step. */
  lemma {:induction false} AccumulatorsAligned(steps: seq<Step>, k: nat)
    ensures |SavedIds(steps)| == |SavedEntries(steps)|
    ensures k < |SavedIds(steps)| ==>
              exists i :: 0 <= i < |steps| && Saved(steps[i])
                          && SavedIds(steps)[k] == steps[i].id.value && SavedEntries(steps)[k] == EntryOf(steps[i])
    decreases |steps|
  {
    if steps != [] {
      var n := |steps| - 1;
      var init := steps[..n];
      AccumulatorsAligned(init, k);
      if k < |SavedIds(init)| {
        var i :| 0 <= i < |init| && Saved(init[i])
                 && SavedIds(init)[k] == init[i].id.value && SavedEntries(init)[k] == EntryOf(init[i]);
        assert steps[i] == init[i];
      } else if k < |SavedIds(steps)| {
        assert Saved(steps[n]);
      }
    }
  }

  /** Every id in `article_ids` is the id of a row the run stored, and
      that row is the user's and carries the article's link. */
  lemma {:induction false} SavedIdsStored(steps: seq<Step>, w: World, userId: string, x: Db.Id)
    requires forall i :: 0 <= i < |steps| ==> StepFollows(steps[i], steps[i].article, w, userId)
    requires x in SavedIds(steps)
    ensures exists r :: r in StoredRows(steps) && r.id == x && r.userId == userId
    decreases |steps|
  {
    var n := |steps| - 1;
    if x in SavedIds(steps[..n]) {
      SavedIdsStored(steps[..n], w, userId, x);
    } else {
      assert steps[n].stored.value in StoredRows(steps);
    }
  }

  // ---------------------------------------------------------------------
  // The run
  // ---------------------------------------------------------------------

  /** The digest table after the run's single `save_digest`, if it is called. */
  function DigestsAfterRun(digests: seq<Db.DigestRow>, nextDigestId: Db.Id, userId: string,
                           w: World, steps: seq<Step>): seq<Db.DigestRow>
  {
    if SavedEntries(steps) == [] || w.digestFault.Some? then digests
    else Db.DigestsAfterSave(digests, nextDigestId, userId, w.today,
                             Db.BuildDigestSummary(SavedEntries(steps)), SavedIds(steps), None)
  }

  /** The `for article in new_articles` loop of `main` with its two
      accumulators, `article_ids` and `processed_articles`. */
  method ProcessAll(store: Db.Store, userId: string, w: World, newArticles: seq<Rss.Article>)
    returns (steps: seq<Step>, articleIds: seq<Db.Id>, processedArticles: seq<Db.DigestEntry>)
    requires store.Valid()
    modifies store
    ensures store.Valid()
    ensures |steps| == |newArticles|
    ensures forall k :: 0 <= k < |steps| ==> StepFollows(steps[k], newArticles[k], w, userId)
    ensures articleIds == SavedIds(steps) && processedArticles == SavedEntries(steps)
    ensures store.articles == old(store.articles) + StoredRows(steps)
    ensures store.digests == old(store.digests) && store.nextDigestId == old(store.nextDigestId)
  {
    processedArticles := [];
    articleIds := [];
    steps := [];
    for i := 0 to |newArticles|
      invariant store.Valid()
      invariant |steps| == i
      invariant forall k :: 0 <= k < i ==> StepFollows(steps[k], newArticles[k], w, userId)
      invariant articleIds == SavedIds(steps) && processedArticles == SavedEntries(steps)
      invariant store.articles == old(store.articles) + StoredRows(steps)
      invariant store.digests == old(store.digests) && store.nextDigestId == old(store.nextDigestId)
    {
      var article := newArticles[i];
      var step := ProcessArticle(store, userId, w, article);
      if step.Processed? && step.id.Some? {
        articleIds := articleIds + [step.id.value];
        processedArticles := processedArticles + [Db.DigestEntry(article.title, article.link,
                                                                  article.commentsLink, step.analysis.text)];
      }
      StepsSnoc(steps, step);
      FollowsSnoc(steps, step, newArticles, w, userId);
      steps := steps + [step];
    }
  }

  /** `main()`. */
  method RunBatch(store: Db.Store, cfg: Config, w: World) returns (outcome: RunOutcome)
    requires store.Valid()
    modifies store
    ensures store.Valid()
    ensures Setup(cfg).Raised? ==>
              outcome == ConfigError(Setup(cfg).message)
              && store.articles == old(store.articles) && store.digests == old(store.digests)
    ensures Setup(cfg).Returned? ==>
              var userId := Setup(cfg).value;
              var news := NewArticles(Rss.FeedArticles(w.parse(Rss.RssUrl)),
                                      old(store.GetProcessedUrls(userId, w.urlsRaised)));
              && (outcome.NoNewArticles? <==> news == [])
              && (outcome.NoNewArticles? ==>
                    store.articles == old(store.articles) && store.digests == old(store.digests))
              && (outcome.Batch? ==>
                    var steps := outcome.steps;
                    && |steps| == |news|
                    && (forall i :: 0 <= i < |steps| ==> StepFollows(steps[i], news[i], w, userId))
                    && store.articles == old(store.articles) + StoredRows(steps)
                    && (outcome.digestSaved.Some? <==> SavedEntries(steps) != [])
                    && (outcome.digestSaved.Some? ==> outcome.digestSaved.value == w.digestFault.None?)
                    && store.digests == DigestsAfterRun(old(store.digests), old(store.nextDigestId), userId, w, steps))
    ensures ExitStatus(outcome) == if Setup(cfg).Raised? then 1 else 0
  {
    var setup := Setup(cfg);
    if setup.Raised? {
      return ConfigError(setup.message);
    }
    var userId := setup.value;
    var processedUrls := store.GetProcessedUrls(userId, w.urlsRaised);
    var articles := Rss.FetchHnFeed(w.parse(Rss.RssUrl));
    var newArticles := NewArticles(articles, processedUrls);
    if newArticles == [] {
      return NoNewArticles;
    }
    var steps, digestSaved := ProcessBatch(store, userId, w, newArticles);
    outcome := Batch(steps, digestSaved);
  }

  /** The part of `main()` after the filter: the loop over the new articles,
      then the digest when some article was saved. */
  method ProcessBatch(store: Db.Store, userId: string, w: World, news: seq<Rss.Article>)
    returns (steps: seq<Step>, digestSaved: Option<bool>)
    requires store.Valid()
    modifies store
    ensures store.Valid()
    ensures |steps| == |news|
    ensures forall i :: 0 <= i < |steps| ==> StepFollows(steps[i], news[i], w, userId)
    ensures store.articles == old(store.articles) + StoredRows(steps)
    ensures digestSaved.Some? <==> SavedEntries(steps) != []
    ensures digestSaved.Some? ==> digestSaved.value == w.digestFault.None?
    ensures store.digests == DigestsAfterRun(old(store.digests), old(store.nextDigestId), userId, w, steps)
  {
    var articleIds, processedArticles;
    steps, articleIds, processedArticles := ProcessAll(store, userId, w, news);
    digestSaved := None;
    if processedArticles != [] {
      var digestSummary := Db.BuildDigestSummary(processedArticles);
      var ok := store.SaveDigest(userId, w.today, digestSummary, articleIds, None, w.digestFault);
      digestSaved := Some(ok);
    }
  }

  /** The steps still follow the articles after one more step that follows
      the next article. */
  lemma FollowsSnoc(steps: seq<Step>, step: Step, news: seq<Rss.Article>, w: World, userId: string)
    requires |steps| < |news|
    requires forall k :: 0 <= k < |steps| ==> StepFollows(steps[k], news[k], w, userId)
    requires StepFollows(step, news[|steps|], w, userId)
    ensures forall k :: 0 <= k < |steps| + 1 ==> StepFollows((steps + [step])[k], news[k], w, userId)
  {
    forall k | 0 <= k < |steps| + 1
      ensures StepFollows((steps + [step])[k], news[k], w, userId)
    {
      if k < |steps| {
        assert (steps + [step])[k] == steps[k];
      }
    }
  }

  /** The accumulators after one more step. */
  lemma StepsSnoc(steps: seq<Step>, step: Step)
    ensures StoredRows(steps + [step])
         == StoredRows(steps) + (if step.Processed? && step.stored.Some? then [step.stored.value] else [])
    ensures SavedIds(steps + [step]) == SavedIds(steps) + (if Saved(step) then [step.id.value] else [])
    ensures SavedEntries(steps + [step]) == SavedEntries(steps) + (if Saved(step) then [EntryOf(step)] else [])
  {
    assert (steps + [step])[..|steps|] == steps;
  }

  // ---------------------------------------------------------------------
  // Properties across runs
  // ---------------------------------------------------------------------

  /** An article whose row a run stored is filtered out by the next run
      (when the stored-URL select succeeds), whatever the feed holds. */
  lemma StoredArticleNotReprocessed(rows: seq<Db.ArticleRow>, steps: seq<Step>, i: nat, w: World,
                                    userId: string, feed: seq<Rss.Article>)
    requires i < |steps| && StepFollows(steps[i], steps[i].article, w, userId)
    requires steps[i].Processed? && steps[i].stored.Some?
    ensures steps[i].article !in NewArticles(feed, Db.UrlsOf(rows + StoredRows(steps), userId))
  {
    StoredRowsHas(steps, i);
    var all := rows + StoredRows(steps);
    var r := steps[i].stored.value;
    var k :| 0 <= k < |StoredRows(steps)| && StoredRows(steps)[k] == r;
    assert all[|rows| + k] == r;
  }

  lemma {:induction false} StoredRowsHas(steps: seq<Step>, i: nat)
    requires i < |steps| && steps[i].Processed? && steps[i].stored.Some?
    ensures steps[i].stored.value in StoredRows(steps)
    decreases |steps|
  {
    var n := |steps| - 1;
    if i < n {
      StoredRowsHas(steps[..n], i);
    }
  }
}
