/** The persistence layer of scripts/tech-watch-bot/src/db.py over an
    in-memory model of its two tables: `tech_watch_articles` and
    `tech_watch_digests`. Rows keep their insertion order. The digest select of
    the source has no ordering clause; the model takes it to return the
    matching rows in table order. Store-assigned UUIDs are modelled as natural
    numbers handed out by one counter per table. A failing request (network,
    permissions) is a parameter of each operation and leaves the tables as
    they were. */
module Db {
  import opened Outcomes
  import opened Text

  /** A row id assigned by the store. */
  type Id = nat

  /** A row of `tech_watch_articles`. */
  datatype ArticleRow = ArticleRow(
    id: Id,
    userId: string,
    title: string,
    url: string,
    source: string,
    content: Option<string>,
    summary: string,
    tags: seq<string>,
    publishedAt: Option<string>,
    collectedAt: string,
    read: bool)

  /** A row of `tech_watch_digests`; `articleIds` may be null in the table. */
  datatype DigestRow = DigestRow(
    id: Id,
    userId: string,
    periodStart: string,
    periodEnd: string,
    summary: string,
    articleIds: Option<seq<Id>>,
    keyTopics: seq<string>)

  /** How the store answered an insert: it stored the row and echoed it back
      (or returned no data), or the request raised. */
  datatype InsertReply = Inserted(echoed: bool) | InsertRaised(message: string)

  /** The `source` written on every article. */
  const HackerNews: string := "hacker_news"

  /** The most characters of article content stored. */
  const ContentCap: nat := 50000

  // ---------------------------------------------------------------------
  // Article rows
  // ---------------------------------------------------------------------

  /** `content[:50000] if content else None`. */
  function StoredContent(content: string): (r: Option<string>)
    ensures r.None? <==> content == ""
    ensures r.Some? ==> |r.value| == (if |content| <= ContentCap then |content| else ContentCap)
    ensures r.Some? ==> r.value == content[..|r.value|]
  {
    if content != "" then Some(Take(content, ContentCap)) else None
  }

  /** The row `save_article` inserts: fixed source, no tags, unread. */
  function NewArticleRow(id: Id, userId: string, title: string, url: string, content: string,
                         analysis: string, publishedAt: Option<string>, collectedAt: string): (r: ArticleRow)
    ensures r.id == id && r.userId == userId && r.title == title && r.url == url
    ensures r.summary == analysis && r.publishedAt == publishedAt && r.collectedAt == collectedAt
    ensures r.source == "hacker_news" && r.tags == [] && !r.read
    ensures r.content.None? <==> content == ""
    ensures r.content.Some? ==> |r.content.value| == (if |content| <= 50000 then |content| else 50000)
                                && r.content.value == content[..|r.content.value|]
  {
    ArticleRow(id, userId, title, url, HackerNews, StoredContent(content), analysis, [],
               publishedAt, collectedAt, false)
  }

  /** The `url` of every article row of `userId`, in table order. */
  function UrlsOf(rows: seq<ArticleRow>, userId: string): (urls: seq<string>)
    ensures |urls| <= |rows|
    ensures forall u :: u in urls <==> exists k :: 0 <= k < |rows| && rows[k].userId == userId && rows[k].url == u
    decreases |rows|
  {
    if rows == [] then []
    else
      var rest := UrlsOf(rows[1..], userId);
      assert forall k :: 1 <= k < |rows| ==> rows[k] == rows[1..][k - 1];
      if rows[0].userId == userId then [rows[0].url] + rest else rest
  }

  // ---------------------------------------------------------------------
  // Digest rows
  // ---------------------------------------------------------------------

  /** The bounds of the day `date` (a `YYYY-MM-DD` key). */
  function PeriodStart(date: string): string { date + "T00:00:00Z" }
  function PeriodEnd(date: string): string { date + "T23:59:59Z" }

  /** Whatever the date, its first second comes strictly before its last one
      in the string order the filters use, so the day is a non-empty range. */
  lemma PeriodWithinDay(date: string)
    ensures LexLe(PeriodStart(date), PeriodEnd(date))
    ensures !LexLe(PeriodEnd(date), PeriodStart(date))
  {
    var lo, hi := "T00:00:00Z", "T23:59:59Z";
    LexLeCommonPrefix(date, lo, hi);
    LexLeCommonPrefix(date, hi, lo);
    assert lo[1..] == "00:00:00Z" && hi[1..] == "23:59:59Z";
    assert LexLe(lo, hi);
    assert !LexLe(hi, lo);
  }

  /** The digest filter: this user, and a period inside `[start, end]`.
      Timestamps of one format compare as their text does. */
  predicate Matches(d: DigestRow, userId: string, start: string, end: string) {
    d.userId == userId && LexLe(start, d.periodStart) && LexLe(d.periodEnd, end)
  }

  /** The select: the matching digests in table order. */
  function SelectDigests(rows: seq<DigestRow>, userId: string, start: string, end: string): (r: seq<DigestRow>)
    ensures |r| <= |rows|
    ensures forall d :: d in r ==> d in rows && Matches(d, userId, start, end)
    decreases |rows|
  {
    if rows == [] then []
    else
      var rest := SelectDigests(rows[1..], userId, start, end);
      if Matches(rows[0], userId, start, end) then [rows[0]] + rest else rest
  }

  /** The index of the first matching digest. */
  function FirstMatch(rows: seq<DigestRow>, userId: string, start: string, end: string): (r: Option<nat>)
    ensures r.Some? ==> r.value < |rows| && Matches(rows[r.value], userId, start, end)
    ensures r.Some? ==> forall k :: 0 <= k < r.value ==> !Matches(rows[k], userId, start, end)
    ensures r.None? ==> forall k :: 0 <= k < |rows| ==> !Matches(rows[k], userId, start, end)
    decreases |rows|
  {
    if rows == [] then None
    else if Matches(rows[0], userId, start, end) then Some(0)
    else
      match FirstMatch(rows[1..], userId, start, end)
      case None => None
      case Some(k) => Some(k + 1)
  }

  /** The select finds something exactly when a first match exists, and its
      first row is that match. */
  lemma {:induction false} SelectFirst(rows: seq<DigestRow>, userId: string, start: string, end: string)
    ensures (|SelectDigests(rows, userId, start, end)| > 0) <==> FirstMatch(rows, userId, start, end).Some?
    ensures FirstMatch(rows, userId, start, end).Some? ==>
              SelectDigests(rows, userId, start, end)[0] == rows[FirstMatch(rows, userId, start, end).value]
    decreases |rows|
  {
    if rows != [] && !Matches(rows[0], userId, start, end) {
      SelectFirst(rows[1..], userId, start, end);
    }
  }

  /** No id occurs twice. */
  predicate NoDuplicates(s: seq<Id>) {
    forall i, j :: 0 <= i < j < |s| ==> s[i] != s[j]
  }

  /** The distinct elements of `s`, each at its first occurrence. */
  function Dedup(s: seq<Id>): (r: seq<Id>)
    ensures NoDuplicates(r)
    ensures forall x :: x in r <==> x in s
    decreases |s|
  {
    if s == [] then []
    else
      var init := s[..|s| - 1];
      var r := Dedup(init);
      assert forall x :: x in s <==> x in init || x == s[|s| - 1];
      if s[|s| - 1] in r then r else r + [s[|s| - 1]]
  }

  /** `list(set(existing_ids + article_ids))`. Python's set order is
      arbitrary; this model keeps first occurrences in order. */
  function MergeIds(existing: seq<Id>, added: seq<Id>): (r: seq<Id>)
    ensures NoDuplicates(r)
    ensures forall x :: x in r <==> x in existing || x in added
  {
    Dedup(existing + added)
  }

  /** The rows whose id is `id`, with the update patch applied. */
  function UpdateDigestById(rows: seq<DigestRow>, id: Id, summary: string,
                            articleIds: seq<Id>, keyTopics: seq<string>): (r: seq<DigestRow>)
    ensures |r| == |rows|
    ensures forall k :: 0 <= k < |rows| && rows[k].id != id ==> r[k] == rows[k]
  {
    seq(|rows|, k requires 0 <= k < |rows| =>
      if rows[k].id == id
      then rows[k].(summary := summary, articleIds := Some(articleIds), keyTopics := keyTopics)
      else rows[k])
  }

  /** Digest ids are distinct and below the next id to hand out. */
  predicate DigestIdsFresh(rows: seq<DigestRow>, nextId: Id) {
    && (forall k :: 0 <= k < |rows| ==> rows[k].id < nextId)
    && (forall i, j :: 0 <= i < j < |rows| ==> rows[i].id != rows[j].id)
  }

  /** `d` is a digest of `userId` inside the day `date` that carries
      `summary` and lists every id of `articleIds`. */
  predicate RecordsSave(d: DigestRow, userId: string, date: string, summary: string, articleIds: seq<Id>) {
    && Matches(d, userId, PeriodStart(date), PeriodEnd(date))
    && d.summary == summary
    && forall x :: x in articleIds ==> x in d.articleIds.GetOr([])
  }

  /** The digest table after a successful `save_digest`: the first digest of
      the user inside the day is updated, or a new one is appended. Either
      way it grows by a row only when the day had none; `SaveRecordsDay`
      says what the day's digest then holds. */
  function DigestsAfterSave(rows: seq<DigestRow>, nextId: Id, userId: string, date: string,
                            summary: string, articleIds: seq<Id>, keyTopics: Option<seq<string>>): (r: seq<DigestRow>)
    ensures |r| == if FirstMatch(rows, userId, PeriodStart(date), PeriodEnd(date)).Some? then |rows| else |rows| + 1
  {
    match FirstMatch(rows, userId, PeriodStart(date), PeriodEnd(date))
    case Some(j) =>
      UpdateDigestById(rows, rows[j].id, summary,
                       MergeIds(rows[j].articleIds.GetOr([]), articleIds), keyTopics.GetOr([]))
    case None =>
      rows + [DigestRow(nextId, userId, PeriodStart(date), PeriodEnd(date), summary,
                        Some(articleIds), keyTopics.GetOr([]))]
  }

  /** After a save the table holds a digest of the user inside the day that
      carries the new summary and lists every new id. */
  lemma SaveRecordsDay(rows: seq<DigestRow>, nextId: Id, userId: string, date: string,
                       summary: string, articleIds: seq<Id>, keyTopics: Option<seq<string>>)
    ensures var r := DigestsAfterSave(rows, nextId, userId, date, summary, articleIds, keyTopics);
            exists k :: 0 <= k < |r| && RecordsSave(r[k], userId, date, summary, articleIds)
  {
    var r := DigestsAfterSave(rows, nextId, userId, date, summary, articleIds, keyTopics);
    match FirstMatch(rows, userId, PeriodStart(date), PeriodEnd(date))
    case Some(j) =>
      assert RecordsSave(r[j], userId, date, summary, articleIds);
    case None =>
      LexLeReflexive(PeriodStart(date));
      LexLeReflexive(PeriodEnd(date));
      assert RecordsSave(r[|rows|], userId, date, summary, articleIds);
  }

  // ---------------------------------------------------------------------
  // Digest summary
  // ---------------------------------------------------------------------

  /** One processed article, as `main` collects it for the digest. */
  datatype DigestEntry = DigestEntry(title: string, url: string, commentsUrl: string, analysis: string)

  /** The four lines of one article's block. */
  function EntryLines(e: DigestEntry): seq<string> {
    [ "\n## [" + e.title + "](" + e.url + ")",
      "*Discussion: [Hacker News](" + e.commentsUrl + ")*\n",
      e.analysis,
      "\n---" ]
  }

  /** The `lines` list the loop of `build_digest_summary` builds. */
  function SummaryLines(entries: seq<DigestEntry>): seq<string>
    decreases |entries|
  {
    if entries == [] then [] else EntryLines(entries[0]) + SummaryLines(entries[1..])
  }

  /** `build_digest_summary(articles)`: the lines joined by newlines. It is
      empty exactly when there are no articles. */
  function BuildDigestSummary(entries: seq<DigestEntry>): (r: string)
    ensures r == "" <==> entries == []
  {
    if entries != [] then
      SummaryLinesInOrder(entries, 0);
      assert SummaryLines(entries)[0] == EntryLines(entries[0])[0];
      Join(SummaryLines(entries), "\n")
    else
      Join(SummaryLines(entries), "\n")
  }

  /** Every line of every article's block occurs in the summary. */
  lemma SummaryHasEntries(entries: seq<DigestEntry>)
    ensures forall i, k :: 0 <= i < |entries| && 0 <= k < 4 ==>
              Contains(BuildDigestSummary(entries), EntryLines(entries[i])[k])
  {
    JoinContainsAll(SummaryLines(entries), "\n");
    forall i, k | 0 <= i < |entries| && 0 <= k < 4
      ensures Contains(Join(SummaryLines(entries), "\n"), EntryLines(entries[i])[k])
    {
      SummaryLinesInOrder(entries, i);
      assert SummaryLines(entries)[4 * i + k] == SummaryLines(entries)[4 * i..4 * i + 4][k];
    }
  }

  // ---------------------------------------------------------------------
  // The store
  // ---------------------------------------------------------------------

  class Store {
    var articles: seq<ArticleRow>
    var digests: seq<DigestRow>
    var nextArticleId: Id
    var nextDigestId: Id

    /** Ids in each table are distinct and below the table's counter. */
    ghost predicate Valid()
      reads this
    {
      && (forall k :: 0 <= k < |articles| ==> articles[k].id < nextArticleId)
      && (forall i, j :: 0 <= i < j < |articles| ==> articles[i].id != articles[j].id)
      && DigestIdsFresh(digests, nextDigestId)
    }

    /** `get_processed_urls(supabase, user_id)`: the URLs of the user's
        stored articles, or `[]` when the request raised. */
    function GetProcessedUrls(userId: string, raised: bool): (urls: seq<string>)
      reads this
      ensures raised ==> urls == []
      ensures !raised ==> forall u :: u in urls <==>
                exists k :: 0 <= k < |articles| && articles[k].userId == userId && articles[k].url == u
    {
      if raised then [] else UrlsOf(articles, userId)
    }

    /** `save_article(...)`: inserts one row and returns its id when the
        store echoes the row back. `commentsUrl` is accepted and not stored.
        `collectedAt` stands for the clock reading at the call. */
    method SaveArticle(userId: string, title: string, url: string, commentsUrl: string,
                       content: string, analysis: string, publishedAt: Option<string>,
                       collectedAt: string, reply: InsertReply) returns (id: Option<Id>)
      requires Valid()
      modifies this
      ensures Valid()
      ensures digests == old(digests) && nextDigestId == old(nextDigestId)
      ensures reply.InsertRaised? ==> articles == old(articles) && nextArticleId == old(nextArticleId)
      ensures reply.Inserted? ==>
                && articles == old(articles) + [NewArticleRow(old(nextArticleId), userId, title, url, content,
                                                              analysis, publishedAt, collectedAt)]
                && nextArticleId == old(nextArticleId) + 1
      ensures id == if reply.Inserted? && reply.echoed then Some(old(nextArticleId)) else None
    {
      if reply.InsertRaised? {
        return None;
      }
      var row := NewArticleRow(nextArticleId, userId, title, url, content, analysis, publishedAt, collectedAt);
      articles := articles + [row];
      nextArticleId := nextArticleId + 1;
      if reply.echoed {
        id := Some(row.id);
      } else {
        id := None;
      }
    }

    /** `save_digest(...)`: the select for a digest of the user inside the
        day, then an update of the first one found or an insert. `fault` is
        the exception a request raised, if any; then nothing is written and
        the result is false. */
    method SaveDigest(userId: string, date: string, summary: string, articleIds: seq<Id>,
                      keyTopics: Option<seq<string>>, fault: Option<string>) returns (ok: bool)
      requires Valid()
      modifies this
      ensures Valid()
      ensures ok <==> fault.None?
      ensures articles == old(articles) && nextArticleId == old(nextArticleId)
      ensures !ok ==> digests == old(digests) && nextDigestId == old(nextDigestId)
      ensures ok ==> digests == DigestsAfterSave(old(digests), old(nextDigestId), userId, date,
                                                 summary, articleIds, keyTopics)
      ensures nextDigestId == old(nextDigestId) + |digests| - |old(digests)|
    {
      if fault.Some? {
        return false;
      }
      var periodStart := date + "T00:00:00Z";
      var periodEnd := date + "T23:59:59Z";
      var existing := SelectDigests(digests, userId, periodStart, periodEnd);
      SelectFirst(digests, userId, periodStart, periodEnd);
      if |existing| > 0 {
        var existingIds := existing[0].articleIds.GetOr([]);
        var mergedIds := MergeIds(existingIds, articleIds);
        digests := UpdateDigestById(digests, existing[0].id, summary, mergedIds, keyTopics.GetOr([]));
      } else {
        digests := digests + [DigestRow(nextDigestId, userId, periodStart, periodEnd, summary,
                                        Some(articleIds), keyTopics.GetOr([]))];
        nextDigestId := nextDigestId + 1;
      }
      ok := true;
    }
  }

  // ---------------------------------------------------------------------
  // Properties of the digest upsert
  // ---------------------------------------------------------------------

  /** The set of ids a digest row lists (a null list lists none). */
  function IdSet(d: DigestRow): set<Id> {
    set x | x in d.articleIds.GetOr([])
  }

  /** With a matching digest, `save_digest` rewrites only the first one: its
      ids become the union of the stored and the new ids without duplicates,
      its summary is replaced by the new text and its topics by `key_topics or
      []`; its owner and period stay; every other row is unchanged. */
  lemma UpdateTouchesFirstMatchOnly(rows: seq<DigestRow>, nextId: Id, userId: string, date: string,
                                    summary: string, articleIds: seq<Id>, keyTopics: Option<seq<string>>)
    requires DigestIdsFresh(rows, nextId)
    requires FirstMatch(rows, userId, PeriodStart(date), PeriodEnd(date)).Some?
    ensures var j := FirstMatch(rows, userId, PeriodStart(date), PeriodEnd(date)).value;
            var after := DigestsAfterSave(rows, nextId, userId, date, summary, articleIds, keyTopics);
            && |after| == |rows|
            && (forall k :: 0 <= k < |rows| && k != j ==> after[k] == rows[k])
            && after[j].id == rows[j].id && after[j].userId == rows[j].userId
            && after[j].periodStart == rows[j].periodStart && after[j].periodEnd == rows[j].periodEnd
            && after[j].summary == summary
            && after[j].keyTopics == keyTopics.GetOr([])
            && after[j].articleIds.Some? && NoDuplicates(after[j].articleIds.value)
            && IdSet(after[j]) == IdSet(rows[j]) + (set x | x in articleIds)
  {
    var j := FirstMatch(rows, userId, PeriodStart(date), PeriodEnd(date)).value;
    var after := DigestsAfterSave(rows, nextId, userId, date, summary, articleIds, keyTopics);
    forall k | 0 <= k < |rows| && k != j
      ensures after[k] == rows[k]
    {
      assert rows[k].id != rows[j].id;
    }
  }

  /** With no matching digest, exactly one row is appended: the user's, with
      the day's bounds, the new summary and the ids exactly as passed. */
  lemma InsertAppendsOneRow(rows: seq<DigestRow>, nextId: Id, userId: string, date: string,
                            summary: string, articleIds: seq<Id>, keyTopics: Option<seq<string>>)
    requires FirstMatch(rows, userId, PeriodStart(date), PeriodEnd(date)).None?
    ensures var after := DigestsAfterSave(rows, nextId, userId, date, summary, articleIds, keyTopics);
            && |after| == |rows| + 1 && after[..|rows|] == rows
            && after[|rows|].userId == userId
            && after[|rows|].periodStart == date + "T00:00:00Z"
            && after[|rows|].periodEnd == date + "T23:59:59Z"
            && after[|rows|].summary == summary
            && after[|rows|].articleIds == Some(articleIds)
            && after[|rows|].keyTopics == keyTopics.GetOr([])
  {
  }

  /** Dedup leaves a list without duplicates as it is. */
  lemma {:induction false} DedupOfDistinct(s: seq<Id>)
    requires NoDuplicates(s)
    ensures Dedup(s) == s
    decreases |s|
  {
    if s != [] {
      var init := s[..|s| - 1];
      DedupOfDistinct(init);
      assert s[|s| - 1] !in init;
      assert init + [s[|s| - 1]] == s;
    }
  }

  /** Appending ids that are already present changes nothing. */
  lemma {:induction false} DedupAbsorbs(r: seq<Id>, extra: seq<Id>)
    requires NoDuplicates(r)
    requires forall x :: x in extra ==> x in r
    ensures Dedup(r + extra) == r
    decreases |extra|
  {
    if extra == [] {
      assert r + extra == r;
      DedupOfDistinct(r);
    } else {
      var n := |extra| - 1;
      assert (r + extra)[..|r + extra| - 1] == r + extra[..n];
      DedupAbsorbs(r, extra[..n]);
      assert (r + extra)[|r + extra| - 1] == extra[n];
    }
  }

  /** Merging the same ids a second time changes nothing. */
  lemma MergeIdempotent(existing: seq<Id>, added: seq<Id>)
    ensures MergeIds(MergeIds(existing, added), added) == MergeIds(existing, added)
  {
    DedupAbsorbs(MergeIds(existing, added), added);
  }

  /** Calling `save_digest` twice with the same arguments leaves every row's
      id set as the first call left it, and adds no row. The second call's
      counter `n2` is arbitrary: after an update the store passes the same
      counter again, after an insert the next one. */
  lemma SaveDigestTwice(rows: seq<DigestRow>, n1: Id, n2: Id, userId: string, date: string,
                        summary: string, articleIds: seq<Id>, keyTopics: Option<seq<string>>)
    requires DigestIdsFresh(rows, n1)
    ensures var once := DigestsAfterSave(rows, n1, userId, date, summary, articleIds, keyTopics);
            var twice := DigestsAfterSave(once, n2, userId, date, summary, articleIds, keyTopics);
            && |twice| == |once|
            && forall k :: 0 <= k < |once| ==>
                 IdSet(twice[k]) == IdSet(once[k]) && twice[k].summary == once[k].summary
  {
    if FirstMatch(rows, userId, PeriodStart(date), PeriodEnd(date)).Some? {
      SaveDigestTwiceUpdate(rows, n1, n2, userId, date, summary, articleIds, keyTopics);
    } else {
      SaveDigestTwiceInsert(rows, n1, n2, userId, date, summary, articleIds, keyTopics);
    }
  }

  /** `SaveDigestTwice` when the day already has a digest: both calls update it. */
  lemma SaveDigestTwiceUpdate(rows: seq<DigestRow>, n1: Id, n2: Id, userId: string, date: string,
                              summary: string, articleIds: seq<Id>, keyTopics: Option<seq<string>>)
    requires DigestIdsFresh(rows, n1)
    requires FirstMatch(rows, userId, PeriodStart(date), PeriodEnd(date)).Some?
    ensures var once := DigestsAfterSave(rows, n1, userId, date, summary, articleIds, keyTopics);
            var twice := DigestsAfterSave(once, n2, userId, date, summary, articleIds, keyTopics);
            && |twice| == |once|
            && forall k :: 0 <= k < |once| ==>
                 IdSet(twice[k]) == IdSet(once[k]) && twice[k].summary == once[k].summary
  {
    var start, end := PeriodStart(date), PeriodEnd(date);
    var once := DigestsAfterSave(rows, n1, userId, date, summary, articleIds, keyTopics);
    var twice := DigestsAfterSave(once, n2, userId, date, summary, articleIds, keyTopics);
    var j := FirstMatch(rows, userId, start, end).value;
    UpdateTouchesFirstMatchOnly(rows, n1, userId, date, summary, articleIds, keyTopics);
    assert FirstMatch(once, userId, start, end) == Some(j) by {
      FirstMatchSame(rows, once, userId, start, end);
    }
    MergeIdempotent(rows[j].articleIds.GetOr([]), articleIds);
    assert DigestIdsFresh(once, n1);
    assert twice == DigestsAfterSave(once, n1, userId, date, summary, articleIds, keyTopics);
    UpdateTouchesFirstMatchOnly(once, n1, userId, date, summary, articleIds, keyTopics);
    assert twice[j] == once[j];
  }

  /** `SaveDigestTwice` when the day has no digest yet: the first call inserts
      one, the second updates it. */
  lemma SaveDigestTwiceInsert(rows: seq<DigestRow>, n1: Id, n2: Id, userId: string, date: string,
                              summary: string, articleIds: seq<Id>, keyTopics: Option<seq<string>>)
    requires DigestIdsFresh(rows, n1)
    requires FirstMatch(rows, userId, PeriodStart(date), PeriodEnd(date)).None?
    ensures var once := DigestsAfterSave(rows, n1, userId, date, summary, articleIds, keyTopics);
            var twice := DigestsAfterSave(once, n2, userId, date, summary, articleIds, keyTopics);
            && |twice| == |once|
            && forall k :: 0 <= k < |once| ==>
                 IdSet(twice[k]) == IdSet(once[k]) && twice[k].summary == once[k].summary
  {
    var start, end := PeriodStart(date), PeriodEnd(date);
    var once := DigestsAfterSave(rows, n1, userId, date, summary, articleIds, keyTopics);
    var twice := DigestsAfterSave(once, n2, userId, date, summary, articleIds, keyTopics);
    var m := |rows|;
    LexLeReflexive(start);
    LexLeReflexive(end);
    assert Matches(once[m], userId, start, end);
    assert once[..m] == rows;
    assert FirstMatch(once, userId, start, end) == Some(m) by {
      FirstMatchAfterPrefix(rows, once, userId, start, end);
    }
    assert DigestIdsFresh(once, n1 + 1);
    assert twice == DigestsAfterSave(once, n1 + 1, userId, date, summary, articleIds, keyTopics);
    UpdateTouchesFirstMatchOnly(once, n1 + 1, userId, date, summary, articleIds, keyTopics);
    assert once[m].articleIds == Some(articleIds);
    assert IdSet(twice[m]) == IdSet(once[m]);
    forall k | 0 <= k < |once|
      ensures IdSet(twice[k]) == IdSet(once[k]) && twice[k].summary == once[k].summary
    {
      if k != m {
        assert twice[k] == once[k];
      }
    }
  }

  /** Two tables whose rows agree on owner and period have the same first match. */
  lemma {:induction false} FirstMatchSame(a: seq<DigestRow>, b: seq<DigestRow>, userId: string, start: string, end: string)
    requires |a| == |b|
    requires forall k :: 0 <= k < |a| ==>
               a[k].userId == b[k].userId && a[k].periodStart == b[k].periodStart && a[k].periodEnd == b[k].periodEnd
    ensures FirstMatch(a, userId, start, end) == FirstMatch(b, userId, start, end)
    decreases |a|
  {
    if a != [] {
      FirstMatchSame(a[1..], b[1..], userId, start, end);
    }
  }

  /** A row appended after a table without matches is the first match. */
  lemma {:induction false} FirstMatchAfterPrefix(a: seq<DigestRow>, b: seq<DigestRow>, userId: string, start: string, end: string)
    requires |b| == |a| + 1 && b[..|a|] == a
    requires FirstMatch(a, userId, start, end).None?
    requires Matches(b[|a|], userId, start, end)
    ensures FirstMatch(b, userId, start, end) == Some(|a|)
    decreases |a|
  {
    if a != [] {
      assert b[1..][..|a| - 1] == a[1..];
      FirstMatchAfterPrefix(a[1..], b[1..], userId, start, end);
    }
  }

  // ---------------------------------------------------------------------
  // Properties of the digest summary
  // ---------------------------------------------------------------------

  /** Four lines per article, in input order. */
  lemma {:induction false} SummaryLinesInOrder(entries: seq<DigestEntry>, i: nat)
    requires i < |entries|
    ensures |SummaryLines(entries)| == 4 * |entries|
    ensures SummaryLines(entries)[4 * i..4 * i + 4] == EntryLines(entries[i])
    decreases |entries|
  {
    if i == 0 {
      if |entries| > 1 {
        SummaryLinesInOrder(entries[1..], 0);
      }
    } else {
      SummaryLinesInOrder(entries[1..], i - 1);
      assert SummaryLines(entries) == EntryLines(entries[0]) + SummaryLines(entries[1..]);
      assert SummaryLines(entries)[4 * i..4 * i + 4] == SummaryLines(entries[1..])[4 * (i - 1)..4 * (i - 1) + 4];
    }
  }

  lemma {:induction false} SummaryLinesAppend(a: seq<DigestEntry>, b: seq<DigestEntry>)
    ensures SummaryLines(a + b) == SummaryLines(a) + SummaryLines(b)
    decreases |a|
  {
    if a == [] {
      assert a + b == b;
    } else {
      assert (a + b)[1..] == a[1..] + b;
      SummaryLinesAppend(a[1..], b);
    }
  }

  /** The summary of one article: heading with title and link, discussion
      line, the analysis verbatim, a separator. */
  lemma SingleEntrySummary(e: DigestEntry)
    ensures BuildDigestSummary([e]) ==
      "\n## [" + e.title + "](" + e.url + ")" + "\n"
      + "*Discussion: [Hacker News](" + e.commentsUrl + ")*\n" + "\n"
      + e.analysis + "\n"
      + "\n---"
  {
    var l0 := "\n## [" + e.title + "](" + e.url + ")";
    var l1 := "*Discussion: [Hacker News](" + e.commentsUrl + ")*\n";
    assert SummaryLines([e]) == [l0, l1, e.analysis, "\n---"] by {
      assert [e][1..] == [];
    }
    JoinFour(l0, l1, e.analysis, "\n---", "\n");
    var x := l0 + "\n";
    AppendAssoc(x, "*Discussion: [Hacker News](" + e.commentsUrl, ")*\n");
    AppendAssoc(x, "*Discussion: [Hacker News](", e.commentsUrl);
  }

  /** The summary of a concatenation is the two summaries joined by a
      newline: blocks appear in the order of the articles. */
  lemma SummaryAppend(a: seq<DigestEntry>, b: seq<DigestEntry>)
    requires a != [] && b != []
    ensures BuildDigestSummary(a + b) == BuildDigestSummary(a) + "\n" + BuildDigestSummary(b)
  {
    SummaryLinesAppend(a, b);
    SummaryLinesInOrder(a, 0);
    SummaryLinesInOrder(b, 0);
    JoinAppend(SummaryLines(a), SummaryLines(b), "\n");
  }
}
