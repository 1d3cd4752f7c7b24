# Tech watch bot — a verified Dafny model

The tech watch bot is a batch job. It reads the Hacker News RSS feed of
articles with more than 100 points and drops every link already stored for the
user. For each remaining article it:

- downloads and extracts the page text;
- fetches the first top-level comments from the Algolia items API and cleans
  their HTML;
- asks a language model for an analysis;
- stores the article row.

It then creates or updates one daily digest row listing the stored articles.
A second, older component keeps a JSON "history" file of processed ids.

The model has one Dafny module per source file, plus two small shared ones:

| module | file | source |
|---|---|---|
| `Outcomes` | `outcomes.dfy` | `Option`, `Call` (a collaborator returned a value or raised) and Python truthiness of an optional string |
| `Text` | `text.dfy` | string slicing, `str.join`, substring containment, string order, `str.isspace` |
| `Rss` | `rss.dfy` | `src/rss.py` |
| `Scraper` | `scraper.dfy` | `src/scraper.py` |
| `Analyzer` | `analyzer.dfy` | `src/analyzer.py` |
| `Db` | `db.dfy` | `src/db.py` |
| `History` | `history.dfy` | `src/utils.py` |
| `Pipeline` | `pipeline.dfy` | `main.py` |

Several things outside the code become inputs of the model:

- The external libraries: feedparser, trafilatura, the Algolia HTTP call, the
  Gemini SDK and the Supabase client.
- The environment and the clock.

Each library call is a parameter of type `Call<T>` (the value it returned, or
the exception it raised), or a function from the argument the code passes to
such a result. The article insert and its `collected_at` time are functions of
the article link.

The two Supabase tables are sequences of rows inside the class `Db.Store`.
The store's row ids come from per-table counters, and `Store.Valid()` keeps
them distinct. `save_article` and `save_digest` are methods that change the
tables. `main` is `Pipeline.RunBatch`. What it does after filtering the
feed is `Pipeline.ProcessBatch`: the per-article loop
`Pipeline.ProcessAll`, whose every pass is `Pipeline.ProcessArticle`, and
then the digest.

`RunBatch` returns a log with one `Step` per new article. The log records
whether the article was skipped, which analysis it got and which row it
stored. Because of it, "was not analysed" and "was not saved" can be stated
about a run.

Some facts about the code that the model keeps:

- `analyze_article` calls the model once per article
  (`src/analyzer.py:52-58`).
- Every article row gets `tags = []` (`src/db.py:75`).
- A missing `GEMINI_API_KEY` does not stop the run. Each analysis returns the
  error text `Error: No GEMINI_API_KEY configured.` instead
  (`src/analyzer.py:23-27`).
- An error text returned by the analyzer is stored as the article summary
  and listed in the digest, like any other analysis (`main.py:84-105`).
- Content is cut to 50000 and 15000 characters (`src/db.py:73`,
  `src/analyzer.py:40`).

## Model

Source paths are relative to the repository root.

| member | source | states |
|---|---|---|
| Text.Take | scripts/tech-watch-bot/src/analyzer.py:40 | `s[:n]` is the prefix of `s` of length `min(len(s), n)` |
| Text.Join | scripts/tech-watch-bot/src/db.py:171 | `sep.join(parts)` is `""` for no parts, and otherwise starts with the first part and ends with the last |
| Text.JoinAppend | scripts/tech-watch-bot/src/db.py:171 | joining two non-empty line lists is joining their joins with one more separator |
| Text.JoinContains | scripts/tech-watch-bot/src/db.py:171 | every part occurs in the joined text |
| Text.JoinContainsAll | scripts/tech-watch-bot/src/analyzer.py:34 | every part occurs in the joined text, for all parts at once |
| Text.JoinFour | scripts/tech-watch-bot/src/db.py:171 | joining four parts puts the separator between each two |
| Rss.FeedArticles | scripts/tech-watch-bot/src/rss.py:9-38 | one article per feed entry; an exception while fetching or parsing gives `[]` |
| Rss.FetchHnFeed | scripts/tech-watch-bot/src/rss.py:14-38 | the loop yields, in entry order, one record per entry: a missing title becomes `No Title`, a missing id, link, comments or published field becomes `""`; an exception gives `[]`; equals `FeedArticles` |
| Rss.BozoIgnored | scripts/tech-watch-bot/src/rss.py:18-19 | a `bozo` parse gives the same articles as a clean one |
| Rss.Normalize | scripts/tech-watch-bot/src/rss.py:24-30 | each field the entry has is copied into the record; a missing title becomes `No Title`, a missing id, link, comments or published field becomes `""` |
| Scraper.CleanHtmlContent | scripts/tech-watch-bot/src/scraper.py:9-29 | some text exactly when the download returned a page and extraction returned a non-empty string, and then that string; `None` on a failed download, an empty extraction or an exception; never `""` |
| Scraper.FirstIdMatch | scripts/tech-watch-bot/src/scraper.py:42 | the leftmost position where `id=` followed by a digit occurs, or none |
| Scraper.DigitRun | scripts/tech-watch-bot/src/scraper.py:42 | the greedy `\d+`: a maximal run of digits starting at the given position |
| Scraper.ItemId | scripts/tech-watch-bot/src/scraper.py:42-47 | no id exactly when the URL has no `id=` followed by a digit; otherwise group 1 of the leftmost match, non-empty |
| Scraper.NextGt | scripts/tech-watch-bot/src/scraper.py:76 | the first `>` at or after a position, or none |
| Scraper.TagEndAtStart | scripts/tech-watch-bot/src/scraper.py:76 | the end of the match of `<[^>]+>` starting at index 0, or none when no match starts there |
| Scraper.StripTags | scripts/tech-watch-bot/src/scraper.py:76 | `re.sub(r'<[^>]+>', '', s)` is no longer than `s` and uses only characters of `s`; `StripTagsSkipsTag`, `StripTagsKeepsPlainPrefix` and `StripTagsKeepsLoneLt` fix what survives |
| Scraper.TrimStart | scripts/tech-watch-bot/src/scraper.py:80 | a suffix of `s` whose removed prefix is all whitespace and that does not start with whitespace |
| Scraper.TrimEnd | scripts/tech-watch-bot/src/scraper.py:80 | a prefix of `s` whose removed suffix is all whitespace and that does not end with whitespace |
| Scraper.Strip | scripts/tech-watch-bot/src/scraper.py:80 | `s.strip()` is a slice of `s` with only whitespace cut from both ends, and has no whitespace at either end |
| Scraper.Replace | scripts/tech-watch-bot/src/scraper.py:74 | `s.replace(pat, rep)` leaves `s` unchanged when `pat` does not occur, and uses only characters of `s` and `rep`; `ReplaceSkips` fixes where `rep` goes |
| Scraper.CleanText | scripts/tech-watch-bot/src/scraper.py:74-80 | the cleaned comment text holds no `<[^>]+>` match and has no leading or trailing whitespace; `CleanOpenParagraph`, `CleanCloseParagraph` and `CleanPlainText` fix what it is |
| Scraper.CommentOf | scripts/tech-watch-bot/src/scraper.py:74-81 | a kept child becomes a comment with the author verbatim and a text that holds no tag and no surrounding whitespace |
| Scraper.Eligible | scripts/tech-watch-bot/src/scraper.py:62-82 | the selection of the kept children, no longer than the children; `EligibleOne`, `EligibleAppend`, `EligibleFromKept` and `KeptInEligible` fix its contents |
| Scraper.TakeUpTo | scripts/tech-watch-bot/src/scraper.py:63-64 | the first `limit` items, none for a non-positive limit |
| Scraper.CommentsFor | scripts/tech-watch-bot/src/scraper.py:32-88 | `[]` when the URL has no item id or the API call raised; on a reply, the first `limit` comments of the kept children of its `children` list; never more than `limit` comments |
| Scraper.FetchHnComments | scripts/tech-watch-bot/src/scraper.py:40-88 | the loop with its `count` and `break` returns exactly `CommentsFor` |
| Scraper.EligibleAppend | scripts/tech-watch-bot/src/scraper.py:62-82 | selection keeps the children's order: the comments of a concatenation are the concatenation of the comments |
| Scraper.EligibleOne | scripts/tech-watch-bot/src/scraper.py:69-82 | one child gives its comment when it has text and author, and nothing otherwise |
| Scraper.EligibleFromKept | scripts/tech-watch-bot/src/scraper.py:62-82 | every selected comment is the comment of some kept child |
| Scraper.KeptInEligible | scripts/tech-watch-bot/src/scraper.py:62-82 | every kept child gives a selected comment |
| Scraper.EligibleSnoc | scripts/tech-watch-bot/src/scraper.py:62-82 | one more child at the end adds its comment at the end when it is kept, and nothing otherwise |
| Scraper.CommentsUpToLimit | scripts/tech-watch-bot/src/scraper.py:61-84 | with at least `limit > 0` kept children, exactly `limit` comments come back: the first `limit` kept ones in order |
| Scraper.SkippedChildDoesNotCount | scripts/tech-watch-bot/src/scraper.py:61-82 | skipped children do not use up the limit: inserting a child without text or author anywhere leaves the returned comments unchanged |
| Scraper.StripTagsTagFree | scripts/tech-watch-bot/src/scraper.py:76 | after the substitution nothing matches `<[^>]+>` |
| Scraper.StripTagsSkipsTag | scripts/tech-watch-bot/src/scraper.py:76 | text outside the tags survives: a tag after text without `<` is removed and that text is kept as it is, then the rest is processed |
| Scraper.StripKeepsTagFree | scripts/tech-watch-bot/src/scraper.py:80 | stripping a text without tags leaves it without tags |
| Scraper.ReplaceAbsent | scripts/tech-watch-bot/src/scraper.py:74 | replacing `<p>` or `</p>` in a text without `<` changes nothing |
| Scraper.StripTagsAbsent | scripts/tech-watch-bot/src/scraper.py:76 | tag removal in a text without `<` changes nothing |
| Scraper.StripTagsKeepsPlainPrefix | scripts/tech-watch-bot/src/scraper.py:76 | text without `<` in front of the rest is kept as it is, and the rest is processed on its own |
| Scraper.StripTagsKeepsLoneLt | scripts/tech-watch-bot/src/scraper.py:76 | a `<` that opens no tag (no `>` follows, or `<>`) is kept, with the text before it, and the rest is processed |
| Scraper.ReplaceStep | scripts/tech-watch-bot/src/scraper.py:74 | where the pattern does not start at the first character, that character is kept and replacement goes on from the next one |
| Scraper.ReplaceSkips | scripts/tech-watch-bot/src/scraper.py:74 | the scan is left to right and non-overlapping: text before the first occurrence is kept, that occurrence becomes `rep`, and the rest is replaced in turn |
| Scraper.CleanOpenParagraph | scripts/tech-watch-bot/src/scraper.py:74-80 | a `<p>` between two texts without markup becomes a newline, and the result is the stripped joined text |
| Scraper.CleanCloseParagraph | scripts/tech-watch-bot/src/scraper.py:74-80 | a `</p>` between two texts without markup disappears, and the result is the stripped concatenation |
| Scraper.CleanPlainText | scripts/tech-watch-bot/src/scraper.py:74-80 | a comment without markup is only stripped of surrounding whitespace |
| Analyzer.AnalyzeArticle | scripts/tech-watch-bot/src/analyzer.py:18-58 | no or empty key: exactly `Error: No GEMINI_API_KEY configured.` and no model call; otherwise one call attempt, with the full prompt, where a failure to set up the client counts as a failed call; the response text unchanged on success, `Error analyzing article: ` plus the message on an exception |
| Analyzer.CommentsTextSnoc | scripts/tech-watch-bot/src/analyzer.py:34 | the comments block lists `- author: text` lines in comment order, separated by newlines |
| Analyzer.CommentsText | scripts/tech-watch-bot/src/analyzer.py:34 | the comments block is `""` exactly when there are no comments, and holds the `- author: text` line of every comment |
| Analyzer.UserMessage | scripts/tech-watch-bot/src/analyzer.py:36-45 | the user message holds the title, the first 15000 characters of the content and the comments block |
| Analyzer.FullPrompt | scripts/tech-watch-bot/src/analyzer.py:49 | the prompt starts with the instruction block and a blank line, and holds the title, the truncated content and the comments block |
| Analyzer.MessageHolds | scripts/tech-watch-bot/src/analyzer.py:36-45 | the title, the content excerpt and the comments block each occur in the message template built around them |
| Analyzer.ContentBeyondLimitUnused | scripts/tech-watch-bot/src/analyzer.py:40 | contents that agree on their first 15000 characters give the same prompt |
| Db.StoredContent | scripts/tech-watch-bot/src/db.py:73 | `None` exactly for empty content; otherwise the character prefix of length `min(len, 50000)` |
| Db.NewArticleRow | scripts/tech-watch-bot/src/db.py:68-79 | the inserted row carries the user, title, url, analysis as summary, published and collected times, source `hacker_news`, no tags, unread, and content null for empty content or else its first `min(len, 50000)` characters |
| Db.UrlsOf | scripts/tech-watch-bot/src/db.py:42-47 | a URL is listed exactly when some row of the user has it |
| Db.PeriodStart | scripts/tech-watch-bot/src/db.py:110 | the day's lower bound is the date followed by `T00:00:00Z` |
| Db.PeriodEnd | scripts/tech-watch-bot/src/db.py:111 | the day's upper bound is the date followed by `T23:59:59Z` |
| Db.PeriodWithinDay | scripts/tech-watch-bot/src/db.py:110-111 | for every date the lower bound is strictly below the upper one in string order |
| Db.Matches | scripts/tech-watch-bot/src/db.py:116-118 | a digest passes the filter when its user is the user, its `period_start` is at least the lower bound and its `period_end` at most the upper one, in string order |
| Db.SelectDigests | scripts/tech-watch-bot/src/db.py:114-119 | the selected digests are rows of the table that belong to the user and lie inside the day |
| Db.FirstMatch | scripts/tech-watch-bot/src/db.py:121-132 | the index of the first digest of the user inside the day, or none when there is none |
| Db.SelectFirst | scripts/tech-watch-bot/src/db.py:114-132 | the select is non-empty exactly when a first match exists, and its first row is that match |
| Db.Dedup | scripts/tech-watch-bot/src/db.py:124 | no duplicates, and the same elements as the input |
| Db.MergeIds | scripts/tech-watch-bot/src/db.py:123-124 | the merged ids have no duplicates and are exactly the stored ids together with the new ones |
| Db.UpdateDigestById | scripts/tech-watch-bot/src/db.py:126-133 | the update by id leaves every row with another id unchanged |
| Db.DigestsAfterSave | scripts/tech-watch-bot/src/db.py:109-149 | a save keeps the table's length when the user already has a digest inside the day and adds one row otherwise |
| Db.SaveRecordsDay | scripts/tech-watch-bot/src/db.py:109-149 | after a save the table holds a digest of the user inside the day carrying the new summary and listing every new id |
| Db.Store.GetProcessedUrls | scripts/tech-watch-bot/src/db.py:36-50 | `[]` when the request raised; otherwise a URL is listed exactly when a stored article of the user has it |
| Db.Store.SaveArticle | scripts/tech-watch-bot/src/db.py:53-94 | inserts one row with source `hacker_news`, content cut to 50000 characters or null, the analysis as summary, no tags, unread; returns its id when the row is echoed back and `None` otherwise; on an exception nothing changes; the digests are untouched |
| Db.Store.SaveDigest | scripts/tech-watch-bot/src/db.py:97-155 | true exactly when no request raised, and then the digest table is the update or insert of `DigestsAfterSave`; on false nothing changes; the articles are untouched; ids stay distinct |
| Db.UpdateTouchesFirstMatchOnly | scripts/tech-watch-bot/src/db.py:121-135 | with a matching digest only the first one changes: summary replaced, topics `key_topics or []`, ids the union of old and new without duplicates, owner and period kept; every other row is unchanged |
| Db.InsertAppendsOneRow | scripts/tech-watch-bot/src/db.py:136-149 | with no match exactly one row is appended: the user's, bounded by `dateT00:00:00Z` and `dateT23:59:59Z`, with the ids exactly as passed |
| Db.DedupOfDistinct | scripts/tech-watch-bot/src/db.py:124 | deduplicating a list without duplicates leaves it as it is |
| Db.DedupAbsorbs | scripts/tech-watch-bot/src/db.py:124 | adding ids that are already present changes nothing |
| Db.MergeIdempotent | scripts/tech-watch-bot/src/db.py:123-124 | merging the same ids twice gives the same list as merging once |
| Db.SaveDigestTwice | scripts/tech-watch-bot/src/db.py:109-151 | a second identical `save_digest`, whatever id counter the store then has, adds no row and leaves every row's id set and summary as the first call left them |
| Db.SaveDigestTwiceUpdate | scripts/tech-watch-bot/src/db.py:121-135 | the same, when the day already has a digest: both calls update it and the second merge adds no id |
| Db.SaveDigestTwiceInsert | scripts/tech-watch-bot/src/db.py:121-149 | the same, when the day has no digest: the first call inserts it and the second finds and updates that row |
| Db.BuildDigestSummary | scripts/tech-watch-bot/src/db.py:158-171 | the summary is `""` exactly when there are no articles |
| Db.EntryLines | scripts/tech-watch-bot/src/db.py:166-169 | one article's four lines: heading with title and link, discussion line, analysis, separator; `SingleEntrySummary` states them |
| Db.SummaryLines | scripts/tech-watch-bot/src/db.py:163-169 | the `lines` list: the blocks of the articles in order; `SummaryLinesInOrder` and `SummaryLinesAppend` state it |
| Db.SummaryHasEntries | scripts/tech-watch-bot/src/db.py:163-171 | every line of every article's block (heading, discussion line, analysis, separator) occurs in the summary |
| Db.SummaryLinesInOrder | scripts/tech-watch-bot/src/db.py:163-169 | four lines per article, the block of article `i` at lines `4i` to `4i+3` |
| Db.SummaryLinesAppend | scripts/tech-watch-bot/src/db.py:165-169 | the lines of a concatenation are the concatenation of the lines |
| Db.SingleEntrySummary | scripts/tech-watch-bot/src/db.py:165-171 | one article renders as heading with title and link, discussion line, analysis verbatim, separator |
| Db.SummaryAppend | scripts/tech-watch-bot/src/db.py:163-171 | the summary of a concatenation is the two summaries joined by a newline, so blocks follow the articles' order |
| History.IsProcessed | scripts/tech-watch-bot/src/utils.py:39-40 | true exactly when the id occurs in the list |
| History.HistoryStore.LoadHistory | scripts/tech-watch-bot/src/utils.py:10-23 | the stored list; `[]` for a missing path, an unreadable or undecodable file, or an object without `processed_ids` |
| History.HistoryStore.SaveHistory | scripts/tech-watch-bot/src/utils.py:25-37 | written: the path holds `{"processed_ids": ids}` with the whole list; the open failed: nothing changes; the dump failed after the open truncated the file: the file no longer decodes |
| History.HistoryStore.SaveThenLoad | scripts/tech-watch-bot/src/utils.py:10-37 | loading after a save gives back exactly the saved list, same order, untruncated |
| History.HistoryStore.FailedDumpThenLoad | scripts/tech-watch-bot/src/utils.py:14-37 | a dump that fails after the open loses the earlier list: the next load returns `[]` |
| Pipeline.Setup | scripts/tech-watch-bot/main.py:37-43 | the user id exactly when the store URL, the service key and the user id are all set and non-empty; the store settings are checked first |
| Pipeline.NewArticles | scripts/tech-watch-bot/main.py:53 | an article is kept exactly when its link is not among the processed URLs; repeated unprocessed links are kept as often as they occur |
| Pipeline.NewArticlesAppend | scripts/tech-watch-bot/main.py:53 | the filter keeps feed order |
| Pipeline.ProcessArticle | scripts/tech-watch-bot/main.py:67-96 | no content: skipped, nothing stored; otherwise analysed (an empty comment list does not skip) and saved with the analysis text unchanged, the stored row appended; digests untouched |
| Pipeline.ProcessAll | scripts/tech-watch-bot/main.py:62-105 | one step per new article, each following `ProcessArticle`; `article_ids` and `processed_articles` are exactly the ids and entries of the steps whose save returned an id |
| Pipeline.ProcessBatch | scripts/tech-watch-bot/main.py:62-116 | the steps follow the articles one to one and the article table gains exactly their rows; the digest is saved exactly when some step has a saved entry, its result is true exactly when the database accepted it, and the digest table becomes `DigestsAfterRun` of the old one |
| Pipeline.StepsSnoc | scripts/tech-watch-bot/main.py:87-105 | one more step extends the stored rows, `article_ids` and `processed_articles` by what that step saved, at the end |
| Pipeline.FollowsSnoc | scripts/tech-watch-bot/main.py:66-105 | a log that follows the first articles still follows them after one more step for the next article |
| Pipeline.AccumulatorsAligned | scripts/tech-watch-bot/main.py:98-105 | the two accumulators have the same length, and their k-th elements come from the same article |
| Pipeline.SavedIdsStored | scripts/tech-watch-bot/main.py:87-99 | every id in `article_ids` is the id of a row this run stored for the user |
| Pipeline.RunBatch | scripts/tech-watch-bot/main.py:33-118 | a configuration error ends the run with status 1 and touches nothing, any other run ends with status 0; the feed is read from the default RSS URL; no new articles: nothing is written; otherwise the steps follow the new articles one to one, and the article table gains exactly their rows; `save_digest` runs once, keyed by the run date, only when some article was saved, and its result is recorded |
| Pipeline.StoredArticleNotReprocessed | scripts/tech-watch-bot/main.py:46-53 | an article whose row a run stored is filtered out by the next run whose URL query succeeds |

## Left out

- The Supabase wire protocol and client creation (`create_client`) are not
  modelled. Client creation is reduced to the two missing-value errors. An
  exception raised by `create_client` itself is not modelled.
- The tables are sequences of rows. Row ids are counters, not UUIDs, and the
  store's other columns and defaults are not modelled.
- Trafilatura, the Algolia HTTP call, feedparser and the Gemini SDK are
  inputs. They return a value or raise, and each is a function of the
  argument the code passes it. The model does not capture different answers
  to the same request within one run.
- The article insert's reply and `collected_at` are fields of
  `Pipeline.World` keyed by the article link. Two new articles with the same link, which
  `NewArticles` keeps, get the same insert reply and the same
  `collected_at`; in the source each insert is a request of its own and
  `datetime.now()` is read again.
- Logging, `load_dotenv`, `sys.path` and the `__main__` test stubs are left
  out. `datetime.now` is an input: the run date and each insert's
  `collected_at` are given.
- Db.FirstMatch: the digest select (`src/db.py:114-119`) has no `order`
  clause, so the store may return matching rows in any order. The model
  takes table order, so which of several matching digests
  Db.UpdateTouchesFirstMatchOnly updates is an assumption.
- Analyzer.AnalyzeArticle: an exception from `genai.configure` or
  `genai.GenerativeModel` (`src/analyzer.py:30-31`) happens before any model
  call. The model counts it as a failed call and still records the prompt.
- Db.MergeIds: `list(set(...))` has no defined order in Python. The model
  fixes first-occurrence order, so only the set of ids, and their
  distinctness, reflect the source.
- Db.Matches: the `gte`/`lte` filters on timestamps are string comparisons
  (`Text.LexLe`). This agrees with the time order only for timestamps in the
  same canonical ISO form.
- Db.Store.SaveDigest: a request that raises after the select is modelled as
  writing nothing. A real update that fails part way is not captured.
- Scraper.ItemId: `\d` is modelled as ASCII digits. Python also accepts other
  Unicode decimal digits.
- Scraper.CommentsFor: a JSON body that is not an object, and a `children`
  value that is not a list, are not modelled. Such a child list is read as
  absent.
- History.HistoryStore.LoadHistory: JSON encoding and decoding is left out.
  A file is either a decoded object, with or without `processed_ids`, or
  unreadable. A dump that fails part way is modelled as leaving an
  undecodable file, whatever part of the list it wrote.
