/** The enrichment adapter of scripts/tech-watch-bot/src/scraper.py: article
    text through the content-extraction library (an opaque parameter here),
    and the top comments of a Hacker News thread through the Algolia items
    API (its reply is a parameter), cleaned from HTML to plain text. */
module Scraper {
  import opened Outcomes
  import opened Text

  // ---------------------------------------------------------------------
  // clean_html_content
  // ---------------------------------------------------------------------

  /** The extraction step produced usable text: it returned a non-empty string. */
  predicate Extracted(c: Call<Option<string>>) {
    c.Returned? && Present(c.value)
  }

  /** `clean_html_content(url)`: `download` is what the downloader did for
      the URL (`None` when it could not fetch the page), `extract` what the
      extractor does with a downloaded document. Every failure is `None`. */
  function CleanHtmlContent(download: Call<Option<string>>, extract: string -> Call<Option<string>>): (r: Option<string>)
    ensures r.Some? <==> download.Returned? && download.value.Some? && Extracted(extract(download.value.value))
    ensures r.Some? ==> r.value != "" && extract(download.value.value) == Returned(Some(r.value))
  {
    match download
    case Raised(_) => None
    case Returned(None) => None
    case Returned(Some(page)) =>
      match extract(page)
      case Raised(_) => None
      case Returned(text) => if Present(text) then text else None
  }

  // ---------------------------------------------------------------------
  // The item id: re.search(r'id=(\d+)', comments_url)
  // ---------------------------------------------------------------------

  /** The pattern `id=\d` starts at index `i` of `s`. */
  predicate IdMatchAt(s: string, i: int) {
    0 <= i && i + 3 < |s| && s[i..i + 3] == "id=" && IsDigit(s[i + 3])
  }

  /** The leftmost index at or after `from` where the pattern starts. */
  function FirstIdMatch(s: string, from: nat): (r: Option<nat>)
    ensures r.Some? ==> from <= r.value && IdMatchAt(s, r.value)
    ensures r.Some? ==> forall k :: from <= k < r.value ==> !IdMatchAt(s, k)
    ensures r.None? ==> forall k :: from <= k ==> !IdMatchAt(s, k)
    decreases |s| - from
  {
    if from + 3 >= |s| then None
    else if IdMatchAt(s, from) then Some(from)
    else FirstIdMatch(s, from + 1)
  }

  /** The greedy `\d+` starting at `from`: the longest run of digits there. */
  function DigitRun(s: string, from: nat): (d: string)
    requires from <= |s|
    ensures from + |d| <= |s| && d == s[from..from + |d|]
    ensures forall k :: 0 <= k < |d| ==> IsDigit(d[k])
    ensures from + |d| == |s| || !IsDigit(s[from + |d|])
    decreases |s| - from
  {
    if from < |s| && IsDigit(s[from]) then [s[from]] + DigitRun(s, from + 1) else []
  }

  /** `d` is group 1 of the leftmost match of `id=(\d+)` in `s`, which starts at `i`. */
  predicate IsFirstIdMatch(s: string, i: int, d: string) {
    && IdMatchAt(s, i)
    && (forall k :: 0 <= k < i ==> !IdMatchAt(s, k))
    && i + 3 + |d| <= |s| && s[i + 3..i + 3 + |d|] == d
    && (forall k :: 0 <= k < |d| ==> IsDigit(d[k]))
    && (i + 3 + |d| == |s| || !IsDigit(s[i + 3 + |d|]))
  }

  /** The Hacker News item id in a discussion URL, `None` when the URL has no
      `id=` followed by a digit. */
  function ItemId(url: string): (id: Option<string>)
    ensures id.None? <==> forall k :: !IdMatchAt(url, k)
    ensures id.Some? ==> id.value != [] && exists i :: IsFirstIdMatch(url, i, id.value)
  {
    match FirstIdMatch(url, 0)
    case None => None
    case Some(i) =>
      var d := DigitRun(url, i + 3);
      assert IsFirstIdMatch(url, i, d);
      Some(d)
  }

  // ---------------------------------------------------------------------
  // Cleaning a comment's HTML
  // ---------------------------------------------------------------------

  /** `s.replace(pat, rep)`: left to right, non-overlapping occurrences.
      Without an occurrence nothing changes, and every character of the
      result comes from `s` or from `rep`. */
  function Replace(s: string, pat: string, rep: string): (r: string)
    requires pat != []
    ensures (forall i :: !OccursAt(s, pat, i)) ==> r == s
    ensures forall c :: c in r ==> c in s || c in rep
    decreases |s|
  {
    if |s| < |pat| then s
    else if s[..|pat|] == pat then
      assert OccursAt(s, pat, 0);
      rep + Replace(s[|pat|..], pat, rep)
    else
      assert forall i :: OccursAt(s[1..], pat, i) ==> OccursAt(s, pat, i + 1) by {
        forall i | OccursAt(s[1..], pat, i)
          ensures OccursAt(s, pat, i + 1)
        {
          assert s[1..][i..i + |pat|] == s[i + 1..i + 1 + |pat|];
        }
      }
      [s[0]] + Replace(s[1..], pat, rep)
  }

  /** The index of the first `>` at or after `from`. */
  function NextGt(s: string, from: nat): (r: Option<nat>)
    ensures r.Some? ==> from <= r.value < |s| && s[r.value] == '>'
    ensures r.Some? ==> forall k :: from <= k < r.value ==> s[k] != '>'
    ensures r.None? ==> forall k :: from <= k < |s| ==> s[k] != '>'
    decreases |s| - from
  {
    if from >= |s| then None
    else if s[from] == '>' then Some(from)
    else NextGt(s, from + 1)
  }

  /** `s[i..j+1]` is a match of the pattern `<[^>]+>`. */
  predicate TagAt(s: string, i: int, j: int) {
    && 0 <= i && i + 2 <= j < |s|
    && s[i] == '<' && s[j] == '>'
    && forall k :: i < k < j ==> s[k] != '>'
  }

  /** No substring of `s` matches `<[^>]+>`. */
  ghost predicate TagFree(s: string) {
    forall i, j :: !TagAt(s, i, j)
  }

  /** Where the match of `<[^>]+>` that starts at index 0 ends, if one does. */
  function TagEndAtStart(s: string): (r: Option<nat>)
    ensures r.Some? ==> TagAt(s, 0, r.value)
    ensures r.None? ==> forall j :: !TagAt(s, 0, j)
  {
    if s != [] && s[0] == '<' then
      match NextGt(s, 1)
      case Some(j) => if j >= 2 then Some(j) else None
      case None => None
    else None
  }

  /** `re.sub(r'<[^>]+>', '', s)`: every leftmost match removed, scanning on
      after each one. */
  function StripTags(s: string): (r: string)
    ensures |r| <= |s|
    ensures forall c :: c in r ==> c in s
    decreases |s|
  {
    if s == [] then []
    else
      match TagEndAtStart(s)
      case Some(j) => StripTags(s[j + 1..])
      case None => [s[0]] + StripTags(s[1..])
  }

  /** `s.lstrip()`. */
  function TrimStart(s: string): (r: string)
    ensures |r| <= |s| && r == s[|s| - |r|..]
    ensures r == [] || !IsSpace(r[0])
    ensures forall k :: 0 <= k < |s| - |r| ==> IsSpace(s[k])
    decreases |s|
  {
    if s != [] && IsSpace(s[0]) then TrimStart(s[1..]) else s
  }

  /** `s.rstrip()`. */
  function TrimEnd(s: string): (r: string)
    ensures |r| <= |s| && r == s[..|r|]
    ensures r == [] || !IsSpace(r[|r| - 1])
    ensures forall k :: |r| <= k < |s| ==> IsSpace(s[k])
    decreases |s|
  {
    if s != [] && IsSpace(s[|s| - 1]) then TrimEnd(s[..|s| - 1]) else s
  }

  /** `r` is `s` without its first `a` characters and its tail, and
      everything cut off is whitespace. */
  predicate CutFrom(s: string, r: string, a: int) {
    && 0 <= a && a + |r| <= |s| && r == s[a..a + |r|]
    && (forall k :: 0 <= k < a ==> IsSpace(s[k]))
    && (forall k :: a + |r| <= k < |s| ==> IsSpace(s[k]))
  }

  /** `s.strip()`: the part of `s` between its leading and trailing whitespace. */
  function Strip(s: string): (r: string)
    ensures exists a :: CutFrom(s, r, a)
    ensures r == [] || (!IsSpace(r[0]) && !IsSpace(r[|r| - 1]))
  {
    var t := TrimStart(s);
    var r := TrimEnd(t);
    assert CutFrom(s, r, |s| - |t|);
    r
  }

  /** The cleaning applied to a comment's text: `<p>` becomes a newline,
      `</p>` goes, every remaining tag goes, the result is stripped. What is
      left holds no tag and no surrounding whitespace. */
  function CleanText(text: string): (r: string)
    ensures TagFree(r)
    ensures r == [] || (!IsSpace(r[0]) && !IsSpace(r[|r| - 1]))
  {
    var u := Replace(Replace(text, "<p>", "\n"), "</p>", "");
    StripTagsTagFree(u);
    StripKeepsTagFree(StripTags(u));
    Strip(StripTags(u))
  }

  // ---------------------------------------------------------------------
  // Selecting the comments
  // ---------------------------------------------------------------------

  /** A child of the Algolia item; a missing or null field is `None`. */
  datatype Child = Child(text: Option<string>, author: Option<string>)

  /** A comment handed to the analyzer. */
  datatype Comment = Comment(author: string, text: string)

  /** Deleted or empty children (no text or no author) are passed over. */
  predicate Kept(c: Child) {
    Present(c.text) && Present(c.author)
  }

  /** The comment built for a kept child: author verbatim, text cleaned. */
  function CommentOf(c: Child): (r: Comment)
    requires Kept(c)
    ensures r.author == c.author.value
    ensures TagFree(r.text)
    ensures r.text == [] || (!IsSpace(r.text[0]) && !IsSpace(r.text[|r.text| - 1]))
  {
    Comment(c.author.value, CleanText(c.text.value))
  }

  /** Every kept child, as a comment, in the children's order. */
  function Eligible(children: seq<Child>): (r: seq<Comment>)
    ensures |r| <= |children|
    decreases |children|
  {
    if children == [] then []
    else
      var last := children[|children| - 1];
      Eligible(children[..|children| - 1]) + (if Kept(last) then [CommentOf(last)] else [])
  }

  /** `s[:limit]` for an integer `limit`, where a non-positive limit keeps
      nothing (the loop stops before the first child when `0 >= limit`). */
  function TakeUpTo<T>(s: seq<T>, limit: int): (r: seq<T>)
    ensures |r| <= |s| && r == s[..|r|]
    ensures |r| == if limit <= 0 then 0 else if |s| <= limit then |s| else limit
  {
    if limit <= 0 then [] else if |s| <= limit then s else s[..limit]
  }

  /** Once the taken prefix has reached the limit, what follows is not taken. */
  lemma TakeUpToPrefix<T>(x: seq<T>, y: seq<T>, limit: int)
    requires if limit <= 0 then x == [] else |x| == limit
    ensures TakeUpTo(x + y, limit) == x
  {
    if limit > 0 {
      assert (x + y)[..limit] == x;
    }
  }

  /** The Algolia items endpoint the item id is appended to. */
  const AlgoliaItemsUrl: string := "https://hn.algolia.com/api/v1/items/"

  /** How many comments are fetched when no limit is given. */
  const DefaultLimit: int := 5

  /** What `fetch_hn_comments` returns. `algolia` gives, for a request URL,
      the `children` of the JSON reply (`None` when the key is absent), or
      the exception raised by the request, the status check or the decoding. */
  function CommentsFor(commentsUrl: string, limit: int, algolia: string -> Call<Option<seq<Child>>>): (r: seq<Comment>)
    ensures ItemId(commentsUrl).None? ==> r == []
    ensures ItemId(commentsUrl).Some? && algolia(AlgoliaItemsUrl + ItemId(commentsUrl).value).Raised? ==> r == []
    ensures ItemId(commentsUrl).Some? && algolia(AlgoliaItemsUrl + ItemId(commentsUrl).value).Returned? ==>
              r == TakeUpTo(Eligible(algolia(AlgoliaItemsUrl + ItemId(commentsUrl).value).value.GetOr([])), limit)
    ensures |r| <= if limit <= 0 then 0 else limit
  {
    match ItemId(commentsUrl)
    case None => []
    case Some(id) =>
      match algolia(AlgoliaItemsUrl + id)
      case Raised(_) => []
      case Returned(children) => TakeUpTo(Eligible(children.GetOr([])), limit)
  }

  /** `fetch_hn_comments(comments_url, limit)`: the loop over the children
      that counts kept comments and stops once `limit` of them are taken. */
  method FetchHnComments(commentsUrl: string, limit: int, algolia: string -> Call<Option<seq<Child>>>)
    returns (comments: seq<Comment>)
    ensures comments == CommentsFor(commentsUrl, limit, algolia)
  {
    var id := ItemId(commentsUrl);
    if id.None? {
      return [];
    }
    var reply := algolia(AlgoliaItemsUrl + id.value);
    if reply.Raised? {
      return [];
    }
    var children := reply.value.GetOr([]);
    comments := [];
    var count := 0;
    for i := 0 to |children|
      invariant count == |comments|
      invariant comments == Eligible(children[..i])
      invariant limit <= 0 ==> i == 0
      invariant limit > 0 ==> count <= limit
    {
      if count >= limit {
        assert children[..i] + children[i..] == children;
        EligibleAppend(children[..i], children[i..]);
        TakeUpToPrefix(comments, Eligible(children[i..]), limit);
        break;
      }
      var child := children[i];
      assert children[..i + 1] == children[..i] + [child];
      EligibleSnoc(children[..i], child);
      if child.text.Some? && child.text.value != "" && child.author.Some? && child.author.value != "" {
        var text := child.text.value;
        var cleanText := Replace(Replace(text, "<p>", "\n"), "</p>", "");
        cleanText := StripTags(cleanText);
        assert Comment(child.author.value, Strip(cleanText)) == CommentOf(child);
        comments := comments + [Comment(child.author.value, Strip(cleanText))];
        count := count + 1;
      }
    }
    assert children[..|children|] == children;
  }

  // ---------------------------------------------------------------------
  // Properties
  // ---------------------------------------------------------------------

  /** Selection keeps the children's order: the comments of a concatenation
      are the comments of each part, one after the other. */
  lemma {:induction false} EligibleAppend(a: seq<Child>, b: seq<Child>)
    ensures Eligible(a + b) == Eligible(a) + Eligible(b)
    decreases |b|
  {
    if b == [] {
      assert a + b == a;
    } else {
      var n := |b| - 1;
      SplitLast(a, b);
      EligibleAppend(a, b[..n]);
      EligibleSnoc(a + b[..n], b[n]);
      EligibleSnoc(b[..n], b[n]);
      AppendAssoc(Eligible(a), Eligible(b[..n]), if Kept(b[n]) then [CommentOf(b[n])] else []);
    }
  }

  /** The selection of a list with one more child at the end. */
  lemma EligibleSnoc(s: seq<Child>, c: Child)
    ensures Eligible(s + [c]) == Eligible(s) + (if Kept(c) then [CommentOf(c)] else [])
  {
    assert (s + [c])[..|s|] == s;
  }

  /** One child gives its comment when it is kept and nothing otherwise;
      with `EligibleAppend` this fixes the selection of any list. */
  lemma EligibleOne(c: Child)
    ensures Eligible([c]) == if Kept(c) then [CommentOf(c)] else []
  {
    assert [c][..0] == [];
  }

  /** Every selected comment is the comment of a kept child. */
  lemma {:induction false} EligibleFromKept(children: seq<Child>)
    ensures forall x :: x in Eligible(children) ==>
              exists i :: 0 <= i < |children| && Kept(children[i]) && x == CommentOf(children[i])
    decreases |children|
  {
    if children != [] {
      var n := |children| - 1;
      var init, c := children[..n], children[n];
      EligibleFromKept(init);
      SplitLast([], children);
      EligibleSnoc(init, c);
      forall x | x in Eligible(children)
        ensures exists i :: 0 <= i < |children| && Kept(children[i]) && x == CommentOf(children[i])
      {
        if x in Eligible(init) {
          var i :| 0 <= i < n && Kept(init[i]) && x == CommentOf(init[i]);
          assert init[i] == children[i];
        } else {
          assert Kept(children[n]) && x == CommentOf(children[n]);
        }
      }
    }
  }

  /** Every kept child gives a selected comment. */
  lemma {:induction false} KeptInEligible(children: seq<Child>)
    ensures forall i :: 0 <= i < |children| && Kept(children[i]) ==> CommentOf(children[i]) in Eligible(children)
    decreases |children|
  {
    if children != [] {
      var n := |children| - 1;
      var init, c := children[..n], children[n];
      KeptInEligible(init);
      SplitLast([], children);
      EligibleSnoc(init, c);
      forall i | 0 <= i < |children| && Kept(children[i])
        ensures CommentOf(children[i]) in Eligible(children)
      {
        if i < n {
          assert init[i] == children[i];
        }
      }
    }
  }

  /** With at least `limit` kept children (and a positive limit), exactly
      `limit` comments come back: the first `limit` kept ones, in order. */
  lemma CommentsUpToLimit(commentsUrl: string, limit: int, algolia: string -> Call<Option<seq<Child>>>)
    requires ItemId(commentsUrl).Some?
    requires algolia(AlgoliaItemsUrl + ItemId(commentsUrl).value).Returned?
    requires 0 < limit <= |Eligible(algolia(AlgoliaItemsUrl + ItemId(commentsUrl).value).value.GetOr([]))|
    ensures var r := CommentsFor(commentsUrl, limit, algolia);
            var kept := Eligible(algolia(AlgoliaItemsUrl + ItemId(commentsUrl).value).value.GetOr([]));
            |r| == limit && r == kept[..limit]
  {
  }

  /** Skipped children do not use up the limit: a child without text or
      author, wherever it sits, changes nothing in the comments returned. */
  lemma {:induction false} SkippedChildDoesNotCount(a: seq<Child>, c: Child, b: seq<Child>, limit: int)
    requires !Kept(c)
    ensures TakeUpTo(Eligible(a + [c] + b), limit) == TakeUpTo(Eligible(a + b), limit)
  {
    calc {
      Eligible(a + [c] + b);
    == { EligibleAppend(a + [c], b); }
      Eligible(a + [c]) + Eligible(b);
    == { EligibleSnoc(a, c); assert Eligible(a) + [] == Eligible(a); }
      Eligible(a) + Eligible(b);
    == { EligibleAppend(a, b); }
      Eligible(a + b);
    }
  }

  /** Text outside the tags survives: a tag after tag-free text is removed
      and the text before it is kept as it is. */
  lemma {:induction false} StripTagsSkipsTag(a: string, t: string, b: string)
    requires '<' !in a && TagAt(t, 0, |t| - 1)
    ensures StripTags(a + t + b) == a + StripTags(b)
    decreases |a|
  {
    var s := a + t + b;
    if a == [] {
      assert s == t + b;
      var j := |t| - 1;
      assert s[j] == '>';
      assert forall k :: 1 <= k < j ==> s[k] != '>' by {
        forall k | 1 <= k < j
          ensures s[k] != '>'
        {
          assert s[k] == t[k];
        }
      }
      assert NextGt(s, 1) == Some(j);
      assert TagEndAtStart(s) == Some(j);
      assert s[j + 1..] == b;
    } else {
      assert s[0] == a[0] && a[0] != '<';
      assert s[1..] == a[1..] + t + b;
      StripTagsSkipsTag(a[1..], t, b);
    }
  }

  /** Text without `<` passes tag removal unchanged, whatever follows it. */
  lemma {:induction false} StripTagsKeepsPlainPrefix(a: string, b: string)
    requires '<' !in a
    ensures StripTags(a + b) == a + StripTags(b)
    decreases |a|
  {
    if a != [] {
      var s := a + b;
      assert s[0] == a[0] && s[1..] == a[1..] + b;
      StripTagsKeepsPlainPrefix(a[1..], b);
    } else {
      assert a + b == b;
    }
  }

  /** A `<` that opens no tag (no later `>`, or `<>`) is kept, and removal
      goes on after it. */
  lemma StripTagsKeepsLoneLt(a: string, b: string)
    requires '<' !in a && TagEndAtStart("<" + b).None?
    ensures StripTags(a + "<" + b) == a + "<" + StripTags(b)
  {
    assert a + "<" + b == a + ("<" + b);
    StripTagsKeepsPlainPrefix(a, "<" + b);
    assert ("<" + b)[1..] == b;
    assert StripTags("<" + b) == "<" + StripTags(b);
  }

  /** `s.replace(pat, rep)` replaces the first occurrence of `pat` by `rep`,
      keeps the text before it, and goes on after it. */
  lemma {:induction false} ReplaceSkips(a: string, pat: string, b: string, rep: string)
    requires pat != []
    requires forall i :: 0 <= i < |a| ==> !OccursAt(a + pat + b, pat, i)
    ensures Replace(a + pat + b, pat, rep) == a + rep + Replace(b, pat, rep)
    decreases |a|
  {
    if a == [] {
      var s := a + pat + b;
      assert s == pat + b && s[..|pat|] == pat && s[|pat|..] == b;
    } else {
      NoOccurrenceShift(a, pat, b);
      ReplaceSkips(a[1..], pat, b, rep);
      ReplaceSkipsFirst(a, pat, b, rep);
    }
  }

  /** The step of `ReplaceSkips` for a first character before the occurrence. */
  lemma ReplaceSkipsFirst(a: string, pat: string, b: string, rep: string)
    requires pat != [] && a != [] && !OccursAt(a + pat + b, pat, 0)
    requires Replace(a[1..] + pat + b, pat, rep) == a[1..] + rep + Replace(b, pat, rep)
    ensures Replace(a + pat + b, pat, rep) == a + rep + Replace(b, pat, rep)
  {
    var s := a + pat + b;
    var t := a[1..] + pat + b;
    DropFirst(a, pat, b);
    ReplaceStep(s, pat, rep);
    var r := Replace(b, pat, rep);
    calc {
      Replace(s, pat, rep);
      [s[0]] + Replace(t, pat, rep);
      [a[0]] + (a[1..] + rep + r);
    == { AppendAssoc([a[0]], a[1..] + rep, r); AppendAssoc([a[0]], a[1..], rep); }
      [a[0]] + a[1..] + rep + r;
      a + rep + r;
    }
  }

  /** No occurrence before the end of `a` means none before the end of `a[1..]`
      once the first character is dropped. */
  lemma NoOccurrenceShift(a: string, pat: string, b: string)
    requires a != []
    requires forall i :: 0 <= i < |a| ==> !OccursAt(a + pat + b, pat, i)
    ensures forall i :: 0 <= i < |a| - 1 ==> !OccursAt(a[1..] + pat + b, pat, i)
  {
    var s := a + pat + b;
    var t := a[1..] + pat + b;
    assert t == s[1..];
    forall i | 0 <= i < |a| - 1
      ensures !OccursAt(t, pat, i)
    {
      if OccursAt(t, pat, i) {
        assert t[i..i + |pat|] == s[i + 1..i + 1 + |pat|];
        assert OccursAt(s, pat, i + 1);
        assert false;
      }
    }
  }

  /** Where `pat` does not start, `replace` keeps the first character. */
  lemma ReplaceStep(s: string, pat: string, rep: string)
    requires pat != [] && |s| >= |pat| && !OccursAt(s, pat, 0)
    ensures Replace(s, pat, rep) == [s[0]] + Replace(s[1..], pat, rep)
  {
    assert s[..|pat|] != pat;
  }

  /** A `<p>` in a comment becomes a newline. */
  lemma CleanOpenParagraph(x: string, y: string)
    requires '<' !in x && '<' !in y
    ensures CleanText(x + "<p>" + y) == Strip(x + "\n" + y)
  {
    NoEarlyMarkup(x, "<p>", y);
    ReplaceSkips(x, "<p>", y, "\n");
    ReplaceAbsent(y, "<p>", "\n");
    var u := x + "\n" + y;
    assert '<' !in u;
    ReplaceAbsent(u, "</p>", "");
    StripTagsAbsent(u);
  }

  /** A `</p>` in a comment is removed. */
  lemma CleanCloseParagraph(x: string, y: string)
    requires '<' !in x && '<' !in y
    ensures CleanText(x + "</p>" + y) == Strip(x + y)
  {
    NoOpenParagraph(x, y);
    NoEarlyMarkup(x, "</p>", y);
    ReplaceSkips(x, "</p>", y, "");
    ReplaceAbsent(y, "</p>", "");
    assert x + "" + y == x + y;
    StripTagsAbsent(x + y);
  }

  /** A pattern that starts with `<` does not occur inside text without `<`. */
  lemma NoEarlyMarkup(x: string, pat: string, y: string)
    requires '<' !in x && pat != [] && pat[0] == '<'
    ensures forall i :: 0 <= i < |x| ==> !OccursAt(x + pat + y, pat, i)
  {
    var s := x + pat + y;
    forall i | 0 <= i < |x|
      ensures !OccursAt(s, pat, i)
    {
      assert s[i] == x[i];
    }
  }

  /** The only `<` of `x + "</p>" + y` is followed by `/`, so `<p>` does not occur. */
  lemma NoOpenParagraph(x: string, y: string)
    requires '<' !in x && '<' !in y
    ensures forall i :: !OccursAt(x + "</p>" + y, "<p>", i)
  {
    var s := x + "</p>" + y;
    forall i | 0 <= i
      ensures !OccursAt(s, "<p>", i)
    {
      if i < |x| {
        assert s[i] == x[i];
      } else if i == |x| {
        assert s[i + 1] == '/';
      } else if i < |x| + 4 {
        assert s[i] == "</p>"[i - |x|];
      } else if i < |s| {
        assert s[i] == y[i - |x| - 4];
      }
    }
  }

  /** `re.sub` leaves nothing that the pattern `<[^>]+>` matches. */
  lemma {:induction false} StripTagsTagFree(s: string)
    ensures TagFree(StripTags(s))
    decreases |s|
  {
    if s != [] {
      match TagEndAtStart(s)
      case Some(j) =>
        StripTagsTagFree(s[j + 1..]);
      case None =>
        var t := StripTags(s[1..]);
        StripTagsTagFree(s[1..]);
        if s[0] == '<' {
          match NextGt(s, 1)
          case None =>
            assert forall c :: c in t ==> c in s[1..];
            assert '>' !in s[1..];
          case Some(g) =>
            assert g == 1;
            assert s[1..][0] == '>';
            assert TagEndAtStart(s[1..]).None?;
            assert t == ['>'] + StripTags(s[2..]) by {
              assert s[1..][1..] == s[2..];
            }
        }
        ConsTagFree(s[0], t);
    }
  }

  /** Putting one character in front of a tag-free string keeps it tag-free
      unless that character is a `<` that a later `>` closes. */
  lemma ConsTagFree(c: char, t: string)
    requires TagFree(t)
    requires c != '<' || '>' !in t || (t != [] && t[0] == '>')
    ensures TagFree([c] + t)
  {
    var s := [c] + t;
    forall i, j
      ensures !TagAt(s, i, j)
    {
      if i == 0 && c == '<' && 2 <= j < |s| {
        if '>' in t {
          assert s[1] == t[0] == '>';
        } else {
          assert s[j] == t[j - 1] != '>';
        }
      } else if i > 0 && TagAt(s, i, j) {
        assert TagAt(t, i - 1, j - 1) by {
          forall k | i - 1 < k < j - 1
            ensures t[k] != '>'
          {
            assert t[k] == s[k + 1];
          }
        }
      }
    }
  }

  /** A slice of a tag-free string is tag-free. */
  lemma TagFreeSlice(s: string, a: nat, b: nat)
    requires TagFree(s)
    requires a <= b <= |s|
    ensures TagFree(s[a..b])
  {
    var t := s[a..b];
    forall i, j | TagAt(t, i, j)
      ensures false
    {
      assert s[a + i] == '<' && s[a + j] == '>';
      assert forall k :: a + i < k < a + j ==> s[k] == t[k - a];
      assert TagAt(s, a + i, a + j);
    }
  }

  /** Stripping a tag-free text leaves it tag-free. */
  lemma StripKeepsTagFree(u: string)
    requires TagFree(u)
    ensures TagFree(Strip(u))
  {
    var r := Strip(u);
    var a :| CutFrom(u, r, a);
    TagFreeSlice(u, a, a + |r|);
    assert r == u[a..a + |r|];
  }

  /** Without any `<` the HTML steps change nothing. */
  lemma {:induction false} ReplaceAbsent(s: string, pat: string, rep: string)
    requires pat != [] && pat[0] == '<' && '<' !in s
    ensures Replace(s, pat, rep) == s
    decreases |s|
  {
    if |s| >= |pat| {
      assert s[..|pat|][0] == s[0];
      ReplaceAbsent(s[1..], pat, rep);
    }
  }

  lemma {:induction false} StripTagsAbsent(s: string)
    requires '<' !in s
    ensures StripTags(s) == s
    decreases |s|
  {
    if s != [] {
      StripTagsAbsent(s[1..]);
    }
  }

  /** A comment with no markup at all is only stripped of surrounding whitespace. */
  lemma CleanPlainText(text: string)
    requires '<' !in text
    ensures CleanText(text) == Strip(text)
  {
    ReplaceAbsent(text, "<p>", "\n");
    ReplaceAbsent(text, "</p>", "");
    StripTagsAbsent(text);
  }
}
