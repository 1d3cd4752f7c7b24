/** The analysis step of scripts/tech-watch-bot/src/analyzer.py: the prompt is
    assembled from a fixed instruction block, the title, a truncated excerpt
    of the article and the comments, and sent once to the language model
    (an opaque parameter). Every failure comes back as an error string. */
module Analyzer {
  import opened Outcomes
  import opened Text
  import Scraper

  /** The fixed instruction block that opens every prompt. */
  const SystemPrompt: string :=
    "Tu es un CTO expérimenté et sceptique. Analyse cet article et la discussion Hacker News associée.\n"
    + "\n"
    + "Le Pitch : En une phrase, quelle est l'innovation prétendue ?\n"
    + "\n"
    + "Le Verdict Communautaire : Est-ce que les experts de Hacker News valident ou détruisent l'idée ? Identifie les contre-arguments techniques majeurs.\n"
    + "\n"
    + "TL;DR Pépite : Est-ce que je dois vraiment lire cet article ou est-ce juste du marketing ? Sois tranchant.\n"

  /** How many characters of the article reach the prompt. */
  const ContentLimit: nat := 15000

  /** The result when no API key is configured. */
  const NoKeyError: string := "Error: No GEMINI_API_KEY configured."

  /** The prefix of the result when the model call raised. */
  const AnalysisErrorPrefix: string := "Error analyzing article: "

  /** One comment as a prompt line. */
  function CommentLine(c: Scraper.Comment): string {
    "- " + c.author + ": " + c.text
  }

  /** `"\n".join(f"- {c['author']}: {c['text']}" for c in comments)`. */
  function CommentsText(comments: seq<Scraper.Comment>): (r: string)
    ensures r == "" <==> comments == []
    ensures forall i :: 0 <= i < |comments| ==> Contains(r, CommentLine(comments[i]))
  {
    var lines := seq(|comments|, i requires 0 <= i < |comments| => CommentLine(comments[i]));
    JoinContainsAll(lines, "\n");
    assert forall i :: 0 <= i < |comments| ==> lines[i] == CommentLine(comments[i]);
    Join(lines, "\n")
  }

  /** The parts of the user message between the fields, with the indentation
      the triple-quoted template carries. */
  const TitleLead: string := "\n        Titre de l'article : "
  const ContentLead: string := "\n        \n        --- CONTENU DE L'ARTICLE ---\n        "
  const CommentsLead: string := " \n        (Contenu tronqué si trop long)\n        \n        --- COMMENTAIRES HACKER NEWS (Top Level) ---\n        "
  const MessageTail: string := "\n        "

  /** The user message: title, then the first `ContentLimit` characters of
      the article, then the comment lines. */
  function UserMessage(content: string, comments: seq<Scraper.Comment>, title: string): (r: string)
    ensures Contains(r, title)
    ensures Contains(r, Take(content, ContentLimit))
    ensures Contains(r, CommentsText(comments))
  {
    MessageHolds(title, Take(content, ContentLimit), CommentsText(comments));
    TitleLead + title + ContentLead + Take(content, ContentLimit) + CommentsLead + CommentsText(comments) + MessageTail
  }

  /** The text sent to the model: the instruction block, a blank line, then
      the user message with the title, the truncated content and the
      comments block. */
  function FullPrompt(content: string, comments: seq<Scraper.Comment>, title: string): (r: string)
    ensures |SystemPrompt| + 2 <= |r| && r[..|SystemPrompt| + 2] == SystemPrompt + "\n\n"
    ensures Contains(r, title)
    ensures Contains(r, Take(content, ContentLimit))
    ensures Contains(r, CommentsText(comments))
  {
    var head := SystemPrompt + "\n\n";
    var m := UserMessage(content, comments, title);
    ContainsInRight(head, m, title);
    ContainsInRight(head, m, Take(content, ContentLimit));
    ContainsInRight(head, m, CommentsText(comments));
    assert (head + m)[..|head|] == head;
    head + m
  }

  /** The three fields occur in the message built around them. */
  lemma MessageHolds(title: string, c: string, ct: string)
    ensures var m := TitleLead + title + ContentLead + c + CommentsLead + ct + MessageTail;
            Contains(m, title) && Contains(m, c) && Contains(m, ct)
  {
    var m1 := TitleLead + title;
    var m2 := m1 + ContentLead;
    var m3 := m2 + c;
    var m4 := m3 + CommentsLead;
    var m5 := m4 + ct;
    // the title
    ContainsSelf(title);
    ContainsInRight(TitleLead, title, title);
    ContainsInLeft(m1, ContentLead, title);
    ContainsInLeft(m2, c, title);
    ContainsInLeft(m3, CommentsLead, title);
    ContainsInLeft(m4, ct, title);
    ContainsInLeft(m5, MessageTail, title);
    // the truncated content
    ContainsSelf(c);
    ContainsInRight(m2, c, c);
    ContainsInLeft(m3, CommentsLead, c);
    ContainsInLeft(m4, ct, c);
    ContainsInLeft(m5, MessageTail, c);
    // the comments block
    ContainsSelf(ct);
    ContainsInRight(m4, ct, ct);
    ContainsInLeft(m5, MessageTail, ct);
  }

  /** What `analyze_article` returns, with the prompts it sent to the model
      (at most one). */
  datatype Analysis = Analysis(text: string, prompts: seq<string>)

  /** `analyze_article(article_content, comments, title)`. `apiKey` is the
      `GEMINI_API_KEY` environment value; `generate` is what the model does
      with a prompt: the response text, or the exception raised by the
      client setup or the call. */
  function AnalyzeArticle(content: string, comments: seq<Scraper.Comment>, title: string,
                          apiKey: Option<string>, generate: string -> Call<string>): (r: Analysis)
    ensures !Present(apiKey) ==> r.text == NoKeyError && r.prompts == []
    ensures Present(apiKey) ==> r.prompts == [FullPrompt(content, comments, title)]
    ensures Present(apiKey) && generate(FullPrompt(content, comments, title)).Returned? ==>
              r.text == generate(FullPrompt(content, comments, title)).value
    ensures Present(apiKey) && generate(FullPrompt(content, comments, title)).Raised? ==>
              r.text == AnalysisErrorPrefix + generate(FullPrompt(content, comments, title)).message
  {
    if !Present(apiKey) then
      Analysis(NoKeyError, [])
    else
      var prompt := FullPrompt(content, comments, title);
      match generate(prompt)
      case Returned(text) => Analysis(text, [prompt])
      case Raised(message) => Analysis(AnalysisErrorPrefix + message, [prompt])
  }

  // ---------------------------------------------------------------------
  // Properties
  // ---------------------------------------------------------------------

  /** The comments block lists the comments in order: one more comment adds
      one more line at the end. */
  lemma CommentsTextSnoc(comments: seq<Scraper.Comment>, c: Scraper.Comment)
    requires comments != []
    ensures CommentsText(comments + [c]) == CommentsText(comments) + "\n" + CommentLine(c)
  {
    var lines := seq(|comments|, i requires 0 <= i < |comments| => CommentLine(comments[i]));
    var all := seq(|comments + [c]|, i requires 0 <= i < |comments + [c]| => CommentLine((comments + [c])[i]));
    assert all == lines + [CommentLine(c)];
    JoinAppend(lines, [CommentLine(c)], "\n");
  }

  /** Only the first `ContentLimit` characters of the article reach the model:
      two articles that agree on them give the same prompt. */
  lemma ContentBeyondLimitUnused(c1: string, c2: string, comments: seq<Scraper.Comment>, title: string)
    requires |c1| >= ContentLimit && |c2| >= ContentLimit
    requires c1[..ContentLimit] == c2[..ContentLimit]
    ensures FullPrompt(c1, comments, title) == FullPrompt(c2, comments, title)
  {
    assert Take(c1, ContentLimit) == c1[..ContentLimit];
    assert Take(c2, ContentLimit) == c2[..ContentLimit];
    assert UserMessage(c1, comments, title) == UserMessage(c2, comments, title);
  }
}
