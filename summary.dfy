/** The summariser `_generate_summary` of the news and the blog module. With
    more than 50 characters of body text it keeps the meaningful sentences,
    ranks them by the Hangul words they share with the title and joins the
    two best; otherwise it falls back to the cleaned description, and then
    to a text built from the title (news) or a fixed text (blogs). */
module Summary {
  import opened Options
  import opened Text
  import opened Patterns
  import opened Similarity
  import opened Describe
  import opened Sorting
  import opened Kinds

  /** The class `[.!?]` the body text is split on. */
  predicate IsTerminator(c: char) { c == '.' || c == '!' || c == '?' }

  /** The openings that disqualify a sentence. */
  function LeadIns(kind: Kind): seq<string> {
    match kind
    case News => ["기자", "사진", "영상", "출처", "저작권", "▲", "■", "※", "이메일"]
    case Blog => ["사진", "이미지", "출처", "©"]
  }

  /** The endings that disqualify a news sentence (a by-line or a credit). */
  const NewsTrailers: seq<string> := ["기자", "제공", "=연합뉴스"]

  /** The class `[\d\s\-()]`. */
  predicate IsNumericChar(c: char) {
    IsDigit(c) || IsSpace(c) || c == '-' || c == '(' || c == ')'
  }

  /** `re.match(r"^[\d\s\-()]+$", s)` on a stripped sentence. */
  predicate OnlyNumeric(s: string) {
    s != [] && forall i :: 0 <= i < |s| ==> IsNumericChar(s[i])
  }

  /** The filter a stripped sentence must pass to be a summary candidate. */
  predicate Meaningful(kind: Kind, s: string) {
    && 20 < |s| < 200
    && !StartsWithAny(s, LeadIns(kind))
    && (kind == News ==> !EndsWithAny(s, NewsTrailers))
    && !OnlyNumeric(s)
    && !Contains(s, "광고")
    && !Contains(s, "홍보")
    && (kind == News ==> !Contains(Lower(s), "copyright"))
  }

  predicate NewsMeaningful(s: string) { Meaningful(News, s) }

  predicate BlogMeaningful(s: string) { Meaningful(Blog, s) }

  /** The filter of each module, as a value. */
  function Filter(kind: Kind): (keep: string -> bool)
    ensures forall s :: keep(s) == Meaningful(kind, s)
  {
    match kind
    case News => NewsMeaningful
    case Blog => BlogMeaningful
  }

  /** A candidate sentence and its relevance score. */
  datatype Scored = Scored(text: string, score: int)

  /** The sort key of the candidates. */
  function Score(s: Scored): int { s.score }

  /** The number of Hangul words of two or more syllables that the sentence
      shares with the title. */
  function Relevance(title: string, sentence: string): (n: nat)
    ensures n <= |HangulWords(title)|
  {
    assert HangulWords(title) * HangulWords(sentence) <= HangulWords(title);
    SubsetCard(HangulWords(title) * HangulWords(sentence), HangulWords(title));
    |HangulWords(title) * HangulWords(sentence)|
  }

  /** A sentence scores exactly when some maximal Hangul run of two or more
      syllables in the title recurs as one in the sentence. */
  lemma RelevanceShared(title: string, sentence: string)
    ensures Relevance(title, sentence) > 0 <==>
      exists i: nat, j: nat, i': nat, j': nat ::
        HangulRun(title, i, j) && j - i >= 2 && HangulRun(sentence, i', j') && title[i..j] == sentence[i'..j']
  {
    if Relevance(title, sentence) > 0 {
      var i, j, i', j' := RelevanceWitness(title, sentence);
    }
    if exists i: nat, j: nat, i': nat, j': nat ::
        HangulRun(title, i, j) && j - i >= 2 && HangulRun(sentence, i', j') && title[i..j] == sentence[i'..j'] {
      var i: nat, j: nat, i': nat, j': nat :|
        HangulRun(title, i, j) && j - i >= 2 && HangulRun(sentence, i', j') && title[i..j] == sentence[i'..j'];
      RelevanceOfRuns(title, sentence, i, j, i', j');
    }
  }

  /** A shared word gives the runs it comes from. */
  lemma RelevanceWitness(title: string, sentence: string) returns (i: nat, j: nat, i': nat, j': nat)
    requires Relevance(title, sentence) > 0
    ensures HangulRun(title, i, j) && j - i >= 2 && HangulRun(sentence, i', j') && title[i..j] == sentence[i'..j']
  {
    var w :| w in HangulWords(title) * HangulWords(sentence);
    HangulWordsRuns(title);
    i, j :| HangulRun(title, i, j) && j - i >= 2 && w == title[i..j];
    HangulWordsRuns(sentence);
    i', j' :| HangulRun(sentence, i', j') && j' - i' >= 2 && w == sentence[i'..j'];
  }

  /** Two equal runs make a shared word. */
  lemma RelevanceOfRuns(title: string, sentence: string, i: nat, j: nat, i': nat, j': nat)
    requires HangulRun(title, i, j) && j - i >= 2 && HangulRun(sentence, i', j') && title[i..j] == sentence[i'..j']
    ensures Relevance(title, sentence) > 0
  {
    HangulWordsRuns(title);
    HangulWordsRuns(sentence);
    assert title[i..j] in HangulWords(title) * HangulWords(sentence);
  }

  /** The score is symmetric and at most the sentence's own word count, and
      the title against itself scores all its words. */
  lemma RelevanceSymmetric(title: string, sentence: string)
    ensures Relevance(title, sentence) == Relevance(sentence, title) <= |HangulWords(sentence)|
    ensures Relevance(title, title) == |HangulWords(title)|
  {
    assert HangulWords(title) * HangulWords(title) == HangulWords(title);
    assert HangulWords(sentence) * HangulWords(title) == HangulWords(title) * HangulWords(sentence);
  }

  /** The stripped pieces that `keep` accepts, scored against the title, in
      order. */
  function Gather(keep: string -> bool, title: string, parts: seq<string>): (r: seq<Scored>)
    ensures |r| <= |parts|
    decreases |parts|
  {
    if parts == [] then []
    else
      var init := Gather(keep, title, parts[..|parts| - 1]);
      var s := Strip(parts[|parts| - 1]);
      if keep(s) then init + [Scored(s, Relevance(title, s))] else init
  }

  /** The candidates drawn from the pieces of the body, in body order. */
  function Candidates(kind: Kind, title: string, parts: seq<string>): seq<Scored> {
    Gather(Filter(kind), title, parts)
  }

  /** The sentences of a list of candidates. */
  function Texts(c: seq<Scored>): (r: seq<string>)
    ensures |r| == |c|
    ensures forall i :: 0 <= i < |c| ==> r[i] == c[i].text
  {
    seq(|c|, i requires 0 <= i < |c| => c[i].text)
  }

  /** `". ".join` of the candidates' sentences. */
  function Joined(c: seq<Scored>): string {
    Join(Texts(c), ". ")
  }

  /** The two best candidates, or the second and third when the two best
      read more than 0.7 like the title and a third exists. */
  function Pick(title: string, ranked: seq<Scored>): string {
    var first := Joined(Slice(ranked, 2));
    if AboveSevenTenths(Jaccard(NormalizeTitle(title), NormalizeTitle(first))) && |ranked| > 2
    then Joined(ranked[1..3])
    else first
  }

  /** The length cap and the closing period. */
  function Finish(summary: string): (r: string)
    ensures r != [] && r[|r| - 1] == '.' && |r| <= 151
    ensures |summary| <= 150 ==> |summary| <= |r| && r[..|summary|] == summary
    ensures |summary| > 150 ==> |r| == 150 && r[..147] == summary[..147]
  {
    if |summary| > 150 then summary[..147] + "..."
    else if !EndsWith(summary, ".") then summary + "."
    else summary
  }

  /** The summary built from the body text, `None` when the body is too short
      or has no meaningful sentence. */
  function ContentSummary(kind: Kind, title: string, content: string): (r: Option<string>)
    ensures r.Some? ==> r.value != [] && r.value[|r.value| - 1] == '.' && |r.value| <= 151
    ensures r.Some? <==> |Strip(content)| > 50 && Candidates(kind, title, SplitWhere(content, IsTerminator)) != []
  {
    if |Strip(content)| > 50 then
      var c := Candidates(kind, title, SplitWhere(content, IsTerminator));
      if c != [] then Some(Finish(Pick(title, SortDesc(c, Score)))) else None
    else None
  }

  /** The cleaned description, when it is neither a placeholder nor 0.8 or
      more similar to the title. */
  function DescriptionSummary(kind: Kind, title: string, description: string): (r: Option<string>)
    ensures r.Some? ==> r.value != [] && r.value != NoSummary && r.value != SeeBody(kind)
    ensures r.Some? ==> r.value == CleanDescription(kind, description)
  {
    if description == [] then None
    else
      var cleaned := CleanDescription(kind, description);
      if cleaned != [] && cleaned != NoSummary && cleaned != SeeBody(kind)
        && BelowEightTenths(Jaccard(NormalizeTitle(title), NormalizeTitle(cleaned)))
      then Some(cleaned)
      else None
  }

  const EventEnding: string := "에 대한 상세 내용을 기사에서 확인할 수 있습니다."
  const PlanEnding: string := "에 관한 구체적인 내용이 포함되어 있습니다."
  const NewsDefault: string := "기사 본문에서 상세 내용을 확인하세요."
  const BlogDefault: string := "블로그 본문에서 상세 내용을 확인하세요."

  /** The title with a trailing "- outlet" removed. */
  function TitleCore(title: string): string {
    DashTailRemoved(title, IsSourceChar, [""])
  }

  /** The core is the whole title exactly when no "- outlet" tail matches,
      and otherwise the title up to the leftmost such tail. */
  lemma TitleCoreCuts(title: string)
    ensures TitleCore(title) == title <==>
      forall p: nat, q: nat, c: nat, b: nat :: !DashTailParts(title, IsSourceChar, "", p, q, c, b)
    ensures TitleCore(title) != title ==>
      && (exists q: nat, c: nat, b: nat :: DashTailParts(title, IsSourceChar, "", |TitleCore(title)|, q, c, b))
      && forall p: nat, q: nat, c: nat, b: nat :: DashTailParts(title, IsSourceChar, "", p, q, c, b) ==> |TitleCore(title)| <= p
  {
    DashTailRemovedCuts(title, IsSourceChar, [""]);
    var x, q, c, b := DashTailStartFinds(title, IsSourceChar, [""]);
    assert [""][0] == "";
  }

  /** The last resort: for news a sentence about the title when it names an
      event (개최, 진행) or an announcement (발표, 계획), else a fixed text. */
  function TitleSummary(kind: Kind, title: string): (r: string)
    ensures r != []
  {
    match kind
    case Blog => BlogDefault
    case News =>
      var t := TitleCore(title);
      if Contains(t, "개최") || Contains(t, "진행") then Strip(t) + EventEnding
      else if Contains(t, "발표") || Contains(t, "계획") then Strip(t) + PlanEnding
      else NewsDefault
  }

  /** `_generate_summary`. */
  function GenerateSummary(kind: Kind, title: string, content: string, description: string): (r: string)
    ensures r != []
  {
    match ContentSummary(kind, title, content)
    case Some(s) => s
    case None =>
      match DescriptionSummary(kind, title, description)
      case Some(d) => d
      case None => TitleSummary(kind, title)
  }

  /** The sentence loop of `_generate_summary`, collecting the candidates. */
  method CollectSentences(kind: Kind, title: string, sentences: seq<string>) returns (meaningful: seq<Scored>)
    ensures meaningful == Candidates(kind, title, sentences)
  {
    meaningful := [];
    var i := 0;
    while i < |sentences|
      invariant 0 <= i <= |sentences|
      invariant meaningful == Candidates(kind, title, sentences[..i])
    {
      var sentence := Strip(sentences[i]);
      assert sentences[..i + 1][..i] == sentences[..i];
      if Filter(kind)(sentence) {
        meaningful := meaningful + [Scored(sentence, Relevance(title, sentence))];
      }
      i := i + 1;
    }
    assert sentences[..i] == sentences;
  }

  /** The body-text half of `_generate_summary`: `None` where the source
      falls through to the description. */
  method SummarizeContent(kind: Kind, title: string, content: string) returns (r: Option<string>)
    ensures r == ContentSummary(kind, title, content)
  {
    if |Strip(content)| <= 50 {
      return None;
    }
    var meaningful := CollectSentences(kind, title, SplitWhere(content, IsTerminator));
    if meaningful == [] {
      return None;
    }
    var ranked := SortDesc(meaningful, Score);
    assert ContentSummary(kind, title, content) == Some(Finish(Pick(title, ranked)));
    var summary := Joined(Slice(ranked, 2));
    if AboveSevenTenths(Jaccard(NormalizeTitle(title), NormalizeTitle(summary))) {
      if |ranked| > 2 {
        summary := Joined(ranked[1..3]);
      }
    }
    assert summary == Pick(title, ranked);
    ghost var picked := summary;
    if |summary| > 150 {
      summary := summary[..147] + "...";
    } else if !EndsWith(summary, ".") {
      summary := summary + ".";
    }
    assert summary == Finish(picked);
    return Some(summary);
  }

  /** `_generate_summary`, step by step; the sort is the library's stable
      descending sort. */
  method Summarize(kind: Kind, title: string, content: string, description: string) returns (summary: string)
    ensures summary == GenerateSummary(kind, title, content, description)
  {
    var fromContent := SummarizeContent(kind, title, content);
    if fromContent.Some? {
      return fromContent.value;
    }
    if description != [] {
      var cleaned := Clean(kind, description);
      if cleaned != [] && cleaned != NoSummary && cleaned != SeeBody(kind)
        && BelowEightTenths(Jaccard(NormalizeTitle(title), NormalizeTitle(cleaned)))
      {
        return cleaned;
      }
    }
    summary := TitleSummary(kind, title);
  }

  /** `t` is one of the stripped pieces. */
  predicate StrippedIn(t: string, parts: seq<string>) {
    exists k :: 0 <= k < |parts| && t == Strip(parts[k])
  }

  lemma StrippedInSnoc(t: string, parts: seq<string>)
    requires parts != []
    ensures StrippedIn(t, parts) <==>
      StrippedIn(t, parts[..|parts| - 1]) || t == Strip(parts[|parts| - 1])
  {
    ImageSnoc(t, parts, parts[..|parts| - 1], Strip);
  }

  /** `t` is the image of some element of `parts` exactly when it is the
      image of one before the last, or of the last. */
  lemma ImageSnoc(t: string, parts: seq<string>, init: seq<string>, f: string -> string)
    requires parts != [] && init == parts[..|parts| - 1]
    ensures (exists k :: 0 <= k < |parts| && t == f(parts[k])) <==>
      (exists k :: 0 <= k < |init| && t == f(init[k])) || t == f(parts[|parts| - 1])
  {
    if exists k :: 0 <= k < |parts| && t == f(parts[k]) {
      var k :| 0 <= k < |parts| && t == f(parts[k]);
      if k < |parts| - 1 {
        assert init[k] == parts[k];
      }
    }
    if exists k :: 0 <= k < |init| && t == f(init[k]) {
      var k :| 0 <= k < |init| && t == f(init[k]);
      assert parts[k] == init[k];
    }
  }

  lemma {:induction false} GatherMembers(keep: string -> bool, title: string, parts: seq<string>, x: Scored)
    ensures x in Gather(keep, title, parts) <==>
      StrippedIn(x.text, parts) && keep(x.text) && x.score == Relevance(title, x.text)
    decreases |parts|
  {
    if parts != [] {
      var init := parts[..|parts| - 1];
      var s := Strip(parts[|parts| - 1]);
      var g := Gather(keep, title, init);
      GatherMembers(keep, title, init, x);
      StrippedInSnoc(x.text, parts);
      assert Gather(keep, title, parts) == if keep(s) then g + [Scored(s, Relevance(title, s))] else g;
    }
  }

  /** A candidate is exactly a stripped piece of the body that passes the
      filter, scored by its relevance to the title. */
  lemma CandidatesMembers(kind: Kind, title: string, parts: seq<string>, x: Scored)
    ensures x in Candidates(kind, title, parts) <==>
      StrippedIn(x.text, parts) &&
      Meaningful(kind, x.text) && x.score == Relevance(title, x.text)
  {
    GatherMembers(Filter(kind), title, parts, x);
  }

  /** The summary leads with the best-scoring candidate, or with the second
      best when the two best read too much like the title; the best one
      scores at least as high as every candidate. */
  lemma {:induction false} TopCandidateLeads(kind: Kind, title: string, content: string)
    requires |Strip(content)| > 50
    requires Candidates(kind, title, SplitWhere(content, IsTerminator)) != []
    ensures var c := Candidates(kind, title, SplitWhere(content, IsTerminator));
      var ranked := SortDesc(c, Score);
      && (forall x | x in c :: ranked[0].score >= x.score)
      && (StartsWith(Pick(title, ranked), ranked[0].text)
          || (|ranked| > 2 && StartsWith(Pick(title, ranked), ranked[1].text)))
  {
    var c := Candidates(kind, title, SplitWhere(content, IsTerminator));
    RankedHeadBest(c);
    PickStarts(title, SortDesc(c, Score));
  }

  /** The first of the ranked candidates scores at least as high as any. */
  lemma RankedHeadBest(c: seq<Scored>)
    requires c != []
    ensures var ranked := SortDesc(c, Score);
      ranked != [] && forall x | x in c :: ranked[0].score >= x.score
  {
    var ranked := SortDesc(c, Score);
    SortDescSorted(c, Score);
    SortDescPermutation(c, Score);
    assert c[0] in multiset(ranked);
    forall x | x in c
      ensures ranked[0].score >= x.score
    {
      assert x in multiset(ranked);
      var k :| 0 <= k < |ranked| && ranked[k] == x;
      if k > 0 {
        assert Score(ranked[0]) >= Score(ranked[k]);
      }
    }
  }

  /** The picked text leads with the best candidate, or with the second. */
  lemma PickStarts(title: string, ranked: seq<Scored>)
    requires ranked != []
    ensures StartsWith(Pick(title, ranked), ranked[0].text)
      || (|ranked| > 2 && StartsWith(Pick(title, ranked), ranked[1].text))
  {
    var first := Slice(ranked, 2);
    assert first[0] == ranked[0];
    JoinStarts(Texts(first), ". ");
    if |ranked| > 2 {
      JoinStarts(Texts(ranked[1..3]), ". ");
    }
  }

  lemma JoinStarts(parts: seq<string>, sep: string)
    requires parts != []
    ensures StartsWith(Join(parts, sep), parts[0])
  {
  }

  /** A body of at most 50 characters (after stripping) is ignored. */
  lemma ShortContentIgnored(kind: Kind, title: string, content: string, description: string)
    requires |Strip(content)| <= 50
    ensures GenerateSummary(kind, title, content, description) ==
      GenerateSummary(kind, title, "", description)
  {
  }

  /** Without body text, an accepted description is returned as cleaned. */
  lemma DescriptionUsed(kind: Kind, title: string, content: string, description: string)
    requires ContentSummary(kind, title, content).None?
    requires description != []
    requires var d := CleanDescription(kind, description);
      d != NoSummary && d != SeeBody(kind)
      && BelowEightTenths(Jaccard(NormalizeTitle(title), NormalizeTitle(d)))
    ensures GenerateSummary(kind, title, content, description) == CleanDescription(kind, description)
  {
    CleanBounded(kind, description);
  }

  /** A description that normalises to the title itself is never used. */
  lemma DescriptionLikeTitleRejected(kind: Kind, title: string, description: string)
    requires NormalizeTitle(CleanDescription(kind, description)) == NormalizeTitle(title)
    ensures DescriptionSummary(kind, title, description).None?
  {
    var n := NormalizeTitle(title);
    SimilarityOneIff(n, n);
  }

  /** A blog post with neither body text nor description gets the fixed
      "see the post" text. */
  lemma BlogWithoutText(title: string, content: string)
    requires |Strip(content)| <= 50
    ensures GenerateSummary(Blog, title, content, "") == BlogDefault
  {
  }

  /** A news title naming an event gives a sentence pointing to the article. */
  lemma NewsEventTitle(title: string, content: string)
    requires |Strip(content)| <= 50
    requires Contains(TitleCore(title), "개최")
    ensures GenerateSummary(News, title, content, "") == Strip(TitleCore(title)) + EventEnding
  {
  }

  /** A news title naming an announcement and no event gives a sentence
      about its contents. */
  lemma NewsPlanTitle(title: string, content: string)
    requires |Strip(content)| <= 50
    requires !Contains(TitleCore(title), "개최") && !Contains(TitleCore(title), "진행")
    requires Contains(TitleCore(title), "계획")
    ensures GenerateSummary(News, title, content, "") == Strip(TitleCore(title)) + PlanEnding
  {
  }
}
