/** The search fold `search_news_by_keyword` / `search_blogs_by_keyword` and
    the fallback records. The feed service, the article pages, the probe of
    the news fallback and the clock are the outside world, passed in as a
    `World` value. */
module Pipeline {
  import opened Options
  import opened Text
  import opened Kinds
  import opened Similarity
  import opened AdFilter
  import opened Dates
  import opened Sorting
  import opened NewsSource
  import opened BlogSource
  import opened Summary

  /** One item of the feed, its missing string fields read as "". */
  datatype Article = Article(title: string, description: string, pubDate: string, link: string, source: SourceInfo)

  /** The decoded JSON body: `Malformed` stands for a body that makes the
      source raise (not JSON, not an object, items that are not objects with
      string fields); a missing status reads as "" and missing items as []. */
  datatype Payload = Malformed | Payload(status: string, items: seq<Article>)

  /** The reply of the feed service, `NoResponse` when the request raised. */
  datatype Response = NoResponse | Response(code: int, payload: Payload)

  /** A display record as returned to the caller. */
  datatype Record = Record(title: string, summary: string, source: string, link: string, pubDate: string)

  /** A record with its parsed publication time, the `pub_date_raw` key. */
  datatype Entry = Entry(record: Record, raw: Option<DateTime>)

  /** The outside world of one search: the feed reply, the text fetched for a
      link, whether the news fallback's probe got a 200, the clock reading at
      the cutoff (with its microseconds) and the one taken for a fallback. */
  datatype World = World(response: Response, page: string -> string, probeOk: bool,
                         now: DateTime, micro: int, later: DateTime)

  /** What a local naive clock can return. */
  predicate WorldValid(w: World) {
    && Valid(w.now) && w.now.offset.None? && 0 <= w.micro < MicrosPerSecond
    && Valid(w.later) && w.later.offset.None?
  }

  const MicrosPerSecond: int := 1000000

  /** One past `datetime.max`, in microseconds from `datetime.min`. */
  const EndOfTime: int := 3652059 * 86400 * MicrosPerSecond

  const NoTime: string := "시간 정보 없음"

  /** `datetime.now()` in microseconds from `datetime.min`. */
  function NowMicros(w: World): int
    requires WorldValid(w)
  {
    Seconds(w.now) * MicrosPerSecond + w.micro
  }

  /** `datetime.now() - timedelta(hours=hours_back)`, `None` standing for the
      `OverflowError` of a result outside the datetime range. */
  function Cutoff(w: World, hoursBack: int): (r: Option<int>)
    requires WorldValid(w)
    ensures r.Some? ==> 0 <= r.value < EndOfTime
  {
    var c := NowMicros(w) - hoursBack * 3600 * MicrosPerSecond;
    if 0 <= c < EndOfTime then Some(c) else None
  }

  /** The parsed `pubDate` of an article. */
  function Dated(a: Article): (r: Option<DateTime>)
    ensures r.Some? ==> Valid(r.value)
  {
    PubDateValid(a.pubDate);
    PubDate(a.pubDate)
  }

  /** The source attribution of each module. */
  function SourceOf(kind: Kind, a: Article): string {
    match kind
    case News => ItemSource(a.source, a.title, a.description, a.link)
    case Blog => BlogSourceOf(a.link, a.title, a.description)
  }

  /** The page text for a link; nothing is fetched for an empty link. */
  function PageText(page: string -> string, link: string): string {
    if link == [] then [] else page(link)
  }

  /** The record built for an accepted article. */
  function EntryOf(kind: Kind, page: string -> string, a: Article): (e: Entry)
    ensures e.record.title == a.title && e.record.link == a.link && e.raw == Dated(a)
  {
    var pub := Dated(a);
    var summary := GenerateSummary(kind, a.title, PageText(page, a.link), a.description);
    Entry(Record(a.title, summary, SourceOf(kind, a), a.link,
                 if pub.Some? then Display(pub.value) else NoTime), pub)
  }

  /** The outcome of one article: skipped, kept, or the `TypeError` of
      comparing a timezone-aware date with the naive cutoff. */
  datatype Step = Skip | Crash | Keep(entry: Entry)

  function Examine(kind: Kind, cutoff: int, page: string -> string, a: Article, seen: set<string>): Step {
    if a.title == [] || IsDuplicate(NormalizeTitle(a.title), seen) then Skip
    else if IsAd(a.title, a.description) then Skip
    else
      var pub := Dated(a);
      if pub.Some? && pub.value.offset.Some? then Crash
      else if pub.Some? && Seconds(pub.value) * MicrosPerSecond < cutoff then Skip
      else Keep(EntryOf(kind, page, a))
  }

  /** The test applied to each article with the titles seen so far. */
  type Examiner = (Article, set<string>) -> Step

  /** The examiner of one search. */
  function ExaminerOf(kind: Kind, cutoff: int, page: string -> string): (f: Examiner)
    ensures forall a, seen :: f(a, seen) == Examine(kind, cutoff, page, a, seen)
  {
    (a, seen) => Examine(kind, cutoff, page, a, seen)
  }

  /** The loop over the items from index `i`, with the records accepted so
      far and the normalised titles seen; `None` when it raises. */
  function Walk(examine: Examiner, max: int, items: seq<Article>,
                i: nat, acc: seq<Entry>, seen: set<string>): Option<seq<Entry>>
    requires i <= |items|
    decreases |items| - i
  {
    if i == |items| then Some(acc)
    else match examine(items[i], seen)
      case Skip => Walk(examine, max, items, i + 1, acc, seen)
      case Crash => None
      case Keep(e) =>
        if |acc| + 1 >= max then Some(acc + [e])
        else Walk(examine, max, items, i + 1, acc + [e], seen + {NormalizeTitle(items[i].title)})
  }

  /** The sort key `pub_date_raw or datetime.min`, in seconds. */
  function Key(e: Entry): int {
    match e.raw
    case None => 0
    case Some(t) => if Valid(t) then Seconds(t) else 0
  }

  /** The records with `pub_date_raw` popped. */
  function Records(es: seq<Entry>): (r: seq<Record>)
    ensures |r| == |es|
    ensures forall i :: 0 <= i < |es| ==> r[i] == es[i].record
  {
    seq(|es|, i requires 0 <= i < |es| => es[i].record)
  }

  /** The accepted entries sorted newest first, or `None` wherever the source
      returns the fallback. */
  function Outcome(kind: Kind, max: int, hoursBack: int, w: World): Option<seq<Entry>>
    requires WorldValid(w)
  {
    match w.response
    case NoResponse => None
    case Response(code, payload) =>
      if code != 200 || payload.Malformed? || payload.status != "ok" then None
      else match Cutoff(w, hoursBack)
        case None => None
        case Some(c) =>
          match Walk(ExaminerOf(kind, c, w.page), max, payload.items, 0, [], {})
          case None => None
          case Some(acc) => Some(SortDesc(acc, Key))
  }

  const NewsNoticeTail: string := " 관련 뉴스 검색 결과를 가져올 수 없습니다"
  const NewsFailureTail: string := " 뉴스 검색 실패"
  const BlogFailureTail: string := " 블로그 검색 실패"

  /** `_fallback_news_search` / `_fallback_blog_search`: one record naming the
      keyword; the news one is a notice when its probe of another feed got a
      200 reply. */
  function Fallback(kind: Kind, keyword: string, w: World): (r: seq<Record>)
    requires Valid(w.later)
    ensures |r| == 1 && r[0].link == [] && Contains(r[0].title, keyword)
    ensures r[0].source == if kind == News && w.probeOk then "시스템 알림" else "시스템 오류"
    ensures r[0].pubDate == Display(w.later)
  {
    var stamp := Display(w.later);
    var (tail, summary, source) :=
      match kind
      case News =>
        if w.probeOk then (NewsNoticeTail, "뉴스 API 서비스에 일시적인 문제가 발생했습니다.", "시스템 알림")
        else (NewsFailureTail, "네트워크 문제나 API 서비스 장애로 뉴스를 가져올 수 없습니다.", "시스템 오류")
      case Blog => (BlogFailureTail, "네트워크 문제나 API 서비스 장애로 블로그 글을 가져올 수 없습니다.", "시스템 오류");
    assert OccursAt(keyword, keyword, 0) by {
      assert keyword[0..|keyword|] == keyword;
    }
    ContainsLeft(keyword, tail, keyword);
    [Record(keyword + tail, summary, source, [], stamp)]
  }

  /** `search_news_by_keyword` / `search_blogs_by_keyword`. */
  function Search(kind: Kind, keyword: string, max: int, hoursBack: int, w: World): seq<Record>
    requires WorldValid(w)
  {
    match Outcome(kind, max, hoursBack, w)
    case None => Fallback(kind, keyword, w)
    case Some(es) => Slice(Records(es), max)
  }

  // ---------------------------------------------------------------------
  // The loop as the source writes it.

  /** The body of the item loop for one article: the title, duplicate and ad
      checks, the date parse and cutoff comparison, then the record. */
  method ExamineArticle(kind: Kind, cutoff: int, page: string -> string, a: Article, seen: set<string>)
    returns (step: Step)
    ensures step == Examine(kind, cutoff, page, a, seen)
  {
    if a.title == [] {
      return Skip;
    }
    var similar := IsSimilarTitle(a.title, seen);
    if similar || IsAd(a.title, a.description) {
      return Skip;
    }
    var pub := ParsePubDate(a.pubDate);
    PubDateValid(a.pubDate);
    if pub.Some? && pub.value.offset.Some? {
      return Crash;
    }
    if pub.Some? && Seconds(pub.value) * MicrosPerSecond < cutoff {
      return Skip;
    }
    var entry := MakeEntry(kind, page, a, pub);
    return Keep(entry);
  }

  /** The record of a kept article, with the parsed date beside it. */
  method MakeEntry(kind: Kind, page: string -> string, a: Article, pub: Option<DateTime>)
    returns (entry: Entry)
    requires pub == Dated(a)
    ensures entry == EntryOf(kind, page, a)
  {
    var source := SourceOf(kind, a);
    var content := if a.link != [] then page(a.link) else "";
    var summary := Summarize(kind, a.title, content, a.description);
    entry := Entry(Record(a.title, summary, source, a.link,
                          if pub.Some? then Display(pub.value) else NoTime), pub);
  }

  /** The item loop: examine each article, append what is kept, and stop
      once `max` records are held. */
  method CollectEntries(kind: Kind, cutoff: int, max: int, page: string -> string, items: seq<Article>)
    returns (r: Option<seq<Entry>>)
    ensures r == Walk(ExaminerOf(kind, cutoff, page), max, items, 0, [], {})
  {
    ghost var examine := ExaminerOf(kind, cutoff, page);
    var acc: seq<Entry> := [];
    var seen: set<string> := {};
    var i := 0;
    while i < |items|
      invariant 0 <= i <= |items|
      invariant Walk(examine, max, items, 0, [], {}) == Walk(examine, max, items, i, acc, seen)
    {
      var step := ExamineArticle(kind, cutoff, page, items[i], seen);
      assert step == examine(items[i], seen);
      match step {
        case Crash =>
          return None;
        case Skip =>
        case Keep(entry) =>
          acc := acc + [entry];
          seen := seen + {NormalizeTitle(items[i].title)};
          if |acc| >= max {
            return Some(acc);
          }
      }
      i := i + 1;
    }
    return Some(acc);
  }

  /** The search up to the in-place sort: the status checks, the cutoff and
      the loop; `None` where the source turns to the fallback. */
  method RankEntries(kind: Kind, max: int, hoursBack: int, w: World) returns (r: Option<seq<Entry>>)
    requires WorldValid(w)
    ensures r == Outcome(kind, max, hoursBack, w)
  {
    if w.response.NoResponse? || w.response.code != 200 || w.response.payload.Malformed?
      || w.response.payload.status != "ok" {
      return None;
    }
    var cutoff := NowMicros(w) - hoursBack * 3600 * MicrosPerSecond;
    if !(0 <= cutoff < EndOfTime) {
      assert Cutoff(w, hoursBack).None?;
      return None;
    }
    assert Cutoff(w, hoursBack) == Some(cutoff);
    var collected := CollectEntries(kind, cutoff, max, w.page, w.response.payload.items);
    if collected.None? {
      return None;
    }
    return Some(SortDesc(collected.value, Key));
  }

  /** The records with `pub_date_raw` popped, one entry after the other. */
  method PopRaw(es: seq<Entry>) returns (records: seq<Record>)
    ensures records == Records(es)
  {
    records := [];
    for j := 0 to |es|
      invariant records == Records(es[..j])
    {
      records := records + [es[j].record];
    }
    assert es[..|es|] == es;
  }

  /** The search, step by step: the entries ranked, `pub_date_raw` popped
      from each, and the final slice; the fallback on any failure. */
  method RunSearch(kind: Kind, keyword: string, max: int, hoursBack: int, w: World) returns (records: seq<Record>)
    requires WorldValid(w)
    ensures records == Search(kind, keyword, max, hoursBack, w)
  {
    var ranked := RankEntries(kind, max, hoursBack, w);
    if ranked.None? {
      return Fallback(kind, keyword, w);
    }
    records := PopRaw(ranked.value);
    records := Slice(records, max);
  }

  // ---------------------------------------------------------------------
  // What the loop keeps.

  /** An article the loop may keep: titled, not an ad, and undated or naive
      and not older than the cutoff. */
  predicate Accepted(cutoff: int, a: Article) {
    && a.title != []
    && !IsAd(a.title, a.description)
    && (Dated(a).Some? ==> Dated(a).value.offset.None? && Seconds(Dated(a).value) * MicrosPerSecond >= cutoff)
  }

  /** The normalised titles of two records are at most half similar. */
  predicate Apart(x: Entry, y: Entry) {
    !Close(NormalizeTitle(x.record.title), NormalizeTitle(y.record.title))
  }

  /** The normalised titles of the records, the `seen` set of the loop. */
  function TitlesOf(acc: seq<Entry>): set<string>
    decreases |acc|
  {
    if acc == [] then {}
    else TitlesOf(acc[..|acc| - 1]) + {NormalizeTitle(acc[|acc| - 1].record.title)}
  }

  /** What the loop needs of an examiner: a kept record carries the article's
      title, and that title is unlike every title seen. */
  ghost predicate Sound(examine: Examiner) {
    forall a, seen :: examine(a, seen).Keep? ==>
      examine(a, seen).entry.record.title == a.title && !IsDuplicate(NormalizeTitle(a.title), seen)
  }

  /** The entry was kept for one of the items. */
  ghost predicate Produced(examine: Examiner, items: seq<Article>, e: Entry) {
    exists k, seen :: 0 <= k < |items| && examine(items[k], seen) == Keep(e)
  }

  /** An article is kept only when it is accepted, and then as its record. */
  lemma KeptAccepted(kind: Kind, cutoff: int, page: string -> string, a: Article, seen: set<string>)
    requires Examine(kind, cutoff, page, a, seen).Keep?
    ensures Accepted(cutoff, a)
    ensures Examine(kind, cutoff, page, a, seen).entry == EntryOf(kind, page, a)
    ensures !IsDuplicate(NormalizeTitle(a.title), seen)
  {
  }

  lemma ExaminerSound(kind: Kind, cutoff: int, page: string -> string)
    ensures Sound(ExaminerOf(kind, cutoff, page))
  {
    var f := ExaminerOf(kind, cutoff, page);
    forall a, seen | f(a, seen).Keep?
      ensures f(a, seen).entry.record.title == a.title && !IsDuplicate(NormalizeTitle(a.title), seen)
    {
      KeptAccepted(kind, cutoff, page, a, seen);
    }
  }

  lemma AppendApart(acc: seq<Entry>, e: Entry)
    requires Pairwise(acc, Apart)
    requires !IsDuplicate(NormalizeTitle(e.record.title), TitlesOf(acc))
    ensures Pairwise(acc + [e], Apart)
  {
    var n := NormalizeTitle(e.record.title);
    forall k | 0 <= k < |acc|
      ensures Apart(e, acc[k]) && Apart(acc[k], e)
    {
      var m := NormalizeTitle(acc[k].record.title);
      TitleSeen(acc, k);
      SimilaritySymmetric(n, m);
    }
    AppendPairwise(acc, e, Apart);
  }

  lemma TitlesAppend(acc: seq<Entry>, e: Entry)
    ensures TitlesOf(acc + [e]) == TitlesOf(acc) + {NormalizeTitle(e.record.title)}
  {
    assert (acc + [e])[..|acc|] == acc;
  }

  /** The title of every record is among the titles seen. */
  lemma {:induction false} TitleSeen(acc: seq<Entry>, k: nat)
    requires k < |acc|
    ensures NormalizeTitle(acc[k].record.title) in TitlesOf(acc)
    decreases |acc|
  {
    if k < |acc| - 1 {
      TitleSeen(acc[..|acc| - 1], k);
    }
  }

  /** Keeping an entry keeps the invariant of the loop. */
  lemma KeepStep(examine: Examiner, items: seq<Article>, i: nat, acc: seq<Entry>, seen: set<string>, e: Entry)
    requires Sound(examine)
    requires i < |items| && examine(items[i], seen) == Keep(e)
    requires seen == TitlesOf(acc)
    requires Pairwise(acc, Apart)
    requires forall x | x in acc :: Produced(examine, items, x)
    ensures Pairwise(acc + [e], Apart)
    ensures forall x | x in acc + [e] :: Produced(examine, items, x)
    ensures TitlesOf(acc + [e]) == seen + {NormalizeTitle(items[i].title)}
  {
    assert e.record.title == items[i].title && !IsDuplicate(NormalizeTitle(items[i].title), seen);
    AppendApart(acc, e);
    forall x | x in acc + [e]
      ensures Produced(examine, items, x)
    {
      if x != e {
        assert x in acc;
      }
    }
    TitlesAppend(acc, e);
  }

  /** The loop only keeps what the examiner keeps, and keeps the titles
      apart. */
  lemma {:induction false} WalkInvariant(examine: Examiner, max: int, items: seq<Article>,
                                         i: nat, acc: seq<Entry>, seen: set<string>)
    requires Sound(examine)
    requires i <= |items|
    requires seen == TitlesOf(acc)
    requires Pairwise(acc, Apart)
    requires forall e | e in acc :: Produced(examine, items, e)
    requires Walk(examine, max, items, i, acc, seen).Some?
    ensures var r := Walk(examine, max, items, i, acc, seen).value;
      Pairwise(r, Apart) && forall e | e in r :: Produced(examine, items, e)
    decreases |items| - i
  {
    if i < |items| {
      var step := examine(items[i], seen);
      if step.Skip? {
        WalkInvariant(examine, max, items, i + 1, acc, seen);
      } else if step.Keep? {
        KeepStep(examine, items, i, acc, seen, step.entry);
        if |acc| + 1 < max {
          WalkInvariant(examine, max, items, i + 1, acc + [step.entry], seen + {NormalizeTitle(items[i].title)});
        }
      }
    }
  }

  /** The loop stops as soon as it holds `max` records, and holds one record
      at most when `max` is below one. */
  lemma {:induction false} WalkLength(examine: Examiner, max: int, items: seq<Article>,
                                      i: nat, acc: seq<Entry>, seen: set<string>)
    requires i <= |items|
    requires |acc| < max || acc == []
    requires Walk(examine, max, items, i, acc, seen).Some?
    ensures |Walk(examine, max, items, i, acc, seen).value| <= if max >= 1 then max else 1
    decreases |items| - i
  {
    if i < |items| {
      match examine(items[i], seen)
      case Skip => WalkLength(examine, max, items, i + 1, acc, seen);
      case Crash =>
      case Keep(e) =>
        if |acc| + 1 < max {
          WalkLength(examine, max, items, i + 1, acc + [e], seen + {NormalizeTitle(items[i].title)});
        }
    }
  }

  // ---------------------------------------------------------------------
  // The properties of the search.

  /** A successful search returns at most `max_results` records, and none when
      `max_results` is not positive. */
  lemma SearchBounded(kind: Kind, keyword: string, max: int, hoursBack: int, w: World)
    requires WorldValid(w)
    requires Outcome(kind, max, hoursBack, w).Some?
    ensures |Search(kind, keyword, max, hoursBack, w)| <= if max > 0 then max else 0
  {
    var c := Cutoff(w, hoursBack).value;
    WalkLength(ExaminerOf(kind, c, w.page), max, w.response.payload.items, 0, [], {});
  }

  /** Any failure gives exactly one record, with an empty link and a title
      naming the keyword. */
  lemma SearchFailure(kind: Kind, keyword: string, max: int, hoursBack: int, w: World)
    requires WorldValid(w)
    requires Outcome(kind, max, hoursBack, w).None?
    ensures var r := Search(kind, keyword, max, hoursBack, w);
      |r| == 1 && r[0].link == [] && Contains(r[0].title, keyword)
  {
  }

  /** A reply other than a 200 with status "ok" gives the fallback record. */
  lemma BadReplyFallsBack(kind: Kind, keyword: string, max: int, hoursBack: int, w: World)
    requires WorldValid(w)
    requires w.response.NoResponse? || w.response.code != 200 || w.response.payload.Malformed?
      || w.response.payload.status != "ok"
    ensures Search(kind, keyword, max, hoursBack, w) == Fallback(kind, keyword, w)
  {
  }

  /** A good reply without items gives no records. */
  lemma EmptyFeed(kind: Kind, keyword: string, max: int, hoursBack: int, w: World)
    requires WorldValid(w)
    requires w.response == Response(200, Payload("ok", []))
    requires Cutoff(w, hoursBack).Some?
    ensures Search(kind, keyword, max, hoursBack, w) == []
  {
  }

  /** The entries come out newest first, undated ones (keyed as
      `datetime.min`) after every dated one later than `datetime.min`, and
      the records returned are the first of them. */
  lemma {:induction false} SearchOrdered(kind: Kind, keyword: string, max: int, hoursBack: int, w: World)
    requires WorldValid(w)
    requires Outcome(kind, max, hoursBack, w).Some?
    ensures var es := Outcome(kind, max, hoursBack, w).value;
      var r := Search(kind, keyword, max, hoursBack, w);
      && SortedDesc(es, Key)
      && (forall i, j :: 0 <= i < j < |es| && es[i].raw.None? ==> Key(es[j]) == 0)
      && |r| <= |es| && r == Records(es[..|r|])
  {
    var es := Outcome(kind, max, hoursBack, w).value;
    var c := Cutoff(w, hoursBack).value;
    var acc := Walk(ExaminerOf(kind, c, w.page), max, w.response.payload.items, 0, [], {}).value;
    SortDescSorted(acc, Key);
    forall i, j | 0 <= i < j < |es| && es[i].raw.None?
      ensures Key(es[j]) == 0
    {
      assert Key(es[i]) >= Key(es[j]);
      match es[j].raw
      case None =>
      case Some(t) =>
        if Valid(t) {
          SecondsNonNegative(t);
        }
    }
    var r := Search(kind, keyword, max, hoursBack, w);
    assert r == Slice(Records(es), max);
  }

  /** Every entry the loop keeps comes from an accepted article of the feed,
      and no two of their titles are more than half similar. */
  lemma OutcomeAccepted(kind: Kind, max: int, hoursBack: int, w: World, c: int, es: seq<Entry>)
    requires WorldValid(w)
    requires Cutoff(w, hoursBack) == Some(c) && Outcome(kind, max, hoursBack, w) == Some(es)
    ensures forall i :: 0 <= i < |es| ==> FromAccepted(kind, c, w.page, w.response.payload.items, es[i])
    ensures Pairwise(es, Apart)
  {
    var items := w.response.payload.items;
    var f := ExaminerOf(kind, c, w.page);
    var acc := Walk(f, max, items, 0, [], {}).value;
    ExaminerSound(kind, c, w.page);
    WalkInvariant(f, max, items, 0, [], {});
    assert es == SortDesc(acc, Key);
    SortDescPairwise(acc, Key, Apart);
    forall i | 0 <= i < |es|
      ensures FromAccepted(kind, c, w.page, items, es[i])
    {
      SortDescMembers(acc, Key, i);
      var m :| 0 <= m < |acc| && es[i] == acc[m];
      assert acc[m] in acc;
      assert Produced(f, items, es[i]);
      ProducedAccepted(kind, c, w.page, items, es[i]);
    }
  }

  /** The entry is the one built for an accepted article of the feed. */
  ghost predicate FromAccepted(kind: Kind, cutoff: int, page: string -> string, items: seq<Article>, e: Entry) {
    exists k :: 0 <= k < |items| && Accepted(cutoff, items[k]) && e == EntryOf(kind, page, items[k])
  }

  /** What the examiner of a search keeps is the record of an accepted
      article. */
  lemma ProducedAccepted(kind: Kind, cutoff: int, page: string -> string, items: seq<Article>, e: Entry)
    requires Produced(ExaminerOf(kind, cutoff, page), items, e)
    ensures FromAccepted(kind, cutoff, page, items, e)
  {
    var k, seen :| 0 <= k < |items| && ExaminerOf(kind, cutoff, page)(items[k], seen) == Keep(e);
    KeptAccepted(kind, cutoff, page, items[k], seen);
  }

  /** Every record returned is the record of an accepted article of the feed:
      titled, not an ad, and not older than the cutoff if dated; and no two
      returned titles are more than half similar. */
  lemma SearchAccepted(kind: Kind, keyword: string, max: int, hoursBack: int, w: World)
    requires WorldValid(w)
    requires Outcome(kind, max, hoursBack, w).Some?
    ensures var r := Search(kind, keyword, max, hoursBack, w);
      var c := Cutoff(w, hoursBack).value;
      var items := w.response.payload.items;
      && (forall i :: 0 <= i < |r| ==> RecordOfAccepted(kind, c, w.page, items, r[i]))
      && (forall i, j :: 0 <= i < |r| && 0 <= j < |r| && i != j ==>
            !Close(NormalizeTitle(r[i].title), NormalizeTitle(r[j].title)))
  {
    var es := Outcome(kind, max, hoursBack, w).value;
    var c := Cutoff(w, hoursBack).value;
    var items := w.response.payload.items;
    OutcomeAccepted(kind, max, hoursBack, w, c, es);
    var r := Search(kind, keyword, max, hoursBack, w);
    assert r == Slice(Records(es), max);
    FirstRecordsAccepted(kind, c, w.page, items, es, r);
  }

  /** `rec` is the record of some article of the feed that the checks accept. */
  ghost predicate RecordOfAccepted(kind: Kind, c: int, page: string -> string, items: seq<Article>, rec: Record) {
    exists k :: 0 <= k < |items| && Accepted(c, items[k]) && rec == EntryOf(kind, page, items[k]).record
  }

  /** The records of a prefix of accepted, pairwise apart entries are each
      the record of an accepted article, and pairwise apart. */
  lemma FirstRecordsAccepted(kind: Kind, c: int, page: string -> string, items: seq<Article>,
                             es: seq<Entry>, r: seq<Record>)
    requires forall i :: 0 <= i < |es| ==> FromAccepted(kind, c, page, items, es[i])
    requires Pairwise(es, Apart)
    requires |r| <= |es| && r == Records(es)[..|r|]
    ensures forall i :: 0 <= i < |r| ==> RecordOfAccepted(kind, c, page, items, r[i])
    ensures forall i, j :: 0 <= i < |r| && 0 <= j < |r| && i != j ==>
      !Close(NormalizeTitle(r[i].title), NormalizeTitle(r[j].title))
  {
    forall i | 0 <= i < |r|
      ensures RecordOfAccepted(kind, c, page, items, r[i])
    {
      assert r[i] == es[i].record;
      assert FromAccepted(kind, c, page, items, es[i]);
      var k :| 0 <= k < |items| && Accepted(c, items[k]) && es[i] == EntryOf(kind, page, items[k]);
    }
    forall i, j | 0 <= i < |r| && 0 <= j < |r| && i != j
      ensures !Close(NormalizeTitle(r[i].title), NormalizeTitle(r[j].title))
    {
      assert r[i] == es[i].record && r[j] == es[j].record;
      assert Apart(es[i], es[j]);
    }
  }

  // ---------------------------------------------------------------------
  // What the loop does not drop.

  /** Some record held has a title more than half similar to `n`. */
  ghost predicate CloseToKept(n: string, acc: seq<Entry>) {
    exists j :: 0 <= j < |acc| && Close(n, NormalizeTitle(acc[j].record.title))
  }

  /** What the loop needs of an examiner to drop nothing: a kept record
      carries the article's title, and an article that passes `ok` is kept
      as `entry(a)` unless it is skipped for a title that duplicates one
      seen. */
  ghost predicate Decides(examine: Examiner, ok: Article -> bool, entry: Article -> Entry) {
    && (forall a, seen :: examine(a, seen).Keep? ==> examine(a, seen).entry.record.title == a.title)
    && (forall a, seen :: ok(a) ==>
          examine(a, seen) == Keep(entry(a))
          || (examine(a, seen) == Skip && IsDuplicate(NormalizeTitle(a.title), seen)))
  }

  /** An accepted article is skipped exactly when its title is a duplicate
      of one seen, and is otherwise kept as its record. */
  lemma ExamineAccepted(kind: Kind, cutoff: int, page: string -> string, a: Article, seen: set<string>)
    requires Accepted(cutoff, a)
    ensures Examine(kind, cutoff, page, a, seen)
      == if IsDuplicate(NormalizeTitle(a.title), seen) then Skip else Keep(EntryOf(kind, page, a))
  {
  }

  /** The examiner of a search keeps the accepted articles. */
  lemma ExaminerDecides(kind: Kind, cutoff: int, page: string -> string)
    ensures Decides(ExaminerOf(kind, cutoff, page), a => Accepted(cutoff, a), a => EntryOf(kind, page, a))
  {
    var f := ExaminerOf(kind, cutoff, page);
    forall a, seen | f(a, seen).Keep?
      ensures f(a, seen).entry.record.title == a.title
    {
      KeptAccepted(kind, cutoff, page, a, seen);
    }
    forall a, seen | Accepted(cutoff, a)
      ensures f(a, seen) == Keep(EntryOf(kind, page, a))
        || (f(a, seen) == Skip && IsDuplicate(NormalizeTitle(a.title), seen))
    {
      ExamineAccepted(kind, cutoff, page, a, seen);
    }
  }

  /** The loop only ever appends to the records it holds. */
  lemma {:induction false} WalkExtends(examine: Examiner, max: int, items: seq<Article>,
                                       i: nat, acc: seq<Entry>, seen: set<string>)
    requires i <= |items|
    requires Walk(examine, max, items, i, acc, seen).Some?
    ensures var r := Walk(examine, max, items, i, acc, seen).value;
      |acc| <= |r| && r[..|acc|] == acc
    decreases |items| - i
  {
    if i < |items| {
      match examine(items[i], seen)
      case Skip =>
        assert Walk(examine, max, items, i, acc, seen) == Walk(examine, max, items, i + 1, acc, seen);
        WalkExtends(examine, max, items, i + 1, acc, seen);
      case Keep(e) =>
        var r := Walk(examine, max, items, i, acc, seen).value;
        if |acc| + 1 < max {
          var seen' := seen + {NormalizeTitle(items[i].title)};
          assert Walk(examine, max, items, i, acc, seen) == Walk(examine, max, items, i + 1, acc + [e], seen');
          WalkExtends(examine, max, items, i + 1, acc + [e], seen');
        } else {
          assert r == acc + [e];
        }
        PrefixOfPrefix(acc, e, r);
    }
  }

  lemma PrefixOfPrefix(acc: seq<Entry>, e: Entry, r: seq<Entry>)
    requires |acc + [e]| <= |r| && r[..|acc + [e]|] == acc + [e]
    ensures |acc| <= |r| && r[..|acc|] == acc
  {
    assert r[..|acc|] == r[..|acc + [e]|][..|acc|];
  }

  /** Every title seen is the normalised title of a record held. */
  lemma {:induction false} TitleOfSome(acc: seq<Entry>, n: string) returns (j: nat)
    requires n in TitlesOf(acc)
    ensures j < |acc| && n == NormalizeTitle(acc[j].record.title)
    decreases |acc|
  {
    var init := acc[..|acc| - 1];
    if n != NormalizeTitle(acc[|acc| - 1].record.title) {
      j := TitleOfSome(init, n);
      assert acc[j] == init[j];
    } else {
      j := |acc| - 1;
    }
  }

  /** A title that duplicates one seen is close to that of a record held,
      and stays so as records are appended. */
  lemma DuplicateIsClose(n: string, acc: seq<Entry>, r: seq<Entry>)
    requires IsDuplicate(n, TitlesOf(acc))
    requires |acc| <= |r| && r[..|acc|] == acc
    ensures CloseToKept(n, r)
  {
    var s :| s in TitlesOf(acc) && Close(n, s);
    var j := TitleOfSome(acc, s);
    assert r[j] == acc[j];
  }

  /** No article from index `i` on that passes `ok` is missing from the
      records `r` but for one whose title is close to that of a record. */
  ghost predicate NoneDropped(ok: Article -> bool, entry: Article -> Entry, items: seq<Article>, i: nat, r: seq<Entry>) {
    forall k :: i <= k < |items| && ok(items[k]) ==>
      entry(items[k]) in r || CloseToKept(NormalizeTitle(items[k].title), r)
  }

  /** When the loop ends holding fewer than `max` records, every article
      from index `i` on that the examiner decides on was kept as its entry,
      or its title is more than half similar to that of a record held. */
  lemma {:induction false} WalkComplete(examine: Examiner, ok: Article -> bool, entry: Article -> Entry,
                                        max: int, items: seq<Article>, i: nat, acc: seq<Entry>, seen: set<string>)
    requires Decides(examine, ok, entry)
    requires i <= |items|
    requires seen == TitlesOf(acc)
    requires Walk(examine, max, items, i, acc, seen).Some?
    requires |Walk(examine, max, items, i, acc, seen).value| < max
    ensures NoneDropped(ok, entry, items, i, Walk(examine, max, items, i, acc, seen).value)
    decreases |items| - i
  {
    if i < |items| {
      var step := examine(items[i], seen);
      if step.Skip? {
        assert Walk(examine, max, items, i, acc, seen) == Walk(examine, max, items, i + 1, acc, seen);
        WalkComplete(examine, ok, entry, max, items, i + 1, acc, seen);
        WalkExtends(examine, max, items, i, acc, seen);
        SkipCase(examine, ok, entry, items, i, acc, seen, Walk(examine, max, items, i, acc, seen).value);
      } else if step.Keep? {
        var e := step.entry;
        var seen' := seen + {NormalizeTitle(items[i].title)};
        KeepFacts(examine, ok, entry, max, items, i, acc, seen, e);
        WalkComplete(examine, ok, entry, max, items, i + 1, acc + [e], seen');
        WalkExtends(examine, max, items, i + 1, acc + [e], seen');
        KeepCase(examine, ok, entry, items, i, seen, acc, e, Walk(examine, max, items, i, acc, seen).value);
      }
    }
  }

  /** A kept article moves the loop to the next index with the record
      appended and its title seen. */
  lemma KeepFacts(examine: Examiner, ok: Article -> bool, entry: Article -> Entry, max: int,
                  items: seq<Article>, i: nat, acc: seq<Entry>, seen: set<string>, e: Entry)
    requires Decides(examine, ok, entry)
    requires i < |items| && examine(items[i], seen) == Keep(e)
    requires seen == TitlesOf(acc)
    requires Walk(examine, max, items, i, acc, seen).Some?
    requires |Walk(examine, max, items, i, acc, seen).value| < max
    ensures Walk(examine, max, items, i, acc, seen)
      == Walk(examine, max, items, i + 1, acc + [e], seen + {NormalizeTitle(items[i].title)})
    ensures seen + {NormalizeTitle(items[i].title)} == TitlesOf(acc + [e])
  {
    assert e.record.title == items[i].title;
    TitlesAppend(acc, e);
  }

  /** A skipped article that passes `ok` has a title close to a record's. */
  lemma SkipCase(examine: Examiner, ok: Article -> bool, entry: Article -> Entry, items: seq<Article>,
                 i: nat, acc: seq<Entry>, seen: set<string>, r: seq<Entry>)
    requires Decides(examine, ok, entry)
    requires i < |items| && examine(items[i], seen) == Skip
    requires seen == TitlesOf(acc)
    requires |acc| <= |r| && r[..|acc|] == acc
    requires NoneDropped(ok, entry, items, i + 1, r)
    ensures NoneDropped(ok, entry, items, i, r)
  {
    if ok(items[i]) {
      DuplicateIsClose(NormalizeTitle(items[i].title), acc, r);
    }
    WalkCompleteStep(ok, entry, items, i, r);
  }

  /** A kept article that passes `ok` is kept as its entry. */
  lemma KeepCase(examine: Examiner, ok: Article -> bool, entry: Article -> Entry, items: seq<Article>,
                 i: nat, seen: set<string>, acc: seq<Entry>, e: Entry, r: seq<Entry>)
    requires Decides(examine, ok, entry)
    requires i < |items| && examine(items[i], seen) == Keep(e)
    requires |acc + [e]| <= |r| && r[..|acc + [e]|] == acc + [e]
    requires NoneDropped(ok, entry, items, i + 1, r)
    ensures NoneDropped(ok, entry, items, i, r)
  {
    KeptIn(acc, e, r);
    WalkCompleteStep(ok, entry, items, i, r);
  }

  /** The claim from `i` follows from the one from `i + 1` and the article
      at `i`. */
  lemma WalkCompleteStep(ok: Article -> bool, entry: Article -> Entry, items: seq<Article>, i: nat, r: seq<Entry>)
    requires i < |items|
    requires ok(items[i]) ==> entry(items[i]) in r || CloseToKept(NormalizeTitle(items[i].title), r)
    requires NoneDropped(ok, entry, items, i + 1, r)
    ensures NoneDropped(ok, entry, items, i, r)
  {
  }

  lemma KeptIn(acc: seq<Entry>, e: Entry, r: seq<Entry>)
    requires |acc + [e]| <= |r| && r[..|acc + [e]|] == acc + [e]
    ensures e in r
  {
    assert r[|acc|] == (acc + [e])[|acc|];
  }

  /** Sorting by any key and popping `pub_date_raw` keep every record and
      every title. */
  lemma KeptShown(acc: seq<Entry>, key: Entry -> int, n: string, e: Entry)
    requires e in acc || CloseToKept(n, acc)
    ensures var r := Records(SortDesc(acc, key));
      e.record in r || exists j :: 0 <= j < |r| && Close(n, NormalizeTitle(r[j].title))
  {
    if e in acc {
      RecordShown(acc, key, e);
    } else {
      var j := CloseWitness(n, acc);
      RecordShown(acc, key, acc[j]);
    }
  }

  lemma RecordShown(acc: seq<Entry>, key: Entry -> int, e: Entry)
    requires e in acc
    ensures e.record in Records(SortDesc(acc, key))
  {
    var es := SortDesc(acc, key);
    SortDescHas(acc, key, e);
    var j :| 0 <= j < |es| && es[j] == e;
    assert Records(es)[j] == e.record;
  }

  lemma CloseWitness(n: string, acc: seq<Entry>) returns (j: nat)
    requires CloseToKept(n, acc)
    ensures j < |acc| && Close(n, NormalizeTitle(acc[j].record.title))
  {
    j :| 0 <= j < |acc| && Close(n, NormalizeTitle(acc[j].record.title));
  }

  /** A search that returns fewer than `max_results` records drops no
      accepted article of the feed except one whose title is more than half
      similar to the title of a returned record: undated articles included,
      each of the others comes back as its record. */
  lemma SearchComplete(kind: Kind, keyword: string, max: int, hoursBack: int, w: World)
    requires WorldValid(w)
    requires Outcome(kind, max, hoursBack, w).Some?
    requires |Search(kind, keyword, max, hoursBack, w)| < max
    ensures var r := Search(kind, keyword, max, hoursBack, w);
      var c := Cutoff(w, hoursBack).value;
      var items := w.response.payload.items;
      forall k :: 0 <= k < |items| && Accepted(c, items[k]) ==>
        EntryOf(kind, w.page, items[k]).record in r
        || exists j :: 0 <= j < |r| && Close(NormalizeTitle(items[k].title), NormalizeTitle(r[j].title))
  {
    var c := Cutoff(w, hoursBack).value;
    var items := w.response.payload.items;
    var acc := Walk(ExaminerOf(kind, c, w.page), max, items, 0, [], {}).value;
    var r := Search(kind, keyword, max, hoursBack, w);
    assert r == Records(SortDesc(acc, Key));
    LoopComplete(kind, c, w.page, max, items, acc);
    forall k | 0 <= k < |items| && Accepted(c, items[k])
      ensures EntryOf(kind, w.page, items[k]).record in r
        || exists j :: 0 <= j < |r| && Close(NormalizeTitle(items[k].title), NormalizeTitle(r[j].title))
    {
      KeptShown(acc, Key, NormalizeTitle(items[k].title), EntryOf(kind, w.page, items[k]));
    }
  }

  /** The loop of a search that ends short of `max` drops no accepted
      article but for a duplicate title. */
  lemma LoopComplete(kind: Kind, cutoff: int, page: string -> string, max: int,
                     items: seq<Article>, acc: seq<Entry>)
    requires Walk(ExaminerOf(kind, cutoff, page), max, items, 0, [], {}) == Some(acc)
    requires |acc| < max
    ensures forall k :: 0 <= k < |items| && Accepted(cutoff, items[k]) ==>
      EntryOf(kind, page, items[k]) in acc || CloseToKept(NormalizeTitle(items[k].title), acc)
  {
    var f := ExaminerOf(kind, cutoff, page);
    ExaminerDecides(kind, cutoff, page);
    WalkComplete(f, a => Accepted(cutoff, a), a => EntryOf(kind, page, a), max, items, 0, [], {});
    assert NoneDropped(a => Accepted(cutoff, a), a => EntryOf(kind, page, a), items, 0, acc);
  }

  /** A feed of one accepted article, an undated one for instance, gives
      exactly that article's record whenever `max_results` is at least one. */
  lemma SingleAcceptedItem(kind: Kind, keyword: string, max: int, hoursBack: int, w: World, a: Article)
    requires WorldValid(w) && max >= 1
    requires w.response == Response(200, Payload("ok", [a]))
    requires Cutoff(w, hoursBack).Some? && Accepted(Cutoff(w, hoursBack).value, a)
    ensures Search(kind, keyword, max, hoursBack, w) == [EntryOf(kind, w.page, a).record]
  {
    var e := EntryOf(kind, w.page, a);
    SingleOutcome(kind, max, hoursBack, w, a);
    assert Records([e]) == [e.record];
  }

  lemma SingleOutcome(kind: Kind, max: int, hoursBack: int, w: World, a: Article)
    requires WorldValid(w)
    requires w.response == Response(200, Payload("ok", [a]))
    requires Cutoff(w, hoursBack).Some? && Accepted(Cutoff(w, hoursBack).value, a)
    ensures Outcome(kind, max, hoursBack, w) == Some([EntryOf(kind, w.page, a)])
  {
    var c := Cutoff(w, hoursBack).value;
    var e := EntryOf(kind, w.page, a);
    SingleKept(kind, c, w.page, max, a);
    assert SortDesc([e], Key) == [e];
  }

  /** The loop over one accepted article holds exactly its record. */
  lemma SingleKept(kind: Kind, cutoff: int, page: string -> string, max: int, a: Article)
    requires Accepted(cutoff, a)
    ensures Walk(ExaminerOf(kind, cutoff, page), max, [a], 0, [], {}) == Some([EntryOf(kind, page, a)])
  {
    var f := ExaminerOf(kind, cutoff, page);
    var e := EntryOf(kind, page, a);
    EmptySeenNeverDuplicate(NormalizeTitle(a.title));
    ExamineAccepted(kind, cutoff, page, a, {});
    WalkOne(f, max, a, e);
  }

  lemma WalkOne(examine: Examiner, max: int, a: Article, e: Entry)
    requires examine(a, {}) == Keep(e)
    ensures Walk(examine, max, [a], 0, [], {}) == Some([e])
  {
    assert [a][0] == a;
    assert [] + [e] == [e];
    if 1 < max {
      assert Walk(examine, max, [a], 1, [e], {NormalizeTitle(a.title)}) == Some([e]);
    }
  }

  /** The hazard of mixing timezone-aware and naive datetimes: a first item
      that passes the title and ad checks and carries a UTC offset makes the
      whole search return the fallback record. */
  lemma AwareDateFallsBack(kind: Kind, keyword: string, max: int, hoursBack: int, w: World)
    requires WorldValid(w)
    requires w.response.Response? && w.response.code == 200 && w.response.payload.Payload?
      && w.response.payload.status == "ok" && Cutoff(w, hoursBack).Some?
    requires var items := w.response.payload.items;
      items != [] && items[0].title != [] && !IsAd(items[0].title, items[0].description)
      && Dated(items[0]).Some? && Dated(items[0]).value.offset.Some?
    ensures Search(kind, keyword, max, hoursBack, w) == Fallback(kind, keyword, w)
  {
    var items := w.response.payload.items;
    var c := Cutoff(w, hoursBack).value;
    var f := ExaminerOf(kind, c, w.page);
    AwareCrashes(kind, c, w.page, items[0]);
    assert f(items[0], {}) == Crash;
    assert Walk(f, max, items, 0, [], {}) == None;
    assert Outcome(kind, max, hoursBack, w) == None;
  }

  /** The first article examined, if titled, not an ad and dated with an
      offset, raises. */
  lemma AwareCrashes(kind: Kind, cutoff: int, page: string -> string, a: Article)
    requires a.title != [] && !IsAd(a.title, a.description)
    requires Dated(a).Some? && Dated(a).value.offset.Some?
    ensures Examine(kind, cutoff, page, a, {}) == Crash
  {
    EmptySeenNeverDuplicate(NormalizeTitle(a.title));
  }
}
