/** The news source attribution: `_extract_source` on the feed's own source
    field and, when that gives nothing, `_extract_source_from_title_and_description`
    with its chain title suffix, description suffix, link domain, bracket. */
module NewsSource {
  import opened Options
  import opened Text
  import opened Patterns
  import opened Urls

  /** The "unknown source" answer. */
  const Unknown: string := "알 수 없는 출처"

  /** The feed item's `source` field: an object with optional `title` and
      `name` strings, a plain string, or anything else. */
  datatype SourceInfo =
    | DictInfo(title: Option<string>, name: Option<string>)
    | StrInfo(text: string)
    | OtherInfo

  /** `_extract_source`. */
  function ExtractSource(info: SourceInfo): string {
    match info
    case DictInfo(title, name) =>
      if title.Some? then title.value else if name.Some? then name.value else Unknown
    case StrInfo(text) => text
    case OtherInfo => Unknown
  }

  /** The field gives "unknown" exactly when it holds no name, or when the
      name it holds is that text itself. */
  lemma ExtractSourceUnknown(info: SourceInfo)
    ensures ExtractSource(info) == Unknown <==>
      || info.OtherInfo?
      || (info.DictInfo? && info.title.None? && (info.name.None? || info.name.value == Unknown))
      || (info.DictInfo? && info.title == Some(Unknown))
      || info == StrInfo(Unknown)
  {
  }

  /** The domain table, in its source order. */
  const DomainTable: seq<(string, string)> := [
    ("news.naver.com", "네이버뉴스"),
    ("news.daum.net", "다음뉴스"),
    ("v.daum.net", "다음뉴스"),
    ("news.google.com", "구글뉴스"),
    ("yna.co.kr", "연합뉴스"),
    ("yonhapnews.co.kr", "연합뉴스"),
    ("chosun.com", "조선일보"),
    ("donga.com", "동아일보"),
    ("joongang.co.kr", "중앙일보"),
    ("hani.co.kr", "한겨레"),
    ("khan.co.kr", "경향신문"),
    ("mt.co.kr", "머니투데이"),
    ("mk.co.kr", "매일경제"),
    ("hankyung.com", "한국경제"),
    ("sbs.co.kr", "SBS"),
    ("kbs.co.kr", "KBS"),
    ("mbc.co.kr", "MBC"),
    ("newspim.com", "뉴스핌"),
    ("news1.kr", "뉴스1"),
    ("pressian.com", "프레시안"),
    ("ohmynews.com", "오마이뉴스"),
    ("sisain.co.kr", "시사IN"),
    ("hankookilbo.com", "한국일보"),
    ("seoul.co.kr", "서울신문"),
    ("munhwa.com", "문화일보"),
    ("dt.co.kr", "디지털타임스"),
    ("etnews.com", "전자신문"),
    ("zdnet.co.kr", "ZDNet Korea")
  ]

  /** The name of key `d` in the table (its first entry; the keys are distinct). */
  function Exact(d: string, table: seq<(string, string)>): Option<string>
    decreases |table|
  {
    if table == [] then None
    else if table[0].0 == d then Some(table[0].1)
    else Exact(d, table[1..])
  }

  /** `known in domain or domain in known`. */
  predicate Overlaps(d: string, known: string) {
    Contains(d, known) || Contains(known, d)
  }

  /** The name of the first entry, in table order, whose key overlaps `d`. */
  function Partial(d: string, table: seq<(string, string)>): Option<string>
    decreases |table|
  {
    if table == [] then None
    else if Overlaps(d, table[0].0) then Some(table[0].1)
    else Partial(d, table[1..])
  }

  /** The words that mark a domain's first label as a news outlet's. */
  const DomainKeywords: seq<string> := ["news", "journal", "daily", "times", "post", "herald"]

  function UpperChar(c: char): (r: char)
    ensures IsLowerLetter(c) ==> IsUpper(r)
    ensures !IsLowerLetter(c) ==> r == c
  {
    if IsLowerLetter(c) then (c as int - 32) as char else c
  }

  /** `str.title()`: a letter after a letter is lower-cased, any other letter
      upper-cased; `prevCased` says whether a letter came just before. */
  function TitleFrom(s: string, prevCased: bool): (r: string)
    ensures |r| == |s|
    decreases |s|
  {
    if s == [] then []
    else
      var c := s[0];
      [if !IsLetter(c) then c else if prevCased then LowerChar(c) else UpperChar(c)]
        + TitleFrom(s[1..], IsLetter(c))
  }

  function Title(s: string): string {
    TitleFrom(s, false)
  }

  /** The first label of the domain without `www.`, when there are at least two. */
  function MainLabel(d: string): Option<string> {
    var parts := SplitOn(Replace(d, "www.", ""), ".");
    if |parts| >= 2 then Some(parts[0]) else None
  }

  /** The link step: exact table match, then the first partial match, then
      the title-cased first label when it holds a news word; the rule for
      labels ending in "news" or "journal" follows as the source has it.
      `None` when the step gives nothing or `urlparse` raises. */
  function LinkSource(link: string): (r: Option<string>)
  {
    match Domain(link)
    case None => None
    case Some(d) =>
      if Exact(d, DomainTable).Some? then Exact(d, DomainTable)
      else if Partial(d, DomainTable).Some? then Partial(d, DomainTable)
      else match MainLabel(d)
        case None => None
        case Some(main) =>
          if AnyIn(main, DomainKeywords) then Some(Title(main))
          else if EndsWith(main, "news") || EndsWith(main, "journal")
          then Some(Title(Replace(Replace(main, "news", "뉴스"), "journal", "저널")))
          else None
  }

  /** `_extract_source_from_title_and_description`. */
  function SourceFromText(title: string, description: string, link: string): string {
    var combined := title + " " + description;
    if TrailingOutlet(title, true).Some? then TrailingOutlet(title, true).value
    else if TrailingOutlet(description, false).Some? then TrailingOutlet(description, false).value
    else if link != [] && LinkSource(link).Some? then LinkSource(link).value
    else if BracketOutletFrom(combined, 0, '(', ')').Some? then BracketOutletFrom(combined, 0, '(', ')').value
    else if BracketOutletFrom(combined, 0, '[', ']').Some? then BracketOutletFrom(combined, 0, '[', ']').value
    else Unknown
  }

  /** The source of a news item: the feed's field, and the text chain when
      that gives "unknown". */
  function ItemSource(info: SourceInfo, title: string, description: string, link: string): (r: string)
    ensures ExtractSource(info) != Unknown ==> r == ExtractSource(info)
    ensures ExtractSource(info) == Unknown ==> r == SourceFromText(title, description, link)
  {
    var s := ExtractSource(info);
    if s == Unknown then SourceFromText(title, description, link) else s
  }

  // ---------------------------------------------------------------------

  /** The partial lookup answers with the first entry in table order whose key
      overlaps the domain, and with nothing when none does. */
  lemma {:induction false} PartialFirst(d: string, table: seq<(string, string)>)
    ensures Partial(d, table).Some? <==> exists k :: 0 <= k < |table| && Overlaps(d, table[k].0)
    ensures Partial(d, table).Some? ==>
      exists k :: 0 <= k < |table| && Overlaps(d, table[k].0) && Partial(d, table) == Some(table[k].1)
        && forall j :: 0 <= j < k ==> !Overlaps(d, table[j].0)
    decreases |table|
  {
    if table != [] && !Overlaps(d, table[0].0) {
      PartialFirst(d, table[1..]);
      if Partial(d, table).Some? {
        var k :| 0 <= k < |table[1..]| && Overlaps(d, table[1..][k].0) && Partial(d, table[1..]) == Some(table[1..][k].1)
          && forall j :: 0 <= j < k ==> !Overlaps(d, table[1..][j].0);
        assert table[k + 1] == table[1..][k];
        forall j | 0 <= j < k + 1
          ensures !Overlaps(d, table[j].0)
        {
          if j > 0 {
            assert table[j] == table[1..][j - 1];
          }
        }
      }
      if exists k :: 0 <= k < |table| && Overlaps(d, table[k].0) {
        var k :| 0 <= k < |table| && Overlaps(d, table[k].0);
        assert k > 0 && table[1..][k - 1] == table[k];
      }
    }
  }

  /** The exact lookup finds a key exactly when it is one of the table's. */
  lemma {:induction false} ExactFinds(d: string, table: seq<(string, string)>)
    ensures Exact(d, table).Some? <==> exists k :: 0 <= k < |table| && table[k].0 == d
    decreases |table|
  {
    if table != [] && table[0].0 != d {
      ExactFinds(d, table[1..]);
      if exists k :: 0 <= k < |table| && table[k].0 == d {
        var k :| 0 <= k < |table| && table[k].0 == d;
        assert table[1..][k - 1] == table[k];
      }
    }
  }

  lemma EmptyKeyAbsent()
    ensures forall k :: 0 <= k < |DomainTable| ==> DomainTable[k].0 != []
  {
  }

  /** A link whose network location is empty (no `//` part) matches the
      first table entry through `domain in known_domain`, so it is
      attributed to 네이버뉴스. */
  lemma EmptyDomainGivesNaverNews(link: string)
    requires Domain(link) == Some([])
    ensures LinkSource(link) == Some("네이버뉴스")
  {
    EmptyKeyAbsent();
    ExactFinds([], DomainTable);
    assert OccursAt(DomainTable[0].0, [], 0);
    assert Overlaps([], DomainTable[0].0);
  }

  /** A label ending in "news" or "journal" already holds a news word, so
      the rule that would translate those endings never applies. */
  lemma KoreanLabelRuleUnreachable(main: string)
    requires EndsWith(main, "news") || EndsWith(main, "journal")
    ensures AnyIn(main, DomainKeywords)
  {
    if EndsWith(main, "news") {
      assert OccursAt(main, "news", |main| - 4);
      assert "news" in DomainKeywords;
    } else {
      assert OccursAt(main, "journal", |main| - 7);
      assert "journal" in DomainKeywords;
    }
  }

  /** Title-casing changes only the case of letters. */
  lemma {:induction false} TitleKeepsLetters(s: string, prevCased: bool)
    ensures Lower(TitleFrom(s, prevCased)) == Lower(s)
    decreases |s|
  {
    if s != [] {
      TitleKeepsLetters(s[1..], IsLetter(s[0]));
      LowerConcat([TitleFrom(s, prevCased)[0]], TitleFrom(s[1..], IsLetter(s[0])));
      LowerConcat([s[0]], s[1..]);
      assert s == [s[0]] + s[1..];
    }
  }

  /** After title-casing, a letter is upper case exactly when it does not
      follow another letter. */
  lemma {:induction false} TitleCase(s: string, i: nat)
    requires i < |s| && IsLetter(s[i])
    ensures IsUpper(Title(s)[i]) <==> (i == 0 || !IsLetter(s[i - 1]))
  {
    TitleCaseFrom(s, false, i);
  }

  lemma {:induction false} TitleCaseFrom(s: string, prevCased: bool, i: nat)
    requires i < |s| && IsLetter(s[i])
    ensures IsUpper(TitleFrom(s, prevCased)[i]) <==> (if i == 0 then !prevCased else !IsLetter(s[i - 1]))
    decreases i
  {
    if i > 0 {
      TitleCaseFrom(s[1..], IsLetter(s[0]), i - 1);
      assert TitleFrom(s, prevCased)[i] == TitleFrom(s[1..], IsLetter(s[0]))[i - 1];
      if i > 1 {
        assert s[1..][i - 2] == s[i - 1];
      }
    }
  }

  /** The text chain always names something. */
  lemma SourceFromTextNonEmpty(title: string, description: string, link: string)
    ensures SourceFromText(title, description, link) != []
  {
    var combined := title + " " + description;
    if TrailingOutlet(title, true).None? && TrailingOutlet(description, false).None? {
      if link != [] && LinkSource(link).Some? {
        LinkSourceNonEmpty(link);
      } else if BracketOutletFrom(combined, 0, '(', ')').Some? {
        OutletNameNonEmpty(BracketOutletFrom(combined, 0, '(', ')').value, BracketSuffixes);
      } else if BracketOutletFrom(combined, 0, '[', ']').Some? {
        OutletNameNonEmpty(BracketOutletFrom(combined, 0, '[', ']').value, BracketSuffixes);
      }
    } else if TrailingOutlet(title, true).Some? {
      OutletNameNonEmpty(TrailingOutlet(title, true).value, OutletSuffixes);
    } else {
      OutletNameNonEmpty(TrailingOutlet(description, false).value, OutletSuffixes);
    }
  }

  lemma {:induction false} OutletNameNonEmpty(name: string, suffixes: seq<string>)
    requires OutletName(name, suffixes)
    ensures name != []
    decreases |suffixes|
  {
    if !(|suffixes[0]| < |name|) {
      OutletNameNonEmpty(name, suffixes[1..]);
    }
  }

  lemma LinkSourceNonEmpty(link: string)
    requires LinkSource(link).Some?
    ensures LinkSource(link).value != []
  {
    var d := Domain(link).value;
    TableSourceNonEmpty(d);
    if Exact(d, DomainTable).None? && Partial(d, DomainTable).None? {
      LabelSourceNonEmpty(MainLabel(d).value);
    }
  }

  /** A name the domain table gives is never empty. */
  lemma TableSourceNonEmpty(d: string)
    ensures Exact(d, DomainTable).Some? ==> Exact(d, DomainTable).value != []
    ensures Partial(d, DomainTable).Some? ==> Partial(d, DomainTable).value != []
  {
    TableNamesNonEmpty();
    if Exact(d, DomainTable).Some? {
      ExactName(d, DomainTable);
    }
    PartialFirst(d, DomainTable);
  }

  /** A label the link step names holds a news word, so it is not empty. */
  lemma LabelSourceNonEmpty(main: string)
    requires AnyIn(main, DomainKeywords) || EndsWith(main, "news") || EndsWith(main, "journal")
    ensures AnyIn(main, DomainKeywords) && main != []
  {
    if !AnyIn(main, DomainKeywords) {
      KoreanLabelRuleUnreachable(main);
    }
    var k :| k in DomainKeywords && Contains(main, k);
  }

  lemma TableNamesNonEmpty()
    ensures forall k :: 0 <= k < |DomainTable| ==> DomainTable[k].1 != []
  {
  }

  lemma {:induction false} ExactName(d: string, table: seq<(string, string)>)
    requires Exact(d, table).Some?
    ensures exists k :: 0 <= k < |table| && Exact(d, table) == Some(table[k].1)
    decreases |table|
  {
    if table[0].0 != d {
      ExactName(d, table[1..]);
      var k :| 0 <= k < |table[1..]| && Exact(d, table[1..]) == Some(table[1..][k].1);
      assert table[1..][k] == table[k + 1];
    }
  }
}
