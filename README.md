# News, blog and weather digests — a Dafny model

The repository builds short Korean-language digests for a keyword. The news
module and the blog module each ask a feed service for items. They then walk
the items in feed order and skip:

- items with an empty title;
- items whose normalised title is more than half similar (Jaccard over
  whitespace tokens) to a title already accepted;
- items that match the ad-keyword list;
- dated items older than `now - hours_back`.

The walk stops once `max_results` records are held. Each accepted item becomes
a display record: its title, a summary, a source label, its link and its
displayed date. The records are sorted newest first, with undated ones keyed
as `datetime.min`, and cut to `max_results`. Any failure returns one fallback
record naming the keyword. Text and HTML formatters render the list. The
weather module maps WMO weather codes to descriptions, attaches an address to
the reading of a coordinate lookup, and formats the reading.

The project models all of this on Dafny values. Strings are `seq<char>`. The
regular expressions become small recognisers. The feed reply, the fetched
page text, the news fallback's probe and the clock are a `World` value
passed in.

- Where the source works by mutation, the model does too: the item loop, the
  sentence loop of the summariser, the date-format loop, the similarity scan,
  the description cleaner and the formatters' `result +=` loops. Each of these
  is a method, proved equal to a specification function.
- Lemmas then prove what the source promises about those functions.
- News and blog differ only in their lists, placeholders and source rules.
  They share one definition, parameterised by `Kinds.Kind`.

Files, one module each (`text.dfy` also holds `Options` and `Kinds`):

| file | module | models |
|---|---|---|
| text.dfy | Text | `str` operations: strip, split, lower, join, find, replace |
| patterns.dfy | Patterns | the regular expressions of the cleaner and the source chain |
| similarity.dfy | Similarity | `_normalize_title`, `_calculate_similarity`, `_is_similar_title` |
| adfilter.dfy | AdFilter | `_is_ad_or_promotional` |
| dates.dfy | Dates | `_parse_pub_date`, datetime order, `strftime` display |
| describe.dfy | Describe | `_clean_description` |
| urls.dfy | Urls | the part of `urlparse` the source chain reads |
| newssource.dfy | NewsSource | `_extract_source`, `_extract_source_from_title_and_description` |
| blogsource.dfy | BlogSource | `_extract_blog_source` |
| sorting.dfy | Sorting | `list.sort(key=…, reverse=True)`, stable |
| summary.dfy | Summary | `_generate_summary` |
| pipeline.dfy | Pipeline | `search_news_by_keyword`, `search_blogs_by_keyword`, both fallbacks |
| formatting.dfy | Formatting | `format_news_info_*`, `format_blog_info_*` |
| weather.dfy | Weather | `get_weather_description`, `get_weather_by_address`, `format_weather_info_*` |
| scenarios.dfy | Scenarios | concrete answers of the similarity helpers that the repository's unit tests expect |
| scenarios.dfy | DateScenarios | concrete dates that the repository's unit tests parse |

## Model

| member | source | states |
|---|---|---|
| Text.Lower | module/news_utils.py:244 | lower-casing keeps the length and maps every character through the one-character lower-case map |
| Text.LowerConcat | module/news_utils.py:282 | lower-casing distributes over concatenation, so `(title + " " + description).lower()` is the two lowered halves around a blank |
| Text.Strip | module/news_utils.py:244 | the stripped text is no longer than the input and neither starts nor ends with whitespace |
| Text.Collapse | module/news_utils.py:244 | `re.sub(r"\s+", " ", s)` never lengthens the text; the canonical shape it leads to is stated by `Similarity.NormalizeTitleCanonical` |
| Text.LStrip | module/news_utils.py:244 | the result is a suffix of the input, starting with a non-blank, after a run that is all whitespace |
| Text.RStrip | module/news_utils.py:244 | the result is a prefix of the input, ending with a non-blank, before a run that is all whitespace |
| Text.StripUnchanged | module/news_utils.py:244 | text with no blank at either end strips to itself |
| Text.WordsCollapse | module/news_utils.py:244 | collapsing blank runs leaves the words unchanged |
| Text.WordsStrip | module/news_utils.py:244 | stripping leaves the words unchanged |
| Text.LowerAll | module/news_utils.py:244 | each word lower-cased, in order |
| Text.WordsLower | module/news_utils.py:244 | the words of the lower-cased text are the lower-cased words |
| Text.Words | module/news_utils.py:259-260 | `str.split()` yields only non-empty tokens without whitespace |
| Text.WordsOfJoin | module/news_utils.py:259-260 | splitting tokens joined by single blanks gives the tokens back (round trip of `split` and `" ".join`) |
| Text.WordsCons | module/news_utils.py:259-260 | a token, a blank and text that starts with a non-blank split into that token followed by the rest's tokens |
| Text.SplitOn | module/blog_utils.py:404 | `str.split(sep)` always yields at least one part |
| Text.SplitOnFirst | module/blog_utils.py:404 | the first part is the text before the first occurrence of the separator, or the whole text when there is none |
| Text.SplitWhere | module/news_utils.py:686 | `re.split(r"[.!?]")` yields at least one part, and no part contains a terminator |
| Text.Separators | module/news_utils.py:686 | the separators of a text are its terminator characters, in order |
| Text.SplitWhereWeave | module/news_utils.py:686 | there is one part more than there are terminators, and the parts with the terminators put back between them give the text again |
| Text.WeaveSplitWhere | module/news_utils.py:686 | splitting parts without terminators that are joined by terminators gives back exactly those parts and those terminators |
| Text.Take | module/blog_utils.py:372 | a slice `s[:n]` has length `min(n, len(s))` (zero for `n <= 0`) and agrees with `s` on it |
| Text.Slice | module/news_utils.py:115 | `items[:max_results]` is a prefix of the list, no longer than `max_results` when that is non-negative |
| Text.RunEnd | module/news_utils.py:335 | the end of a maximal run of characters with a property: all inside have it, the next one does not |
| Text.RunStart | module/news_utils.py:339-343 | the start of a maximal run ending at `j`: all inside have the property, the one before does not |
| Text.ContainsSplit | module/news_utils.py:282 | a keyword without the blank that occurs in `a + " " + b` occurs in `a` or in `b` |
| Text.NatToString | module/news_utils.py:796 | `str(i)` is a non-empty string of digits, with one or two digits exactly below 10 or 100 |
| Text.DigitsValueOfNatToString | module/news_utils.py:796 | reading back the digits of `str(n)` gives `n` |
| Text.DigitsValueOfPad2 | module/news_utils.py:94-96 | reading back a zero-padded `%02d` field gives the number |
| Text.ReplaceSkip | module/blog_utils.py:398-400 | `replace` leaves alone a prefix that cannot start the pattern |
| Similarity.KeepWordsAndSpaces | module/news_utils.py:243 | removing every character that is neither a word character nor whitespace leaves only such characters |
| Similarity.KeepChar | module/news_utils.py:243 | one character is kept exactly when it is a word character, whitespace or Hangul, and dropped otherwise |
| Similarity.KeepConcat | module/news_utils.py:243 | the filter of a concatenation is the concatenation of the filters |
| Similarity.NormalizeTitle | module/news_utils.py:230-245 | `_normalize_title` as the composition of the four steps; what it yields is stated by `NormalizeTitleCanonical`, `NormalizeTitleIdempotent` and `CanonicalFixed` |
| Similarity.NormalizeTitleCanonical | module/news_utils.py:230-245 | a normalised title holds only word characters and single blanks, is lower-case, and has no blank at either end |
| Similarity.NormalizeTitleIdempotent | module/news_utils.py:230-245 | normalising twice is normalising once |
| Similarity.NormalizeTitleWords | module/news_utils.py:243-244 | the words of a normalised title are the lower-cased words of the filtered title: collapsing and stripping move no word boundary |
| Similarity.NormalizeBreakingNews | tests/test_news_utils.py:36-38 | `"[속보] 화성시 동탄 신도시 개발"` normalises to `"속보 화성시 동탄 신도시 개발"` |
| Similarity.Jaccard | module/news_utils.py:248-268 | the similarity is a ratio in [0, 1] with positive denominator |
| Similarity.JaccardValue | module/news_utils.py:248-268 | the similarity is 1 when both token sets are empty, and otherwise the size of their intersection over the size of their union |
| Similarity.SimilaritySymmetric | module/news_utils.py:248-268 | the similarity of `a` and `b` equals that of `b` and `a` |
| Similarity.SimilarityOneIff | module/news_utils.py:248-268 | the similarity is 1 exactly when the two token sets are equal, the empty pair included |
| Similarity.SimilarityZeroIff | module/news_utils.py:248-268 | the similarity is 0 exactly when the token sets are disjoint and not both empty |
| Similarity.ScanSeen | module/news_utils.py:221-227 | the early-return loop over the seen titles answers true exactly when some seen title passes the test |
| Similarity.IsSimilarTitle | module/news_utils.py:209-227 | a title is similar exactly when some seen normalised title is more than half similar to its normalisation |
| Similarity.EmptySeenNeverDuplicate | module/news_utils.py:209-227 | with no titles seen, no title is a duplicate |
| Similarity.CanonicalFixed | module/news_utils.py:230-245 | a title already lower-case, single-spaced and made only of word characters is left unchanged by normalisation |
| Scenarios.WordSetOfThree | module/news_utils.py:258-259 | three word tokens joined by single blanks split back into exactly those three tokens |
| Scenarios.SharedTwoOfThree | module/news_utils.py:248-268 | two three-word titles with distinct words that share their first two words have similarity 2/4 |
| Scenarios.HalfSharedIsNotDuplicate | tests/test_blog_utils.py:84-91 | "파이썬 프로그래밍 기초" and "파이썬 프로그래밍 고급" have similarity exactly 0.5 (at least 0.5, as the test expects) and are therefore not more than half similar |
| Scenarios.WordSetOfFour | module/news_utils.py:258-259 | four blank-separated tokens give the set of the four |
| Scenarios.ExtendedByOne | module/news_utils.py:248-268 | a three-word title and the same title with a fourth word score 3/4 |
| Scenarios.LastWordReplaced | module/news_utils.py:248-268 | two four-word titles that differ only in the last word score 3/5 |
| Scenarios.CloseCanonicalIsDuplicate | module/news_utils.py:209-227 | a title that is already normalised and is close to a seen title is a duplicate |
| Scenarios.ExtendedTitleIsDuplicate | tests/test_blog_utils.py:61-67 | "파이썬 프로그래밍 기초 강좌" against "파이썬 프로그래밍 기초" scores 3/4 and is a duplicate |
| Scenarios.ReplacedWordIsDuplicate | tests/test_news_utils.py:62-69 | "화성시 동탄 신도시 확장" against "화성시 동탄 신도시 개발" scores 3/5 and is a duplicate of the seen set of the test |
| AdFilter.AdContent | module/news_utils.py:282 | the text searched is the lowered title, a blank and the lowered description |
| AdFilter.IsAd | module/news_utils.py:271-313 | `_is_ad_or_promotional` as a keyword search over the lowered text; `AdSplit`, `KeywordMakesAd` and the monotonicity lemmas state what it decides |
| AdFilter.AdSplit | module/news_utils.py:271-313 | an item is an ad exactly when a keyword occurs in its lowered title or in its lowered description, never only across the blank |
| AdFilter.KeywordsHaveNoSpace | module/news_utils.py:285-311 | no ad keyword contains a blank |
| AdFilter.KeywordsAreLower | module/news_utils.py:285-311 | every ad keyword is already lower-case, so matching against lowered text is sound |
| AdFilter.AdMonotoneTitle | module/news_utils.py:271-313 | appending text to the title of an ad keeps it an ad |
| AdFilter.AdMonotoneDescription | module/news_utils.py:271-313 | appending text to the description of an ad keeps it an ad |
| AdFilter.KeywordMakesAd | module/news_utils.py:271-313 | a title containing any listed keyword makes the item an ad, whatever the description |
| AdFilter.AnyInExtend | module/news_utils.py:313 | a keyword found in a text is still found after more text is appended |
| Patterns.SubAll | module/news_utils.py:332 | `re.sub(pattern, "", s)` never lengthens the text |
| Patterns.SubAllNoMatch | module/news_utils.py:332 | a text in which the pattern matches at no position comes back unchanged |
| Patterns.SubAllFirst | module/news_utils.py:332 | the text before the first match is kept, the first match is removed, and the substitution carries on after it |
| Patterns.TagAt | module/news_utils.py:332 | `<[^>]+>` matches at the start exactly when the text opens with `<`, the next character is not `>` and a `>` follows later; the match then runs to the first `>` |
| Patterns.UrlAt | module/news_utils.py:346 | `https?://[^\s]+` matches exactly when the text starts with `https://` or `http://` followed by a non-blank, and the match runs to the first blank or the end |
| Patterns.WwwAt | module/news_utils.py:347 | `www\.[^\s]+` matches exactly when the text starts with `www.` followed by a non-blank, and the match runs to the first blank or the end |
| Patterns.TldAt | module/news_utils.py:348 | the alternatives of `(com\|net\|co\.kr\|org)\b` are tried in order: the answer is 0 exactly when none fits |
| Patterns.TldAtFirstFit | module/news_utils.py:348 | a non-zero answer is the length of the first alternative that occurs there and is followed by a word boundary |
| Patterns.HostDotFrom | module/news_utils.py:348 | backing off the greedy host run finds the last dot, from index 1 on, that is followed by a fitting alternative, and ends the match after that alternative |
| Patterns.DomainAt | module/news_utils.py:348 | the bare-domain pattern matches exactly when a non-empty run of host characters is followed by a dot and a fitting alternative; the match ends after the alternative that follows the last such dot |
| Patterns.LetterTldFrom | module/news_utils.py:351 | backing off the greedy host run finds the last dot followed by at least two ASCII letters and takes all those letters |
| Patterns.VHostAt | module/news_utils.py:351 | the `v.` host pattern matches exactly when the text starts with `v.`, then a non-empty host run, a dot and two ASCII letters; the match takes every letter after the last such dot |
| Patterns.DashTailStart | module/news_utils.py:339-343 | a found "- outlet" tail starts with its blanks and a dash inside the text; that it is the leftmost match, and that `None` means no match, is stated by `Patterns.DashTailStartFinds` |
| Patterns.DashTailRemoved | module/news_utils.py:339-343 | removing the tail leaves a prefix of the text; where it cuts is stated by `Patterns.DashTailRemovedCuts` |
| Patterns.DashTailStartFinds | module/news_utils.py:339-343 | `None` exactly when no ending gives a match anywhere; otherwise the start is a match of the first ending that matches, and no match of that ending starts earlier |
| Patterns.DashTailRemovedCuts | module/news_utils.py:339-343 | the text is unchanged exactly when the pattern matches nowhere; otherwise the kept prefix ends where the leftmost match of the winning ending starts |
| Patterns.TrailingOutlet | module/news_utils.py:410-423 | a trailing outlet name is a run of Hangul, ASCII letters and digits ending in a listed outlet suffix; `Patterns.TrailingOutletFinds` states which match is taken |
| Patterns.TrailingOutletFinds | module/news_utils.py:410-423 | `None` exactly when no group of the pattern fits anywhere; otherwise the name is a fitting group and no fitting group starts earlier |
| Patterns.BracketOutletFrom | module/news_utils.py:503-517 | a bracketed outlet name ends in one of the bracket suffixes; `Patterns.BracketOutletFinds` states which match is taken |
| Patterns.BracketOutletFinds | module/news_utils.py:503-517 | `None` exactly when no bracket group matches at or after the start; otherwise the name is the inside of a matching group and no group matches further left |
| Patterns.BlogBracketFrom | module/blog_utils.py:437-442 | a bracketed blog name is longer than "블로그" and ends with it; `Patterns.BlogBracketFinds` states which match is taken |
| Patterns.BlogBracketFinds | module/blog_utils.py:437-442 | `None` exactly when `\(([가-힣A-Za-z0-9]+\s*블로그)\)` matches nowhere from the start; otherwise the group is the inside of a match and no match starts further left |
| Patterns.HangulWords | module/news_utils.py:690 | `re.findall(r"[가-힣]{2,}")` yields runs of two or more Hangul syllables; `Patterns.HangulWordsRuns` states the converse |
| Patterns.HangulWordsRuns | module/news_utils.py:690 | a word is found exactly when it is a maximal run of two or more Hangul syllables |
| Describe.RemoveLinks | module/news_utils.py:346-351 | removing URLs, `www.` hosts, bare domains and `v.` hosts never lengthens the text |
| Describe.RemoveLinksUnchanged | module/news_utils.py:346-351 | text in which none of the link patterns of the module matches anywhere is kept as it is |
| Describe.LinkMark | module/news_utils.py:346-351 | every match of a link pattern holds a `.` or a `:` |
| Describe.PlainTextKept | module/news_utils.py:346-351 | text with neither a `.` nor a `:` passes the link removal unchanged |
| Describe.Shorten | module/news_utils.py:362-370 | the cap never returns more than 150 characters |
| Describe.ShortenCases | module/news_utils.py:362-370 | text of at most 150 characters is kept; longer text becomes its first 147 characters and "...", or its text up to the first ". " and a period |
| Describe.CleanDescription | module/news_utils.py:316-372 | `_clean_description` as the chain of substitutions and the cap; `CleanEmpty`, `CleanShort` and `CleanBounded` state its results |
| Describe.Clean | module/news_utils.py:316-372 | the step-by-step cleaner computes the cleaned description |
| Describe.CleanEmpty | module/news_utils.py:328-329 | an empty description gives "요약 정보 없음" |
| Describe.CleanShort | module/news_utils.py:355-356 | text under 20 characters after tag, blank, tail and link removal gives the "see the body" placeholder of the module |
| Describe.CleanBounded | module/news_utils.py:316-372 | the cleaned description is never empty and never longer than 150 characters |
| Urls.RemoveUnsafe | module/news_utils.py:430 | `urlparse` drops tab, CR and LF: a character is in the result exactly when it is in the URL and is not one of those three, and a URL without them is unchanged |
| Urls.RemoveUnsafeConcat | module/news_utils.py:430 | the removal works piece by piece, so the kept characters stay in their order |
| Urls.StripParams | module/news_utils.py:430 | dropping the `;params` leaves a prefix of the path; where it cuts is stated by `Urls.StripParamsCut` |
| Urls.StripParamsCut | module/news_utils.py:430 | the cut is at a `;` or at the end, no `/` follows it, and with a scheme that uses parameters every earlier `;` has a `/` after it: the cut is the first `;` after the last `/`; otherwise, or without a `;`, nothing is cut |
| Urls.UrlParse | module/news_utils.py:430 | `urlparse` as scheme, network location and path, `None` for unbalanced brackets; `ParseHttps` states its answer on an `https` link |
| Urls.Domain | module/news_utils.py:430-431 | `urlparse(link).netloc.lower()`; `BlogSource.HttpsDomain` states its answer on an `https` link |
| Urls.ParseHttps | module/news_utils.py:430-431 | an `https://host/path` link parses to scheme `https`, network location `host` and path `/path` |
| NewsSource.ExtractSourceUnknown | module/news_utils.py:375-390 | the source reads "알 수 없는 출처" exactly when it is neither a string nor a dict with a title or a known name, or when it spells that label |
| NewsSource.ExtractSource | module/news_utils.py:375-390 | `_extract_source` over the three kinds of source value; `ExtractSourceUnknown` states when it gives the unknown label |
| NewsSource.ItemSource | module/news_utils.py:76-80 | a structured source other than the unknown label is used as is, and the unknown label sends the item to the title, description and link chain |
| NewsSource.ExactFinds | module/news_utils.py:466-467 | the exact lookup finds a name exactly when the domain is a key of the table |
| NewsSource.ExactName | module/news_utils.py:466-467 | a found exact name is the name of some table entry |
| NewsSource.PartialFirst | module/news_utils.py:470-472 | the partial lookup succeeds exactly when some table key overlaps the domain, and returns the first such entry in table order |
| NewsSource.EmptyDomainGivesNaverNews | module/news_utils.py:466-472 | a link with an empty network location is attributed to "네이버뉴스", the first table key, since "" is in every key |
| NewsSource.KoreanLabelRuleUnreachable | module/news_utils.py:479-497 | every label ending in "news" or "journal" already contains a listed keyword, so the Korean-label rule never fires |
| NewsSource.TitleKeepsLetters | module/news_utils.py:490 | `str.title()` changes only letter case |
| NewsSource.TitleCase | module/news_utils.py:490 | after `str.title()` a letter is upper-case exactly when it starts a run of letters |
| NewsSource.Title | module/news_utils.py:490 | `str.title()` on ASCII letters; `TitleKeepsLetters` and `TitleCase` state what it changes |
| NewsSource.TableSourceNonEmpty | module/news_utils.py:434-472 | a name found in the domain table is never empty |
| NewsSource.LinkSource | module/news_utils.py:426-497 | the link step of the chain; `LinkSourceNonEmpty` and the table lemmas state its answers |
| NewsSource.LinkSourceNonEmpty | module/news_utils.py:426-497 | a name the link step returns is never empty |
| NewsSource.SourceFromTextNonEmpty | module/news_utils.py:393-519 | the title, description and link chain always names some source |
| NewsSource.SourceFromText | module/news_utils.py:393-519 | the title, description, link and bracket steps in source order; `SourceFromTextNonEmpty` states that some source is always named |
| BlogSource.FirstMark | module/blog_utils.py:369 | the first position from which a platform marker matches, with no marker starting earlier |
| BlogSource.SplitHead | module/blog_utils.py:369-371 | `re.split(marker, title)[0]` is a prefix of the title |
| BlogSource.SplitHeadIsBeforeFirstMark | module/blog_utils.py:369-380 | the head is the whole title when no marker occurs, and otherwise ends before the first marker |
| BlogSource.TitleSource | module/blog_utils.py:364-389 | a platform named in the title always gives a non-empty label |
| BlogSource.HostSource | module/blog_utils.py:392-431 | a platform recognised from the host always gives a non-empty label |
| BlogSource.LinkSource | module/blog_utils.py:392-431 | a platform label found from the link is never empty |
| BlogSource.TitleMarkersFirst | module/blog_utils.py:364-389 | a title that names a platform decides the source, whatever the link and description |
| BlogSource.NaverTitleShape | module/blog_utils.py:367-373 | a title naming "네이버 블로그" gives the stripped head before the first ": 네이버 블로그" mark (colon, blanks allowed) cut to 30 characters, followed by "... (네이버 블로그)" (even when the head is shorter), or "네이버 블로그" alone for an empty head |
| BlogSource.TistoryTitleShape | module/blog_utils.py:375-380 | without "네이버 블로그" but with "티스토리", the title gives its head before `\s*-\s*티스토리`, stripped and cut to 30 characters, with "... (티스토리)", or "티스토리" when that head is empty |
| BlogSource.BrunchTitle | module/blog_utils.py:382-384 | without the two earlier markers, "브런치" or "brunch" in any case gives "브런치" |
| BlogSource.NaverWordTitle | module/blog_utils.py:386-388 | without the earlier markers, "NAVER" or "naver" in any case gives "네이버 블로그" |
| BlogSource.LinkDecides | module/blog_utils.py:392-431 | for any title that names no platform and any description, a link that names a platform decides the source |
| BlogSource.HttpsDomain | module/blog_utils.py:392-395 | the link step reads the lowered network location and the path of an `https` link |
| BlogSource.TistoryHost | module/blog_utils.py:398-400 | host `name.tistory.com` gives "name (티스토리)" |
| BlogSource.TistoryLink | module/blog_utils.py:398-400 | the link `https://name.tistory.com/…` with any title that names no platform gives "name (티스토리)" |
| BlogSource.NaverBlogHost | module/blog_utils.py:403-408 | host `blog.naver.com` with path `/id/…` gives "id (네이버 블로그)" |
| BlogSource.NaverBlogLink | module/blog_utils.py:403-408 | the link `https://blog.naver.com/id/…` with any title that names no platform gives "id (네이버 블로그)" |
| BlogSource.BrunchHost | module/blog_utils.py:411-416 | host `brunch.co.kr` with path `/@id/…` gives "@id (브런치)" |
| BlogSource.BrunchLink | module/blog_utils.py:411-416 | the link `https://brunch.co.kr/@id/…` with any title that names no platform gives "@id (브런치)" |
| BlogSource.MediumHost | module/blog_utils.py:418-423 | on medium.com a first path segment starting with `@` is the author: "@id (미디엄)" |
| BlogSource.BlogWordHost | module/blog_utils.py:425-431 | a host of no listed platform that holds one of the blog words gives the host without "www." and " (블로그)" |
| BlogSource.NothingGivesGeneric | module/blog_utils.py:436-444 | no title, no link and no bracket in the description give "블로그" |
| BlogSource.BlogSourceNonEmpty | module/blog_utils.py:349-444 | the blog source label is never empty |
| BlogSource.BlogSourceOf | module/blog_utils.py:349-444 | `_extract_blog_source` as the title, link and bracket steps in order; `TitleMarkersFirst`, `LinkDecides`, `NothingGivesGeneric` and `BlogSourceNonEmpty` state its answers |
| Dates.DaysInMonth | module/news_utils.py:180-186 | every month has between 28 and 31 days |
| Dates.Field | module/news_utils.py:180-186 | a numeric field read within bounds advances past at least one digit |
| Dates.Build | module/news_utils.py:188-192 | a date built from parsed fields is a valid calendar date and time |
| Dates.ParseRss | module/news_utils.py:181-182 | the RSS formats give a valid date, timezone-aware exactly for the `%z` variant |
| Dates.ParseIsoT | module/news_utils.py:183 | the ISO format with offset gives a valid aware date |
| Dates.ParseStamp | module/news_utils.py:184 | `%Y-%m-%d %H:%M:%S` gives a valid naive date |
| Dates.ParseDay | module/news_utils.py:185 | `%Y-%m-%d` gives a valid naive date |
| Dates.ParseFormat | module/news_utils.py:180-186 | each listed format gives a valid date, aware exactly for the second and third |
| Dates.FirstFormat | module/news_utils.py:188-192 | the first of the listed formats that reads the stripped text; `FirstFormatWins` states its answer |
| Dates.KoreanDate | module/news_utils.py:194-204 | the "Y년 M월 D일" search gives a valid naive date or nothing |
| DateScenarios.RssDateExample | tests/test_news_utils.py:131-137 | "Mon, 14 Oct 2024 10:30:00 GMT" is 14 October 2024, 10:30:00, without an offset |
| DateScenarios.IsoTDateExample | tests/test_news_utils.py:139-143 | "2024-10-14T10:30:00+09:00" is 14 October 2024, 10:30:00, 32400 seconds east of UTC |
| DateScenarios.KoreanDateExample | module/news_utils.py:194-204 | "2024년 10월 14일" fits none of the five formats and is read by the Korean pattern as 14 October 2024, midnight, without an offset |
| Dates.ParsePubDate | module/news_utils.py:166-206 | the format loop with early return computes the parsed date |
| Dates.PubDateValid | module/news_utils.py:166-206 | any parsed date is a valid calendar date and time |
| Dates.PubDate | module/news_utils.py:166-206 | `_parse_pub_date` as the format list and then the Korean date search; `PubDateValid`, `PubDateEmpty`, `PubDateAware` and the round-trip lemmas state its answers |
| Dates.PubDateEmpty | module/news_utils.py:176-177 | the empty string parses to nothing |
| Dates.FirstFormatWins | module/news_utils.py:188-192 | the result is that of the first format in list order that matches the stripped text |
| Dates.PubDateAware | module/news_utils.py:166-206 | an aware result comes from one of the two offset formats |
| Dates.RssNeedsName | module/news_utils.py:181-182 | text starting with a digit never matches the RSS formats, which need a day name |
| Dates.IsoDayRoundTrip | module/news_utils.py:185 | reading `%Y-%m-%d` back from a displayed day gives its fields |
| Dates.DayTextParses | module/news_utils.py:185 | a `%Y-%m-%d` day text parses to that day at midnight |
| Dates.StampTextParses | module/news_utils.py:184 | a `%Y-%m-%d %H:%M:%S` text parses back to the same date and time |
| Dates.StampReadsBack | module/news_utils.py:184 | the stamp format alone reads such a text back exactly |
| Dates.YearsOrdered | module/news_utils.py:68 | an earlier year ends no later than a later year begins |
| Dates.MonthsOrdered | module/news_utils.py:68 | an earlier month ends no later than a later month of the same year begins |
| Dates.OrdinalOrdered | module/news_utils.py:68 | an earlier calendar day has a smaller day number |
| Dates.SecondsOrder | module/news_utils.py:68 | comparing second counts is comparing the dates, and equal counts mean equal dates |
| Dates.SecondsNonNegative | module/news_utils.py:108 | no valid date precedes `datetime.min` |
| Dates.Display | module/news_utils.py:94-96 | the `%Y-%m-%d %H:%M` display is twelve characters longer than the year and is the `%Y-%m-%d %H:%M:%S` stamp without its last `:%S` |
| Dates.DisplayReadsBack | module/news_utils.py:94-96 | the displayed time of a four-digit year reads back as the year, month, day, hour and minute |
| Sorting.SortDesc | module/news_utils.py:107-109 | the stable descending sort keeps the length; `SortDescSorted`, `SortDescPermutation` and `SortDescStable` state the rest |
| Sorting.SortDescSorted | module/news_utils.py:107-109 | the sort orders by descending key |
| Sorting.SortDescPermutation | module/news_utils.py:107-109 | the sort is a permutation of its input |
| Sorting.SortDescStable | module/news_utils.py:107-109 | items of equal key keep their relative order |
| Sorting.SortDescPairwise | module/news_utils.py:107-109 | a relation that holds between every two items still holds after sorting |
| Sorting.SortDescMembers | module/news_utils.py:107-109 | every sorted item is an item of the input |
| Sorting.SortDescHas | module/news_utils.py:107-109 | every input item is still present after sorting |
| Summary.Filter | module/news_utils.py:696-707 | the sentence filter of each module keeps exactly its meaningful sentences |
| Summary.Relevance | module/news_utils.py:709-710 | a sentence's score is at most the number of Hangul words of the title; `Summary.RelevanceShared` states when it is positive |
| Summary.RelevanceShared | module/news_utils.py:709-710 | the score is positive exactly when a maximal Hangul run of two or more syllables in the title also stands as a maximal run in the sentence |
| Summary.RelevanceSymmetric | module/news_utils.py:709-710 | the score does not depend on which text is the title, is at most the word count of either, and a title scored against itself counts all its words |
| Summary.TitleCoreCuts | module/news_utils.py:759-761 | the title is unchanged exactly when no "- outlet" tail matches; otherwise it is cut where the leftmost match starts |
| Summary.CollectSentences | module/news_utils.py:692-712 | the sentence loop gathers exactly the scored candidates |
| Summary.GatherMembers | module/news_utils.py:692-712 | a scored sentence is a candidate exactly when it is a stripped part, passes the filter and carries its score |
| Summary.CandidatesMembers | module/news_utils.py:692-712 | the same membership fact for the filter of each module |
| Summary.RankedHeadBest | module/news_utils.py:716 | the first ranked sentence has the highest score of all candidates |
| Summary.PickStarts | module/news_utils.py:719-731 | the summary begins with the first ranked sentence, or with the second when more than two were kept |
| Summary.TopCandidateLeads | module/news_utils.py:684-738 | the content summary begins with a best-scored sentence, or with the second-ranked one in the retry |
| Summary.Finish | module/news_utils.py:733-736 | the finished summary is non-empty, ends with a period, keeps a summary of at most 150 characters as its prefix, and cuts a longer one to 147 characters and "..." |
| Summary.ContentSummary | module/news_utils.py:684-738 | the content branch answers exactly when the stripped content is over 50 characters and some sentence is kept, and its answer ends with a period within 151 characters |
| Summary.SummarizeContent | module/news_utils.py:684-738 | the loop-and-sort content branch computes the content summary |
| Summary.DescriptionSummary | module/news_utils.py:741-753 | the description branch returns the cleaned description, never empty and never a placeholder |
| Summary.TitleSummary | module/news_utils.py:756-770 | the title fallback is never empty |
| Summary.GenerateSummary | module/news_utils.py:669-770 | the summary is never empty |
| Summary.Summarize | module/news_utils.py:669-770 | the step-by-step summariser computes the summary |
| Summary.ShortContentIgnored | module/news_utils.py:684 | content of at most 50 stripped characters is ignored |
| Summary.DescriptionUsed | module/news_utils.py:741-753 | without a content summary, a cleaned description that is no placeholder and under 0.8 similar to the title is the summary |
| Summary.DescriptionLikeTitleRejected | module/news_utils.py:744-752 | a cleaned description that normalises to the title is never used |
| Summary.BlogWithoutText | module/blog_utils.py:646-659 | a blog item without usable content or description gets "블로그 본문에서 상세 내용을 확인하세요." |
| Summary.NewsEventTitle | module/news_utils.py:759-764 | a news title about an event ("개최") gives the event template |
| Summary.NewsPlanTitle | module/news_utils.py:765-768 | a news title about a plan ("계획") and no event gives the plan template |
| Pipeline.Examine | module/news_utils.py:56-101 | the decision for one item; `ExamineAccepted` and `KeptAccepted` state it |
| Pipeline.Walk | module/news_utils.py:56-104 | the item loop with early stop; `WalkInvariant`, `WalkLength` and `WalkComplete` state what it keeps |
| Pipeline.Key | module/news_utils.py:107-109 | the sort key, `datetime.min` for an undated entry; `SearchOrdered` states the order |
| Pipeline.Outcome | module/news_utils.py:33-109 | the status checks, the cutoff, the loop and the sort; `OutcomeAccepted` and `LoopComplete` state its entries |
| Pipeline.Search | module/news_utils.py:12-119 | the whole search; `SearchBounded`, `SearchFailure`, `SearchOrdered`, `SearchAccepted` and `SearchComplete` state its results |
| Pipeline.Cutoff | module/news_utils.py:52 | a cutoff inside the datetime range lies in `[datetime.min, datetime.max]` |
| Pipeline.Dated | module/news_utils.py:67 | the parsed publication date of an item is valid |
| Pipeline.EntryOf | module/news_utils.py:89-98 | a record keeps the item's title and link and carries its parsed date |
| Pipeline.Records | module/news_utils.py:112-113 | popping `pub_date_raw` keeps the records in order |
| Pipeline.Fallback | module/news_utils.py:122-163 | a fallback is one record with an empty link, a title naming the keyword, the system source label (a notice when the news probe got a 200) and the time of the fallback |
| Pipeline.ExamineArticle | module/news_utils.py:56-101 | the body of the item loop computes the step for one item |
| Pipeline.MakeEntry | module/news_utils.py:76-98 | building the record of a kept item computes its entry |
| Pipeline.CollectEntries | module/news_utils.py:56-104 | the item loop with early stop computes the accepted entries |
| Pipeline.RankEntries | module/news_utils.py:33-109 | the status checks, the cutoff, the loop and the sort compute the outcome |
| Pipeline.PopRaw | module/news_utils.py:112-113 | popping the raw date from each entry computes the records |
| Pipeline.RunSearch | module/news_utils.py:12-119 | the search computes the modelled result, the fallback included |
| Pipeline.KeptAccepted | module/news_utils.py:56-101 | a kept item is titled, not an ad, undated or not older than the cutoff, and not a duplicate of a seen title |
| Pipeline.ExamineAccepted | module/news_utils.py:56-101 | an accepted item is skipped exactly when its normalised title duplicates a seen one, and is otherwise kept as its record |
| Pipeline.ExaminerDecides | module/news_utils.py:56-101 | the examiner keeps an item only under its own title, and keeps every accepted item unless its title duplicates a seen one |
| Pipeline.KeepStep | module/news_utils.py:100-101 | appending a kept record and adding its title to the seen set keeps the loop invariant |
| Pipeline.WalkInvariant | module/news_utils.py:56-104 | the loop keeps only records of kept items, with titles pairwise at most half similar |
| Pipeline.WalkLength | module/news_utils.py:103-104 | the loop stops once it holds `max_results` records, and holds one at most when that is below one |
| Pipeline.WalkExtends | module/news_utils.py:56-104 | the loop only appends: the records held when it reaches an item are a prefix of its result |
| Pipeline.DuplicateIsClose | module/news_utils.py:58-60 | a title skipped as a duplicate of a seen title is more than half similar to the title of a record the loop returns |
| Pipeline.WalkComplete | module/news_utils.py:56-104 | when the loop ends below `max_results`, every accepted item from the current one on is among the records or is more than half similar to one of them |
| Pipeline.SearchBounded | module/news_utils.py:103-115 | a search that does not fall back returns at most `max_results` records, and none when that is not positive |
| Pipeline.SearchFailure | module/news_utils.py:117-119 | any failure returns exactly one record with an empty link and a title naming the keyword |
| Pipeline.BadReplyFallsBack | module/news_utils.py:41-47 | no reply, a status code other than 200, a malformed body or a status other than "ok" gives the fallback |
| Pipeline.EmptyFeed | module/news_utils.py:49-115 | an "ok" reply with no items gives no records |
| Pipeline.SearchOrdered | module/news_utils.py:107-115 | the entries are sorted newest first, undated ones after every entry dated later than `datetime.min`, and the records are their first ones |
| Pipeline.OutcomeAccepted | module/news_utils.py:56-109 | every entry comes from an accepted feed item, and the titles are pairwise at most half similar |
| Pipeline.LoopComplete | module/news_utils.py:56-104 | the same completeness for the loop run from the first item with nothing seen |
| Pipeline.KeptShown | module/news_utils.py:107-115 | sorting keeps every held entry's record and every record a title is close to |
| Pipeline.ProducedAccepted | module/news_utils.py:56-101 | what the examiner keeps is the record of an accepted item |
| Pipeline.SearchAccepted | module/news_utils.py:12-119 | every returned record is that of an accepted feed item (titled, not an ad, not older than the cutoff if dated), and no two returned titles are more than half similar |
| Pipeline.SearchComplete | module/news_utils.py:12-119 | a search that returns fewer than `max_results` records has dropped no accepted item, except those more than half similar to a returned title |
| Pipeline.SingleAcceptedItem | module/news_utils.py:12-119 | a feed of one accepted undated item and `max_results` at least one gives exactly that item's record |
| Pipeline.FirstRecordsAccepted | module/news_utils.py:112-115 | a prefix of accepted, pairwise-apart entries keeps both facts for its records |
| Pipeline.AwareCrashes | module/news_utils.py:67-69 | the first titled, non-ad item with a UTC offset raises on the comparison with the naive cutoff |
| Pipeline.AwareDateFallsBack | module/news_utils.py:67-69 | such an item as the first of the feed turns the whole search into the fallback |
| Formatting.FormatText | module/news_utils.py:773-806 | the text digest; `EveryRecordShown`, `EmptyListMessage`, `HeaderCounts` and `TextStartsWithHeader` state its content |
| Formatting.FormatInfoText | module/news_utils.py:773-806 | the `result +=` loop computes the text digest |
| Formatting.AppendCard | module/news_utils.py:838-859 | appending one card computes the card step |
| Formatting.FormatHtml | module/news_utils.py:809-863 | the HTML digest; `EveryCardShown`, `LinkParagraphIffTruthy` and `EmptyListMessage` state its content |
| Formatting.AppendCards | module/news_utils.py:831-859 | the `for` loop appending cards computes the cards of all records after the header |
| Formatting.FormatInfoHtml | module/news_utils.py:809-863 | the `result +=` loop computes the HTML digest |
| Formatting.EveryRecordShown | module/news_utils.py:795-804 | the text digest shows every record's numbered title, summary, source and date lines, and its link line when the link is truthy |
| Formatting.LinkLineIffTruthy | module/news_utils.py:801-802 | a record's block has a link line exactly when its link is truthy |
| Formatting.EveryCardShown | module/news_utils.py:831-859 | the HTML digest shows every record's card, and its link paragraph when the link is truthy |
| Formatting.LinkParagraphIffTruthy | module/news_utils.py:852-857 | a card has a link paragraph exactly when the link is truthy, and that paragraph holds the link |
| Formatting.EmptyListMessage | module/news_utils.py:784-788 | an empty list gives a message holding the keyword and "검색 결과가 없습니다." in both formats |
| Formatting.HeaderCounts | module/news_utils.py:790-793 | the header names the keyword and a number that reads back as the record count |
| Formatting.TextStartsWithHeader | module/news_utils.py:790-795 | a non-empty digest begins with the header for its count |
| Formatting.BlocksStart | module/news_utils.py:795-804 | appending blocks keeps the header at the front |
| Formatting.BlocksKeep | module/news_utils.py:795-804 | appending blocks never removes text already written |
| Formatting.CardsKeep | module/news_utils.py:831-859 | appending cards never removes text already written |
| Weather.Describe | module/weather_utils.py:152-192 | a listed code gives its description and any other code "알 수 없음" |
| Weather.DescribeKnownIff | module/weather_utils.py:162-192 | a code has a description other than "알 수 없음" exactly when it is listed |
| Weather.CodesInRange | module/weather_utils.py:162-191 | every listed code is a WMO code between 0 and 99 |
| Weather.GetWeatherByAddress | module/weather_utils.py:195-219 | the result carries the address; an address without coordinates gives the "address_error" dictionary; otherwise every other field is the coordinate lookup's, and the keys are exactly the lookup's keys plus "address", no others |
| Weather.FormatText | module/weather_utils.py:222-251 | the text report; `AddressErrorShowsOnlyAddress`, `RangeShown`, `ReadingsShown` and `MissingAddress` state its content |
| Weather.FormatHtml | module/weather_utils.py:254-285 | the HTML report; the same lemmas state its content |
| Weather.NotFoundMessage | module/weather_utils.py:205-215 | an address without coordinates formats as the not-found message naming the address |
| Weather.AddressErrorShowsOnlyAddress | module/weather_utils.py:235-239 | an address error formats the same whatever the readings are |
| Weather.SameFormat | module/weather_utils.py:222-285 | the output depends only on the status, the address, the range and the four readings |
| Weather.EmptyRangeLikeMissing | module/weather_utils.py:241-243 | an empty time range formats like a missing one |
| Weather.RangeShown | module/weather_utils.py:241-243 | a non-empty time range appears in parentheses in both formats |
| Weather.MissingAddress | module/weather_utils.py:232 | a missing address shows "알 수 없는 위치" |
| Weather.ReadingsShown | module/weather_utils.py:245-251 | outside an address error both formats show the four readings, "N/A" for a missing one |

## Left out

- HTTP and scraping are not modelled. The feed request becomes the
  `Response` of a `World` value. The page text for a link becomes the
  function `World.page`. The news fallback's probe becomes `World.probeOk`.
- `_fetch_article_content`, `_fetch_blog_content`,
  `_get_real_url_from_google_news` and `_get_real_url_from_google` are not
  modelled: they fetch and scrape pages. The page function stands for what
  they return.
- `get_coordinates_by_address` and `get_weather_by_coordinates` are not
  modelled: they call web services and average floats. They are a
  parameter of `Weather.GetWeatherByAddress`, and the readings are strings.
- `datetime.now()` is a field of `World` (`now`, `micro`). So is the later
  reading taken by the fallback (`later`).
- Logging and `print` are left out; they do not change any result.
- Regex `\w` is approximated as ASCII letters, digits, `_`, Hangul syllables
  and jamo, and CJK ideographs. Other Unicode letters are not word
  characters here. `\s` is Python's `isspace`.
- `str.lower()` and `str.title()` are modelled on ASCII letters only.
- `strptime` is modelled on the five listed formats, read as fixed grammars
  with English day and month names. `%Z` accepts `UTC` and `GMT`. The
  local zone names Python also accepts depend on the machine and are out of
  scope.
- The feed payload is decoded already, and its items are records of
  strings. A body that would make the source raise is represented as the
  single case `Payload.Malformed`, and only when the source would reach
  the bad part: a body that is not JSON, or an item that the loop of
  module/news_utils.py:55-104 reaches before it stops at `max_results`
  (103-104) and that is not an object, or whose truthy title is not a
  string. A description that is not a string raises only at the ad check
  (63, then 282), so only for an item whose title is non-empty and not a
  duplicate (58-60). A publication date that is not a string is read only
  after the ad check (67), so only for an item that is neither skipped
  nor an advertisement. Bodies whose bad field the source skips or never
  reaches are out of scope: the model has no value for them, since
  `Malformed` would make it reject the whole feed where the source goes
  on. A falsy title of any type (`None`, `0`, an empty list) is skipped
  like an empty one, and a falsy date of any type gives no date like an
  empty one, so both read as "". Missing string fields read as "".
- Digits are ASCII only. Python's `\d`, `int()` and `strptime` also accept
  other Unicode decimal digits; such text does not parse here.
- `Urls.UrlParse` models only the unbalanced-bracket `ValueError` of
  `urlsplit`. The checks of the bracketed host (`_check_bracketed_netloc`)
  and of characters that change under NFKC normalisation (`_checknetloc`)
  are not modelled; such links parse here instead of raising.
- The `try`/`except` around the summary is not modelled: the model's
  summariser cannot raise, so that handler is never reached.
- The formatters take `Formatting.Item` values whose optional fields stand
  for the dictionary keys. The model does not convert pipeline records into
  these items, because the source's callers do that outside the core.
- Patterns.DashTailStart: its own contract says only where a found tail
  begins. That it is the leftmost match, and that `None` means no match,
  is proved separately as `Patterns.DashTailStartFinds`.
- Patterns.DashTailRemoved: its own contract says only that a prefix is
  kept. Where the cut falls is proved as `Patterns.DashTailRemovedCuts`.
- Patterns.TrailingOutlet: its own contract describes a found name only.
  Which match is taken, and the `None` case, are proved as
  `Patterns.TrailingOutletFinds`.
- Patterns.BracketOutletFrom: its own contract describes a found name only.
  Which match is taken, and the `None` case, are proved as
  `Patterns.BracketOutletFinds`.
- Patterns.BlogBracketFrom: its own contract describes a found name only.
  Which match is taken, and the `None` case, are proved as
  `Patterns.BlogBracketFinds`.
- Patterns.HangulWords: its own contract gives one direction only. The
  converse is proved as `Patterns.HangulWordsRuns`.
- Urls.StripParams: its own contract says only that a prefix is kept.
  Where the cut falls is proved as `Urls.StripParamsCut`.
- Summary.Relevance: its own contract is a bound only. When the score is
  positive is proved as `Summary.RelevanceShared`.
- The HTML formatters are modelled in full, but only card inclusion, link
  presence and the empty-list message are proved about them. The exact
  whitespace of the markup is not the subject of any lemma.

Behaviours of the code that the model keeps as they are:

- The date parser tries five formats. None of them is a compact
  `YYYYMMDD` date, so such text is not read as a date.
- Comparing an aware date with the naive cutoff raises `TypeError`, and the
  catch-all handler returns the fallback (`Pipeline.AwareDateFallsBack`).
- The feed title is checked as it is; no markup is stripped from it first.
- The ad check is one keyword search over the whole text; there is no
  prefix-window mode.
- A structured source hint is returned unchanged, without a platform label.
- An "ok" reply with no items gives `[]`, not the fallback
  (`Pipeline.EmptyFeed`).
