/** The formatters `format_news_info_text` / `format_blog_info_text` and their
    HTML counterparts: a "no results" message for an empty list, otherwise a
    header naming the number of records and one numbered block per record.

    The output is specified by appending to the text built so far in the
    order the source appends. */
module Formatting {
  import opened Options
  import opened Text
  import opened Kinds

  /** A record as the formatters read it: every key may be missing. */
  datatype Item = Item(title: Option<string>, summary: Option<string>, source: Option<string>,
                       pubDate: Option<string>, link: Option<string>)

  /** `d.get(key, default)`. */
  function Field(v: Option<string>, default: string): string {
    match v
    case None => default
    case Some(s) => s
  }

  /** A value that is present and non-empty. */
  predicate Truthy(v: Option<string>) { v.Some? && v.value != [] }

  function Noun(kind: Kind): string {
    match kind
    case News => "뉴스"
    case Blog => "블로그"
  }

  const NoResults: string := "검색 결과가 없습니다."

  // ---------------------------------------------------------------------
  // Text.

  function EmptyText(kind: Kind, keyword: string): string {
    "\n\"" + keyword + "\" 관련 최신 " + Noun(kind) + ":\n- " + NoResults + "\n"
  }

  /** The header of a non-empty list, naming the number of records. */
  function HeaderText(kind: Kind, keyword: string, n: nat): string {
    "\n\"" + keyword + "\" 관련 최신 " + Noun(kind) + " (" + NatToString(n) + "건):\n\n"
  }

  function TitleLine(n: nat, it: Item): string { NatToString(n) + ". " + Field(it.title, "제목 없음") + "\n" }
  function SummaryLine(it: Item): string { "   요약: " + Field(it.summary, "요약 없음") + "\n" }
  function SourceLine(it: Item): string { "   출처: " + Field(it.source, "알 수 없음") + "\n" }
  function DateLine(it: Item): string { "   등록: " + Field(it.pubDate, "시간 정보 없음") + "\n" }
  function LinkLine(link: string): string { "   링크: " + link + "\n" }

  /** `acc` followed by the block of the `n`-th record: its title, summary,
      source and date lines, a link line for a truthy link, and a blank
      line. */
  function WithBlock(acc: string, n: nat, it: Item): string {
    var lines := acc + TitleLine(n, it) + SummaryLine(it) + SourceLine(it) + DateLine(it);
    (if Truthy(it.link) then lines + LinkLine(it.link.value) else lines) + "\n"
  }

  /** `head` followed by the blocks of the records, numbered from 1. */
  function Blocks(head: string, items: seq<Item>): string
    decreases |items|
  {
    if items == [] then head
    else WithBlock(Blocks(head, items[..|items| - 1]), |items|, items[|items| - 1])
  }

  function FormatText(kind: Kind, items: seq<Item>, keyword: string): string {
    if items == [] then EmptyText(kind, keyword)
    else Blocks(HeaderText(kind, keyword, |items|), items)
  }

  /** The text formatter as the source writes it, appending line by line. */
  method FormatInfoText(kind: Kind, items: seq<Item>, keyword: string) returns (result: string)
    ensures result == FormatText(kind, items, keyword)
  {
    if items == [] {
      return EmptyText(kind, keyword);
    }
    result := HeaderText(kind, keyword, |items|);
    for i := 0 to |items|
      invariant result == Blocks(HeaderText(kind, keyword, |items|), items[..i])
    {
      var it := items[i];
      result := result + TitleLine(i + 1, it);
      result := result + SummaryLine(it);
      result := result + SourceLine(it);
      result := result + DateLine(it);
      if Truthy(it.link) {
        result := result + LinkLine(it.link.value);
      }
      result := result + "\n";
      assert items[..i + 1][..i] == items[..i];
    }
    assert items[..|items|] == items;
  }

  // ---------------------------------------------------------------------
  // HTML.

  function Emoji(kind: Kind): string {
    match kind
    case News => "\U{1F4F0}"
    case Blog => "\U{270D}\U{FE0F}"
  }

  function Colour(kind: Kind): string {
    match kind
    case News => "#007acc"
    case Blog => "#28a745"
  }

  function SourceEmoji(kind: Kind): string {
    match kind
    case News => "\U{1F4FA}"
    case Blog => "\U{270D}\U{FE0F}"
  }

  function LinkLabel(kind: Kind): string {
    match kind
    case News => "기사 링크"
    case Blog => "블로그 링크"
  }

  function EmptyHtml(kind: Kind, keyword: string): string {
    "\n<h3>" + Emoji(kind) + " \"" + keyword + "\" 관련 최신 " + Noun(kind) + "</h3>\n<p><em>"
    + NoResults + "</em></p>\n"
  }

  function HtmlHeader(kind: Kind, keyword: string, n: nat): string {
    "\n<h3>" + Emoji(kind) + " \"" + keyword + "\" 관련 최신 " + Noun(kind) + " (" + NatToString(n)
    + "건)</h3>\n<div style=\"margin-left: 10px;\">\n"
  }

  const CardText: seq<string> := [
    "\n<div style=\"margin-bottom: 15px; padding: 10px; border-left: 3px solid ",
    ";\">\n    <h4 style=\"margin: 0 0 5px 0; color: ",
    ";\">\n        ",
    ". ",
    "\n    </h4>\n    <p style=\"margin: 5px 0; color: #555; font-size: 14px;\">\n        \U{1F4DD} <strong>요약:</strong> ",
    "\n    </p>\n    <p style=\"margin: 5px 0; color: #777; font-size: 12px;\">\n        ",
    " <strong>출처:</strong> ",
    " |\n        \U{1F552} <strong>등록:</strong> ",
    "\n    </p>\n"
  ]

  /** The card of the `n`-th record up to its optional link paragraph. */
  function Card(kind: Kind, n: nat, it: Item): string {
    CardText[0] + Colour(kind) + CardText[1] + Colour(kind) + CardText[2] + NatToString(n) + CardText[3]
    + Field(it.title, "제목 없음") + CardText[4] + Field(it.summary, "요약 없음") + CardText[5]
    + SourceEmoji(kind) + CardText[6] + Field(it.source, "알 수 없음") + CardText[7]
    + Field(it.pubDate, "시간 정보 없음") + CardText[8]
  }

  /** The opening of the link paragraph, up to the link itself. */
  const LinkOpen: string := "\n    <p style=\"margin: 5px 0; font-size: 12px;\">\n        \U{1F517} <a href=\""

  /** The rest of the link paragraph after the link. */
  function LinkClose(kind: Kind): string {
    "\" style=\"color: " + Colour(kind) + ";\">" + LinkLabel(kind) + "</a>\n    </p>\n"
  }

  function LinkParagraph(kind: Kind, link: string): string { LinkOpen + link + LinkClose(kind) }

  /** `acc` followed by the card of the `n`-th record laid out by `card`,
      a paragraph laid out by `paragraph` for a truthy link, and the closing
      tag. */
  function WithCard(card: (nat, Item) -> string, paragraph: string -> string,
                    acc: string, n: nat, it: Item): string {
    var c := acc + card(n, it);
    (if Truthy(it.link) then c + paragraph(it.link.value) else c) + "</div>\n"
  }

  /** `head` followed by the cards of the records, numbered from 1. */
  function Cards(card: (nat, Item) -> string, paragraph: string -> string,
                 head: string, items: seq<Item>): string
    decreases |items|
  {
    if items == [] then head
    else WithCard(card, paragraph, Cards(card, paragraph, head, items[..|items| - 1]),
                  |items|, items[|items| - 1])
  }

  /** The card template of a kind of record. */
  function CardOf(kind: Kind): (nat, Item) -> string {
    (n: nat, it: Item) => Card(kind, n, it)
  }

  /** The link paragraph template of a kind of record. */
  function ParagraphOf(kind: Kind): string -> string {
    (link: string) => LinkParagraph(kind, link)
  }

  function FormatHtml(kind: Kind, items: seq<Item>, keyword: string): string {
    if items == [] then EmptyHtml(kind, keyword)
    else Cards(CardOf(kind), ParagraphOf(kind), HtmlHeader(kind, keyword, |items|), items) + "</div>\n"
  }

  /** One turn of the HTML formatter's loop: the card, the link paragraph
      when the link is non-empty, and the closing tag. */
  method AppendCard(card: (nat, Item) -> string, paragraph: string -> string,
                    acc: string, n: nat, it: Item) returns (result: string)
    ensures result == WithCard(card, paragraph, acc, n, it)
  {
    var link := Field(it.link, "");
    result := acc + card(n, it);
    if link != [] {
      result := result + paragraph(link);
    }
    result := result + "</div>\n";
  }

  /** The HTML formatter as the source writes it, appending card by card. */
  method FormatInfoHtml(kind: Kind, items: seq<Item>, keyword: string) returns (result: string)
    ensures result == FormatHtml(kind, items, keyword)
  {
    if items == [] {
      return EmptyHtml(kind, keyword);
    }
    result := AppendCards(CardOf(kind), ParagraphOf(kind), HtmlHeader(kind, keyword, |items|), items);
    result := result + "</div>\n";
  }

  /** The `for` loop of the HTML formatter: the cards of the records appended
      to `head` one by one. */
  method AppendCards(card: (nat, Item) -> string, paragraph: string -> string,
                     head: string, items: seq<Item>) returns (result: string)
    ensures result == Cards(card, paragraph, head, items)
  {
    result := head;
    for i := 0 to |items|
      invariant result == Cards(card, paragraph, head, items[..i])
    {
      result := AppendCard(card, paragraph, result, i + 1, items[i]);
      assert items[..i + 1][..i] == items[..i];
    }
    assert items[..|items|] == items;
  }

  // ---------------------------------------------------------------------
  // Properties.

  /** Adding a block keeps what the text already shows. */
  lemma BlockKeeps(acc: string, n: nat, it: Item, sub: string)
    requires Contains(acc + TitleLine(n, it) + SummaryLine(it) + SourceLine(it) + DateLine(it), sub)
    ensures Contains(WithBlock(acc, n, it), sub)
  {
    var lines := acc + TitleLine(n, it) + SummaryLine(it) + SourceLine(it) + DateLine(it);
    if Truthy(it.link) {
      ContainsLeft(lines, LinkLine(it.link.value), sub);
      ContainsLeft(lines + LinkLine(it.link.value), "\n", sub);
    } else {
      ContainsLeft(lines, "\n", sub);
    }
  }

  /** A block shows every line of its record. */
  lemma BlockShows(acc: string, n: nat, it: Item)
    ensures Contains(WithBlock(acc, n, it), TitleLine(n, it))
    ensures Contains(WithBlock(acc, n, it), SummaryLine(it))
    ensures Contains(WithBlock(acc, n, it), SourceLine(it))
    ensures Contains(WithBlock(acc, n, it), DateLine(it))
    ensures Truthy(it.link) ==> Contains(WithBlock(acc, n, it), LinkLine(it.link.value))
  {
    var t, s, o, d := TitleLine(n, it), SummaryLine(it), SourceLine(it), DateLine(it);
    ContainsWhole(t);
    ContainsRight(acc, t, t);
    ContainsLeft(acc + t, s, t);
    ContainsLeft(acc + t + s, o, t);
    ContainsLeft(acc + t + s + o, d, t);
    BlockKeeps(acc, n, it, t);
    ContainsWhole(s);
    ContainsRight(acc + t, s, s);
    ContainsLeft(acc + t + s, o, s);
    ContainsLeft(acc + t + s + o, d, s);
    BlockKeeps(acc, n, it, s);
    ContainsWhole(o);
    ContainsRight(acc + t + s, o, o);
    ContainsLeft(acc + t + s + o, d, o);
    BlockKeeps(acc, n, it, o);
    ContainsWhole(d);
    ContainsRight(acc + t + s + o, d, d);
    BlockKeeps(acc, n, it, d);
    if Truthy(it.link) {
      var l := LinkLine(it.link.value);
      ContainsWhole(l);
      ContainsRight(acc + t + s + o + d, l, l);
      ContainsLeft(acc + t + s + o + d + l, "\n", l);
    }
  }

  /** Later blocks keep what the earlier ones show. */
  lemma {:induction false} BlocksKeep(head: string, items: seq<Item>, k: nat, sub: string)
    requires k <= |items|
    requires Contains(Blocks(head, items[..k]), sub)
    ensures Contains(Blocks(head, items), sub)
    decreases |items| - k
  {
    if k == |items| {
      assert items[..k] == items;
    } else {
      var next := items[..k + 1];
      assert next[..k] == items[..k];
      var acc := Blocks(head, items[..k]);
      var t, s, o, d := TitleLine(k + 1, items[k]), SummaryLine(items[k]), SourceLine(items[k]), DateLine(items[k]);
      ContainsLeft(acc, t, sub);
      ContainsLeft(acc + t, s, sub);
      ContainsLeft(acc + t + s, o, sub);
      ContainsLeft(acc + t + s + o, d, sub);
      BlockKeeps(acc, k + 1, items[k], sub);
      BlocksKeep(head, items, k + 1, sub);
    }
  }

  /** Every record is shown by its numbered title line, its summary, source
      and date lines, and its link line when the link is truthy. */
  lemma EveryRecordShown(kind: Kind, items: seq<Item>, keyword: string, k: nat)
    requires k < |items|
    ensures Contains(FormatText(kind, items, keyword), TitleLine(k + 1, items[k]))
    ensures Contains(FormatText(kind, items, keyword), SummaryLine(items[k]))
    ensures Contains(FormatText(kind, items, keyword), SourceLine(items[k]))
    ensures Contains(FormatText(kind, items, keyword), DateLine(items[k]))
    ensures Truthy(items[k].link) ==>
      Contains(FormatText(kind, items, keyword), LinkLine(items[k].link.value))
  {
    var head := HeaderText(kind, keyword, |items|);
    var it := items[k];
    var upto := items[..k + 1];
    assert upto[..k] == items[..k] && upto[k] == it;
    BlockShows(Blocks(head, items[..k]), k + 1, it);
    BlocksKeep(head, items, k + 1, TitleLine(k + 1, it));
    BlocksKeep(head, items, k + 1, SummaryLine(it));
    BlocksKeep(head, items, k + 1, SourceLine(it));
    BlocksKeep(head, items, k + 1, DateLine(it));
    if Truthy(it.link) {
      BlocksKeep(head, items, k + 1, LinkLine(it.link.value));
    }
  }

  /** Adding a card keeps what the HTML already shows. */
  lemma CardKeeps(card: (nat, Item) -> string, paragraph: string -> string,
                  acc: string, n: nat, it: Item, sub: string)
    requires Contains(acc, sub)
    ensures Contains(WithCard(card, paragraph, acc, n, it), sub)
  {
    var c := acc + card(n, it);
    ContainsLeft(acc, card(n, it), sub);
    if Truthy(it.link) {
      ContainsLeft(c, paragraph(it.link.value), sub);
      ContainsLeft(c + paragraph(it.link.value), "</div>\n", sub);
    } else {
      ContainsLeft(c, "</div>\n", sub);
    }
  }

  /** Later cards keep what the earlier ones show. */
  lemma {:induction false} CardsKeep(card: (nat, Item) -> string, paragraph: string -> string,
                                     head: string, items: seq<Item>, k: nat, sub: string)
    requires k <= |items|
    requires Contains(Cards(card, paragraph, head, items[..k]), sub)
    ensures Contains(Cards(card, paragraph, head, items), sub)
    decreases |items| - k
  {
    if k == |items| {
      assert items[..k] == items;
    } else {
      var next := items[..k + 1];
      assert next[..k] == items[..k];
      CardKeeps(card, paragraph, Cards(card, paragraph, head, items[..k]), k + 1, items[k], sub);
      CardsKeep(card, paragraph, head, items, k + 1, sub);
    }
  }

  /** The cards show the card of every record, and its link paragraph when
      the link is truthy. */
  lemma CardsShow(card: (nat, Item) -> string, paragraph: string -> string,
                  head: string, items: seq<Item>, k: nat)
    requires k < |items|
    ensures Contains(Cards(card, paragraph, head, items), card(k + 1, items[k]))
    ensures Truthy(items[k].link) ==>
      Contains(Cards(card, paragraph, head, items), paragraph(items[k].link.value))
  {
    var it := items[k];
    var upto := items[..k + 1];
    assert upto[..k] == items[..k] && upto[k] == it;
    var acc := Cards(card, paragraph, head, items[..k]);
    var c := card(k + 1, it);
    ContainsWhole(c);
    ContainsRight(acc, c, c);
    if Truthy(it.link) {
      var p := paragraph(it.link.value);
      ContainsLeft(acc + c, p, c);
      ContainsLeft(acc + c + p, "</div>\n", c);
      ContainsWhole(p);
      ContainsRight(acc + c, p, p);
      ContainsLeft(acc + c + p, "</div>\n", p);
      CardsKeep(card, paragraph, head, items, k + 1, p);
    } else {
      ContainsLeft(acc + c, "</div>\n", c);
    }
    CardsKeep(card, paragraph, head, items, k + 1, c);
  }

  /** Every record is shown by its numbered card, and by a paragraph
      linking to it when the link is truthy. */
  lemma EveryCardShown(kind: Kind, items: seq<Item>, keyword: string, k: nat)
    requires k < |items|
    ensures Contains(FormatHtml(kind, items, keyword), Card(kind, k + 1, items[k]))
    ensures Truthy(items[k].link) ==>
      Contains(FormatHtml(kind, items, keyword), LinkParagraph(kind, items[k].link.value))
  {
    var cards := Cards(CardOf(kind), ParagraphOf(kind), HtmlHeader(kind, keyword, |items|), items);
    CardsShow(CardOf(kind), ParagraphOf(kind), HtmlHeader(kind, keyword, |items|), items, k);
    ContainsLeft(cards, "</div>\n", Card(kind, k + 1, items[k]));
    if Truthy(items[k].link) {
      ContainsLeft(cards, "</div>\n", LinkParagraph(kind, items[k].link.value));
    }
  }

  /** An empty list gives a message naming the keyword and saying that there
      are no results, in both formats. */
  lemma EmptyListMessage(kind: Kind, keyword: string)
    ensures Contains(FormatText(kind, [], keyword), keyword)
    ensures Contains(FormatText(kind, [], keyword), NoResults)
    ensures Contains(FormatHtml(kind, [], keyword), keyword)
    ensures Contains(FormatHtml(kind, [], keyword), NoResults)
  {
    var open := "\n\"" + keyword + "\" 관련 최신 " + Noun(kind) + ":\n- ";
    ContainsWhole(keyword);
    ContainsRight("\n\"", keyword, keyword);
    ContainsLeft("\n\"" + keyword, "\" 관련 최신 ", keyword);
    ContainsLeft("\n\"" + keyword + "\" 관련 최신 ", Noun(kind), keyword);
    ContainsLeft("\n\"" + keyword + "\" 관련 최신 " + Noun(kind), ":\n- ", keyword);
    ContainsLeft(open, NoResults, keyword);
    ContainsLeft(open + NoResults, "\n", keyword);
    ContainsWhole(NoResults);
    ContainsRight(open, NoResults, NoResults);
    ContainsLeft(open + NoResults, "\n", NoResults);

    var h := "\n<h3>" + Emoji(kind) + " \"";
    var hopen := h + keyword + "\" 관련 최신 " + Noun(kind) + "</h3>\n<p><em>";
    ContainsRight(h, keyword, keyword);
    ContainsLeft(h + keyword, "\" 관련 최신 ", keyword);
    ContainsLeft(h + keyword + "\" 관련 최신 ", Noun(kind), keyword);
    ContainsLeft(h + keyword + "\" 관련 최신 " + Noun(kind), "</h3>\n<p><em>", keyword);
    ContainsLeft(hopen, NoResults, keyword);
    ContainsLeft(hopen + NoResults, "</em></p>\n", keyword);
    ContainsRight(hopen, NoResults, NoResults);
    ContainsLeft(hopen + NoResults, "</em></p>\n", NoResults);
  }

  /** The header names the keyword and a count that reads back as the
      number of records. */
  lemma HeaderCounts(kind: Kind, keyword: string, n: nat)
    ensures Contains(HeaderText(kind, keyword, n), keyword)
    ensures Contains(HeaderText(kind, keyword, n), NatToString(n))
    ensures DigitsValue(NatToString(n)) == n
  {
    DigitsValueOfNatToString(n);
    var c := NatToString(n);
    var before := "\n\"" + keyword + "\" 관련 최신 " + Noun(kind) + " (";
    ContainsWhole(keyword);
    ContainsRight("\n\"", keyword, keyword);
    ContainsLeft("\n\"" + keyword, "\" 관련 최신 ", keyword);
    ContainsLeft("\n\"" + keyword + "\" 관련 최신 ", Noun(kind), keyword);
    ContainsLeft("\n\"" + keyword + "\" 관련 최신 " + Noun(kind), " (", keyword);
    ContainsLeft(before, c, keyword);
    ContainsLeft(before + c, "건):\n\n", keyword);
    ContainsWhole(c);
    ContainsRight(before, c, c);
    ContainsLeft(before + c, "건):\n\n", c);
  }

  /** The blocks follow what they were appended to. */
  lemma {:induction false} BlocksStart(head: string, items: seq<Item>)
    ensures StartsWith(Blocks(head, items), head)
    decreases |items|
  {
    if items != [] {
      var acc := Blocks(head, items[..|items| - 1]);
      BlocksStart(head, items[..|items| - 1]);
      var tail := WithBlock(acc, |items|, items[|items| - 1]);
      assert |acc| <= |tail|;
      assert tail[..|acc|] == acc;
    }
  }

  /** A non-empty list opens with the header. */
  lemma TextStartsWithHeader(kind: Kind, items: seq<Item>, keyword: string)
    requires items != []
    ensures StartsWith(FormatText(kind, items, keyword), HeaderText(kind, keyword, |items|))
  {
    BlocksStart(HeaderText(kind, keyword, |items|), items);
  }

  /** A card has a link paragraph exactly when the link is truthy, and
      that paragraph points at the link. */
  lemma LinkParagraphIffTruthy(kind: Kind, acc: string, n: nat, it: Item)
    ensures (WithCard(CardOf(kind), ParagraphOf(kind), acc, n, it)
             == acc + Card(kind, n, it) + "</div>\n") <==> !Truthy(it.link)
    ensures Truthy(it.link) ==> Contains(LinkParagraph(kind, it.link.value), LinkOpen + it.link.value)
  {
    var c := acc + CardOf(kind)(n, it);
    if Truthy(it.link) {
      var p := LinkParagraph(kind, it.link.value);
      assert |p| >= |LinkOpen| > 0;
      assert |WithCard(CardOf(kind), ParagraphOf(kind), acc, n, it)| == |c + "</div>\n"| + |p|;
      ContainsWhole(LinkOpen + it.link.value);
      ContainsLeft(LinkOpen + it.link.value, LinkClose(kind), LinkOpen + it.link.value);
    }
  }

  /** A text block has a link line exactly when the link is truthy. */
  lemma LinkLineIffTruthy(acc: string, n: nat, it: Item)
    ensures WithBlock(acc, n, it)
      == acc + TitleLine(n, it) + SummaryLine(it) + SourceLine(it) + DateLine(it) + "\n"
      <==> !Truthy(it.link)
  {
    if Truthy(it.link) {
      var lines := acc + TitleLine(n, it) + SummaryLine(it) + SourceLine(it) + DateLine(it);
      assert |WithBlock(acc, n, it)| == |lines + "\n"| + |LinkLine(it.link.value)|;
    }
  }
}
