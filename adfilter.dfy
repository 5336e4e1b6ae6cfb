/** The advertisement and promotion filter (`_is_ad_or_promotional`), the same
    keyword list in the news and the blog module. */
module AdFilter {
  import opened Text

  /** The listed keywords, in source order; all are already lower case. */
  const AdKeywords: seq<string> := AdWords + AdTags

  /** The plain words of the list. */
  const AdWords: seq<string> := [
    "광고", "홍보", "협찬", "제휴", "할인", "이벤트", "프로모션", "마케팅",
    "브랜드", "론칭", "오픈", "신제품", "출시", "특가", "세일", "쿠폰",
    "포인트", "혜택", "무료체험"
  ]

  /** The bracketed tags that close the list. */
  const AdTags: seq<string> := ["[광고]", "(광고)", "[pr]", "(pr)", "[홍보]", "(홍보)"]

  /** The text the keywords are searched in. */
  function AdContent(title: string, description: string): (r: string)
    ensures r == Lower(title) + " " + Lower(description)
  {
    LowerConcat(title + " ", description);
    LowerConcat(title, " ");
    Lower(title + " " + description)
  }

  /** Some keyword is a substring of the lower-cased `title + " " + description`. */
  predicate IsAd(title: string, description: string) {
    AnyIn(AdContent(title, description), AdKeywords)
  }

  lemma KeywordsHaveNoSpace()
    ensures forall k | k in AdKeywords :: ' ' !in k
  {
    WordsHaveNoSpace();
    TagsHaveNoSpace();
  }

  lemma WordsHaveNoSpace()
    ensures forall k | k in AdWords :: ' ' !in k
  {
  }

  lemma TagsHaveNoSpace()
    ensures forall k | k in AdTags :: ' ' !in k
  {
  }

  lemma {:induction false} AnyInSplit(a: string, b: string, keys: seq<string>)
    requires forall k | k in keys :: ' ' !in k
    ensures AnyIn(a + [' '] + b, keys) <==> AnyIn(a, keys) || AnyIn(b, keys)
  {
    if AnyIn(a + [' '] + b, keys) {
      var k :| k in keys && Contains(a + [' '] + b, k);
      ContainsSplit(a, ' ', b, k);
    }
    if AnyIn(a, keys) {
      var k :| k in keys && Contains(a, k);
      ContainsLeft(a, [' '] + b, k);
      assert a + ([' '] + b) == a + [' '] + b;
    } else if AnyIn(b, keys) {
      var k :| k in keys && Contains(b, k);
      ContainsRight(a + [' '], b, k);
    }
  }

  /** A keyword found in the combined text lies wholly in the title or wholly
      in the description: no keyword spans the joining space. */
  lemma AdSplit(title: string, description: string)
    ensures IsAd(title, description) <==>
      AnyIn(Lower(title), AdKeywords) || AnyIn(Lower(description), AdKeywords)
  {
    KeywordsHaveNoSpace();
    assert AdContent(title, description) == Lower(title) + [' '] + Lower(description);
    AnyInSplit(Lower(title), Lower(description), AdKeywords);
  }

  lemma {:induction false} AnyInExtend(a: string, b: string, keys: seq<string>)
    requires AnyIn(a, keys)
    ensures AnyIn(a + b, keys)
  {
    var k :| k in keys && Contains(a, k);
    ContainsLeft(a, b, k);
  }

  /** Appending text to the title can only turn a pass into a rejection. */
  lemma {:induction false} AdMonotoneTitle(title: string, more: string, description: string)
    requires IsAd(title, description)
    ensures IsAd(title + more, description)
  {
    AdSplit(title, description);
    AdSplit(title + more, description);
    LowerConcat(title, more);
    if AnyIn(Lower(title), AdKeywords) {
      AnyInExtend(Lower(title), Lower(more), AdKeywords);
    }
  }

  /** Appending text to the description can only turn a pass into a rejection. */
  lemma {:induction false} AdMonotoneDescription(title: string, description: string, more: string)
    requires IsAd(title, description)
    ensures IsAd(title, description + more)
  {
    AdSplit(title, description);
    AdSplit(title, description + more);
    LowerConcat(description, more);
    if AnyIn(Lower(description), AdKeywords) {
      AnyInExtend(Lower(description), Lower(more), AdKeywords);
    }
  }

  /** A title holding a keyword, in any letter case, marks the item as an ad
      whatever its description. */
  lemma KeywordMakesAd(a: string, k: string, b: string, description: string)
    requires k in AdKeywords
    ensures IsAd(a + k + b, description)
  {
    LowerConcat(a + k, b);
    LowerConcat(a, k);
    assert Lower(k) == k by {
      KeywordsAreLower();
      var j :| 0 <= j < |AdKeywords| && AdKeywords[j] == k;
    }
    ContainsMiddle(Lower(a), k, Lower(b));
    assert AnyIn(Lower(a + k + b), AdKeywords);
    AdSplit(a + k + b, description);
  }

  lemma KeywordsAreLower()
    ensures forall j | 0 <= j < |AdKeywords| :: Lower(AdKeywords[j]) == AdKeywords[j]
  {
  }
}
