/** The description cleaner `_clean_description` of the news and the blog
    module: tags, whitespace runs, a trailing "- source" suffix and URLs are
    removed, short results give a placeholder and long ones are cut to 150
    characters. */
module Describe {
  import opened Text
  import opened Patterns
  import opened Kinds

  /** The result for an empty description. */
  const NoSummary: string := "요약 정보 없음"

  /** The result when too little text is left after cleaning. */
  function SeeBody(kind: Kind): string {
    match kind
    case News => "기사 본문에서 상세 내용을 확인하세요"
    case Blog => "블로그 본문에서 상세 내용을 확인하세요"
  }

  /** `re.sub(r"\s+", " ", s).strip()`. */
  function Squeeze(s: string): string {
    Strip(Collapse(s))
  }

  /** The class of the name in the trailing "- source" pattern: letters only
      for news, letters and digits for blogs. */
  function TailClass(kind: Kind): char -> bool {
    match kind
    case News => IsNameLetter
    case Blog => IsSourceChar
  }

  /** The endings the trailing pattern allows after the name's letter run
      (endings made of Hangul syllables are part of that run already). */
  function TailEndings(kind: Kind): seq<string> {
    match kind
    case News => ["", ".com", ".net", ".co.kr"]
    case Blog => [""]
  }

  /** The trailing "- source" removal of either module leaves the text alone
      exactly when its pattern matches nowhere, and otherwise cuts it where
      the leftmost match for the first fitting ending starts. */
  lemma TailRemovalCuts(kind: Kind, s: string)
    ensures DashTailRemoved(s, TailClass(kind), TailEndings(kind)) == s <==>
      forall x: nat, p: nat, q: nat, c: nat, b: nat :: x < |TailEndings(kind)| ==>
        !DashTailParts(s, TailClass(kind), TailEndings(kind)[x], p, q, c, b)
    ensures DashTailRemoved(s, TailClass(kind), TailEndings(kind)) != s ==>
      exists x: nat, q: nat, c: nat, b: nat :: x < |TailEndings(kind)|
        && DashTailParts(s, TailClass(kind), TailEndings(kind)[x], |DashTailRemoved(s, TailClass(kind), TailEndings(kind))|, q, c, b)
        && forall p': nat, q': nat, c': nat, b': nat ::
             DashTailParts(s, TailClass(kind), TailEndings(kind)[x], p', q', c', b') ==>
             |DashTailRemoved(s, TailClass(kind), TailEndings(kind))| <= p'
  {
    DashTailRemovedCuts(s, TailClass(kind), TailEndings(kind));
  }

  /** The top-level domains of the host-name pattern. */
  function Tlds(kind: Kind): seq<string> {
    match kind
    case News => ["com", "net", "co.kr", "org"]
    case Blog => ["com", "net", "co.kr", "org", "tistory.com", "naver.com"]
  }

  function NewsDomainAt(s: string): nat {
    DomainAt(s, Tlds(News))
  }

  function BlogDomainAt(s: string): nat {
    DomainAt(s, Tlds(Blog))
  }

  /** The matcher of `[a-zA-Z0-9.-]+\.(tld|...)\b` for each module. */
  function DomainMatcher(kind: Kind): string -> nat {
    match kind
    case News => NewsDomainAt
    case Blog => BlogDomainAt
  }

  /** The URL and domain substitutions, in source order; only the news module
      also removes `v.`-hosts. */
  function RemoveLinks(kind: Kind, s: string): (r: string)
    ensures |r| <= |s|
  {
    var a := SubAll(s, UrlAt);
    var b := SubAll(a, WwwAt);
    var c := SubAll(b, DomainMatcher(kind));
    if kind == News then SubAll(c, VHostAt) else c
  }

  /** Text in which none of the link patterns matches anywhere comes back
      unchanged. */
  lemma RemoveLinksUnchanged(kind: Kind, s: string)
    requires NoMatch(s, UrlAt) && NoMatch(s, WwwAt) && NoMatch(s, DomainMatcher(kind))
    requires kind == News ==> NoMatch(s, VHostAt)
    ensures RemoveLinks(kind, s) == s
  {
    SubAllNoMatch(s, UrlAt);
    SubAllNoMatch(s, WwwAt);
    SubAllNoMatch(s, DomainMatcher(kind));
    if kind == News {
      SubAllNoMatch(s, VHostAt);
    }
  }

  /** Every link pattern needs a `.` or a `:` in what it matches. */
  lemma LinkMark(kind: Kind, t: string)
    ensures UrlAt(t) > 0 || WwwAt(t) > 0 || DomainMatcher(kind)(t) > 0 || VHostAt(t) > 0 ==>
      exists i :: 0 <= i < |t| && (t[i] == '.' || t[i] == ':')
  {
    assert DomainMatcher(kind)(t) == DomainAt(t, Tlds(kind));
    UrlMark(t);
    WwwMark(t);
    DomainMark(t, Tlds(kind));
    VHostMark(t);
  }

  lemma UrlMark(t: string)
    ensures UrlAt(t) > 0 ==> (4 < |t| && t[4] == ':') || (5 < |t| && t[5] == ':')
  {
    if UrlAt(t) > 0 {
      if StartsWith(t, "https://") {
        assert t[..8][5] == ':';
      } else {
        assert t[..7][4] == ':';
      }
    }
  }

  lemma WwwMark(t: string)
    ensures WwwAt(t) > 0 ==> 3 < |t| && t[3] == '.'
  {
    if WwwAt(t) > 0 {
      assert t[..4][3] == '.';
    }
  }

  lemma DomainMark(t: string, tlds: seq<string>)
    ensures DomainAt(t, tlds) > 0 ==> exists d :: 0 <= d < |t| && t[d] == '.'
  {
    if DomainAt(t, tlds) > 0 {
      var d :| 1 <= d < |t| && HostRun(t, 0, d) && DotTld(t, d, tlds);
      assert t[d] == '.';
    }
  }

  lemma VHostMark(t: string)
    ensures VHostAt(t) > 0 ==> 1 < |t| && t[1] == '.'
  {
    if VHostAt(t) > 0 {
      assert t[..2][1] == '.';
    }
  }

  /** Text with neither a `.` nor a `:` is kept as it is. */
  lemma PlainTextKept(kind: Kind, s: string)
    requires forall i :: 0 <= i < |s| ==> s[i] != '.' && s[i] != ':'
    ensures RemoveLinks(kind, s) == s
  {
    forall k | 0 <= k < |s|
      ensures !MatchesAt(s, UrlAt, k) && !MatchesAt(s, WwwAt, k)
      ensures !MatchesAt(s, DomainMatcher(kind), k) && !MatchesAt(s, VHostAt, k)
    {
      var t := s[k..];
      LinkMark(kind, t);
      assert forall i :: 0 <= i < |t| ==> t[i] == s[k + i];
    }
    RemoveLinksUnchanged(kind, s);
  }

  /** The 150-character cap: the first ". "-sentence and a period, cut to 147
      characters and "..." when that is still too long or when there is a
      single sentence. */
  function Shorten(c: string): (r: string)
    ensures |r| <= 150
  {
    if |c| > 150 then
      var parts := SplitOn(c, ". ");
      if |parts| > 1 then
        var first := parts[0] + ".";
        if |first| > 150 then first[..147] + "..." else first
      else c[..147] + "..."
    else c
  }

  /** `_clean_description`. */
  function CleanDescription(kind: Kind, description: string): (r: string)
  {
    if description == [] then NoSummary
    else
      var untagged := SubAll(description, TagAt);
      var squeezed := Squeeze(untagged);
      var unsourced := DashTailRemoved(squeezed, TailClass(kind), TailEndings(kind));
      var unlinked := RemoveLinks(kind, unsourced);
      if |Strip(unlinked)| < 20 then SeeBody(kind)
      else
        var capped := Shorten(Squeeze(unlinked));
        if Strip(capped) != [] then capped else SeeBody(kind)
  }

  /** The step-by-step rebinding of `clean_desc` in `_clean_description`. */
  method Clean(kind: Kind, description: string) returns (r: string)
    ensures r == CleanDescription(kind, description)
  {
    if description == [] {
      return NoSummary;
    }
    var clean := SubAll(description, TagAt);
    clean := Squeeze(clean);
    clean := DashTailRemoved(clean, TailClass(kind), TailEndings(kind));
    ghost var unsourced := clean;
    clean := SubAll(clean, UrlAt);
    clean := SubAll(clean, WwwAt);
    clean := SubAll(clean, DomainMatcher(kind));
    if kind == News {
      clean := SubAll(clean, VHostAt);
    }
    assert clean == RemoveLinks(kind, unsourced);
    if |Strip(clean)| < 20 {
      return SeeBody(kind);
    }
    clean := Squeeze(clean);
    ghost var squeezed := clean;
    if |clean| > 150 {
      var sentences := SplitOn(clean, ". ");
      if |sentences| > 1 {
        clean := sentences[0] + ".";
        if |clean| > 150 {
          clean := clean[..147] + "...";
        }
      } else {
        clean := clean[..147] + "...";
      }
    }
    assert clean == Shorten(squeezed);
    r := if Strip(clean) != [] then clean else SeeBody(kind);
  }

  /** An empty description gives the "no summary" text. */
  lemma CleanEmpty(kind: Kind)
    ensures CleanDescription(kind, "") == NoSummary
  {
  }

  /** Whatever the input, the cleaned description is non-empty and at most
      150 characters long. */
  lemma CleanBounded(kind: Kind, description: string)
    ensures CleanDescription(kind, description) != []
    ensures |CleanDescription(kind, description)| <= 150
  {
    if description != [] {
      var unlinked := RemoveLinks(kind, DashTailRemoved(Squeeze(SubAll(description, TagAt)),
        TailClass(kind), TailEndings(kind)));
      assert |Shorten(Squeeze(unlinked))| <= 150;
    }
  }

  /** Fewer than 20 characters left after the removals give the "see the
      body" placeholder. */
  lemma CleanShort(kind: Kind, description: string)
    requires description != []
    requires |Strip(RemoveLinks(kind, DashTailRemoved(Squeeze(SubAll(description, TagAt)),
      TailClass(kind), TailEndings(kind))))| < 20
    ensures CleanDescription(kind, description) == SeeBody(kind)
  {
  }

  /** Text of at most 150 characters is kept as it is; longer text becomes
      its first ". "-sentence and a period, or 147 characters and "...". */
  lemma {:induction false} ShortenCases(c: string)
    ensures |c| <= 150 ==> Shorten(c) == c
    ensures |c| > 150 ==>
      || Shorten(c) == c[..147] + "..."
      || (exists k :: 0 <= k <= |c| - 2 && c[k..k + 2] == ". " && Shorten(c) == c[..k] + "."
           && forall i :: 0 <= i < k ==> !OccursAt(c, ". ", i))
  {
    if |c| > 150 {
      var parts := SplitOn(c, ". ");
      if |parts| > 1 {
        var first := parts[0] + ".";
        if |first| <= 150 {
          var k := SplitOnFirst(c, ". ");
          assert Shorten(c) == c[..k] + ".";
        } else {
          assert first[..147] == c[..147] by {
            var k := SplitOnFirst(c, ". ");
          }
        }
      }
    }
  }
}
