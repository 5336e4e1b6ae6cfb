/** The blog source attribution `_extract_blog_source`: platform markers in
    the title, then platform rules on the link, then a "(… 블로그)" bracket. */
module BlogSource {
  import opened Options
  import opened Text
  import opened Patterns
  import opened Urls

  /** The default answer. */
  const Generic: string := "블로그"

  /** A separator followed by a platform name: at `c` a separator character,
      blanks, then `first`, blanks, `second` (`second` empty for a one-word
      name). */
  predicate MarkAt(s: string, c: nat, sep: char -> bool, first: string, second: string) {
    c < |s| && sep(s[c]) &&
    var a := RunEnd(s, c + 1, IsSpace);
    OccursAt(s, first, a) &&
    (second == [] || OccursAt(s, second, RunEnd(s, a + |first|, IsSpace)))
  }

  predicate IsColon(c: char) { c == ':' || c == '：' }

  predicate IsDash(c: char) { c == '-' }

  /** `\s*[:：]\s*네이버\s*블로그` starting with its separator at `c`. */
  predicate NaverMarkAt(s: string, c: nat) {
    MarkAt(s, c, IsColon, "네이버", "블로그")
  }

  /** `\s*-\s*티스토리` starting with its separator at `c`. */
  predicate TistoryMarkAt(s: string, c: nat) {
    MarkAt(s, c, IsDash, "티스토리", [])
  }

  /** The first separator at or after `c` that starts a mark. */
  function FirstMark(s: string, c: nat, naver: bool): (r: Option<nat>)
    requires c <= |s|
    ensures r.Some? ==> c <= r.value < |s|
    ensures r.Some? ==> (if naver then NaverMarkAt(s, r.value) else TistoryMarkAt(s, r.value))
    ensures r.Some? ==> forall k :: c <= k < r.value ==> !(if naver then NaverMarkAt(s, k) else TistoryMarkAt(s, k))
    ensures r.None? ==> forall k :: c <= k < |s| ==> !(if naver then NaverMarkAt(s, k) else TistoryMarkAt(s, k))
    decreases |s| - c
  {
    if c == |s| then None
    else if (if naver then NaverMarkAt(s, c) else TistoryMarkAt(s, c)) then Some(c)
    else FirstMark(s, c + 1, naver)
  }

  /** `re.split(mark, s)[0]`: the text before the leftmost match, which
      begins with the blanks in front of the first separator that starts a
      mark. */
  function SplitHead(s: string, naver: bool): (r: string)
    ensures |r| <= |s| && r == s[..|r|]
  {
    match FirstMark(s, 0, naver)
    case None => s
    case Some(c) => s[..RunStart(s, c, IsSpace)]
  }

  /** The answer for a title that names the platform: the first 30
      characters of the stripped head and "... (platform)", or the platform
      alone when the head is empty. */
  function Shortened(head: string, platform: string): (r: string)
    requires platform != []
    ensures r != []
  {
    if |head| > 0 then Tagged(Take(Strip(head), 30), platform) else platform
  }

  /** `f"{name}... ({platform})"`. */
  function Tagged(name: string, platform: string): string {
    name + "... (" + platform + ")"
  }

  /** The title step. */
  function TitleSource(title: string): (r: Option<string>)
    ensures r.Some? ==> r.value != []
  {
    if title == [] then None
    else if Contains(title, "네이버 블로그") then Some(Shortened(SplitHead(title, true), "네이버 블로그"))
    else if Contains(title, "티스토리") then Some(Shortened(SplitHead(title, false), "티스토리"))
    else if Contains(title, "브런치") || Contains(Lower(title), "brunch") then Some("브런치")
    else if Contains(title, "NAVER") || Contains(Lower(title), "naver") then Some("네이버 블로그")
    else None
  }

  /** The words that mark a domain as some other blog host. */
  const BlogHostWords: seq<string> := ["blog", "diary", "note", "post", "story"]

  /** The link step, on the lower-cased network location and the path. */
  function HostSource(domain: string, path: string): (r: Option<string>)
    ensures r.Some? ==> r.value != []
  {
    var parts := SplitOn(path, "/");
    if Contains(domain, "tistory.com") then
      Some(Replace(Replace(domain, ".tistory.com", ""), "www.", "") + " (티스토리)")
    else if Contains(domain, "blog.naver.com") then
      Some(if |parts| > 1 then parts[1] + " (네이버 블로그)" else "네이버 블로그")
    else if Contains(domain, "brunch.co.kr") then
      Some(if |parts| > 1 && parts[0] == [] then "@" + Replace(parts[1], "@", "") + " (브런치)" else "브런치")
    else if Contains(domain, "medium.com") then
      Some(if |parts| > 1 && StartsWith(parts[1], "@") then parts[1] + " (미디엄)" else "미디엄")
    else if AnyIn(domain, BlogHostWords) then
      Some(Replace(domain, "www.", "") + " (블로그)")
    else None
  }

  function LinkSource(link: string): (r: Option<string>)
    ensures r.Some? ==> r.value != []
  {
    if link == [] then None
    else match UrlParse(link)
      case None => None
      case Some(u) => HostSource(Lower(u.netloc), u.path)
  }

  /** `_extract_blog_source(link, title, description)`. */
  function BlogSourceOf(link: string, title: string, description: string): string {
    var combined := title + " " + description;
    if TitleSource(title).Some? then TitleSource(title).value
    else if LinkSource(link).Some? then LinkSource(link).value
    else if BlogBracketFrom(combined, 0).Some? then BlogBracketFrom(combined, 0).value
    else Generic
  }

  // ---------------------------------------------------------------------

  /** A title that names a platform decides the answer whatever the link and
      the description are. */
  lemma TitleMarkersFirst(title: string, link1: string, description1: string, link2: string, description2: string)
    requires TitleSource(title).Some?
    ensures BlogSourceOf(link1, title, description1) == BlogSourceOf(link2, title, description2)
  {
  }

  /** A title holding "네이버 블로그" gives "네이버 블로그" alone when nothing
      precedes the first ": 네이버 블로그" mark, and otherwise the first 30
      characters of the stripped head followed by "... (네이버 블로그)", even
      when the head is shorter than 30 characters. */
  lemma NaverTitleShape(title: string)
    requires Contains(title, "네이버 블로그")
    ensures var h := SplitHead(title, true);
      && (h == [] ==> TitleSource(title) == Some("네이버 블로그"))
      && (h != [] ==> TitleSource(title) == Some(Take(Strip(h), 30) + "... (네이버 블로그)") && |Take(Strip(h), 30)| <= 30)
  {
    assert title != [];
    var h := SplitHead(title, true);
    assert Tagged(Take(Strip(h), 30), "네이버 블로그") == Take(Strip(h), 30) + "... (네이버 블로그)";
  }

  /** A title holding "티스토리" but not "네이버 블로그" gives "티스토리"
      alone when nothing precedes the first "- 티스토리" mark, and otherwise
      the first 30 characters of the stripped head followed by
      "... (티스토리)". */
  lemma TistoryTitleShape(title: string)
    requires !Contains(title, "네이버 블로그") && Contains(title, "티스토리")
    ensures var h := SplitHead(title, false);
      && (h == [] ==> TitleSource(title) == Some("티스토리"))
      && (h != [] ==> TitleSource(title) == Some(Take(Strip(h), 30) + "... (티스토리)") && |Take(Strip(h), 30)| <= 30)
  {
    assert title != [];
    var h := SplitHead(title, false);
    assert Tagged(Take(Strip(h), 30), "티스토리") == Take(Strip(h), 30) + "... (티스토리)";
  }

  /** Without the Naver and Tistory markers, "브런치" or "brunch" in any case
      gives "브런치". */
  lemma BrunchTitle(title: string)
    requires !Contains(title, "네이버 블로그") && !Contains(title, "티스토리")
    requires Contains(title, "브런치") || Contains(Lower(title), "brunch")
    ensures TitleSource(title) == Some("브런치")
  {
  }

  /** Without the earlier markers, "NAVER" or "naver" in any case gives
      "네이버 블로그". */
  lemma NaverWordTitle(title: string)
    requires !Contains(title, "네이버 블로그") && !Contains(title, "티스토리")
    requires !Contains(title, "브런치") && !Contains(Lower(title), "brunch")
    requires Contains(title, "NAVER") || Contains(Lower(title), "naver")
    ensures TitleSource(title) == Some("네이버 블로그")
  {
  }

  /** The head ends where the leftmost mark's blanks begin: no earlier
      separator starts a mark, and the head is the whole title when there is
      no mark at all. */
  lemma SplitHeadIsBeforeFirstMark(s: string, naver: bool)
    ensures var h := SplitHead(s, naver);
      (h == s && forall k :: 0 <= k < |s| ==> !(if naver then NaverMarkAt(s, k) else TistoryMarkAt(s, k)))
      || exists c :: |h| <= c < |s| && (if naver then NaverMarkAt(s, c) else TistoryMarkAt(s, c))
           && (forall k :: 0 <= k < c ==> !(if naver then NaverMarkAt(s, k) else TistoryMarkAt(s, k)))
           && (forall k :: |h| <= k < c ==> IsSpace(s[k]))
  {
  }

  /** The answer is never empty. */
  lemma BlogSourceNonEmpty(link: string, title: string, description: string)
    ensures BlogSourceOf(link, title, description) != []
  {
  }

  /** A host name made of lower-case letters, digits and hyphens. */
  predicate PlainLabel(name: string) {
    name != [] && forall i :: 0 <= i < |name| ==> IsLowerLetter(name[i]) || IsDigit(name[i]) || name[i] == '-'
  }

  /** A path segment without separators. */
  predicate Segment(id: string) {
    forall i :: 0 <= i < |id| ==> id[i] != '/' && id[i] != '?' && id[i] != '#' && id[i] != ';' && id[i] != '@' && !IsUnsafe(id[i])
  }

  /** When the title names no platform, the link step decides whenever it
      gives something, whatever the description is. */
  lemma LinkDecides(link: string, title: string, description: string)
    requires TitleSource(title).None? && LinkSource(link).Some?
    ensures BlogSourceOf(link, title, description) == LinkSource(link).value
  {
  }

  /** The link `https://HOST` followed by `PATH`. */
  function HttpsLink(host: string, path: string): string {
    "https://" + host + path
  }

  /** The network location and path of `https://HOST/PATH`, lower-cased. */
  lemma {:induction false} HttpsDomain(host: string, path: string)
    requires HostText(host) && PathText(path) && host != []
    requires forall i :: 0 <= i < |host| ==> !IsUpper(host[i])
    ensures LinkSource(HttpsLink(host, path)) == HostSource(host, path)
  {
    ParseHttps(host, path);
    LowerUnchanged(host);
    assert HttpsLink(host, path) != [];
  }

  /** `NAME.tistory.com` gives "NAME (티스토리)". */
  lemma {:induction false} TistoryHost(name: string, path: string)
    requires PlainLabel(name)
    ensures HostSource(name + ".tistory.com", path) == Some(name + " (티스토리)")
  {
    var host := name + ".tistory.com";
    assert host == (name + ".") + "tistory.com";
    ContainsRight(name + ".", "tistory.com", "tistory.com") by {
      assert OccursAt("tistory.com", "tistory.com", 0);
    }
    assert '.' !in name;
    ReplaceSkip(name, ".tistory.com", ".tistory.com", "");
    assert Replace(".tistory.com", ".tistory.com", "") == "" by {
      assert ".tistory.com"[12..] == [];
    }
    assert name + [] == name;
    ReplaceWithoutDot(name);
  }

  /** A link `https://NAME.tistory.com/...` with a title that names no
      platform gives "NAME (티스토리)". */
  lemma {:induction false} TistoryLink(name: string, path: string, title: string, description: string)
    requires PlainLabel(name) && PathText(path) && TitleSource(title).None?
    ensures BlogSourceOf(HttpsLink(name + ".tistory.com", path), title, description) == name + " (티스토리)"
  {
    var host := name + ".tistory.com";
    forall i | 0 <= i < |host|
      ensures NotNetlocEnd(host[i]) && host[i] != '[' && host[i] != ']' && !IsUnsafe(host[i]) && !IsUpper(host[i])
    {
      if i < |name| {
        assert host[i] == name[i];
      }
    }
    HttpsDomain(host, path);
    TistoryHost(name, path);
    LinkDecides(HttpsLink(host, path), title, description);
  }

  lemma {:induction false} ReplaceWithoutDot(s: string)
    requires forall i :: 0 <= i < |s| ==> s[i] != '.'
    ensures Replace(s, "www.", "") == s
    decreases |s|
  {
    if |s| >= 4 {
      assert s[..4] != "www." by {
        assert s[3] != '.';
      }
      ReplaceWithoutDot(s[1..]);
      assert s == [s[0]] + s[1..];
    }
  }

  /** The second piece of `("/" + id + rest).split("/")` is `id` when `id`
      holds no slash and `rest` is empty or starts a new segment. */
  lemma {:induction false} SecondSegment(id: string, rest: string)
    requires forall i :: 0 <= i < |id| ==> id[i] != '/'
    requires rest == [] || rest[0] == '/'
    ensures var parts := SplitOn("/" + id + rest, "/");
      |parts| > 1 && parts[0] == [] && parts[1] == id
  {
    var s := "/" + id + rest;
    assert s[..1] == "/";
    assert SplitOn(s, "/") == [[]] + SplitOn(s[1..], "/");
    var t := s[1..];
    assert t == id + rest;
    var k := SplitOnFirst(t, "/");
    if rest != [] {
      assert OccursAt(t, "/", |id|) by {
        assert t[|id|..|id| + 1] == [rest[0]];
      }
    }
    assert t[..k] == id;
  }

  /** `blog.naver.com/ID/...` gives "ID (네이버 블로그)". */
  lemma {:induction false} NaverBlogHost(id: string, rest: string)
    requires forall i :: 0 <= i < |id| ==> id[i] != '/'
    requires rest == [] || rest[0] == '/'
    ensures HostSource("blog.naver.com", "/" + id + rest) == Some(id + " (네이버 블로그)")
  {
    NotContainsByFirst("blog.naver.com", "tistory.com");
    assert OccursAt("blog.naver.com", "blog.naver.com", 0);
    SecondSegment(id, rest);
  }

  /** A link `https://blog.naver.com/ID/...` with a title that names no
      platform gives "ID (네이버 블로그)". */
  lemma {:induction false} NaverBlogLink(id: string, rest: string, title: string, description: string)
    requires Segment(id) && PathText(rest) && (rest == [] || rest[0] == '/') && TitleSource(title).None?
    ensures BlogSourceOf(HttpsLink("blog.naver.com", "/" + id + rest), title, description) == id + " (네이버 블로그)"
  {
    var path := "/" + id + rest;
    PathOfSegment(id, rest);
    HttpsDomain("blog.naver.com", path);
    NaverBlogHost(id, rest);
    LinkDecides(HttpsLink("blog.naver.com", path), title, description);
  }

  /** `brunch.co.kr/@ID/...` gives "@ID (브런치)". */
  lemma {:induction false} BrunchHost(id: string, rest: string)
    requires forall i :: 0 <= i < |id| ==> id[i] != '/' && id[i] != '@'
    requires rest == [] || rest[0] == '/'
    ensures HostSource("brunch.co.kr", "/" + ("@" + id) + rest) == Some("@" + id + " (브런치)")
  {
    NotContainsByFirst("brunch.co.kr", "tistory.com");
    assert !Contains("brunch.co.kr", "blog.naver.com");
    assert OccursAt("brunch.co.kr", "brunch.co.kr", 0);
    SecondSegment("@" + id, rest);
    assert Replace("@" + id, "@", "") == id by {
      assert ("@" + id)[..1] == "@";
      assert ("@" + id)[1..] == id;
      assert '@' !in id;
      ReplaceSkip(id, [], "@", "");
      assert id + [] == id;
    }
  }

  /** `medium.com/@ID/...` gives "@ID (미디엄)". */
  lemma {:induction false} MediumHost(id: string, rest: string)
    requires forall i :: 0 <= i < |id| ==> id[i] != '/'
    requires rest == [] || rest[0] == '/'
    ensures HostSource("medium.com", "/" + ("@" + id) + rest) == Some("@" + id + " (미디엄)")
  {
    NotContainsByFirst("medium.com", "tistory.com");
    NotContainsByFirst("medium.com", "blog.naver.com");
    NotContainsByFirst("medium.com", "brunch.co.kr");
    assert OccursAt("medium.com", "medium.com", 0);
    var at := "@" + id;
    forall i | 0 <= i < |at| ensures at[i] != '/' {
      if i > 0 {
        assert at[i] == id[i - 1];
      }
    }
    SecondSegment(at, rest);
    assert at[..1] == "@";
  }

  /** Any other host whose name holds "blog", "diary", "note", "post" or
      "story" gives the host with "www." removed and " (블로그)"; a host that
      is "www." and a name without "www." gives that name. */
  lemma BlogWordHost(domain: string, path: string)
    requires !Contains(domain, "tistory.com") && !Contains(domain, "blog.naver.com")
    requires !Contains(domain, "brunch.co.kr") && !Contains(domain, "medium.com")
    requires AnyIn(domain, BlogHostWords)
    ensures HostSource(domain, path) == Some(Replace(domain, "www.", "") + " (블로그)")
    ensures !Contains(domain, "www.") ==> HostSource(domain, path) == Some(domain + " (블로그)")
    ensures forall name :: domain == "www." + name && !Contains(name, "www.") ==>
      HostSource(domain, path) == Some(name + " (블로그)")
  {
    if !Contains(domain, "www.") {
      ReplaceAbsent(domain, "www.", "");
    }
    forall name | domain == "www." + name && !Contains(name, "www.")
      ensures HostSource(domain, path) == Some(name + " (블로그)")
    {
      assert domain[..4] == "www." && domain[4..] == name;
      ReplaceAbsent(name, "www.", "");
      assert Replace(domain, "www.", "") == "" + name == name;
      assert HostSource(domain, path) == Some(Replace(domain, "www.", "") + " (블로그)");
    }
  }

  /** A link `https://brunch.co.kr/@ID/...` with a title that names no
      platform gives "@ID (브런치)". */
  lemma {:induction false} BrunchLink(id: string, rest: string, title: string, description: string)
    requires Segment(id) && PathText(rest) && (rest == [] || rest[0] == '/') && TitleSource(title).None?
    ensures BlogSourceOf(HttpsLink("brunch.co.kr", "/@" + id + rest), title, description) == "@" + id + " (브런치)"
  {
    var path := "/@" + id + rest;
    BrunchPath(id, rest);
    HttpsDomain("brunch.co.kr", path);
    BrunchHost(id, rest);
    LinkDecides(HttpsLink("brunch.co.kr", path), title, description);
  }

  lemma BrunchPath(id: string, rest: string)
    requires Segment(id) && PathText(rest) && (rest == [] || rest[0] == '/')
    ensures "/@" + id + rest == "/" + ("@" + id) + rest
    ensures PathText("/@" + id + rest)
  {
    var at := "@" + id;
    forall i | 0 <= i < |at|
      ensures at[i] != '/' && at[i] != '?' && at[i] != '#' && at[i] != ';' && !IsUnsafe(at[i])
    {
      if i > 0 {
        assert at[i] == id[i - 1];
      }
    }
    PathOfSegment(at, rest);
  }

  lemma PathOfSegment(id: string, rest: string)
    requires forall i :: 0 <= i < |id| ==> id[i] != '/' && id[i] != '?' && id[i] != '#' && id[i] != ';' && !IsUnsafe(id[i])
    requires PathText(rest) && (rest == [] || rest[0] == '/')
    ensures PathText("/" + id + rest)
  {
    var p := "/" + id + rest;
    forall i | 0 <= i < |p|
      ensures p[i] != '?' && p[i] != '#' && p[i] != ';' && !IsUnsafe(p[i])
    {
      if 1 <= i < 1 + |id| {
        assert p[i] == id[i - 1];
      } else if i >= 1 + |id| {
        assert p[i] == rest[i - 1 - |id|];
      }
    }
  }

  /** With no title, no link and no bracket the answer is "블로그". */
  lemma NothingGivesGeneric(description: string)
    requires BlogBracketFrom(" " + description, 0).None?
    ensures BlogSourceOf("", "", description) == Generic
  {
    assert "" + " " + description == " " + description;
  }
}
