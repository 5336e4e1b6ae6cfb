/** `urllib.parse.urlparse` as far as the source-attribution rules use it:
    the scheme, the network location and the path of a link. */
module Urls {
  import opened Options
  import opened Text

  datatype SplitUrl = SplitUrl(scheme: string, netloc: string, path: string)

  /** The C0 controls and the space, stripped from the front of a URL. */
  predicate IsC0OrSpace(c: char) { c <= ' ' }

  /** Tab, carriage return and line feed, removed everywhere in a URL. */
  predicate IsUnsafe(c: char) { c == '\t' || c == '\r' || c == '\n' }

  /** The characters a scheme may consist of. */
  predicate IsSchemeChar(c: char) { IsLetter(c) || IsDigit(c) || c == '+' || c == '-' || c == '.' }

  predicate NotColon(c: char) { c != ':' }

  predicate NotHash(c: char) { c != '#' }

  predicate NotQuery(c: char) { c != '?' }

  predicate NotSemicolon(c: char) { c != ';' }

  predicate NotSlash(c: char) { c != '/' }

  /** A network location ends at the first `/`, `?` or `#`. */
  predicate NotNetlocEnd(c: char) { c != '/' && c != '?' && c != '#' }

  /** The schemes whose last path segment may carry `;` parameters. */
  const UsesParams: seq<string> := [
    "", "ftp", "hdl", "prospero", "http", "imap", "https", "shttp", "rtsp",
    "rtsps", "rtspu", "sip", "sips", "mms", "sftp", "tel"
  ]

  /** The URL without its tabs and line breaks: every other character is
      kept, in order (`RemoveUnsafeConcat`). */
  function RemoveUnsafe(s: string): (r: string)
    ensures |r| <= |s|
    ensures forall c :: c in r <==> c in s && !IsUnsafe(c)
    ensures (forall i :: 0 <= i < |s| ==> !IsUnsafe(s[i])) ==> r == s
    decreases |s|
  {
    if s == [] then []
    else
      var r := (if IsUnsafe(s[0]) then [] else [s[0]]) + RemoveUnsafe(s[1..]);
      assert forall c :: c in s <==> c == s[0] || c in s[1..] by {
        assert s == [s[0]] + s[1..];
      }
      r
  }

  /** Removing the unsafe characters works piece by piece, so the kept
      characters stay in their order. */
  lemma {:induction false} RemoveUnsafeConcat(a: string, b: string)
    ensures RemoveUnsafe(a + b) == RemoveUnsafe(a) + RemoveUnsafe(b)
    decreases |a|
  {
    if a == [] {
      assert a + b == b;
    } else {
      assert (a + b)[1..] == a[1..] + b;
      RemoveUnsafeConcat(a[1..], b);
    }
  }

  /** The URL after the leading controls and spaces are stripped and the
      unsafe characters removed. */
  function Prepared(url: string): string {
    RemoveUnsafe(url[RunEnd(url, 0, IsC0OrSpace)..])
  }

  /** The scheme (lower-cased) and the rest: a scheme is taken when the text
      before the first colon is non-empty, starts with an ASCII letter and
      holds only scheme characters. */
  function SplitScheme(u: string): (r: (string, string))
  {
    var i := RunEnd(u, 0, NotColon);
    if 0 < i < |u| && IsLetter(u[0]) && RunEnd(u, 0, IsSchemeChar) >= i
    then (Lower(u[..i]), u[i + 1..])
    else ([], u)
  }

  /** The path with the `;` parameters of its last segment removed. */
  function StripParams(scheme: string, rest: string): (r: string)
    ensures |r| <= |rest| && r == rest[..|r|]
  {
    if scheme in UsesParams && ';' in rest then
      if '/' in rest then
        var slash := RunStart(rest, |rest|, NotSlash);
        assert slash > 0 by {
          var k :| 0 <= k < |rest| && rest[k] == '/';
        }
        var i := RunEnd(rest, slash - 1, NotSemicolon);
        rest[..i]
      else rest[..RunEnd(rest, 0, NotSemicolon)]
    else rest
  }

  /** The parameters are cut at a `;` (or not at all) with no `/` after the
      cut, and with parameters in use every `;` before the cut has a `/`
      after it: the cut is the first `;` after the last `/`, and without
      parameters in use or without a `;` nothing is cut. */
  lemma StripParamsCut(scheme: string, rest: string)
    ensures var r := StripParams(scheme, rest);
      |r| == |rest| || rest[|r|] == ';'
    ensures var r := StripParams(scheme, rest);
      forall k :: |r| <= k < |rest| ==> rest[k] != '/'
    ensures var r := StripParams(scheme, rest);
      scheme in UsesParams ==> forall k :: 0 <= k < |r| && rest[k] == ';' ==> exists j :: k < j < |r| && rest[j] == '/'
    ensures !(scheme in UsesParams && ';' in rest) ==> StripParams(scheme, rest) == rest
  {
    var r := StripParams(scheme, rest);
    if scheme in UsesParams && ';' in rest {
      if '/' in rest {
        var slash := RunStart(rest, |rest|, NotSlash);
        var w :| 0 <= w < |rest| && rest[w] == '/';
        assert rest[slash - 1] == '/';
        forall k | 0 <= k < |r| && rest[k] == ';'
          ensures exists j :: k < j < |r| && rest[j] == '/'
        {
          assert k < slash - 1 && rest[slash - 1] == '/';
        }
      }
    }
  }

  /** `urlparse(url)`, `None` standing for the `ValueError` raised when the
      network location holds only one of `[` and `]`. */
  function UrlParse(url: string): (r: Option<SplitUrl>)
  {
    var u := Prepared(url);
    var (scheme, rest) := SplitScheme(u);
    var (netloc, after) :=
      if StartsWith(rest, "//") then
        var d := RunEnd(rest, 2, NotNetlocEnd);
        (rest[2..d], rest[d..])
      else ([], rest);
    if ('[' in netloc) != (']' in netloc) then None
    else
      var unfragmented := after[..RunEnd(after, 0, NotHash)];
      var unqueried := unfragmented[..RunEnd(unfragmented, 0, NotQuery)];
      Some(SplitUrl(scheme, netloc, StripParams(scheme, unqueried)))
  }

  /** `urlparse(url).netloc.lower()`, as far as ASCII letters go. */
  function Domain(url: string): Option<string> {
    match UrlParse(url)
    case None => None
    case Some(u) => Some(Lower(u.netloc))
  }

  predicate HostText(host: string) {
    forall i :: 0 <= i < |host| ==> NotNetlocEnd(host[i]) && host[i] != '[' && host[i] != ']' && !IsUnsafe(host[i])
  }

  predicate PathText(path: string) {
    (path == [] || path[0] == '/') &&
    forall i :: 0 <= i < |path| ==> path[i] != '?' && path[i] != '#' && path[i] != ';' && !IsUnsafe(path[i])
  }

  lemma NoneIn(s: string, c: char)
    requires forall i :: 0 <= i < |s| ==> s[i] != c
    ensures c !in s
  {
  }

  lemma RunEndWhole(s: string, i: nat, p: char -> bool)
    requires i <= |s|
    requires forall k :: i <= k < |s| ==> p(s[k])
    ensures RunEnd(s, i, p) == |s|
  {
  }

  /** Such a link has nothing to strip or remove. */
  lemma {:induction false} HttpsPrepared(host: string, path: string)
    requires HostText(host) && PathText(path)
    ensures Prepared("https://" + host + path) == "https://" + host + path
  {
    var url := "https://" + host + path;
    assert RunEnd(url, 0, IsC0OrSpace) == 0 by {
      assert !IsC0OrSpace(url[0]);
    }
    assert url[0..] == url;
    forall i | 0 <= i < |url|
      ensures !IsUnsafe(url[i])
    {
      if i >= 8 + |host| {
        assert url[i] == path[i - 8 - |host|];
      } else if i >= 8 {
        assert url[i] == host[i - 8];
      }
    }
  }

  /** Its scheme is `https`, and the rest starts with `//`. */
  lemma {:induction false} HttpsScheme(host: string, path: string)
    ensures SplitScheme("https://" + host + path) == ("https", "//" + host + path)
  {
    var url := "https://" + host + path;
    assert RunEnd(url, 0, NotColon) == 5 by {
      assert url[5] == ':';
    }
    assert RunEnd(url, 0, IsSchemeChar) >= 5 by {
      assert url[5] == ':';
    }
    assert url[6..] == "//" + host + path;
    assert Lower(url[..5]) == "https";
  }

  /** Its network location runs to the first slash of the path. */
  lemma {:induction false} HttpsNetloc(host: string, path: string)
    requires HostText(host) && PathText(path)
    ensures RunEnd("//" + host + path, 2, NotNetlocEnd) == 2 + |host|
  {
    var rest := "//" + host + path;
    forall k | 2 <= k < 2 + |host|
      ensures NotNetlocEnd(rest[k])
    {
      assert rest[k] == host[k - 2];
    }
    if path != [] {
      assert rest[2 + |host|] == '/';
    }
  }

  /** A link `https://host/path` splits into its host and its path. */
  lemma {:induction false} ParseHttps(host: string, path: string)
    requires HostText(host) && PathText(path)
    ensures UrlParse("https://" + host + path) == Some(SplitUrl("https", host, path))
  {
    var rest := "//" + host + path;
    HttpsPrepared(host, path);
    HttpsScheme(host, path);
    assert StartsWith(rest, "//");
    HttpsNetloc(host, path);
    var d := 2 + |host|;
    assert rest[2..d] == host;
    assert rest[d..] == path;
    NoneIn(host, '[');
    NoneIn(host, ']');
    RunEndWhole(path, 0, NotHash);
    assert path[..|path|] == path;
    RunEndWhole(path, 0, NotQuery);
    NoneIn(path, ';');
  }
}
