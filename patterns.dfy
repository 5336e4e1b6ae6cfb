/** The regular expressions of the news and blog modules, each written as a
    small recogniser over strings. A matcher takes the text from the position
    where `re` tries the pattern and returns the length of the match found
    there, 0 meaning no match (none of these patterns matches the empty string). */
module Patterns {
  import opened Options
  import opened Text

  predicate NotSpace(c: char) { !IsSpace(c) }

  predicate NotCloseAngle(c: char) { c != '>' }

  /** `[가-힣A-Za-z0-9]`, the class of source names. */
  predicate IsSourceChar(c: char) { IsHangul(c) || IsLetter(c) || IsDigit(c) }

  /** `[가-힣A-Za-z]`. */
  predicate IsNameLetter(c: char) { IsHangul(c) || IsLetter(c) }

  /** `[a-zA-Z0-9.-]`, the class of host names. */
  predicate IsHostChar(c: char) { IsLetter(c) || IsDigit(c) || c == '.' || c == '-' }

  /** The matcher `m` matches at index `k` of `s`. */
  predicate MatchesAt(s: string, m: string -> nat, k: nat) {
    k < |s| && 0 < m(s[k..]) <= |s| - k
  }

  /** The matcher `m` matches nowhere in `s`. */
  predicate NoMatch(s: string, m: string -> nat) {
    forall k :: 0 <= k < |s| ==> !MatchesAt(s, m, k)
  }

  /** `re.sub(pattern, "", s)` for a pattern with matcher `m`: scanning left to
      right, every match is removed and the scan resumes where it ended.
      `SubAllNoMatch` and `SubAllFirst` say what it keeps. */
  function SubAll(s: string, m: string -> nat): (r: string)
    ensures |r| <= |s|
    decreases |s|
  {
    if s == [] then []
    else if 0 < m(s) <= |s| then SubAll(s[m(s)..], m)
    else [s[0]] + SubAll(s[1..], m)
  }

  /** A text in which the pattern matches nowhere comes back unchanged. */
  lemma {:induction false} SubAllNoMatch(s: string, m: string -> nat)
    requires NoMatch(s, m)
    ensures SubAll(s, m) == s
    decreases |s|
  {
    if s != [] {
      assert s[0..] == s;
      assert !MatchesAt(s, m, 0);
      forall k | 0 <= k < |s| - 1
        ensures !MatchesAt(s[1..], m, k)
      {
        assert s[1..][k..] == s[k + 1..];
        assert !MatchesAt(s, m, k + 1);
      }
      SubAllNoMatch(s[1..], m);
      assert [s[0]] + s[1..] == s;
    }
  }

  /** Up to the first match the text is kept; the match is removed and the
      substitution goes on after it. */
  lemma {:induction false} SubAllFirst(s: string, m: string -> nat, k: nat)
    requires MatchesAt(s, m, k)
    requires forall j :: 0 <= j < k ==> !MatchesAt(s, m, j)
    ensures SubAll(s, m) == s[..k] + SubAll(s[k + m(s[k..])..], m)
    decreases k
  {
    if k > 0 {
      var t, n := s[1..], m(s[k..]);
      SubAllSkip(s, m);
      SuffixNoMatch(s, m, k);
      SubAllFirst(t, m, k - 1);
      ShiftSlices(s, k, n);
      var rest := SubAll(s[k + n..], m);
      assert m(t[k - 1..]) == n;
      assert SubAll(t, m) == t[..k - 1] + rest;
      ConsAssoc(s[0], t[..k - 1], rest, s[..k]);
    } else {
      SubAllCut(s, m);
    }
  }

  /** Where the pattern matches at the start, the match is removed. */
  lemma SubAllCut(s: string, m: string -> nat)
    requires MatchesAt(s, m, 0)
    ensures SubAll(s, m) == s[..0] + SubAll(s[m(s[0..])..], m)
  {
    assert s[0..] == s;
    assert s[..0] + SubAll(s[m(s)..], m) == SubAll(s[m(s)..], m);
  }

  /** Where the pattern does not match at the start, the first character is
      kept. */
  lemma SubAllSkip(s: string, m: string -> nat)
    requires s != [] && !MatchesAt(s, m, 0)
    ensures SubAll(s, m) == [s[0]] + SubAll(s[1..], m)
  {
    assert s[0..] == s;
  }

  lemma ConsAssoc(c: char, a: string, x: string, p: string)
    requires p == [c] + a
    ensures [c] + (a + x) == p + x
  {
  }

  lemma ShiftSlices(s: string, k: nat, n: nat)
    requires 0 < k && k + n <= |s|
    ensures s[1..][k - 1..] == s[k..] && s[1..][k - 1 + n..] == s[k + n..]
    ensures s[..k] == [s[0]] + s[1..][..k - 1]
  {
  }

  lemma SuffixNoMatch(s: string, m: string -> nat, k: nat)
    requires 0 < k <= |s|
    requires forall j :: 0 <= j < k ==> !MatchesAt(s, m, j)
    ensures MatchesAt(s, m, k) ==> MatchesAt(s[1..], m, k - 1)
    ensures forall j :: 0 <= j < k - 1 ==> !MatchesAt(s[1..], m, j)
  {
    var t := s[1..];
    assert k < |s| ==> t[k - 1..] == s[k..];
    forall j | 0 <= j < k - 1
      ensures !MatchesAt(t, m, j)
    {
      assert t[j..] == s[j + 1..];
      assert !MatchesAt(s, m, j + 1);
    }
  }

  /** `<[^>]+>`: a match exactly when the text starts with `<`, a character
      other than `>` follows and a `>` comes later; the match then runs to
      the first `>`. */
  function TagAt(s: string): (n: nat)
    ensures n <= |s|
    ensures n > 0 <==> |s| >= 3 && s[0] == '<' && s[1] != '>' && exists j :: 2 <= j < |s| && s[j] == '>'
    ensures n > 0 ==> n >= 3 && s[0] == '<' && s[n - 1] == '>' && forall k :: 1 <= k < n - 1 ==> s[k] != '>'
  {
    if s != [] && s[0] == '<' then
      var j := RunEnd(s, 1, NotCloseAngle);
      if 2 <= j < |s| then
        assert 2 <= j < |s| && s[j] == '>';
        j + 1
      else 0
    else 0
  }

  /** `t` holds no whitespace. */
  predicate NoBlank(t: string) {
    forall i :: 0 <= i < |t| ==> !IsSpace(t[i])
  }

  /** The maximal run of non-blanks from `k`, when it is not empty, after a
      prefix of `k` characters without blanks. */
  function NonBlankRun(s: string, k: nat): (n: nat)
    requires k <= |s| && NoBlank(s[..k])
    ensures n > 0 <==> k < |s| && !IsSpace(s[k])
    ensures n > 0 ==> k < n <= |s| && NoBlank(s[..n]) && (n == |s| || IsSpace(s[n]))
  {
    var j := RunEnd(s, k, NotSpace);
    assert NoBlank(s[..j]) by {
      forall i | 0 <= i < j
        ensures !IsSpace(s[..j][i])
      {
        if i < k {
          assert s[..j][i] == s[..k][i];
        } else {
          assert NotSpace(s[i]);
        }
      }
    }
    if j > k then j else 0
  }

  /** `https?://[^\s]+`: a match exactly when the text starts with
      `https://` or `http://` and a non-blank follows; the match then runs to
      the first blank or the end. */
  function UrlAt(s: string): (n: nat)
    ensures n > 0 <==> (StartsWith(s, "https://") && 8 < |s| && !IsSpace(s[8]))
                       || (StartsWith(s, "http://") && 7 < |s| && !IsSpace(s[7]))
    ensures n > 0 ==> n <= |s| && NoBlank(s[..n]) && (n == |s| || IsSpace(s[n]))
  {
    if StartsWith(s, "https://") then
      assert NoBlank(s[..8]) by { assert s[..8] == "https://"; }
      assert !StartsWith(s, "http://") by { assert s[4] == s[..8][4] == 's'; }
      NonBlankRun(s, 8)
    else if StartsWith(s, "http://") then
      assert NoBlank(s[..7]) by { assert s[..7] == "http://"; }
      NonBlankRun(s, 7)
    else 0
  }

  /** `www\.[^\s]+`: a match exactly when the text starts with `www.` and a
      non-blank follows; the match then runs to the first blank or the end. */
  function WwwAt(s: string): (n: nat)
    ensures n > 0 <==> StartsWith(s, "www.") && 4 < |s| && !IsSpace(s[4])
    ensures n > 0 ==> n <= |s| && NoBlank(s[..n]) && (n == |s| || IsSpace(s[n]))
  {
    if StartsWith(s, "www.") then
      assert NoBlank(s[..4]) by { assert s[..4] == "www."; }
      NonBlankRun(s, 4)
    else 0
  }

  /** The alternative `t` fits at `i`: it occurs there and is followed by a
      word boundary (every alternative used here ends in a word character). */
  predicate TldFits(s: string, i: nat, t: string) {
    t != [] && OccursAt(s, t, i) && (i + |t| == |s| || !IsWord(s[i + |t|]))
  }

  /** The length of the first alternative of `tlds` that fits at `i`, 0 if
      none does (`TldAtFirstFit`). */
  function TldAt(s: string, i: nat, tlds: seq<string>): (n: nat)
    ensures n > 0 ==> i + n <= |s|
    decreases |tlds|
  {
    if tlds == [] then 0
    else if TldFits(s, i, tlds[0]) then |tlds[0]|
    else TldAt(s, i, tlds[1..])
  }

  lemma {:induction false} TldAtFirstFit(s: string, i: nat, tlds: seq<string>)
    ensures TldAt(s, i, tlds) == 0 <==> forall k :: 0 <= k < |tlds| ==> !TldFits(s, i, tlds[k])
    ensures TldAt(s, i, tlds) > 0 ==>
      exists k :: 0 <= k < |tlds| && |tlds[k]| == TldAt(s, i, tlds) && TldFits(s, i, tlds[k])
                  && forall k' :: 0 <= k' < k ==> !TldFits(s, i, tlds[k'])
    decreases |tlds|
  {
    if tlds != [] && !TldFits(s, i, tlds[0]) {
      TldAtFirstFit(s, i, tlds[1..]);
      assert forall k :: 1 <= k < |tlds| ==> tlds[k] == tlds[1..][k - 1];
      if TldAt(s, i, tlds) > 0 {
        var k :| 0 <= k < |tlds[1..]| && |tlds[1..][k]| == TldAt(s, i, tlds) && TldFits(s, i, tlds[1..][k])
                  && forall k' :: 0 <= k' < k ==> !TldFits(s, i, tlds[1..][k']);
        assert tlds[k + 1] == tlds[1..][k];
      }
    }
  }

  /** A dot at `d` followed by a fitting alternative. */
  predicate DotTld(s: string, d: nat, tlds: seq<string>) {
    d < |s| && s[d] == '.' && TldAt(s, d + 1, tlds) > 0
  }

  /** `s[a..d]` is made of host-name characters. */
  predicate HostRun(s: string, a: nat, d: nat) {
    a <= d <= |s| && forall i :: a <= i < d ==> IsHostChar(s[i])
  }

  /** The greedy host-name run backs off from `j` to the last dot, at index 1
      or later, that is followed by one of `tlds`. */
  function HostDotFrom(s: string, j: nat, tlds: seq<string>): (n: nat)
    requires j < |s|
    ensures n <= |s|
    ensures n == 0 <==> forall d :: 1 <= d <= j ==> !DotTld(s, d, tlds)
    ensures n > 0 ==> exists d :: 1 <= d <= j && DotTld(s, d, tlds) && n == d + 1 + TldAt(s, d + 1, tlds)
                                  && forall d' :: d < d' <= j ==> !DotTld(s, d', tlds)
    decreases j
  {
    if j == 0 then 0
    else if DotTld(s, j, tlds) then
      var n := j + 1 + TldAt(s, j + 1, tlds);
      assert 1 <= j <= j && DotTld(s, j, tlds) && n == j + 1 + TldAt(s, j + 1, tlds);
      n
    else
      var n := HostDotFrom(s, j - 1, tlds);
      assert forall d :: 1 <= d <= j ==> (DotTld(s, d, tlds) <==> d < j && DotTld(s, d, tlds));
      n
  }

  /** `[a-zA-Z0-9.-]+\.(tld|...)\b` at the start of `s`: there is a match
      exactly when a non-empty host-name run is followed by a dot and a
      fitting alternative; the match ends after the alternative that follows
      the last such dot. */
  function DomainAt(s: string, tlds: seq<string>): (n: nat)
    ensures n <= |s|
    ensures n > 0 <==> exists d :: 1 <= d < |s| && HostRun(s, 0, d) && DotTld(s, d, tlds)
    ensures n > 0 ==> exists d :: 1 <= d < |s| && HostRun(s, 0, d) && DotTld(s, d, tlds)
                                  && n == d + 1 + TldAt(s, d + 1, tlds)
                                  && forall d' :: d < d' < |s| && HostRun(s, 0, d') ==> !DotTld(s, d', tlds)
  {
    var r := RunEnd(s, 0, IsHostChar);
    assert forall d :: 1 <= d < |s| && DotTld(s, d, tlds) ==> (HostRun(s, 0, d) <==> d < r);
    if r >= 2 then HostDotFrom(s, r - 1, tlds) else 0
  }

  /** A dot at `d`, after at least two characters of the run, followed by at
      least two ASCII letters. */
  predicate LetterTld(s: string, d: nat) {
    3 <= d < |s| && s[d] == '.' && RunEnd(s, d + 1, IsLetter) >= d + 3
  }

  /** The greedy run backs off from `j` to the last dot followed by at least
      two ASCII letters, which are all taken. */
  function LetterTldFrom(s: string, j: nat): (n: nat)
    requires j < |s|
    ensures n <= |s|
    ensures n == 0 <==> forall d :: 3 <= d <= j ==> !LetterTld(s, d)
    ensures n > 0 ==> exists d :: 3 <= d <= j && LetterTld(s, d) && n == RunEnd(s, d + 1, IsLetter)
                                  && forall d' :: d < d' <= j ==> !LetterTld(s, d')
    decreases j
  {
    if j < 3 then 0
    else if LetterTld(s, j) then
      var n := RunEnd(s, j + 1, IsLetter);
      assert 3 <= j <= j && LetterTld(s, j) && n == RunEnd(s, j + 1, IsLetter);
      n
    else
      var n := LetterTldFrom(s, j - 1);
      assert forall d :: 3 <= d <= j ==> (LetterTld(s, d) <==> d < j && LetterTld(s, d));
      n
  }

  /** `v\.[a-zA-Z0-9.-]+\.[a-zA-Z]{2,}` (host names such as `v.daum.net`) at
      the start of `s`: a match exactly when the text starts with `v.`, a
      non-empty host-name run follows, then a dot and two ASCII letters; the
      match takes every letter after the last such dot. */
  function VHostAt(s: string): (n: nat)
    ensures n <= |s|
    ensures n > 0 <==> StartsWith(s, "v.") && exists d :: 3 <= d < |s| && HostRun(s, 2, d) && LetterTld(s, d)
    ensures n > 0 ==> exists d :: 3 <= d < |s| && HostRun(s, 2, d) && LetterTld(s, d)
                                  && n == RunEnd(s, d + 1, IsLetter)
                                  && forall d' :: d < d' < |s| && HostRun(s, 2, d') ==> !LetterTld(s, d')
  {
    if StartsWith(s, "v.") then
      var r := RunEnd(s, 2, IsHostChar);
      assert forall d :: 3 <= d < |s| && LetterTld(s, d) ==> (HostRun(s, 2, d) <==> d < r);
      if r >= 4 then LetterTldFrom(s, r - 1) else 0
    else 0
  }

  /** Where the match of `\s*-\s*[cls]+(?:ext)?\s*$` starts, trying the
      endings of `exts` in order (`DashTailStartFinds`). For the classes and
      endings used here at most one ending can fit, so the order does not
      change the answer. */
  function DashTailStart(s: string, cls: char -> bool, exts: seq<string>): (p: Option<nat>)
    ensures p.Some? ==> p.value < |s| && SpaceRunEnd(s, p.value) < |s| && s[SpaceRunEnd(s, p.value)] == '-'
    decreases |exts|
  {
    if exts == [] then None
    else
      match DashTailFor(s, cls, exts[0])
      case Some(p) =>
        DashTailForDash(s, cls, exts[0]);
        Some(p)
      case None => DashTailStart(s, cls, exts[1..])
  }

  /** The match for one ending `ext`: the ending just before the trailing
      blanks, the maximal run of `cls` before it, then blanks and a dash. */
  function DashTailFor(s: string, cls: char -> bool, ext: string): Option<nat> {
    DashTailBefore(s, cls, ext, |RStrip(s)|)
  }

  /** The match for one ending that ends at `e`. */
  function DashTailBefore(s: string, cls: char -> bool, ext: string, e: nat): Option<nat>
    requires e <= |s|
  {
    if |ext| <= e && s[e - |ext|..e] == ext then
      var b := e - |ext|;
      DashBeforeRun(s, RunStart(s, b, cls), b)
    else None
  }

  /** Where a non-empty run `s[a..b]` is preceded by blanks and a dash: the
      start of the blanks before the dash. */
  function DashBeforeRun(s: string, a: nat, b: nat): Option<nat>
    requires a <= b <= |s|
  {
    var d := RunStart(s, a, IsSpace);
    if a < b && d >= 1 && s[d - 1] == '-' then Some(RunStart(s, d - 1, IsSpace)) else None
  }

  /** A start found for one ending is followed by blanks and the dash. */
  lemma DashTailForDash(s: string, cls: char -> bool, ext: string)
    requires DashTailFor(s, cls, ext).Some?
    ensures var p := DashTailFor(s, cls, ext).value;
      p < |s| && SpaceRunEnd(s, p) < |s| && s[SpaceRunEnd(s, p)] == '-'
  {
    var p := DashTailFor(s, cls, ext).value;
    var q, c, b := DashTailForParts(s, cls, ext);
    RunEndIs(s, p, q, IsSpace);
  }

  function SpaceRunEnd(s: string, i: nat): nat
    requires i <= |s|
  {
    RunEnd(s, i, IsSpace)
  }

  /** `s[p..]` matches `\s*-\s*[cls]+(?:ext)?\s*$` with the dash at `q`, the
      run of `cls` at `c..b` and the ending `ext` at `b`. */
  predicate DashTailParts(s: string, cls: char -> bool, ext: string, p: nat, q: nat, c: nat, b: nat) {
    && p <= q < c < b && b + |ext| <= |s|
    && Blanks(s, p, q) && s[q] == '-' && Blanks(s, q + 1, c)
    && (forall k :: c <= k < b ==> cls(s[k]))
    && s[b..b + |ext|] == ext && Blanks(s, b + |ext|, |s|)
  }

  /** The class holds neither blanks nor the dash, and every ending is empty
      or ends in a non-blank: then a match is fixed by its ending. */
  predicate TailFits(cls: char -> bool, exts: seq<string>) {
    && (forall ch :: cls(ch) ==> !IsSpace(ch) && ch != '-')
    && (forall x :: 0 <= x < |exts| ==> exts[x] == [] || !IsSpace(exts[x][|exts[x]| - 1]))
  }

  /** A match found for one ending is a match. */
  lemma DashTailForParts(s: string, cls: char -> bool, ext: string) returns (q: nat, c: nat, b: nat)
    requires DashTailFor(s, cls, ext).Some?
    ensures DashTailParts(s, cls, ext, DashTailFor(s, cls, ext).value, q, c, b)
  {
    q, c, b := DashTailBeforeParts(s, cls, ext, |RStrip(s)|);
  }

  lemma DashTailBeforeParts(s: string, cls: char -> bool, ext: string, e: nat) returns (q: nat, c: nat, b: nat)
    requires e <= |s| && Blanks(s, e, |s|) && DashTailBefore(s, cls, ext, e).Some?
    ensures DashTailParts(s, cls, ext, DashTailBefore(s, cls, ext, e).value, q, c, b)
  {
    b := e - |ext|;
    c := RunStart(s, b, cls);
    q := RunStart(s, c, IsSpace) - 1;
  }

  /** Every match for an ending is found, starting no later than it. */
  lemma DashTailForFinds(s: string, cls: char -> bool, ext: string, p: nat, q: nat, c: nat, b: nat)
    requires forall ch :: cls(ch) ==> !IsSpace(ch) && ch != '-'
    requires ext == [] || !IsSpace(ext[|ext| - 1])
    requires DashTailParts(s, cls, ext, p, q, c, b)
    ensures DashTailFor(s, cls, ext).Some? && DashTailFor(s, cls, ext).value <= p
  {
    DashTailPartsFixed(s, cls, ext, p, q, c, b);
    DashTailForAt(s, cls, ext, b, c, q);
  }

  /** `DashTailFor` from the positions it computes. */
  lemma DashTailForAt(s: string, cls: char -> bool, ext: string, b: nat, a: nat, q: nat)
    requires b + |ext| == |RStrip(s)| && s[b..b + |ext|] == ext
    requires a == RunStart(s, b, cls) && a < b && RunStart(s, a, IsSpace) == q + 1 && s[q] == '-'
    ensures DashTailFor(s, cls, ext) == Some(RunStart(s, q, IsSpace))
  {
    DashTailForEnding(s, cls, ext, b);
    DashBeforeRunAt(s, a, b, q);
  }

  /** With the ending in place, `DashTailFor` looks before the run ending at it. */
  lemma DashTailForEnding(s: string, cls: char -> bool, ext: string, b: nat)
    requires b + |ext| == |RStrip(s)| && s[b..b + |ext|] == ext
    ensures DashTailFor(s, cls, ext) == DashBeforeRun(s, RunStart(s, b, cls), b)
  {
    DashTailBeforeAt(s, cls, ext, b, |RStrip(s)|);
  }

  lemma DashTailBeforeAt(s: string, cls: char -> bool, ext: string, b: nat, e: nat)
    requires b + |ext| == e <= |s| && s[b..e] == ext
    ensures DashTailBefore(s, cls, ext, e) == DashBeforeRun(s, RunStart(s, b, cls), b)
  { }

  /** A non-empty run preceded by blanks and a dash. */
  lemma DashBeforeRunAt(s: string, a: nat, b: nat, q: nat)
    requires a < b <= |s| && RunStart(s, a, IsSpace) == q + 1 && s[q] == '-'
    ensures DashBeforeRun(s, a, b) == Some(RunStart(s, q, IsSpace))
  { }

  /** The positions of a match are those `DashTailFor` computes. */
  lemma DashTailPartsFixed(s: string, cls: char -> bool, ext: string, p: nat, q: nat, c: nat, b: nat)
    requires forall ch :: cls(ch) ==> !IsSpace(ch) && ch != '-'
    requires ext == [] || !IsSpace(ext[|ext| - 1])
    requires DashTailParts(s, cls, ext, p, q, c, b)
    ensures |RStrip(s)| == b + |ext| && RunStart(s, b, cls) == c
    ensures RunStart(s, c, IsSpace) == q + 1 && RunStart(s, q, IsSpace) <= p
  {
    assert !IsSpace(s[b + |ext| - 1]) by {
      if ext != [] {
        assert s[b + |ext| - 1] == s[b..b + |ext|][|ext| - 1];
      }
    }
    StripsAt(s, b + |ext|);
    RunStartIs(s, c, b, cls);
    RunStartIs(s, q + 1, c, IsSpace);
    RunStartWithin(s, p, q, IsSpace);
  }

  /** The dash-tail search answers with the start of a match for the first
      ending, in list order, that has one, and that start is the leftmost
      for that ending; it answers nothing exactly when no ending has a
      match. */
  lemma {:induction false} DashTailStartFinds(s: string, cls: char -> bool, exts: seq<string>)
    returns (x: nat, q: nat, c: nat, b: nat)
    requires TailFits(cls, exts)
    ensures DashTailStart(s, cls, exts).None? <==>
      forall x': nat, p': nat, q': nat, c': nat, b': nat :: x' < |exts| ==> !DashTailParts(s, cls, exts[x'], p', q', c', b')
    ensures DashTailStart(s, cls, exts).Some? ==>
      && x < |exts| && DashTailParts(s, cls, exts[x], DashTailStart(s, cls, exts).value, q, c, b)
      && (forall p': nat, q': nat, c': nat, b': nat ::
            DashTailParts(s, cls, exts[x], p', q', c', b') ==> DashTailStart(s, cls, exts).value <= p')
      && forall x': nat, p': nat, q': nat, c': nat, b': nat :: x' < x ==> !DashTailParts(s, cls, exts[x'], p', q', c', b')
    decreases |exts|
  {
    if exts == [] {
      x, q, c, b := 0, 0, 0, 0;
    } else if DashTailFor(s, cls, exts[0]).Some? {
      x := 0;
      q, c, b := DashTailStartFirst(s, cls, exts);
    } else {
      DashTailForNone(s, cls, exts[0]);
      var x1;
      x1, q, c, b := DashTailStartFinds(s, cls, exts[1..]);
      x := x1 + 1;
      DashTailStartShift(s, cls, exts);
      if DashTailStart(s, cls, exts).Some? {
        assert exts[x] == exts[1..][x1];
      }
    }
  }

  /** When the first ending has no match, the search goes on with the rest. */
  lemma DashTailStartShift(s: string, cls: char -> bool, exts: seq<string>)
    requires exts != [] && DashTailFor(s, cls, exts[0]).None?
    ensures DashTailStart(s, cls, exts) == DashTailStart(s, cls, exts[1..])
    ensures forall x: nat :: 0 < x < |exts| ==> exts[x] == exts[1..][x - 1]
  { }

  /** When the first ending has a match, the search answers with its leftmost start. */
  lemma DashTailStartFirst(s: string, cls: char -> bool, exts: seq<string>) returns (q: nat, c: nat, b: nat)
    requires TailFits(cls, exts) && exts != [] && DashTailFor(s, cls, exts[0]).Some?
    ensures DashTailStart(s, cls, exts) == DashTailFor(s, cls, exts[0])
    ensures DashTailParts(s, cls, exts[0], DashTailFor(s, cls, exts[0]).value, q, c, b)
    ensures forall p': nat, q': nat, c': nat, b': nat ::
      DashTailParts(s, cls, exts[0], p', q', c', b') ==> DashTailFor(s, cls, exts[0]).value <= p'
  {
    q, c, b := DashTailForParts(s, cls, exts[0]);
    forall p': nat, q': nat, c': nat, b': nat | DashTailParts(s, cls, exts[0], p', q', c', b')
      ensures DashTailFor(s, cls, exts[0]).value <= p'
    {
      DashTailForFinds(s, cls, exts[0], p', q', c', b');
    }
  }

  /** When the search for one ending finds nothing, there is no match for it. */
  lemma DashTailForNone(s: string, cls: char -> bool, ext: string)
    requires forall ch :: cls(ch) ==> !IsSpace(ch) && ch != '-'
    requires ext == [] || !IsSpace(ext[|ext| - 1])
    requires DashTailFor(s, cls, ext).None?
    ensures forall p': nat, q': nat, c': nat, b': nat :: !DashTailParts(s, cls, ext, p', q', c', b')
  {
    forall p': nat, q': nat, c': nat, b': nat
      ensures !DashTailParts(s, cls, ext, p', q', c', b')
    {
      if DashTailParts(s, cls, ext, p', q', c', b') {
        DashTailForFinds(s, cls, ext, p', q', c', b');
      }
    }
  }

  /** `re.sub(pattern, "", s)` for an end-anchored dash pattern. */
  function DashTailRemoved(s: string, cls: char -> bool, exts: seq<string>): (r: string)
    ensures |r| <= |s| && r == s[..|r|]
  {
    match DashTailStart(s, cls, exts)
    case None => s
    case Some(p) => s[..p]
  }

  /** The removal leaves the text unchanged exactly when no ending has a
      match, and otherwise cuts the text where a match starts, the leftmost
      one for its ending. */
  lemma DashTailRemovedCuts(s: string, cls: char -> bool, exts: seq<string>)
    requires TailFits(cls, exts)
    ensures DashTailRemoved(s, cls, exts) == s <==>
      forall x: nat, p: nat, q: nat, c: nat, b: nat :: x < |exts| ==> !DashTailParts(s, cls, exts[x], p, q, c, b)
    ensures DashTailRemoved(s, cls, exts) != s ==>
      exists x: nat, q: nat, c: nat, b: nat :: x < |exts| && DashTailParts(s, cls, exts[x], |DashTailRemoved(s, cls, exts)|, q, c, b)
        && forall p': nat, q': nat, c': nat, b': nat ::
             DashTailParts(s, cls, exts[x], p', q', c', b') ==> |DashTailRemoved(s, cls, exts)| <= p'
  {
    var x, q, c, b := DashTailStartFinds(s, cls, exts);
  }

  /** The suffixes a news outlet's name ends with in titles and descriptions. */
  const OutletSuffixes: seq<string> := [
    "저널", "뉴스", "신문", "일보", "방송", "미디어",
    "타임즈", "헤럴드", "포스트", "투데이", "데일리", "위클리"
  ]

  /** The suffixes recognised inside brackets: the first six above. */
  const BracketSuffixes: seq<string> := OutletSuffixes[..6]

  /** `[cls]+(?:suffix|...)`: a name strictly longer than one of the suffixes
      and ending with it. */
  predicate OutletName(name: string, suffixes: seq<string>)
    decreases |suffixes|
  {
    suffixes != [] &&
    ((|suffixes[0]| < |name| && EndsWith(name, suffixes[0])) || OutletName(name, suffixes[1..]))
  }

  /** The group of `\s*-?\s*([가-힣A-Za-z0-9]+(?:suffix|...))\s*$` searched in
      `s`; with `dash` the hyphen is required. The group is the maximal run of
      name characters that ends the text before trailing blanks. */
  function TrailingOutlet(s: string, dash: bool): (r: Option<string>)
    ensures r.Some? ==> OutletName(r.value, OutletSuffixes)
    ensures r.Some? ==> forall i :: 0 <= i < |r.value| ==> IsSourceChar(r.value[i])
  {
    var e := |RStrip(s)|;
    var a := RunStart(s, e, IsSourceChar);
    var d := RunStart(s, a, IsSpace);
    if a < e && OutletName(s[a..e], OutletSuffixes) && (dash ==> d >= 1 && s[d - 1] == '-')
    then Some(s[a..e])
    else None
  }

  /** Every character of `s[i..j]` is blank. */
  predicate Blanks(s: string, i: nat, j: nat) {
    i <= j <= |s| && forall k :: i <= k < j ==> IsSpace(s[k])
  }

  /** A hyphen comes before index `g`, with only blanks between the two. */
  predicate DashBefore(s: string, g: nat) {
    g <= |s| && exists q :: 0 <= q < g && s[q] == '-' && Blanks(s, q + 1, g)
  }

  /** `s[g..e]` can be the group of the trailing outlet pattern: name
      characters ending in an outlet suffix with only blanks after them, and,
      with `dash`, a hyphen and blanks before them. */
  predicate OutletTailAt(s: string, g: nat, e: nat, dash: bool) {
    && g < e <= |s| && Blanks(s, e, |s|)
    && (forall k :: g <= k < e ==> IsSourceChar(s[k]))
    && OutletName(s[g..e], OutletSuffixes)
    && (dash ==> DashBefore(s, g))
  }

  /** A name with an outlet suffix keeps it when characters are put in front. */
  lemma {:induction false} OutletNameExtend(x: string, name: string, suffixes: seq<string>)
    requires OutletName(name, suffixes)
    ensures OutletName(x + name, suffixes)
    decreases |suffixes|
  {
    if |suffixes[0]| < |name| && EndsWith(name, suffixes[0]) {
      assert (x + name)[|x + name| - |suffixes[0]|..] == name[|name| - |suffixes[0]|..];
    } else {
      OutletNameExtend(x, name, suffixes[1..]);
    }
  }

  lemma SourceCharIsNotBlank(c: char)
    ensures IsSourceChar(c) ==> !IsSpace(c) && c != '-'
  {
  }

  /** Text that has a non-blank at `e - 1` and only blanks from `e` on is
      stripped at `e`. */
  lemma StripsAt(s: string, e: nat)
    requires 0 < e <= |s| && !IsSpace(s[e - 1]) && Blanks(s, e, |s|)
    ensures |RStrip(s)| == e
  {
  }

  lemma OutletNameOfRun(s: string, a: nat, g: nat, e: nat)
    requires a <= g <= e <= |s| && OutletName(s[g..e], OutletSuffixes)
    ensures OutletName(s[a..e], OutletSuffixes)
  {
    assert s[a..e] == s[a..g] + s[g..e];
    OutletNameExtend(s[a..g], s[g..e], OutletSuffixes);
  }

  /** A candidate group ends where the blanks at the end of the text begin,
      and starts no earlier than the name run `a` ending there, whose own
      text then passes the test of `TrailingOutlet`. */
  lemma OutletTailIsRun(s: string, g: nat, e: nat, dash: bool) returns (a: nat)
    requires OutletTailAt(s, g, e, dash)
    ensures e == |RStrip(s)| && a == RunStart(s, e, IsSourceChar)
    ensures a <= g && a < e && OutletName(s[a..e], OutletSuffixes)
    ensures dash ==> g == a && RunStart(s, a, IsSpace) >= 1 && s[RunStart(s, a, IsSpace) - 1] == '-'
  {
    SourceCharIsNotBlank(s[e - 1]);
    StripsAt(s, e);
    a := RunStart(s, e, IsSourceChar);
    RunStartWithin(s, g, e, IsSourceChar);
    OutletNameOfRun(s, a, g, e);
    if dash {
      DashRunStart(s, a, g);
    }
  }

  /** The run of `p` ending at `e` starts no later than any stretch of `p`
      ending there. */
  lemma RunStartWithin(s: string, g: nat, e: nat, p: char -> bool)
    requires g <= e <= |s| && forall k :: g <= k < e ==> p(s[k])
    ensures RunStart(s, e, p) <= g
  {
  }

  /** A hyphen and blanks before `g`, where the name run starting at `a <= g`
      ends the text: then `g` is `a`, and the blanks before `a` follow a
      hyphen. */
  lemma DashRunStart(s: string, a: nat, g: nat)
    requires a <= g < |s| && DashBefore(s, g)
    requires forall k :: a <= k <= g ==> IsSourceChar(s[k])
    ensures g == a && RunStart(s, a, IsSpace) >= 1 && s[RunStart(s, a, IsSpace) - 1] == '-'
  {
    var q :| 0 <= q < g && s[q] == '-' && Blanks(s, q + 1, g);
    SourceCharIsNotBlank(s[g - 1]);
    RunStartIs(s, q + 1, a, IsSpace);
  }

  /** The trailing outlet search finds a name exactly when some candidate
      group exists, and returns the longest candidate, which is the group of
      the leftmost match. */
  lemma TrailingOutletFinds(s: string, dash: bool)
    ensures TrailingOutlet(s, dash).None? <==> forall g: nat, e: nat :: !OutletTailAt(s, g, e, dash)
    ensures TrailingOutlet(s, dash).Some? ==>
      exists g: nat, e: nat :: OutletTailAt(s, g, e, dash) && TrailingOutlet(s, dash).value == s[g..e]
        && forall g': nat, e': nat :: OutletTailAt(s, g', e', dash) ==> g <= g'
  {
    if TrailingOutlet(s, dash).Some? {
      var a, e := TrailingOutletFound(s, dash);
      TrailingOutletLongest(s, dash, a, e);
    } else {
      TrailingOutletNone(s, dash);
    }
  }

  lemma TrailingOutletLongest(s: string, dash: bool, a: nat, e: nat)
    requires e == |RStrip(s)| && a == RunStart(s, e, IsSourceChar)
    ensures forall g': nat, e': nat :: OutletTailAt(s, g', e', dash) ==> a <= g'
  {
    forall g': nat, e': nat | OutletTailAt(s, g', e', dash)
      ensures a <= g'
    {
      var a' := OutletTailIsRun(s, g', e', dash);
    }
  }

  lemma TrailingOutletNone(s: string, dash: bool)
    requires TrailingOutlet(s, dash).None?
    ensures forall g: nat, e: nat :: !OutletTailAt(s, g, e, dash)
  {
    forall g: nat, e: nat
      ensures !OutletTailAt(s, g, e, dash)
    {
      if OutletTailAt(s, g, e, dash) {
        var a := OutletTailIsRun(s, g, e, dash);
      }
    }
  }

  /** A name found by `TrailingOutlet` is a candidate group. */
  lemma TrailingOutletFound(s: string, dash: bool) returns (a: nat, e: nat)
    requires TrailingOutlet(s, dash).Some?
    ensures e == |RStrip(s)| && a == RunStart(s, e, IsSourceChar)
    ensures OutletTailAt(s, a, e, dash) && TrailingOutlet(s, dash).value == s[a..e]
  {
    e := |RStrip(s)|;
    a := RunStart(s, e, IsSourceChar);
    var d := RunStart(s, a, IsSpace);
    if dash {
      assert 0 <= d - 1 < a && s[d - 1] == '-' && Blanks(s, d, a);
    }
  }

  /** The group of `\(([가-힣A-Za-z0-9]+(?:suffix|...))\)` (with `(` and `)`
      replaced by `open` and `close`), searched from index `i`; what it finds
      is stated by `BracketOutletFinds`. */
  function BracketOutletFrom(s: string, i: nat, open: char, close: char): (r: Option<string>)
    requires i <= |s|
    ensures r.Some? ==> OutletName(r.value, BracketSuffixes)
    decreases |s| - i
  {
    if i == |s| then None
    else if BracketAt(s, i, open, close) then Some(s[i + 1..RunEnd(s, i + 1, IsSourceChar)])
    else BracketOutletFrom(s, i + 1, open, close)
  }

  /** The bracket pattern matches at `i`: the name run after `open` is closed
      by `close` and ends with a bracket suffix. */
  predicate BracketAt(s: string, i: nat, open: char, close: char)
    requires i < |s|
  {
    s[i] == open
    && var q := RunEnd(s, i + 1, IsSourceChar);
       q < |s| && s[q] == close && OutletName(s[i + 1..q], BracketSuffixes)
  }

  /** `s[p..q + 1]` is a match of the bracket pattern: `open`, name
      characters ending in a bracket suffix, then `close`. */
  predicate BracketGroup(s: string, p: nat, q: nat, open: char, close: char) {
    && p < q < |s| && s[p] == open && s[q] == close
    && (forall k :: p < k < q ==> IsSourceChar(s[k]))
    && OutletName(s[p + 1..q], BracketSuffixes)
  }

  /** With a closing character that cannot be part of a name, a match at `p`
      is the one `BracketAt` finds. */
  lemma BracketGroupAt(s: string, p: nat, q: nat, open: char, close: char)
    requires !IsSourceChar(close) && BracketGroup(s, p, q, open, close)
    ensures BracketAt(s, p, open, close) && RunEnd(s, p + 1, IsSourceChar) == q
  {
    RunEndIs(s, p + 1, q, IsSourceChar);
  }

  /** The search from `i` returns the group of the leftmost match at `i` or
      later, and nothing when there is no match there. */
  lemma {:induction false} BracketScan(s: string, i: nat, open: char, close: char) returns (p: nat, q: nat)
    requires i <= |s| && !IsSourceChar(close)
    ensures BracketOutletFrom(s, i, open, close).None? ==>
      forall p': nat, q': nat :: i <= p' ==> !BracketGroup(s, p', q', open, close)
    ensures BracketOutletFrom(s, i, open, close).Some? ==>
      && i <= p && BracketGroup(s, p, q, open, close)
      && BracketOutletFrom(s, i, open, close).value == s[p + 1..q]
      && forall p': nat, q': nat :: i <= p' < p ==> !BracketGroup(s, p', q', open, close)
    decreases |s| - i
  {
    if i == |s| {
      p, q := i, i;
    } else if BracketAt(s, i, open, close) {
      p, q := i, RunEnd(s, i + 1, IsSourceChar);
    } else {
      p, q := BracketScan(s, i + 1, open, close);
      forall q': nat | BracketGroup(s, i, q', open, close)
        ensures false
      {
        BracketGroupAt(s, i, q', open, close);
      }
    }
  }

  /** The bracket search finds a name exactly when the pattern matches at or
      after `i`, and then returns the group of the leftmost match. */
  lemma BracketOutletFinds(s: string, i: nat, open: char, close: char)
    requires i <= |s| && !IsSourceChar(close)
    ensures BracketOutletFrom(s, i, open, close).None? <==>
      forall p: nat, q: nat :: i <= p ==> !BracketGroup(s, p, q, open, close)
    ensures BracketOutletFrom(s, i, open, close).Some? ==>
      exists p: nat, q: nat :: i <= p && BracketGroup(s, p, q, open, close)
        && BracketOutletFrom(s, i, open, close).value == s[p + 1..q]
        && forall p': nat, q': nat :: i <= p' < p ==> !BracketGroup(s, p', q', open, close)
  {
    var p, q := BracketScan(s, i, open, close);
  }

  /** The group of `\(([가-힣A-Za-z0-9]+\s*블로그)\)` at an opening bracket at
      `i`: either a name run ending in 블로그, or a name run, blanks and 블로그. */
  function BlogBracketAt(s: string, i: nat): (r: Option<string>)
    requires i < |s|
    ensures r.Some? ==> EndsWith(r.value, "블로그") && |r.value| > 3
  {
    if s[i] != '(' then None
    else
      var q := RunEnd(s, i + 1, IsSourceChar);
      if q == i + 1 || q == |s| then None
      else if s[q] == ')' then
        (if |s[i + 1..q]| > 3 && EndsWith(s[i + 1..q], "블로그") then Some(s[i + 1..q]) else None)
      else
        var w := RunEnd(s, q, IsSpace);
        if w > q && w + 3 < |s| && s[w..w + 3] == "블로그" && s[w + 3] == ')'
        then Some(s[i + 1..w + 3])
        else None
  }

  /** `re.search` of the blog bracket pattern from index `i`. */
  function BlogBracketFrom(s: string, i: nat): (r: Option<string>)
    requires i <= |s|
    ensures r.Some? ==> EndsWith(r.value, "블로그") && |r.value| > 3
    decreases |s| - i
  {
    if i == |s| then None
    else if BlogBracketAt(s, i).Some? then BlogBracketAt(s, i)
    else BlogBracketFrom(s, i + 1)
  }

  /** `s[p..q + 1]` is a match of `\(([가-힣A-Za-z0-9]+\s*블로그)\)` whose
      name part ends at `c`: a bracket, a non-empty name run, blanks,
      "블로그" and a closing bracket. */
  predicate BlogGroup(s: string, p: nat, c: nat, q: nat) {
    && p + 1 < c && c + 3 <= q < |s|
    && s[p] == '(' && s[q] == ')' && s[q - 3..q] == "블로그"
    && (forall k :: p < k < c ==> IsSourceChar(s[k]))
    && Blanks(s, c, q - 3)
  }

  /** A match at `p` is what `BlogBracketAt` finds there. */
  lemma BlogGroupAt(s: string, p: nat, c: nat, q: nat)
    requires BlogGroup(s, p, c, q)
    ensures BlogBracketAt(s, p) == Some(s[p + 1..q])
  {
    BlogWordIsName(s, q);
    if c == q - 3 {
      BlogGroupAtClosed(s, p, q);
    } else {
      BlogGroupAtBlanks(s, p, c, q);
    }
  }

  lemma BlogWordIsName(s: string, q: nat)
    requires 3 <= q <= |s| && s[q - 3..q] == "블로그"
    ensures forall k :: q - 3 <= k < q ==> IsSourceChar(s[k])
  {
    assert s[q - 3] == '블' && s[q - 2] == '로' && s[q - 1] == '그';
  }

  /** A match without blanks: the name run reaches the closing bracket. */
  lemma BlogGroupAtClosed(s: string, p: nat, q: nat)
    requires p + 4 < q < |s| && s[p] == '(' && s[q] == ')' && s[q - 3..q] == "블로그"
    requires forall k :: p < k < q ==> IsSourceChar(s[k])
    ensures BlogBracketAt(s, p) == Some(s[p + 1..q])
  {
    RunEndIs(s, p + 1, q, IsSourceChar);
    assert s[p + 1..q][|s[p + 1..q]| - 3..] == s[q - 3..q];
  }

  /** A match with blanks: the name run stops at the first blank. */
  lemma BlogGroupAtBlanks(s: string, p: nat, c: nat, q: nat)
    requires BlogGroup(s, p, c, q) && c < q - 3
    ensures BlogBracketAt(s, p) == Some(s[p + 1..q])
  {
    SourceCharIsNotBlank(s[c]);
    SourceCharIsNotBlank(s[q - 3]);
    RunEndIs(s, p + 1, c, IsSourceChar);
    RunEndIs(s, c, q - 3, IsSpace);
  }

  /** What `BlogBracketAt` finds at `p` is the group of a match there. */
  lemma BlogBracketAtGroup(s: string, p: nat) returns (c: nat, q: nat)
    requires p < |s| && BlogBracketAt(s, p).Some?
    ensures BlogGroup(s, p, c, q) && BlogBracketAt(s, p).value == s[p + 1..q]
  {
    var r := RunEnd(s, p + 1, IsSourceChar);
    if s[r] == ')' {
      c, q := r - 3, r;
      assert s[q - 3..q] == s[p + 1..r][|s[p + 1..r]| - 3..];
    } else {
      var w := RunEnd(s, r, IsSpace);
      c, q := r, w + 3;
    }
  }

  /** The blog bracket search from `i` returns the group of the leftmost
      match at `i` or later, and nothing when there is no match there. */
  lemma {:induction false} BlogBracketScan(s: string, i: nat) returns (p: nat, c: nat, q: nat)
    requires i <= |s|
    ensures BlogBracketFrom(s, i).None? ==>
      forall p': nat, c': nat, q': nat :: i <= p' ==> !BlogGroup(s, p', c', q')
    ensures BlogBracketFrom(s, i).Some? ==>
      && i <= p && BlogGroup(s, p, c, q) && BlogBracketFrom(s, i).value == s[p + 1..q]
      && forall p': nat, c': nat, q': nat :: i <= p' < p ==> !BlogGroup(s, p', c', q')
    decreases |s| - i
  {
    if i == |s| {
      p, c, q := i, i, i;
    } else if BlogBracketAt(s, i).Some? {
      p := i;
      c, q := BlogBracketAtGroup(s, i);
    } else {
      p, c, q := BlogBracketScan(s, i + 1);
      forall c': nat, q': nat | BlogGroup(s, i, c', q')
        ensures false
      {
        BlogGroupAt(s, i, c', q');
      }
    }
  }

  /** The blog bracket search finds a name exactly when the pattern matches
      at or after `i`, and then returns the group of the leftmost match. */
  lemma BlogBracketFinds(s: string, i: nat)
    requires i <= |s|
    ensures BlogBracketFrom(s, i).None? <==> forall p: nat, c: nat, q: nat :: i <= p ==> !BlogGroup(s, p, c, q)
    ensures BlogBracketFrom(s, i).Some? ==>
      exists p: nat, c: nat, q: nat :: i <= p && BlogGroup(s, p, c, q) && BlogBracketFrom(s, i).value == s[p + 1..q]
        && forall p': nat, c': nat, q': nat :: i <= p' < p ==> !BlogGroup(s, p', c', q')
  {
    var p, c, q := BlogBracketScan(s, i);
  }

  /** `set(re.findall(r"[가-힣]{2,}", s))`: the maximal Hangul runs of two or
      more syllables (`HangulWordsRuns`). */
  function HangulWords(s: string): (r: set<string>)
    ensures forall w | w in r :: |w| >= 2 && forall i :: 0 <= i < |w| ==> IsHangul(w[i])
    decreases |s|
  {
    if s == [] then {}
    else if IsHangul(s[0]) then
      var j := RunEnd(s, 0, IsHangul);
      (if j >= 2 then {s[..j]} else {}) + HangulWords(s[j..])
    else HangulWords(s[1..])
  }

  /** `s[i..j]` is a maximal run of Hangul syllables. */
  predicate HangulRun(s: string, i: nat, j: nat) {
    && i < j <= |s| && (forall k :: i <= k < j ==> IsHangul(s[k]))
    && (i == 0 || !IsHangul(s[i - 1])) && (j == |s| || !IsHangul(s[j]))
  }

  /** The words found are exactly the maximal Hangul runs of length two or
      more. */
  lemma HangulWordsRuns(s: string)
    ensures forall w :: w in HangulWords(s) <==>
      exists i: nat, j: nat :: HangulRun(s, i, j) && j - i >= 2 && w == s[i..j]
  {
    forall w | w in HangulWords(s)
      ensures exists i: nat, j: nat :: HangulRun(s, i, j) && j - i >= 2 && w == s[i..j]
    {
      var i, j := HangulWordRun(s, w);
    }
    forall i: nat, j: nat | HangulRun(s, i, j) && j - i >= 2
      ensures s[i..j] in HangulWords(s)
    {
      HangulRunIn(s, i, j);
    }
  }

  /** A maximal run of a suffix `s[e..]` is one of `s`, shifted by `e`, when
      it does not start the suffix or the suffix follows a non-Hangul
      character. */
  lemma HangulRunShift(s: string, e: nat, i: nat, j: nat)
    requires e <= |s| && (0 < i || (0 < e && !IsHangul(s[e - 1])))
    ensures HangulRun(s[e..], i, j) <==> HangulRun(s, i + e, j + e)
    ensures j <= |s| - e && i <= j ==> s[e..][i..j] == s[i + e..j + e]
  {
    var t := s[e..];
    if j <= |t| {
      assert forall k :: i <= k < j ==> t[k] == s[k + e];
      assert j < |t| ==> t[j] == s[j + e];
      assert 0 < i <= j ==> t[i - 1] == s[i + e - 1];
    }
  }

  /** Every word found is a maximal run of two or more syllables. */
  lemma {:induction false} HangulWordRun(s: string, w: string) returns (i: nat, j: nat)
    requires w in HangulWords(s)
    ensures HangulRun(s, i, j) && j - i >= 2 && w == s[i..j]
    decreases |s|
  {
    var e := if IsHangul(s[0]) then RunEnd(s, 0, IsHangul) else 1;
    if IsHangul(s[0]) && e >= 2 && w == s[..e] {
      i, j := 0, e;
    } else {
      assert w in HangulWords(s[e..]);
      var i', j' := HangulWordRun(s[e..], w);
      i, j := HangulRunLift(s, e, i', j');
    }
  }

  /** A maximal run of the rest `s[e..]` after the first run or the first
      non-Hangul character is a maximal run of `s`. */
  lemma HangulRunLift(s: string, e: nat, i': nat, j': nat) returns (i: nat, j: nat)
    requires s != [] && e == (if IsHangul(s[0]) then RunEnd(s, 0, IsHangul) else 1)
    requires HangulRun(s[e..], i', j')
    ensures i == i' + e && j == j' + e && HangulRun(s, i, j) && s[e..][i'..j'] == s[i..j]
  {
    if IsHangul(s[0]) {
      assert i' != 0 by {
        assert s[e..][0] == s[e];
      }
    }
    HangulRunShift(s, e, i', j');
    i, j := i' + e, j' + e;
  }

  /** Every maximal run of two or more syllables is found. */
  lemma {:induction false} HangulRunIn(s: string, i: nat, j: nat)
    requires HangulRun(s, i, j) && j - i >= 2
    ensures s[i..j] in HangulWords(s)
    decreases |s|
  {
    if IsHangul(s[0]) && i == 0 {
      HangulFirstRunIn(s, j);
    } else {
      var e := if IsHangul(s[0]) then RunEnd(s, 0, IsHangul) else 1;
      HangulRunLower(s, e, i, j);
      var t := s[e..];
      HangulRunIn(t, i - e, j - e);
    }
  }

  lemma HangulFirstRunIn(s: string, j: nat)
    requires HangulRun(s, 0, j) && j >= 2
    ensures s[0..j] in HangulWords(s)
  {
    RunEndIs(s, 0, j, IsHangul);
    assert s[0..j] == s[..j];
  }

  /** A maximal run of `s` that is not the first run lies in the rest
      `s[e..]`. */
  lemma HangulRunLower(s: string, e: nat, i: nat, j: nat)
    requires s != [] && e == (if IsHangul(s[0]) then RunEnd(s, 0, IsHangul) else 1)
    requires HangulRun(s, i, j) && !(IsHangul(s[0]) && i == 0)
    ensures e <= i && HangulRun(s[e..], i - e, j - e) && s[e..][i - e..j - e] == s[i..j]
  {
    HangulRunShift(s, e, i - e, j - e);
  }
}
