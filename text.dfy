/** The Option type used for every "value or nothing" result of the model
    (Python's `None`, a regex that does not match, a format that fails). */
module Options {
  datatype Option<+T> = None | Some(value: T) {
    predicate IsFailure() { None? }

    function PropagateFailure<U>(): Option<U>
      requires None?
    {
      None
    }

    function Extract(): T
      requires Some?
    {
      value
    }
  }
}

/** Strings as Python's `str` sees them: character classes of `re`,
    `strip`, `split`, `replace`, `lower`, slicing and the `in` operator. */
module Text {

  /** `str.isspace()`, which is also the `\s` class of `re` on str patterns. */
  predicate IsSpace(c: char) {
    var n := c as int;
    (9 <= n <= 13) || (28 <= n <= 32) || n == 0x85 || n == 0xA0 || n == 0x1680
    || (0x2000 <= n <= 0x200A) || n == 0x2028 || n == 0x2029 || n == 0x202F
    || n == 0x205F || n == 0x3000
  }

  predicate IsDigit(c: char) { '0' <= c <= '9' }

  predicate IsUpper(c: char) { 'A' <= c <= 'Z' }

  predicate IsLowerLetter(c: char) { 'a' <= c <= 'z' }

  /** The class `[A-Za-z]`. */
  predicate IsLetter(c: char) { IsUpper(c) || IsLowerLetter(c) }

  /** The class `[가-힣]`: the precomposed Hangul syllables U+AC00..U+D7A3. */
  predicate IsHangul(c: char) { '가' <= c <= '힣' }

  /** The `\w` class of `re`, restricted to the scripts this system handles:
      ASCII letters and digits, the underscore, Hangul syllables and jamo, and
      the CJK unified ideographs. */
  predicate IsWord(c: char) {
    IsLetter(c) || IsDigit(c) || c == '_' || IsHangul(c)
    || ('ᄀ' <= c <= 'ᇿ') || ('ㄱ' <= c <= 'ㆎ')
    || ('一' <= c <= '鿿')
  }

  /** `str.lower()` on one character, for the ASCII letters. */
  function LowerChar(c: char): (r: char)
    ensures IsUpper(c) ==> IsLowerLetter(r)
    ensures !IsUpper(c) ==> r == c
  {
    if IsUpper(c) then (c as int + 32) as char else c
  }

  function Lower(s: string): (r: string)
    ensures |r| == |s|
    ensures forall i :: 0 <= i < |s| ==> r[i] == LowerChar(s[i])
  {
    seq(|s|, i requires 0 <= i < |s| => LowerChar(s[i]))
  }

  lemma LowerConcat(a: string, b: string)
    ensures Lower(a + b) == Lower(a) + Lower(b)
  {
  }

  /** Python's `s[:n]`. */
  function Take(s: string, n: int): (r: string)
    ensures |r| == if n <= 0 then 0 else if n < |s| then n else |s|
    ensures forall i :: 0 <= i < |r| ==> r[i] == s[i]
  {
    if n <= 0 then [] else if n < |s| then s[..n] else s
  }

  /** `str.lstrip()`. */
  function LStrip(s: string): (r: string)
    ensures |r| <= |s| && r == s[|s| - |r|..]
    ensures r == [] || !IsSpace(r[0])
    ensures forall i :: 0 <= i < |s| - |r| ==> IsSpace(s[i])
  {
    if s != [] && IsSpace(s[0]) then LStrip(s[1..]) else s
  }

  /** `str.rstrip()`. */
  function RStrip(s: string): (r: string)
    ensures |r| <= |s| && r == s[..|r|]
    ensures r == [] || !IsSpace(r[|r| - 1])
    ensures forall i :: |r| <= i < |s| ==> IsSpace(s[i])
  {
    if s != [] && IsSpace(s[|s| - 1]) then RStrip(s[..|s| - 1]) else s
  }

  /** `str.strip()`. */
  function Strip(s: string): (r: string)
    ensures |r| <= |s|
    ensures r == [] || (!IsSpace(r[0]) && !IsSpace(r[|r| - 1]))
  {
    RStrip(LStrip(s))
  }

  /** Text with no blank at either end is left as it is by `strip()`. */
  lemma StripUnchanged(s: string)
    requires s != [] && !IsSpace(s[0]) && !IsSpace(s[|s| - 1])
    ensures Strip(s) == s
  {
  }

  /** `re.sub(r"\s+", " ", s)`: every maximal run of whitespace becomes one space. */
  function Collapse(s: string): (r: string)
    ensures |r| <= |s|
    decreases |s|
  {
    if s == [] then []
    else if IsSpace(s[0]) then [' '] + Collapse(LStrip(s))
    else [s[0]] + Collapse(s[1..])
  }

  /** The number of leading characters of `s` that are not whitespace. */
  function WordLength(s: string): (n: nat)
    ensures n <= |s|
    ensures forall i :: 0 <= i < n ==> !IsSpace(s[i])
    ensures n < |s| ==> IsSpace(s[n])
  {
    if s == [] || IsSpace(s[0]) then 0 else 1 + WordLength(s[1..])
  }

  /** A non-empty string without whitespace: one item of `str.split()`. */
  predicate IsToken(w: string) {
    w != [] && forall i :: 0 <= i < |w| ==> !IsSpace(w[i])
  }

  /** `str.split()` without arguments: the maximal runs of non-whitespace. */
  function Words(s: string): (r: seq<string>)
    ensures forall k :: 0 <= k < |r| ==> IsToken(r[k])
    decreases |s|
  {
    var t := LStrip(s);
    if t == [] then []
    else
      var n := WordLength(t);
      var rest := Words(t[n..]);
      LeadingToken(t);
      TokensCons(t[..n], rest);
      [t[..n]] + rest
  }

  lemma TokensCons(w: string, ws: seq<string>)
    requires IsToken(w) && forall k :: 0 <= k < |ws| ==> IsToken(ws[k])
    ensures forall k :: 0 <= k < |[w] + ws| ==> IsToken(([w] + ws)[k])
  {
    forall k | 0 <= k < |[w] + ws|
      ensures IsToken(([w] + ws)[k])
    {
      if k > 0 {
        assert ([w] + ws)[k] == ws[k - 1];
      }
    }
  }

  /** A string that does not start with whitespace starts with a token. */
  lemma LeadingToken(t: string)
    requires t != [] && !IsSpace(t[0])
    ensures IsToken(t[..WordLength(t)])
  {
    var n := WordLength(t);
    forall i | 0 <= i < n
      ensures !IsSpace(t[..n][i])
    {
      assert t[..n][i] == t[i];
    }
  }

  lemma {:induction false} WordLengthOfToken(w: string, rest: string)
    requires IsToken(w)
    requires rest == [] || IsSpace(rest[0])
    ensures WordLength(w + rest) == |w|
    decreases |w|
  {
    if |w| > 1 {
      assert (w + rest)[1..] == w[1..] + rest;
      WordLengthOfToken(w[1..], rest);
    } else {
      assert (w + rest)[1..] == rest;
    }
  }

  /** Splitting tokens joined by single spaces gives the tokens back. */
  lemma {:induction false} WordsOfJoin(ws: seq<string>)
    requires forall k :: 0 <= k < |ws| ==> IsToken(ws[k])
    ensures Words(Join(ws, " ")) == ws
  {
    if ws == [] {
    } else if |ws| == 1 {
      WordLengthOfToken(ws[0], []);
      assert ws[0] + [] == ws[0];
      assert ws[0][|ws[0]|..] == [];
    } else {
      var rest := Join(ws[1..], " ");
      assert Join(ws, " ") == ws[0] + " " + rest;
      JoinHead(ws[1..]);
      WordsCons(ws[0], rest);
      WordsOfJoin(ws[1..]);
    }
  }

  /** Tokens joined by spaces do not start with whitespace. */
  lemma {:induction false} JoinHead(ws: seq<string>)
    requires ws != [] && IsToken(ws[0])
    ensures Join(ws, " ") != [] && Join(ws, " ")[0] == ws[0][0]
  {
    var j := Join(ws, " ");
    if |ws| > 1 {
      assert j == ws[0] + (" " + Join(ws[1..], " "));
    }
  }

  /** A token, a space and text that does not start with whitespace split
      into the token and the words of the text. */
  lemma WordsCons(w: string, rest: string)
    requires IsToken(w)
    requires rest == [] || !IsSpace(rest[0])
    ensures Words(w + " " + rest) == [w] + Words(rest)
  {
    var s := w + " " + rest;
    assert s == w + (" " + rest);
    WordLengthOfToken(w, " " + rest);
    assert LStrip(s) == s;
    assert s[|w|..] == " " + rest;
    assert s[..|w|] == w;
    assert LStrip(" " + rest) == rest by {
      assert (" " + rest)[1..] == rest;
    }
  }

  /** A token followed by nothing or by whitespace is the first word. */
  lemma WordsSplit(w: string, rest: string)
    requires IsToken(w)
    requires rest == [] || IsSpace(rest[0])
    ensures Words(w + rest) == [w] + Words(rest)
  {
    var s := w + rest;
    WordLengthOfToken(w, rest);
    assert LStrip(s) == s;
    assert s[..|w|] == w && s[|w|..] == rest;
  }

  /** Leading whitespace does not change the words. */
  lemma WordsLStrip(s: string)
    ensures Words(LStrip(s)) == Words(s)
  {
    assert LStrip(LStrip(s)) == LStrip(s);
  }

  /** Collapsing a leading token leaves it in place. */
  lemma {:induction false} CollapseToken(s: string, n: nat)
    requires n <= |s| && forall i :: 0 <= i < n ==> !IsSpace(s[i])
    ensures Collapse(s) == s[..n] + Collapse(s[n..])
    decreases n
  {
    if n > 0 {
      CollapseToken(s[1..], n - 1);
      assert s[1..][n - 1..] == s[n..];
      assert s[..n] == [s[0]] + s[1..][..n - 1];
    }
  }

  /** `" ".join(s.split())` would give the same words: collapsing whitespace
      runs changes no word. */
  lemma {:induction false} WordsCollapse(s: string)
    ensures Words(Collapse(s)) == Words(s)
    decreases |s|
  {
    if s == [] {
    } else if IsSpace(s[0]) {
      WordsCollapse(LStrip(s));
      assert Words(Collapse(s)) == Words(Collapse(LStrip(s))) by {
        WordsSpaceCons(Collapse(LStrip(s)));
      }
      WordsLStrip(s);
    } else {
      var n := WordLength(s);
      WordsCollapse(s[n..]);
      WordsCollapseToken(s, n);
    }
  }

  /** A leading space does not change the words. */
  lemma WordsSpaceCons(c: string)
    ensures Words([' '] + c) == Words(c)
  {
    assert ([' '] + c)[1..] == c;
    assert LStrip([' '] + c) == LStrip(c);
    WordsLStrip([' '] + c);
    WordsLStrip(c);
  }

  /** The first word of `s` is the first word of its collapsed form. */
  lemma WordsCollapseToken(s: string, n: nat)
    requires s != [] && !IsSpace(s[0]) && n == WordLength(s)
    ensures Words(Collapse(s)) == [s[..n]] + Words(Collapse(s[n..]))
    ensures Words(s) == [s[..n]] + Words(s[n..])
  {
    LeadingToken(s);
    CollapseToken(s, n);
    CollapseStartsBlank(s[n..]);
    WordsSplit(s[..n], Collapse(s[n..]));
    SplitAt(s, n);
    WordsSplit(s[..n], s[n..]);
  }

  /** Collapsing text that starts with a blank keeps a blank in front. */
  lemma CollapseStartsBlank(s: string)
    requires s == [] || IsSpace(s[0])
    ensures Collapse(s) == [] || IsSpace(Collapse(s)[0])
  {
  }

  lemma SplitAt(s: string, n: nat)
    requires n <= |s|
    ensures s == s[..n] + s[n..]
  {
  }

  /** Trailing whitespace does not change the words. */
  lemma {:induction false} WordsBlankTail(s: string, b: string)
    requires forall i :: 0 <= i < |b| ==> IsSpace(b[i])
    ensures Words(s + b) == Words(s)
    decreases |s|
  {
    var t := LStrip(s);
    if t == [] {
      BlanksStrip(s + b);
    } else {
      var n := WordLength(t);
      assert Words(s + b) == [t[..n]] + Words(t[n..] + b) by {
        WordsFirst(s, b, t, n);
      }
      WordsBlankTail(t[n..], b);
    }
  }

  /** The first word of `s` stays the first word when blanks follow. */
  lemma WordsFirst(s: string, b: string, t: string, n: nat)
    requires forall i :: 0 <= i < |b| ==> IsSpace(b[i])
    requires t == LStrip(s) && t != [] && n == WordLength(t)
    ensures Words(s + b) == [t[..n]] + Words(t[n..] + b)
  {
    var w, rest := t[..n], t[n..] + b;
    LStripPrefix(s, b);
    LeadingToken(t);
    SplitAppend(t, b, n);
    assert rest == [] || IsSpace(rest[0]) by {
      if n < |t| {
        assert rest[0] == t[n];
      } else if b != [] {
        assert rest[0] == b[0];
      }
    }
    WordsSplit(w, rest);
    WordsLStrip(s + b);
  }

  lemma SplitAppend(t: string, b: string, n: nat)
    requires n <= |t|
    ensures t + b == t[..n] + (t[n..] + b)
  {
    assert t == t[..n] + t[n..];
  }

  lemma {:induction false} BlanksStrip(s: string)
    requires forall i :: 0 <= i < |s| ==> IsSpace(s[i])
    ensures LStrip(s) == []
    decreases |s|
  {
    if s != [] {
      BlanksStrip(s[1..]);
    }
  }

  lemma {:induction false} LStripPrefix(s: string, b: string)
    requires LStrip(s) != []
    ensures LStrip(s + b) == LStrip(s) + b
    decreases |s|
  {
    var t := s + b;
    assert t[0] == s[0];
    if IsSpace(s[0]) {
      assert t[1..] == s[1..] + b;
      assert LStrip(t) == LStrip(t[1..]);
      LStripPrefix(s[1..], b);
    } else {
      assert LStrip(t) == t;
    }
  }

  /** `strip()` changes no word. */
  lemma WordsStrip(s: string)
    ensures Words(Strip(s)) == Words(s)
  {
    var l := LStrip(s);
    var r := RStrip(l);
    assert l == r + l[|r|..];
    WordsBlankTail(r, l[|r|..]);
    WordsLStrip(s);
  }

  /** Each word lower-cased. */
  function LowerAll(ws: seq<string>): (r: seq<string>)
    ensures |r| == |ws|
    ensures forall k :: 0 <= k < |ws| ==> r[k] == Lower(ws[k])
  {
    seq(|ws|, k requires 0 <= k < |ws| => Lower(ws[k]))
  }

  /** Lower-casing keeps blanks and non-blanks apart. */
  lemma LowerCharSpace(c: char)
    ensures IsSpace(LowerChar(c)) == IsSpace(c)
  {
  }

  /** The words of the lower-cased text are the lower-cased words. */
  lemma {:induction false} WordsLower(s: string)
    ensures Words(Lower(s)) == LowerAll(Words(s))
    decreases |s|
  {
    var t := LStrip(s);
    LowerLStrip(s);
    WordsLStrip(Lower(s));
    if t != [] {
      var n := WordLength(t);
      WordsLower(t[n..]);
      WordsLowerToken(s, t, n);
    }
  }

  /** One step of `WordsLower`: the first word and the rest. */
  lemma WordsLowerToken(s: string, t: string, n: nat)
    requires t == LStrip(s) && t != [] && n == WordLength(t)
    requires Words(Lower(t[n..])) == LowerAll(Words(t[n..]))
    ensures Words(Lower(t)) == LowerAll(Words(s))
  {
    LeadingToken(t);
    SplitAt(t, n);
    WordsLStrip(s);
    WordsSplit(t[..n], t[n..]);
    LowerConcat(t[..n], t[n..]);
    LowerToken(t[..n]);
    LowerStartsBlank(t[n..]);
    WordsSplit(Lower(t[..n]), Lower(t[n..]));
    LowerAllCons(t[..n], Words(t[n..]));
  }

  lemma LowerAllCons(w: string, ws: seq<string>)
    ensures LowerAll([w] + ws) == [Lower(w)] + LowerAll(ws)
  {
  }

  lemma LowerToken(w: string)
    requires IsToken(w)
    ensures IsToken(Lower(w))
  {
    forall i | 0 <= i < |w| ensures !IsSpace(Lower(w)[i]) {
      LowerCharSpace(w[i]);
    }
  }

  lemma LowerStartsBlank(s: string)
    requires s == [] || IsSpace(s[0])
    ensures Lower(s) == [] || IsSpace(Lower(s)[0])
  {
    if s != [] {
      LowerCharSpace(s[0]);
    }
  }

  /** Lower-casing commutes with stripping leading blanks. */
  lemma {:induction false} LowerLStrip(s: string)
    ensures LStrip(Lower(s)) == Lower(LStrip(s))
    decreases |s|
  {
    if s != [] {
      LowerCharSpace(s[0]);
      if IsSpace(s[0]) {
        assert Lower(s)[1..] == Lower(s[1..]);
        LowerLStrip(s[1..]);
      }
    }
  }

  /** `set(s.split())`. */
  function WordSet(s: string): set<string> {
    set w | w in Words(s)
  }

  /** `sub` occurs in `s` starting at index `i`. */
  predicate OccursAt(s: string, sub: string, i: int) {
    0 <= i && i + |sub| <= |s| && s[i..i + |sub|] == sub
  }

  /** Python's `sub in s`. */
  predicate Contains(s: string, sub: string) {
    exists i | 0 <= i <= |s| - |sub| :: OccursAt(s, sub, i)
  }

  predicate StartsWith(s: string, prefix: string) {
    |prefix| <= |s| && s[..|prefix|] == prefix
  }

  predicate EndsWith(s: string, suffix: string) {
    |suffix| <= |s| && s[|s| - |suffix|..] == suffix
  }

  /** Some word of `keys` is a substring of `text` (`any(k in text for k in keys)`). */
  predicate AnyIn(text: string, keys: seq<string>) {
    exists k | k in keys :: Contains(text, k)
  }

  /** A text none of whose characters is the first of `sub` cannot contain it. */
  lemma NotContainsByFirst(s: string, sub: string)
    requires sub != [] && forall i :: 0 <= i < |s| ==> s[i] != sub[0]
    ensures !Contains(s, sub)
  {
    if Contains(s, sub) {
      var i :| 0 <= i <= |s| - |sub| && OccursAt(s, sub, i);
      OccursAtFirst(s, sub, i);
      assert false;
    }
  }

  lemma OccursAtFirst(s: string, sub: string, i: int)
    requires sub != [] && OccursAt(s, sub, i)
    ensures 0 <= i < |s| && s[i] == sub[0]
  {
    assert s[i..i + |sub|][0] == s[i];
  }

  /** `s.startswith(tuple)`. */
  predicate StartsWithAny(s: string, prefixes: seq<string>) {
    exists p | p in prefixes :: StartsWith(s, p)
  }

  /** `s.endswith(tuple)`. */
  predicate EndsWithAny(s: string, suffixes: seq<string>) {
    exists p | p in suffixes :: EndsWith(s, p)
  }

  lemma ContainsLeft(a: string, b: string, sub: string)
    requires Contains(a, sub)
    ensures Contains(a + b, sub)
  {
    var i :| 0 <= i <= |a| - |sub| && OccursAt(a, sub, i);
    assert (a + b)[i..i + |sub|] == a[i..i + |sub|];
    assert OccursAt(a + b, sub, i);
  }

  lemma ContainsRight(a: string, b: string, sub: string)
    requires Contains(b, sub)
    ensures Contains(a + b, sub)
  {
    var i :| 0 <= i <= |b| - |sub| && OccursAt(b, sub, i);
    assert (a + b)[|a| + i..|a| + i + |sub|] == b[i..i + |sub|];
    assert OccursAt(a + b, sub, |a| + i);
  }

  lemma ContainsWhole(s: string)
    ensures Contains(s, s)
  {
    assert s[0..|s|] == s;
    assert OccursAt(s, s, 0);
  }

  lemma StartsWithLeft(a: string, b: string, prefix: string)
    requires StartsWith(a, prefix)
    ensures StartsWith(a + b, prefix)
  {
    assert (a + b)[..|prefix|] == a[..|prefix|];
  }

  lemma StartsWithPrepend(a: string, b: string, prefix: string)
    requires StartsWith(b, prefix)
    ensures StartsWith(a + b, a + prefix)
  {
    assert (a + b)[..|a + prefix|] == a + b[..|prefix|];
  }

  lemma ContainsMiddle(a: string, sub: string, b: string)
    ensures Contains(a + sub + b, sub)
  {
    assert (a + sub + b)[|a|..|a| + |sub|] == sub;
    assert OccursAt(a + sub + b, sub, |a|);
  }

  /** `s.replace(pat, rep)`: left-to-right, non-overlapping occurrences. */
  function Replace(s: string, pat: string, rep: string): string
    requires pat != []
    decreases |s|
  {
    if |s| < |pat| then s
    else if s[..|pat|] == pat then rep + Replace(s[|pat|..], pat, rep)
    else [s[0]] + Replace(s[1..], pat, rep)
  }

  /** `s.split(sep)` with an explicit separator: never an empty list. */
  function SplitOn(s: string, sep: string): (r: seq<string>)
    requires sep != []
    ensures |r| >= 1
    decreases |s|
  {
    if |s| < |sep| then [s]
    else if s[..|sep|] == sep then [[]] + SplitOn(s[|sep|..], sep)
    else
      var rest := SplitOn(s[1..], sep);
      [[s[0]] + rest[0]] + rest[1..]
  }

  /** The first piece of `s.split(sep)` is the text before the first
      occurrence of `sep`, which starts at the returned index when there is
      more than one piece. */
  lemma {:induction false} SplitOnFirst(s: string, sep: string) returns (k: nat)
    requires sep != []
    ensures k <= |s| && SplitOn(s, sep)[0] == s[..k]
    ensures |SplitOn(s, sep)| > 1 ==> k + |sep| <= |s| && s[k..k + |sep|] == sep
    ensures |SplitOn(s, sep)| == 1 ==> k == |s|
    ensures forall i :: 0 <= i < k ==> !OccursAt(s, sep, i)
    decreases |s|
  {
    if |s| < |sep| {
      k := |s|;
    } else if s[..|sep|] == sep {
      k := 0;
    } else {
      var t := s[1..];
      var k' := SplitOnFirst(t, sep);
      k := k' + 1;
      var rest := SplitOn(t, sep);
      assert SplitOn(s, sep) == [[s[0]] + rest[0]] + rest[1..];
      assert s == [s[0]] + t;
      PrefixCons(s[0], t, k');
      if |rest| > 1 {
        SliceRight([s[0]], t, k, |sep|);
      }
      forall i | 0 <= i < k
        ensures !OccursAt(s, sep, i)
      {
        if i > 0 {
          OccursShift(s, sep, i);
        }
      }
    }
  }

  lemma PrefixCons(c: char, t: string, n: nat)
    requires n <= |t|
    ensures ([c] + t)[..n + 1] == [c] + t[..n]
  {
    assert |([c] + t)[..n + 1]| == |[c] + t[..n]|;
    forall j | 0 <= j < n + 1
      ensures ([c] + t)[..n + 1][j] == ([c] + t[..n])[j]
    {
    }
  }

  /** An occurrence after the first character is one in the tail. */
  lemma OccursShift(s: string, sep: string, i: nat)
    requires 0 < i
    ensures OccursAt(s, sep, i) ==> OccursAt(s[1..], sep, i - 1)
  {
    if OccursAt(s, sep, i) {
      var t := s[1..];
      forall j | 0 <= j < |sep|
        ensures t[i - 1..i - 1 + |sep|][j] == sep[j]
      {
        assert sep[j] == s[i..i + |sep|][j];
      }
      assert t[i - 1..i - 1 + |sep|] == sep;
    }
  }

  /** Replacing a pattern whose first character does not occur in `x` leaves
      `x` as it is. */
  /** Replacing a pattern that does not occur changes nothing. */
  lemma {:induction false} ReplaceAbsent(s: string, pat: string, rep: string)
    requires pat != [] && !Contains(s, pat)
    ensures Replace(s, pat, rep) == s
    decreases |s|
  {
    if |s| >= |pat| {
      assert !OccursAt(s, pat, 0);
      assert s[0..|pat|] == s[..|pat|];
      assert !Contains(s[1..], pat) by {
        if Contains(s[1..], pat) {
          assert s == [s[0]] + s[1..];
          ContainsRight([s[0]], s[1..], pat);
        }
      }
      ReplaceAbsent(s[1..], pat, rep);
    }
  }

  lemma {:induction false} ReplaceSkip(x: string, y: string, pat: string, rep: string)
    requires pat != [] && pat[0] !in x
    ensures Replace(x + y, pat, rep) == x + Replace(y, pat, rep)
    decreases |x|
  {
    if x != [] {
      var s := x + y;
      assert s[0] == x[0];
      if |s| >= |pat| {
        assert s[..|pat|] != pat;
      }
      ReplaceSkip(x[1..], y, pat, rep);
      assert s[1..] == x[1..] + y;
    } else {
      assert x + y == y;
    }
  }

  /** Text without upper-case letters is its own lower-case form. */
  lemma LowerUnchanged(s: string)
    requires forall i :: 0 <= i < |s| ==> !IsUpper(s[i])
    ensures Lower(s) == s
  {
  }

  function Join(parts: seq<string>, sep: string): string {
    if parts == [] then []
    else if |parts| == 1 then parts[0]
    else parts[0] + sep + Join(parts[1..], sep)
  }

  /** The index just past the maximal run of characters satisfying `p` that
      starts at `i`. */
  function RunEnd(s: string, i: nat, p: char -> bool): (j: nat)
    requires i <= |s|
    ensures i <= j <= |s|
    ensures forall k :: i <= k < j ==> p(s[k])
    ensures j < |s| ==> !p(s[j])
    decreases |s| - i
  {
    if i < |s| && p(s[i]) then RunEnd(s, i + 1, p) else i
  }

  /** The start of the maximal run of characters satisfying `p` that ends
      just before `j`. */
  function RunStart(s: string, j: nat, p: char -> bool): (i: nat)
    requires j <= |s|
    ensures i <= j
    ensures forall k :: i <= k < j ==> p(s[k])
    ensures 0 < i ==> !p(s[i - 1])
    decreases j
  {
    if 0 < j && p(s[j - 1]) then RunStart(s, j - 1, p) else j
  }

  /** A run with `p` from `i` that stops at `j` ends where `RunEnd` says. */
  lemma RunEndIs(s: string, i: nat, j: nat, p: char -> bool)
    requires i <= j <= |s|
    requires forall k :: i <= k < j ==> p(s[k])
    requires j < |s| ==> !p(s[j])
    ensures RunEnd(s, i, p) == j
  {
  }

  /** A run with `p` up to `j` that starts at `i` starts where `RunStart`
      says. */
  lemma RunStartIs(s: string, i: nat, j: nat, p: char -> bool)
    requires i <= j <= |s|
    requires forall k :: i <= k < j ==> p(s[k])
    requires 0 < i ==> !p(s[i - 1])
    ensures RunStart(s, j, p) == i
  {
  }

  /** `re.split("[...]", s)` for a one-character class `p`: the pieces between
      the separators, in order. */
  function SplitWhere(s: string, p: char -> bool): (r: seq<string>)
    ensures |r| >= 1
    ensures forall k :: 0 <= k < |r| ==> forall i :: 0 <= i < |r[k]| ==> !p(r[k][i])
    decreases |s|
  {
    var j := RunEnd(s, 0, c => !p(c));
    if j == |s| then [s] else [s[..j]] + SplitWhere(s[j + 1..], p)
  }

  /** The characters of `s` satisfying `p`, in order. */
  function Separators(s: string, p: char -> bool): (r: string)
    ensures forall i :: 0 <= i < |r| ==> p(r[i])
    decreases |s|
  {
    if s == [] then []
    else (if p(s[0]) then [s[0]] else []) + Separators(s[1..], p)
  }

  /** The pieces put back together, the `k`-th separator between the `k`-th
      and the next piece. */
  function Weave(parts: seq<string>, seps: string): string
    requires |parts| == |seps| + 1
    decreases |seps|
  {
    if seps == [] then parts[0]
    else parts[0] + [seps[0]] + Weave(parts[1..], seps[1..])
  }

  /** No character of `t` satisfies `p`. */
  predicate NoneWhere(t: string, p: char -> bool) {
    forall i :: 0 <= i < |t| ==> !p(t[i])
  }

  lemma {:induction false} SeparatorsSkip(s: string, p: char -> bool, j: nat)
    requires j <= |s|
    requires forall i :: 0 <= i < j ==> !p(s[i])
    ensures Separators(s, p) == Separators(s[j..], p)
    decreases j
  {
    if j > 0 {
      assert s[1..][j - 1..] == s[j..];
      SeparatorsSkip(s[1..], p, j - 1);
    }
  }

  /** The pieces and the separators between them give back the text, so
      nothing is lost but the separators themselves. */
  lemma {:induction false} SplitWhereWeave(s: string, p: char -> bool)
    ensures |SplitWhere(s, p)| == |Separators(s, p)| + 1
    ensures Weave(SplitWhere(s, p), Separators(s, p)) == s
    decreases |s|
  {
    var j := RunEnd(s, 0, c => !p(c));
    SeparatorsSkip(s, p, j);
    if j < |s| {
      var t := s[j + 1..];
      assert s[j..][1..] == t;
      SplitWhereWeave(t, p);
      assert Separators(s, p) == [s[j]] + Separators(t, p);
      assert s == s[..j] + [s[j]] + t;
    } else {
      assert s[j..] == [];
    }
  }

  lemma {:induction false} RunEndAt(s: string, i: nat, j: nat, q: char -> bool)
    requires i <= j <= |s|
    requires forall k :: i <= k < j ==> q(s[k])
    requires j < |s| ==> !q(s[j])
    ensures RunEnd(s, i, q) == j
    decreases j - i
  {
    if i < j {
      RunEndAt(s, i + 1, j, q);
    }
  }

  /** Splitting woven pieces that hold no separator gives the pieces back. */
  lemma {:induction false} WeaveSplitWhere(parts: seq<string>, seps: string, p: char -> bool)
    requires |parts| == |seps| + 1
    requires forall i :: 0 <= i < |seps| ==> p(seps[i])
    requires forall k :: 0 <= k < |parts| ==> NoneWhere(parts[k], p)
    ensures SplitWhere(Weave(parts, seps), p) == parts
    ensures Separators(Weave(parts, seps), p) == seps
    decreases |seps|
  {
    if seps == [] {
      WeaveConsSplit(parts[0], [], [], p);
    } else {
      var rest := Weave(parts[1..], seps[1..]);
      assert Weave(parts, seps) == parts[0] + [seps[0]] + rest;
      assert forall k :: 1 <= k < |parts| ==> parts[1..][k - 1] == parts[k];
      WeaveSplitWhere(parts[1..], seps[1..], p);
      WeaveConsSplit(parts[0], [seps[0]], rest, p);
      HeadTail(parts);
      HeadTail(seps);
    }
  }

  lemma HeadTail<T>(s: seq<T>)
    requires s != []
    ensures [s[0]] + s[1..] == s
  {
  }

  /** A piece without separators, then a separator (or the end), then the
      rest: the piece is split off first. */
  lemma WeaveConsSplit(head: string, sep: string, rest: string, p: char -> bool)
    requires |sep| <= 1 && (sep == [] ==> rest == [])
    requires forall i :: 0 <= i < |sep| ==> p(sep[i])
    requires NoneWhere(head, p)
    ensures sep == [] ==> SplitWhere(head, p) == [head] && Separators(head, p) == []
    ensures sep != [] ==> SplitWhere(head + sep + rest, p) == [head] + SplitWhere(rest, p)
    ensures sep != [] ==> Separators(head + sep + rest, p) == sep + Separators(rest, p)
  {
    var w := head + sep + rest;
    var n := |head|;
    RunEndAt(w, 0, n, c => !p(c));
    SeparatorsSkip(w, p, n);
    if sep == [] {
      assert w == head;
      assert w[n..] == [];
    } else {
      assert w[..n] == head;
      assert w[n + 1..] == rest;
      assert w[n..][1..] == rest;
    }
  }

  /** Python's `s[:n]` on a list, negative `n` counting from the end. */
  function Slice<T>(s: seq<T>, n: int): (r: seq<T>)
    ensures |r| <= |s|
    ensures n >= 0 ==> |r| <= n
    ensures r == s[..|r|]
  {
    if n >= 0 then (if n < |s| then s[..n] else s)
    else if -n < |s| then s[..|s| + n] else []
  }

  /** An occurrence of `sub` in `a + [c] + b` lies in `a` or in `b` when `c`
      does not occur in `sub`. */
  lemma ContainsSplit(a: string, c: char, b: string, sub: string)
    requires Contains(a + [c] + b, sub)
    requires c !in sub
    ensures Contains(a, sub) || Contains(b, sub)
  {
    var s := a + [c] + b;
    var i :| 0 <= i <= |s| - |sub| && OccursAt(s, sub, i);
    assert s == a + ([c] + b);
    if i + |sub| <= |a| {
      SliceLeft(a, [c] + b, i, |sub|);
      assert OccursAt(a, sub, i);
    } else if i > |a| {
      var k := i - |a| - 1;
      assert s == (a + [c]) + b;
      SliceRight(a + [c], b, i, |sub|);
      assert OccursAt(b, sub, k);
    } else {
      OccurrenceChar(s, sub, i, |a|);
      assert false;
    }
  }

  /** A slice within the left part of a concatenation. */
  lemma SliceLeft(a: string, b: string, i: nat, n: nat)
    requires i + n <= |a|
    ensures (a + b)[i..i + n] == a[i..i + n]
  {
    var l, r := (a + b)[i..i + n], a[i..i + n];
    forall j | 0 <= j < n
      ensures l[j] == r[j]
    {
      assert (a + b)[i + j] == a[i + j];
    }
  }

  /** A slice within the right part of a concatenation. */
  lemma SliceRight(a: string, b: string, i: nat, n: nat)
    requires |a| <= i && i + n <= |a| + |b|
    ensures (a + b)[i..i + n] == b[i - |a|..i - |a| + n]
  {
    var l, r := (a + b)[i..i + n], b[i - |a|..i - |a| + n];
    forall j | 0 <= j < n
      ensures l[j] == r[j]
    {
      assert (a + b)[i + j] == b[i - |a| + j];
    }
  }

  lemma OccurrenceChar(s: string, sub: string, i: int, k: int)
    requires OccursAt(s, sub, i) && i <= k < i + |sub|
    ensures s[k] in sub
  {
    assert s[k] == sub[k - i];
  }

  /** The decimal digits of a natural number, as `str(n)` prints them. */
  function NatToString(n: nat): (r: string)
    ensures r != [] && forall i :: 0 <= i < |r| ==> IsDigit(r[i])
    ensures |r| <= 2 <==> n < 100
    ensures |r| == 1 <==> n < 10
    ensures |r| == 4 <==> 1000 <= n < 10000
    decreases n
  {
    if n < 10 then [('0' as int + n) as char]
    else NatToString(n / 10) + [('0' as int + n % 10) as char]
  }

  /** `n` with at least two digits, as `%02d` and `%H`-style fields print it. */
  function Pad2(n: nat): (r: string)
    ensures |r| >= 2 && forall i :: 0 <= i < |r| ==> IsDigit(r[i])
    ensures n < 100 ==> |r| == 2
  {
    if n < 10 then "0" + NatToString(n) else NatToString(n)
  }

  /** The value of a string of decimal digits, as `int()` reads it. */
  function DigitsValue(s: string): (v: nat)
    requires forall i :: 0 <= i < |s| ==> IsDigit(s[i])
    ensures v < Pow10(|s|)
    decreases |s|
  {
    if s == [] then 0
    else
      assert IsDigit(s[|s| - 1]);
      DigitsValue(s[..|s| - 1]) * 10 + (s[|s| - 1] as int - '0' as int)
  }

  function Pow10(n: nat): (r: nat)
    ensures r >= 1
  {
    if n == 0 then 1 else 10 * Pow10(n - 1)
  }

  lemma {:induction false} DigitsValueOfNatToString(n: nat)
    ensures DigitsValue(NatToString(n)) == n
    decreases n
  {
    var r := NatToString(n);
    if n >= 10 {
      DigitsValueOfNatToString(n / 10);
      assert r[..|r| - 1] == NatToString(n / 10);
    }
  }

  lemma DigitsValueOfPad2(n: nat)
    ensures DigitsValue(Pad2(n)) == n
  {
    var r := Pad2(n);
    DigitsValueOfNatToString(n);
    if n < 10 {
      assert r[..1] == "0";
      assert r[..|r| - 1] == "0";
    }
  }
}

/** The two variants of the item pipeline. */
module Kinds {
  datatype Kind = News | Blog
}
