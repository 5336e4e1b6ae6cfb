/** Title normalisation and Jaccard token-set similarity, the duplicate test of
    both search pipelines (`_normalize_title`, `_calculate_similarity`,
    `_is_similar_title`; identical in the news and the blog module). */
module Similarity {
  import opened Text

  /** The characters `re.sub(r"[^\w\s가-힣]", "", title)` keeps. */
  predicate Kept(c: char) { IsWord(c) || IsSpace(c) || IsHangul(c) }

  function KeepWordsAndSpaces(s: string): (r: string)
    ensures |r| <= |s|
    ensures forall i :: 0 <= i < |r| ==> Kept(r[i])
  {
    if s == [] then []
    else (if Kept(s[0]) then [s[0]] else []) + KeepWordsAndSpaces(s[1..])
  }

  /** The filter works character by character: a kept character stays, any
      other is dropped. */
  lemma KeepChar(c: char)
    ensures KeepWordsAndSpaces([c]) == if Kept(c) then [c] else []
  {
  }

  /** The filter of a concatenation is the concatenation of the filters. */
  lemma {:induction false} KeepConcat(a: string, b: string)
    ensures KeepWordsAndSpaces(a + b) == KeepWordsAndSpaces(a) + KeepWordsAndSpaces(b)
    decreases |a|
  {
    if a == [] {
      assert a + b == b;
    } else {
      assert (a + b)[1..] == a[1..] + b;
      KeepConcat(a[1..], b);
      var head := if Kept(a[0]) then [a[0]] else [];
      assert KeepWordsAndSpaces(a + b) == head + (KeepWordsAndSpaces(a[1..]) + KeepWordsAndSpaces(b));
    }
  }

  /** `_normalize_title`: drop punctuation, collapse whitespace, strip, lower-case. */
  function NormalizeTitle(title: string): string {
    Lower(Strip(Collapse(KeepWordsAndSpaces(title))))
  }

  /** The shape of a normalised title: word characters separated by single
      spaces, no space at either end, no upper-case letter. */
  predicate Canonical(r: string) {
    && (forall i :: 0 <= i < |r| ==> (IsWord(r[i]) || r[i] == ' ') && !IsUpper(r[i]))
    && (forall i :: 0 <= i < |r| - 1 ==> r[i] == ' ' ==> r[i + 1] != ' ')
    && (r != [] ==> r[0] != ' ' && r[|r| - 1] != ' ')
  }

  /** Word characters and single spaces, ends not constrained. */
  predicate SingleSpaced(r: string) {
    && (forall i :: 0 <= i < |r| ==> IsWord(r[i]) || r[i] == ' ')
    && (forall i :: 0 <= i < |r| - 1 ==> r[i] == ' ' ==> r[i + 1] != ' ')
  }

  lemma WordIsNotSpace(c: char)
    ensures IsWord(c) ==> !IsSpace(c)
  {
  }

  lemma {:induction false} CollapseSingleSpaced(s: string)
    requires forall i :: 0 <= i < |s| ==> Kept(s[i])
    ensures SingleSpaced(Collapse(s))
    ensures s != [] && !IsSpace(s[0]) ==> Collapse(s) != [] && Collapse(s)[0] == s[0]
    decreases |s|
  {
    if s == [] {
    } else if IsSpace(s[0]) {
      var t := LStrip(s);
      assert t == s[|s| - |t|..];
      CollapseSingleSpaced(t);
      var rest := Collapse(t);
      assert Collapse(s) == [' '] + rest;
      assert rest != [] ==> rest[0] != ' ';
    } else {
      CollapseSingleSpaced(s[1..]);
      var rest := Collapse(s[1..]);
      assert Collapse(s) == [s[0]] + rest;
      assert IsWord(s[0]);
    }
  }

  /** `Strip(s)` is the slice of `s` from the returned index. */
  lemma StripSlice(s: string) returns (k: nat)
    ensures k + |Strip(s)| <= |s| && Strip(s) == s[k..k + |Strip(s)|]
  {
    var l := LStrip(s);
    k := |s| - |l|;
    assert Strip(s) == l[..|Strip(s)|];
  }

  lemma SliceSingleSpaced(c: string, k: nat, n: nat)
    requires k + n <= |c| && SingleSpaced(c)
    ensures SingleSpaced(c[k..k + n])
  {
    var st := c[k..k + n];
    forall i | 0 <= i < |st| ensures IsWord(st[i]) || st[i] == ' ' {
      assert st[i] == c[k + i];
    }
    forall i | 0 <= i < |st| - 1 ensures st[i] == ' ' ==> st[i + 1] != ' ' {
      assert st[i] == c[k + i] && st[i + 1] == c[k + i + 1];
    }
  }

  lemma LowerCanonical(st: string)
    requires SingleSpaced(st)
    requires st == [] || (!IsSpace(st[0]) && !IsSpace(st[|st| - 1]))
    ensures Canonical(Lower(st))
  {
    var r := Lower(st);
    forall i | 0 <= i < |r| ensures (IsWord(r[i]) || r[i] == ' ') && !IsUpper(r[i]) && (r[i] == ' ' <==> st[i] == ' ') {
      assert r[i] == LowerChar(st[i]);
    }
  }

  /** Every normalised title has the canonical shape. */
  lemma NormalizeTitleCanonical(title: string)
    ensures Canonical(NormalizeTitle(title))
  {
    var kept := KeepWordsAndSpaces(title);
    CollapseSingleSpaced(kept);
    StripSingleSpaced(Collapse(kept));
    LowerCanonical(Strip(Collapse(kept)));
  }

  lemma StripSingleSpaced(c: string)
    requires SingleSpaced(c)
    ensures SingleSpaced(Strip(c))
  {
    var k := StripSlice(c);
    SliceSingleSpaced(c, k, |Strip(c)|);
  }

  lemma {:induction false} KeepIdentity(r: string)
    requires forall i :: 0 <= i < |r| ==> IsWord(r[i]) || r[i] == ' '
    ensures KeepWordsAndSpaces(r) == r
  {
    if r != [] {
      KeepIdentity(r[1..]);
    }
  }

  lemma {:induction false} CollapseIdentity(r: string)
    requires SingleSpaced(r)
    ensures Collapse(r) == r
    decreases |r|
  {
    if r != [] {
      var tail := r[1..];
      SliceSingleSpaced(r, 1, |r| - 1);
      assert r[1..|r|] == tail;
      CollapseIdentity(tail);
      WordIsNotSpace(r[0]);
      if IsSpace(r[0]) {
        assert r[0] == ' ';
        if tail != [] {
          assert tail[0] == r[1];
          WordIsNotSpace(r[1]);
          assert !IsSpace(tail[0]);
        }
        assert LStrip(tail) == tail;
        assert LStrip(r) == tail;
        assert Collapse(r) == [' '] + Collapse(tail);
      } else {
        assert Collapse(r) == [r[0]] + Collapse(tail);
      }
    }
  }

  lemma LowerIdentity(r: string)
    requires forall i :: 0 <= i < |r| ==> !IsUpper(r[i])
    ensures Lower(r) == r
  {
  }

  /** Normalising twice changes nothing: `NormalizeTitle` is a projection onto
      canonical titles, which is why `seen_titles` can hold normalised titles
      and be compared with the normalised candidate. */
  lemma NormalizeTitleIdempotent(title: string)
    ensures NormalizeTitle(NormalizeTitle(title)) == NormalizeTitle(title)
  {
    NormalizeTitleCanonical(title);
    CanonicalFixed(NormalizeTitle(title));
  }

  /** The tokens of a normalised title are the lower-cased tokens of the
      title with its punctuation dropped. */
  lemma NormalizeTitleWords(title: string)
    ensures Words(NormalizeTitle(title)) == LowerAll(Words(KeepWordsAndSpaces(title)))
  {
    var kept := KeepWordsAndSpaces(title);
    WordsLower(Strip(Collapse(kept)));
    WordsStrip(Collapse(kept));
    WordsCollapse(kept);
  }

  /** A breaking-news tag in brackets loses its brackets, and the words keep
      their single spaces. */
  lemma NormalizeBreakingNews()
    ensures NormalizeTitle("[속보] 화성시 동탄 신도시 개발") == "속보 화성시 동탄 신도시 개발"
  {
    var n := "속보 화성시 동탄 신도시 개발";
    KeepBreakingNews();
    CanonicalBreakingNews();
    CanonicalFixed(n);
    KeepIdentity(n);
  }

  lemma KeepBreakingNews()
    ensures KeepWordsAndSpaces("[속보] 화성시 동탄 신도시 개발") == "속보 화성시 동탄 신도시 개발"
  {
    var n := "속보 화성시 동탄 신도시 개발";
    assert "속보" + " 화성시 동탄 신도시 개발" == n by {
      assert n == n[..2] + n[2..];
    }
    KeepTagged("[속보] 화성시 동탄 신도시 개발", "속보", " 화성시 동탄 신도시 개발");
  }

  lemma KeepTagged(t: string, tag: string, rest: string)
    requires t == "[" + tag + "]" + rest
    requires forall i :: 0 <= i < |tag| ==> IsWord(tag[i]) || tag[i] == ' '
    requires forall i :: 0 <= i < |rest| ==> IsWord(rest[i]) || rest[i] == ' '
    ensures KeepWordsAndSpaces(t) == tag + rest
  {
    KeepBracketed(tag, rest);
  }

  /** A bracketed tag and text of words and spaces lose only the brackets. */
  lemma KeepBracketed(tag: string, rest: string)
    requires forall i :: 0 <= i < |tag| ==> IsWord(tag[i]) || tag[i] == ' '
    requires forall i :: 0 <= i < |rest| ==> IsWord(rest[i]) || rest[i] == ' '
    ensures KeepWordsAndSpaces("[" + tag + "]" + rest) == tag + rest
  {
    BracketedSplit(tag, rest);
    KeepBracketedParts(tag, rest);
  }

  lemma BracketedSplit(tag: string, rest: string)
    ensures "[" + tag + "]" + rest == ['['] + (tag + ([']'] + rest))
  {
  }

  lemma KeepBracketedParts(tag: string, rest: string)
    requires forall i :: 0 <= i < |tag| ==> IsWord(tag[i]) || tag[i] == ' '
    requires forall i :: 0 <= i < |rest| ==> IsWord(rest[i]) || rest[i] == ' '
    ensures KeepWordsAndSpaces(['['] + (tag + ([']'] + rest))) == tag + rest
  {
    BracketsDropped();
    var after := [']'] + rest;
    KeepDrop('[', tag + after);
    KeepConcat(tag, after);
    KeepIdentity(tag);
    KeepDrop(']', rest);
    KeepIdentity(rest);
  }

  lemma BracketsDropped()
    ensures !Kept('[') && !Kept(']')
  {
  }

  /** A dropped character in front changes nothing. */
  lemma KeepDrop(c: char, t: string)
    requires !Kept(c)
    ensures KeepWordsAndSpaces([c] + t) == KeepWordsAndSpaces(t)
  {
    assert ([c] + t)[1..] == t;
  }

  lemma CanonicalBreakingNews()
    ensures Canonical("속보 화성시 동탄 신도시 개발")
  {
  }

  /** A canonical title is its own normalisation. */
  lemma CanonicalFixed(n: string)
    requires Canonical(n)
    ensures NormalizeTitle(n) == n
  {
    assert SingleSpaced(n);
    KeepIdentity(n);
    CollapseIdentity(n);
    if n != [] {
      WordIsNotSpace(n[0]);
      WordIsNotSpace(n[|n| - 1]);
    }
    assert LStrip(n) == n;
    assert RStrip(n) == n;
    LowerIdentity(n);
  }

  /** A similarity score |A ∩ B| / |A ∪ B| kept as an exact fraction. */
  datatype Ratio = Ratio(num: nat, den: nat)

  lemma {:induction false} SubsetCard<T>(x: set<T>, y: set<T>)
    requires x <= y
    ensures |x| <= |y|
    ensures |x| == |y| ==> x == y
    decreases x
  {
    if x != {} {
      var e :| e in x;
      SubsetCard(x - {e}, y - {e});
    } else if |y| == 0 {
      assert y == {};
    }
  }

  /** The Jaccard index of two token sets, 1 when both are empty. */
  function SetJaccard(x: set<string>, y: set<string>): (r: Ratio)
    ensures 0 < r.den && r.num <= r.den
  {
    if x == {} && y == {} then Ratio(1, 1)
    else
      SubsetCard(x * y, x + y);
      assert x <= x + y || y <= x + y;
      Ratio(|x * y|, |x + y|)
  }

  /** `_calculate_similarity`: the Jaccard index of the two whitespace token
      sets. The `else 0.0` branch of the source is unreachable: the union is
      empty only when both sets are. */
  function Jaccard(a: string, b: string): (r: Ratio)
    ensures 0 < r.den && r.num <= r.den
  {
    SetJaccard(WordSet(a), WordSet(b))
  }

  /** The similarity is 1 when both token sets are empty, and otherwise the
      size of their intersection over the size of their union. */
  lemma JaccardValue(a: string, b: string)
    ensures WordSet(a) == {} && WordSet(b) == {} ==> Jaccard(a, b) == Ratio(1, 1)
    ensures WordSet(a) + WordSet(b) != {} ==>
      Jaccard(a, b) == Ratio(|WordSet(a) * WordSet(b)|, |WordSet(a) + WordSet(b)|)
  {
  }

  /** `similarity > 0.5`. */
  predicate AboveHalf(r: Ratio) { 2 * r.num > r.den }

  /** `similarity > 0.7`. */
  predicate AboveSevenTenths(r: Ratio) { 10 * r.num > 7 * r.den }

  /** `similarity < 0.8`. */
  predicate BelowEightTenths(r: Ratio) { 10 * r.num < 8 * r.den }

  lemma SetJaccardSymmetric(x: set<string>, y: set<string>)
    ensures SetJaccard(x, y) == SetJaccard(y, x)
  {
    assert x * y == y * x;
    assert x + y == y + x;
  }

  /** The score does not depend on the order of the two titles. */
  lemma SimilaritySymmetric(a: string, b: string)
    ensures Jaccard(a, b) == Jaccard(b, a)
  {
    SetJaccardSymmetric(WordSet(a), WordSet(b));
  }

  /** The score is 1 exactly when the two token sets coincide. */
  lemma SimilarityOneIff(a: string, b: string)
    ensures Jaccard(a, b).num == Jaccard(a, b).den <==> WordSet(a) == WordSet(b)
  {
    var x, y := WordSet(a), WordSet(b);
    if !(x == {} && y == {}) {
      if |x * y| == |x + y| {
        SubsetCard(x * y, x + y);
        assert x * y == x + y;
        assert x == y by {
          forall e | e in x ensures e in y { assert e in x + y; }
          forall e | e in y ensures e in x { assert e in x + y; }
        }
      }
      if x == y {
        assert x * y == x && x + y == x;
      }
    }
  }

  /** The score is 0 exactly when at least one title has a token and the two
      share none. */
  lemma SimilarityZeroIff(a: string, b: string)
    ensures Jaccard(a, b).num == 0 <==> (WordSet(a) + WordSet(b) != {} && WordSet(a) * WordSet(b) == {})
  {
    var x, y := WordSet(a), WordSet(b);
    if x * y != {} {
      var e :| e in x * y;
      assert |x * y| > 0;
    }
  }

  /** The duplicate threshold of both pipelines: strictly more than half. */
  predicate Close(a: string, b: string) {
    AboveHalf(Jaccard(a, b))
  }

  /** The seen set holds a title more than half similar to `normalized`. */
  predicate IsDuplicate(normalized: string, seen: set<string>) {
    exists s | s in seen :: Close(normalized, s)
  }

  /** The loop of `_is_similar_title`: scan the seen set, stopping at the
      first entry that `close` accepts. */
  method ScanSeen(seen: set<string>, close: string -> bool) returns (found: bool)
    ensures found <==> exists s | s in seen :: close(s)
  {
    var rest := seen;
    while rest != {}
      invariant rest <= seen
      invariant forall s | s in seen - rest :: !close(s)
      decreases rest
    {
      var s :| s in rest;
      if close(s) {
        return true;
      }
      rest := rest - {s};
    }
    return false;
  }

  /** `_is_similar_title`: normalise the candidate, then scan the seen set
      for a title more than half similar to it. */
  method IsSimilarTitle(title: string, seen: set<string>) returns (similar: bool)
    ensures similar <==> IsDuplicate(NormalizeTitle(title), seen)
  {
    var normalized := NormalizeTitle(title);
    similar := ScanSeen(seen, s => Close(normalized, s));
  }

  lemma EmptySeenNeverDuplicate(normalized: string)
    ensures !IsDuplicate(normalized, {})
  {
  }
}
