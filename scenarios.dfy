/** The concrete cases of the repository's unit tests, stated about the
    model: each lemma pins one expected answer of the source's helpers. */
module Scenarios {
  import opened Text
  import opened Similarity

  // ---------------------------------------------------------------------
  // Token sets of short titles.

  lemma JoinThree(a: string, b: string, c: string)
    ensures Join([a, b, c], " ") == a + " " + b + " " + c
  {
    assert [a, b, c][1..] == [b, c];
    assert [b, c][1..] == [c];
    assert Join([b, c], " ") == b + " " + c;
    assert a + " " + b + " " + c == a + " " + (b + " " + c);
  }

  /** The tokens of three words separated by blanks. */
  lemma WordSetOfThree(a: string, b: string, c: string)
    requires IsToken(a) && IsToken(b) && IsToken(c)
    ensures WordSet(a + " " + b + " " + c) == {a, b, c}
  {
    var ws := [a, b, c];
    assert forall k :: 0 <= k < |ws| ==> IsToken(ws[k]);
    WordsOfJoin(ws);
    JoinThree(a, b, c);
    WordSetIs(a + " " + b + " " + c, ws);
    SetOfThree(a, b, c);
  }

  lemma WordSetIs(s: string, ws: seq<string>)
    requires Words(s) == ws
    ensures WordSet(s) == set w | w in ws
  {
  }

  lemma SetOfThree<T>(a: T, b: T, c: T)
    ensures (set w | w in [a, b, c]) == {a, b, c}
  {
  }

  lemma SetOfFour<T>(a: T, b: T, c: T, d: T)
    ensures (set w | w in [a, b, c, d]) == {a, b, c, d}
  {
  }

  /** Two three-word titles that share their first two words score 2/4. */
  lemma SharedTwoOfThree(s1: string, s2: string, a: string, b: string, c: string, d: string)
    requires IsToken(a) && IsToken(b) && IsToken(c) && IsToken(d)
    requires a != b && a != c && a != d && b != c && b != d && c != d
    requires s1 == a + " " + b + " " + c && s2 == a + " " + b + " " + d
    ensures Jaccard(s1, s2) == Ratio(2, 4)
  {
    WordSetOfThree(a, b, c);
    WordSetOfThree(a, b, d);
    assert {a, b, c} * {a, b, d} == {a, b};
    assert {a, b, c} + {a, b, d} == {a, b, c, d};
  }

  lemma JoinFour(a: string, b: string, c: string, d: string)
    ensures Join([a, b, c, d], " ") == a + " " + b + " " + c + " " + d
  {
    assert [a, b, c, d][1..] == [b, c, d];
    JoinThree(b, c, d);
    assert a + " " + b + " " + c + " " + d == a + " " + (b + " " + c + " " + d);
  }

  /** The tokens of four words separated by blanks. */
  lemma WordSetOfFour(a: string, b: string, c: string, d: string)
    requires IsToken(a) && IsToken(b) && IsToken(c) && IsToken(d)
    ensures WordSet(a + " " + b + " " + c + " " + d) == {a, b, c, d}
  {
    var ws := [a, b, c, d];
    assert forall k :: 0 <= k < |ws| ==> IsToken(ws[k]);
    WordsOfJoin(ws);
    JoinFour(a, b, c, d);
    WordSetIs(a + " " + b + " " + c + " " + d, ws);
    SetOfFour(a, b, c, d);
  }

  /** A three-word title and the same title with one more word score 3/4. */
  lemma ExtendedByOne(s1: string, s2: string, a: string, b: string, c: string, d: string)
    requires IsToken(a) && IsToken(b) && IsToken(c) && IsToken(d)
    requires a != b && a != c && a != d && b != c && b != d && c != d
    requires s1 == a + " " + b + " " + c + " " + d && s2 == a + " " + b + " " + c
    ensures Jaccard(s1, s2) == Ratio(3, 4)
  {
    WordSetOfFour(a, b, c, d);
    WordSetOfThree(a, b, c);
    OneMoreSet(a, b, c, d);
  }

  lemma OneMoreSet(a: string, b: string, c: string, d: string)
    requires a != b && a != c && a != d && b != c && b != d && c != d
    ensures SetJaccard({a, b, c, d}, {a, b, c}) == Ratio(3, 4)
  {
    assert {a, b, c, d} * {a, b, c} == {a, b, c};
    assert {a, b, c, d} + {a, b, c} == {a, b, c, d};
  }

  /** Two four-word titles that differ in their last word score 3/5. */
  lemma LastWordReplaced(s1: string, s2: string, a: string, b: string, c: string, d: string, e: string)
    requires IsToken(a) && IsToken(b) && IsToken(c) && IsToken(d) && IsToken(e)
    requires a != b && a != c && a != d && a != e && b != c && b != d && b != e
    requires c != d && c != e && d != e
    requires s1 == a + " " + b + " " + c + " " + d && s2 == a + " " + b + " " + c + " " + e
    ensures Jaccard(s1, s2) == Ratio(3, 5)
  {
    WordSetOfFour(a, b, c, d);
    WordSetOfFour(a, b, c, e);
    ReplacedSet(a, b, c, d, e);
  }

  lemma ReplacedSet(a: string, b: string, c: string, d: string, e: string)
    requires a != b && a != c && a != d && a != e && b != c && b != d && b != e
    requires c != d && c != e && d != e
    ensures SetJaccard({a, b, c, d}, {a, b, c, e}) == Ratio(3, 5)
  {
    assert {a, b, c, d} * {a, b, c, e} == {a, b, c};
    assert {a, b, c, d} + {a, b, c, e} == {a, b, c, d, e};
  }

  // ---------------------------------------------------------------------
  // Similarity.

  /** A title that is its own normalisation and is close to an entry of the
      seen set is a duplicate. */
  lemma CloseCanonicalIsDuplicate(t: string, s: string, seen: set<string>)
    requires Canonical(t) && s in seen && Close(t, s)
    ensures IsDuplicate(NormalizeTitle(t), seen)
  {
    CanonicalFixed(t);
  }

  lemma LectureWords()
    ensures IsToken("파이썬") && IsToken("프로그래밍") && IsToken("기초") && IsToken("강좌")
    ensures "파이썬 프로그래밍 기초 강좌" == "파이썬" + " " + "프로그래밍" + " " + "기초" + " " + "강좌"
    ensures "파이썬 프로그래밍 기초" == "파이썬" + " " + "프로그래밍" + " " + "기초"
  {
  }

  lemma ExpansionWords()
    ensures IsToken("화성시") && IsToken("동탄") && IsToken("신도시") && IsToken("확장") && IsToken("개발")
    ensures "화성시 동탄 신도시 확장" == "화성시" + " " + "동탄" + " " + "신도시" + " " + "확장"
    ensures "화성시 동탄 신도시 개발" == "화성시" + " " + "동탄" + " " + "신도시" + " " + "개발"
  {
  }

  lemma CanonicalLecture()
    ensures Canonical("파이썬 프로그래밍 기초 강좌")
  {
  }

  lemma CanonicalExpansion()
    ensures Canonical("화성시 동탄 신도시 확장")
  {
  }

  /** Adding a word to a seen title leaves it a duplicate: 3/4 is above the
      threshold. */
  lemma ExtendedTitleIsDuplicate()
    ensures Jaccard("파이썬 프로그래밍 기초 강좌", "파이썬 프로그래밍 기초") == Ratio(3, 4)
    ensures IsDuplicate(NormalizeTitle("파이썬 프로그래밍 기초 강좌"), {"파이썬 프로그래밍 기초"})
  {
    LectureWords();
    ExtendedByOne("파이썬 프로그래밍 기초 강좌", "파이썬 프로그래밍 기초", "파이썬", "프로그래밍", "기초", "강좌");
    CanonicalLecture();
    CloseCanonicalIsDuplicate("파이썬 프로그래밍 기초 강좌", "파이썬 프로그래밍 기초", {"파이썬 프로그래밍 기초"});
  }

  /** Replacing the last of four words leaves a duplicate: 3/5 is above the
      threshold, whatever else the seen set holds. */
  lemma ReplacedWordIsDuplicate()
    ensures Jaccard("화성시 동탄 신도시 확장", "화성시 동탄 신도시 개발") == Ratio(3, 5)
    ensures IsDuplicate(NormalizeTitle("화성시 동탄 신도시 확장"), {"화성시 동탄 신도시 개발", "서울시 강남구 뉴스"})
  {
    ExpansionWords();
    LastWordReplaced("화성시 동탄 신도시 확장", "화성시 동탄 신도시 개발", "화성시", "동탄", "신도시", "확장", "개발");
    CanonicalExpansion();
    CloseCanonicalIsDuplicate("화성시 동탄 신도시 확장", "화성시 동탄 신도시 개발",
                              {"화성시 동탄 신도시 개발", "서울시 강남구 뉴스"});
  }

  /** Sharing exactly half of the words is not a duplicate: the threshold
      is strict. */
  lemma HalfSharedIsNotDuplicate()
    ensures Jaccard("파이썬 프로그래밍 기초", "파이썬 프로그래밍 고급") == Ratio(2, 4)
    ensures !Close("파이썬 프로그래밍 기초", "파이썬 프로그래밍 고급")
  {
    SharedTwoOfThree("파이썬 프로그래밍 기초", "파이썬 프로그래밍 고급", "파이썬", "프로그래밍", "기초", "고급");
  }
}

/** The publication dates of the repository's unit tests, stated about the
    model. */
module DateScenarios {
  import opened Options
  import opened Text
  import opened Dates

  /** The two digits `Pad2` writes. */
  lemma Pad2Value(n: nat, hi: char, lo: char)
    requires n < 100 && hi as int == '0' as int + n / 10 && lo as int == '0' as int + n % 10
    ensures Pad2(n) == [hi, lo]
  {
    if n < 10 {
      assert Pad2(n) == "0" + NatToString(n);
    } else {
      assert NatToString(n / 10) == [hi];
    }
  }

  /** A four-digit year at `i` followed by a non-digit reads back. */
  lemma YearAt(s: string, i: nat, year: nat)
    requires 1000 <= year <= 9999
    requires i + 4 < |s| && s[i..i + 4] == NatToString(year) && !IsDigit(s[i + 4])
    ensures Field(s, i, 4, 4, 0, 9999) == Some((year, i + 4))
  {
    forall k | i <= k < i + 4 ensures IsDigit(s[k]) {
      assert s[k] == s[i..i + 4][k - i];
    }
    Dates.RunEndAt(s, i, i + 4, IsDigit);
    DigitsValueOfNatToString(year);
  }

  /** `%a` or `%b` reads the three-letter name at `i` as the index, from 1,
      of its first occurrence in `names`. */
  lemma {:induction false} NameFieldFind(s: string, i: nat, names: seq<string>, k: nat, j: nat)
    requires i + 3 <= |s| && k <= j < |names|
    requires forall x :: 0 <= x < |names| ==> |names[x]| == 3
    requires names[j] == Lower(s[i..i + 3])
    requires forall x :: k <= x < j ==> names[x] != Lower(s[i..i + 3])
    ensures NameField(s, i, names, k) == Some((j + 1, i + 3))
    decreases j - k
  {
    if k < j {
      NameFieldFind(s, i, names, k + 1, j);
    }
  }

  /** `RssHead` assembles the pieces it reads. */
  lemma RssHeadPieces(s: string, wd: int, d: int, m: int, y: int, hh: int, mi: int, sec: int,
                      a: nat, b: nat, c: nat, e: nat, f: nat, g: nat, h: nat, k: nat, l: nat, n: nat, p: nat)
    requires NameField(s, 0, WeekdayNames, 0) == Some((wd, a)) && Lit(s, a, ",") == Some(b)
    requires b <= |s| && Blanks(s, b) == Some(c) && DayField(s, c) == Some((d, e))
    requires Blanks(s, e) == Some(f) && NameField(s, f, MonthNames, 0) == Some((m, g))
    requires g <= |s| && Blanks(s, g) == Some(h) && Field(s, h, 4, 4, 0, 9999) == Some((y, k))
    requires Blanks(s, k) == Some(l) && Clock(s, l) == Some((hh, mi, sec, n))
    requires Blanks(s, n) == Some(p)
    ensures RssHead(s) == Some((Fields(y, m, d, hh, mi, sec), p))
  {
  }

  /** The RSS date of the tests: weekday, day, month name, year, clock and
      zone name. */
  lemma RssHeadExample(s: string)
    requires s == "Mon, 14 Oct 2024 10:30:00 GMT"
    ensures RssHead(s) == Some((Fields(2024, 10, 14, 10, 30, 0), 26))
  {
    RssDayExample(s);
    RssYearExample(s);
    RssClockExample(s);
    RssZoneBlankExample(s);
    RssHeadPieces(s, 1, 14, 10, 2024, 10, 30, 0, 3, 4, 5, 7, 8, 11, 12, 16, 17, 25, 26);
  }

  lemma RssDayExample(s: string)
    requires s == "Mon, 14 Oct 2024 10:30:00 GMT"
    ensures NameField(s, 0, WeekdayNames, 0) == Some((1, 3)) && Lit(s, 3, ",") == Some(4)
    ensures Blanks(s, 4) == Some(5) && DayField(s, 5) == Some((14, 7))
  {
    RssWeekdayExample(s);
    LitAt(s, 3, ',');
    SpaceAt(s, 4);
    RssDayFieldExample(s);
  }

  lemma RssWeekdayExample(s: string)
    requires s == "Mon, 14 Oct 2024 10:30:00 GMT"
    ensures NameField(s, 0, WeekdayNames, 0) == Some((1, 3))
  {
    assert Lower(s[0..3]) == "mon";
    NameFieldFind(s, 0, WeekdayNames, 0, 0);
  }

  lemma RssDayFieldExample(s: string)
    requires s == "Mon, 14 Oct 2024 10:30:00 GMT"
    ensures DayField(s, 5) == Some((14, 7))
  {
    Pad2Value(14, '1', '4');
    assert s[5] == '1' && s[6] == '4';
    assert s[5..7] == Pad2(14);
    PaddedField(s, 5, 14, 1, 31);
  }

  lemma RssYearExample(s: string)
    requires s == "Mon, 14 Oct 2024 10:30:00 GMT"
    ensures Blanks(s, 7) == Some(8) && NameField(s, 8, MonthNames, 0) == Some((10, 11))
    ensures Blanks(s, 11) == Some(12) && Field(s, 12, 4, 4, 0, 9999) == Some((2024, 16))
    ensures Blanks(s, 16) == Some(17)
  {
    RssBlanksExample(s);
    RssMonthExample(s);
    RssYearFieldExample(s);
  }

  lemma RssBlanksExample(s: string)
    requires s == "Mon, 14 Oct 2024 10:30:00 GMT"
    ensures Blanks(s, 7) == Some(8) && Blanks(s, 11) == Some(12) && Blanks(s, 16) == Some(17)
  {
    SpaceAt(s, 7);
    SpaceAt(s, 11);
    SpaceAt(s, 16);
  }

  lemma RssZoneBlankExample(s: string)
    requires s == "Mon, 14 Oct 2024 10:30:00 GMT"
    ensures Blanks(s, 25) == Some(26)
  {
    SpaceAt(s, 25);
  }

  /** One space before a letter or a digit is a run of blanks. */
  lemma SpaceAt(s: string, i: nat)
    requires i + 1 < |s| && s[i] == ' ' && ('0' <= s[i + 1] <= '9' || 'A' <= s[i + 1] <= 'Z')
    ensures Blanks(s, i) == Some(i + 1)
  {
    BlankAt(s, i);
  }

  /** Lower-casing three characters. */
  lemma LowerThree(x: string)
    requires |x| == 3
    ensures Lower(x) == [LowerChar(x[0]), LowerChar(x[1]), LowerChar(x[2])]
  {
  }

  lemma RssMonthExample(s: string)
    requires s == "Mon, 14 Oct 2024 10:30:00 GMT"
    ensures NameField(s, 8, MonthNames, 0) == Some((10, 11))
  {
    assert s[8] == 'O' && s[9] == 'c' && s[10] == 't';
    LowerThree(s[8..11]);
    NameFieldFind(s, 8, MonthNames, 0, 9);
  }

  lemma RssYearFieldExample(s: string)
    requires s == "Mon, 14 Oct 2024 10:30:00 GMT"
    ensures Field(s, 12, 4, 4, 0, 9999) == Some((2024, 16))
  {
    assert s[12..16] == NatToString(2024);
    YearAt(s, 12, 2024);
  }

  lemma RssClockExample(s: string)
    requires s == "Mon, 14 Oct 2024 10:30:00 GMT"
    ensures Clock(s, 17) == Some((10, 30, 0, 25))
  {
    Pad2Value(10, '1', '0');
    assert s[17..19] == Pad2(10);
    PaddedClockField(s, 17, 10, 23);
    LitAt(s, 19, ':');
    Pad2Value(30, '3', '0');
    assert s[20..22] == Pad2(30);
    PaddedClockField(s, 20, 30, 59);
    LitAt(s, 22, ':');
    Pad2Value(0, '0', '0');
    assert s[23..25] == Pad2(0);
    PaddedClockField(s, 23, 0, 61);
  }

  /** `"Mon, 14 Oct 2024 10:30:00 GMT"` is 14 October 2024, 10:30, naive. */
  lemma RssDateExample()
    ensures PubDate("Mon, 14 Oct 2024 10:30:00 GMT") == Some(DateTime(2024, 10, 14, 10, 30, 0, None))
  {
    RssDateParses("Mon, 14 Oct 2024 10:30:00 GMT");
  }

  lemma RssDateParses(s: string)
    requires s == "Mon, 14 Oct 2024 10:30:00 GMT"
    ensures PubDate(s) == Some(DateTime(2024, 10, 14, 10, 30, 0, None))
  {
    RssHeadExample(s);
    RssZoneExample(s);
    assert ParseFormat(0, s) == Some(DateTime(2024, 10, 14, 10, 30, 0, None));
    FirstFormatWins(s, 0);
    RssStripped(s);
  }

  lemma RssZoneExample(s: string)
    requires s == "Mon, 14 Oct 2024 10:30:00 GMT"
    ensures ZoneField(s, 26) == Some(29) && |s| == 29
  {
    assert Lower(s[26..29]) == "gmt" != "utc";
  }

  lemma RssStripped(s: string)
    requires s == "Mon, 14 Oct 2024 10:30:00 GMT"
    ensures s != [] && Strip(s) == s
  {
    StripUnchanged(s);
  }

  /** `ParseIsoT` assembles the pieces it reads. */
  lemma IsoTPieces(s: string, f: Fields, a: nat, b: nat, hh: int, mi: int, sec: int, c: nat, z: int)
    requires IsoDay(s, 0) == Some((f, a)) && Lit(s, a, "t") == Some(b)
    requires b <= |s| && Clock(s, b) == Some((hh, mi, sec, c))
    requires OffsetField(s, c) == Some((z, |s|))
    ensures ParseIsoT(s) == Build(f.(hour := hh, minute := mi, second := sec), Some(z))
  {
  }

  /** A one-letter literal matches a letter of either case. */
  lemma LetterAt(s: string, i: nat, c: char)
    requires i < |s| && LowerChar(s[i]) == c
    ensures Lit(s, i, [c]) == Some(i + 1)
  {
    assert Lower(s[i..i + 1]) == [LowerChar(s[i])];
  }

  lemma IsoTYearExample(s: string)
    requires s == "2024-10-14T10:30:00+09:00"
    ensures Field(s, 0, 4, 4, 0, 9999) == Some((2024, 4)) && Lit(s, 4, "-") == Some(5)
  {
    assert s[0..4] == NatToString(2024);
    YearAt(s, 0, 2024);
    LitAt(s, 4, '-');
  }

  lemma IsoTMonthExample(s: string)
    requires s == "2024-10-14T10:30:00+09:00"
    ensures Field(s, 5, 1, 2, 1, 12) == Some((10, 7)) && Lit(s, 7, "-") == Some(8)
  {
    Pad2Value(10, '1', '0');
    assert s[5..7] == Pad2(10);
    PaddedField(s, 5, 10, 1, 12);
    LitAt(s, 7, '-');
  }

  lemma IsoTDayFieldExample(s: string)
    requires s == "2024-10-14T10:30:00+09:00"
    ensures DayField(s, 8) == Some((14, 10))
  {
    Pad2Value(14, '1', '4');
    assert s[8] == '1' && s[9] == '4';
    assert s[8..10] == Pad2(14);
    PaddedField(s, 8, 14, 1, 31);
  }

  lemma IsoTDayExample(s: string)
    requires s == "2024-10-14T10:30:00+09:00"
    ensures IsoDay(s, 0) == Some((Fields(2024, 10, 14, 0, 0, 0), 10))
  {
    IsoTYearExample(s);
    IsoTMonthExample(s);
    IsoTDayFieldExample(s);
  }

  lemma IsoTClockExample(s: string)
    requires s == "2024-10-14T10:30:00+09:00"
    ensures Lit(s, 10, "t") == Some(11) && Clock(s, 11) == Some((10, 30, 0, 19))
  {
    LetterAt(s, 10, 't');
    IsoTHourExample(s);
    IsoTMinuteExample(s);
  }

  lemma IsoTHourExample(s: string)
    requires s == "2024-10-14T10:30:00+09:00"
    ensures Field(s, 11, 1, 2, 0, 23) == Some((10, 13)) && Lit(s, 13, ":") == Some(14)
  {
    Pad2Value(10, '1', '0');
    assert s[11..13] == Pad2(10);
    PaddedClockField(s, 11, 10, 23);
    LitAt(s, 13, ':');
  }

  lemma IsoTMinuteExample(s: string)
    requires s == "2024-10-14T10:30:00+09:00"
    ensures Field(s, 14, 1, 2, 0, 59) == Some((30, 16)) && Lit(s, 16, ":") == Some(17)
    ensures Field(s, 17, 1, 2, 0, 61) == Some((0, 19))
  {
    Pad2Value(30, '3', '0');
    assert s[14..16] == Pad2(30);
    PaddedClockField(s, 14, 30, 59);
    LitAt(s, 16, ':');
    Pad2Value(0, '0', '0');
    assert s[17..19] == Pad2(0);
    PaddedClockField(s, 17, 0, 61);
  }

  /** `+09:00` is 32400 seconds east of UTC. */
  lemma IsoTOffsetExample(s: string)
    requires s == "2024-10-14T10:30:00+09:00"
    ensures OffsetField(s, 19) == Some((32400, 25)) && |s| == 25
  {
    assert s[19] == '+' && s[20] == '0' && s[21] == '9' && s[22] == ':' && s[23] == '0' && s[24] == '0';
    assert TwoDigits(s, 20) == 9 && TwoDigits(s, 23) == 0;
  }

  /** `"2024-10-14T10:30:00+09:00"` is 14 October 2024, 10:30, nine hours
      east of UTC; the two RSS formats fail on its leading digit. */
  lemma IsoTDateExample()
    ensures PubDate("2024-10-14T10:30:00+09:00") == Some(DateTime(2024, 10, 14, 10, 30, 0, Some(32400)))
  {
    IsoTDateParses("2024-10-14T10:30:00+09:00");
  }

  lemma IsoTDateParses(s: string)
    requires s == "2024-10-14T10:30:00+09:00"
    ensures PubDate(s) == Some(DateTime(2024, 10, 14, 10, 30, 0, Some(32400)))
  {
    IsoTParses(s);
    IsoTStripped(s);
    RssNeedsName(s);
    FirstFormatWins(s, 2);
  }

  lemma IsoTParses(s: string)
    requires s == "2024-10-14T10:30:00+09:00"
    ensures ParseFormat(2, s) == Some(DateTime(2024, 10, 14, 10, 30, 0, Some(32400)))
  {
    IsoTDayExample(s);
    IsoTClockExample(s);
    IsoTOffsetExample(s);
    IsoTPieces(s, Fields(2024, 10, 14, 0, 0, 0), 10, 11, 10, 30, 0, 19, 32400);
  }

  lemma IsoTStripped(s: string)
    requires s == "2024-10-14T10:30:00+09:00"
    ensures s != [] && Strip(s) == s && IsDigit(s[0])
  {
    StripUnchanged(s);
  }

  lemma KoreanRunsExample(s: string)
    requires s == "2024년 10월 14일"
    ensures |s| == 13 && s[4] == '년' && s[8] == '월' && s[12] == '일'
    ensures RunEnd(s, 5, IsSpace) == 6 && RunEnd(s, 6, IsDigit) == 8
    ensures RunEnd(s, 9, IsSpace) == 10 && RunEnd(s, 10, IsDigit) == 12
  {
    assert s[5] == ' ' && s[6] == '1' && s[7] == '0' && s[8] == '월';
    Dates.RunEndAt(s, 5, 6, IsSpace);
    Dates.RunEndAt(s, 6, 8, IsDigit);
    assert s[9] == ' ' && s[10] == '1' && s[11] == '4' && s[12] == '일';
    Dates.RunEndAt(s, 9, 10, IsSpace);
    Dates.RunEndAt(s, 10, 12, IsDigit);
  }

  lemma KoreanValuesExample(s: string)
    requires s == "2024년 10월 14일"
    ensures s[0..4] == NatToString(2024) && s[6..8] == Pad2(10) && s[10..12] == Pad2(14)
  {
    Pad2Value(10, '1', '0');
    Pad2Value(14, '1', '4');
  }

  /** The Korean pattern matches at the start of `"2024년 10월 14일"`. */
  lemma KoreanAtExample(s: string)
    requires s == "2024년 10월 14일"
    ensures KoreanAt(s, 0) == Some((2024, 10, 14))
  {
    KoreanRunsExample(s);
    KoreanValuesExample(s);
    DigitsValueOfNatToString(2024);
    DigitsValueOfPad2(10);
    DigitsValueOfPad2(14);
    forall k | 0 <= k < 4 ensures IsDigit(s[k]) {
      assert s[k] == NatToString(2024)[k];
    }
  }

  /** `"2024년 10월 14일"` fits none of the formats and is read by the Korean
      fallback as a naive midnight. */
  lemma KoreanDateExample()
    ensures KoreanDate("2024년 10월 14일") == Some(DateTime(2024, 10, 14, 0, 0, 0, None))
    ensures PubDate("2024년 10월 14일") == Some(DateTime(2024, 10, 14, 0, 0, 0, None))
  {
    KoreanDateParses("2024년 10월 14일");
  }

  lemma KoreanDateParses(s: string)
    requires s == "2024년 10월 14일"
    ensures KoreanDate(s) == Some(DateTime(2024, 10, 14, 0, 0, 0, None))
    ensures PubDate(s) == Some(DateTime(2024, 10, 14, 0, 0, 0, None))
  {
    KoreanAtExample(s);
    KoreanFormatsFail(s);
  }

  lemma KoreanFormatsFail(s: string)
    requires s == "2024년 10월 14일"
    ensures s != [] && FirstFormat(Strip(s), 0) == None
  {
    StripUnchanged(s);
    RssNeedsName(s);
    assert Lower(s[4..5]) == [LowerChar(s[4])];
    assert Lit(s, 4, "-") == None;
    assert IsoDay(s, 0) == None;
    assert FirstFormat(s, 2) == None;
  }
}
