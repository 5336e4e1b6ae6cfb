/** The weather helpers: the WMO weather-code table, the lookup by address
    (geocoding and the forecast service are parameters) and the text and
    HTML formatters over the resulting string dictionary. */
module Weather {
  import opened Options
  import opened Text

  /** A weather dictionary: every value is a string. */
  type Info = map<string, string>

  // ---------------------------------------------------------------------
  // Weather codes.

  const Unknown: string := "알 수 없음"

  const WeatherCodes: map<int, string> := map[
    0 := "맑음",
    1 := "대체로 맑음",
    2 := "부분적으로 흐림",
    3 := "흐림",
    45 := "안개",
    48 := "서리 안개",
    51 := "가벼운 이슬비",
    53 := "보통 이슬비",
    55 := "강한 이슬비",
    56 := "가벼운 얼음 이슬비",
    57 := "강한 얼음 이슬비",
    61 := "약한 비",
    63 := "보통 비",
    65 := "강한 비",
    66 := "가벼운 얼음비",
    67 := "강한 얼음비",
    71 := "약한 눈",
    73 := "보통 눈",
    75 := "강한 눈",
    77 := "진눈깨비",
    80 := "약한 소나기",
    81 := "보통 소나기",
    82 := "강한 소나기",
    85 := "약한 눈 소나기",
    86 := "강한 눈 소나기",
    95 := "뇌우",
    96 := "약한 우박을 동반한 뇌우",
    99 := "강한 우박을 동반한 뇌우"
  ]

  /** `get_weather_description`: the Korean description of a WMO code, or
      "unknown" for a code outside the table. */
  function Describe(code: int): (r: string)
    ensures code in WeatherCodes ==> r == WeatherCodes[code]
    ensures code !in WeatherCodes ==> r == Unknown
  {
    if code in WeatherCodes then WeatherCodes[code] else Unknown
  }

  /** No code of the table is described as unknown, so the description is
      the fallback exactly for the codes outside the table. */
  lemma DescribeKnownIff(code: int)
    ensures Describe(code) != Unknown <==> code in WeatherCodes
  {
    if code in WeatherCodes {
      assert code in {0, 1, 2, 3, 45, 48, 51, 53, 55, 56, 57, 61, 63, 65, 66, 67,
                      71, 73, 75, 77, 80, 81, 82, 85, 86, 95, 96, 99};
    }
  }

  /** The table is a code range of WMO 4677's present-weather subset: every
      code lies between 0 and 99. */
  lemma CodesInRange(code: int)
    requires code in WeatherCodes
    ensures 0 <= code <= 99
  {
    assert code in {0, 1, 2, 3, 45, 48, 51, 53, 55, 56, 57, 61, 63, 65, 66, 67,
                    71, 73, 75, 77, 80, 81, 82, 85, 86, 95, 96, 99};
  }

  // ---------------------------------------------------------------------
  // Lookup by address.

  datatype Coordinates = Coordinates(lat: real, lon: real)

  /** The dictionary returned when the address cannot be geocoded. */
  function AddressError(address: string): Info {
    map[
      "temperature" := "주소 조회 실패",
      "humidity" := "주소 조회 실패",
      "wind_speed" := "주소 조회 실패",
      "condition" := "주소를 찾을 수 없습니다",
      "status" := "address_error",
      "address" := address
    ]
  }

  /** `get_weather_by_address`: `coordinates` is what the geocoder found for
      the address and `weatherAt` the forecast service. */
  function GetWeatherByAddress(address: string, coordinates: Option<Coordinates>,
                               weatherAt: Coordinates -> Info): (r: Info)
    ensures "address" in r && r["address"] == address
    ensures coordinates.None? ==> "status" in r && r["status"] == "address_error"
    ensures coordinates.None? ==> r == AddressError(address)
    ensures coordinates.Some? ==>
      forall k :: k in weatherAt(coordinates.value) && k != "address" ==>
        k in r && r[k] == weatherAt(coordinates.value)[k]
    ensures coordinates.Some? ==> r.Keys == weatherAt(coordinates.value).Keys + {"address"}
  {
    match coordinates
    case None => AddressError(address)
    case Some(c) => weatherAt(c)["address" := address]
  }

  // ---------------------------------------------------------------------
  // Formatters.

  /** `info.get(key, default)`. */
  function Get(info: Info, key: string, default: string): string {
    if key in info then info[key] else default
  }

  predicate IsAddressError(info: Info) {
    "status" in info && info["status"] == "address_error"
  }

  const NoAddress: string := "알 수 없는 위치"
  const Heading: string := " 날씨 정보"

  function Address(info: Info): string { Get(info, "address", NoAddress) }

  /** The heading: the address, and the time range when it is non-empty. */
  function Title(info: Info): string {
    var range := Get(info, "time_range", "");
    Address(info) + Heading + (if range != [] then " (" + range + ")" else "")
  }

  /** The text line of one reading; a missing reading shows as "N/A". */
  function TextReading(info: Info, name: string, key: string): string {
    "- " + name + ": " + Get(info, key, "N/A") + "\n"
  }

  /** The HTML list item of one reading. */
  function HtmlReading(info: Info, name: string, key: string): string {
    "    <li><strong>" + name + ":</strong> " + Get(info, key, "N/A") + "</li>\n"
  }

  /** What follows the heading in the text of a forecast. */
  function TextBody(info: Info): string {
    ":\n" + TextReading(info, "기온", "temperature") + TextReading(info, "습도", "humidity")
    + TextReading(info, "풍속", "wind_speed") + TextReading(info, "날씨", "condition")
  }

  /** What follows the heading in the HTML of a forecast. */
  function HtmlBody(info: Info): string {
    "</h3>\n<ul>\n" + HtmlReading(info, "\U{1F321}\U{FE0F} 기온", "temperature")
    + HtmlReading(info, "\U{1F4A7} 습도", "humidity") + HtmlReading(info, "\U{1F4A8} 풍속", "wind_speed")
    + HtmlReading(info, "\U{1F324}\U{FE0F} 날씨", "condition") + "</ul>\n"
  }

  const NotFoundText: string := ":\n- 주소를 찾을 수 없습니다.\n"
  const NotFoundHtml: string := "</h3>\n<p><strong>\U{26A0}\U{FE0F} 주소를 찾을 수 없습니다.</strong></p>\n"

  /** `format_weather_info_text`. */
  function FormatText(info: Info): string {
    if IsAddressError(info) then "\n" + Address(info) + Heading + NotFoundText
    else "\n" + Title(info) + TextBody(info)
  }

  /** `format_weather_info_html`. */
  function FormatHtml(info: Info): string {
    if IsAddressError(info) then "\n<h3>" + Address(info) + Heading + NotFoundHtml
    else "\n<h3>" + Title(info) + HtmlBody(info)
  }

  // ---------------------------------------------------------------------
  // Properties.

  /** The formatters read only the status, the address, the time range and
      the four readings: dictionaries that agree on those format alike. */
  lemma SameFormat(a: Info, b: Info)
    requires IsAddressError(a) == IsAddressError(b) && Address(a) == Address(b)
    requires !IsAddressError(a) ==>
      Get(a, "time_range", "") == Get(b, "time_range", "")
      && Get(a, "temperature", "N/A") == Get(b, "temperature", "N/A")
      && Get(a, "humidity", "N/A") == Get(b, "humidity", "N/A")
      && Get(a, "wind_speed", "N/A") == Get(b, "wind_speed", "N/A")
      && Get(a, "condition", "N/A") == Get(b, "condition", "N/A")
    ensures FormatText(a) == FormatText(b)
    ensures FormatHtml(a) == FormatHtml(b)
  {
    if !IsAddressError(a) {
      assert Title(a) == Title(b);
      assert TextBody(a) == TextBody(b);
      assert HtmlBody(a) == HtmlBody(b);
    }
  }

  /** For an address error the output depends on the address alone: the
      readings in the dictionary are not shown. */
  lemma AddressErrorShowsOnlyAddress(a: Info, b: Info)
    requires IsAddressError(a) && IsAddressError(b)
    requires Address(a) == Address(b)
    ensures FormatText(a) == FormatText(b)
    ensures FormatHtml(a) == FormatHtml(b)
  {
    SameFormat(a, b);
  }

  /** A lookup that found no coordinates formats as the not-found message for
      that address, whatever the forecast service would have said. */
  lemma NotFoundMessage(address: string, weatherAt: Coordinates -> Info)
    ensures FormatText(GetWeatherByAddress(address, None, weatherAt))
      == "\n" + address + Heading + NotFoundText
    ensures Contains(FormatHtml(GetWeatherByAddress(address, None, weatherAt)), address)
  {
    var info := GetWeatherByAddress(address, None, weatherAt);
    assert IsAddressError(info) && Address(info) == address;
    ContainsMiddle("\n<h3>", address, Heading + NotFoundHtml);
    assert "\n<h3>" + address + (Heading + NotFoundHtml) == FormatHtml(info);
  }

  /** An empty time range is shown exactly like a missing one. */
  lemma EmptyRangeLikeMissing(info: Info)
    requires "time_range" !in info
    ensures FormatText(info["time_range" := ""]) == FormatText(info)
    ensures FormatHtml(info["time_range" := ""]) == FormatHtml(info)
  {
    var with := info["time_range" := ""];
    forall k | k != "time_range"
      ensures Get(with, k, "N/A") == Get(info, k, "N/A")
    {
    }
    assert Get(with, "address", NoAddress) == Get(info, "address", NoAddress);
    assert IsAddressError(with) == IsAddressError(info);
    SameFormat(with, info);
  }

  /** A non-empty time range is shown in parentheses after the heading. */
  lemma RangeShown(info: Info)
    requires !IsAddressError(info)
    requires "time_range" in info && info["time_range"] != []
    ensures Contains(FormatText(info), " (" + info["time_range"] + ")")
    ensures Contains(FormatHtml(info), " (" + info["time_range"] + ")")
  {
    var p := " (" + info["time_range"] + ")";
    var t := Title(info);
    assert t == Address(info) + Heading + p;
    ContainsWhole(p);
    ContainsRight(Address(info) + Heading, p, p);
    ContainsRight("\n", t, p);
    ContainsLeft("\n" + t, TextBody(info), p);
    ContainsRight("\n<h3>", t, p);
    ContainsLeft("\n<h3>" + t, HtmlBody(info), p);
  }

  /** A dictionary without an address is shown for an unknown location. */
  lemma MissingAddress(info: Info)
    requires "address" !in info
    ensures StartsWith(FormatText(info), "\n" + NoAddress + Heading)
    ensures StartsWith(FormatHtml(info), "\n<h3>" + NoAddress + Heading)
  {
    assert Address(info) == NoAddress;
    var p, h := "\n" + NoAddress + Heading, "\n<h3>" + NoAddress + Heading;
    if IsAddressError(info) {
      StartsWithLeft(p, NotFoundText, p);
      StartsWithLeft(h, NotFoundHtml, h);
    } else {
      var range := Get(info, "time_range", "");
      var tail := if range != [] then " (" + range + ")" else "";
      var title := NoAddress + Heading;
      StartsWithLeft(title, tail, title);
      StartsWithPrepend("\n", Title(info), title);
      StartsWithLeft("\n" + Title(info), TextBody(info), "\n" + title);
      assert "\n" + title == p;
      StartsWithPrepend("\n<h3>", Title(info), title);
      StartsWithLeft("\n<h3>" + Title(info), HtmlBody(info), "\n<h3>" + title);
      assert "\n<h3>" + title == h;
    }
  }

  /** Each of four strings appended in a row is contained in the result. */
  lemma FourShown(a: string, r1: string, r2: string, r3: string, r4: string)
    ensures Contains(a + r1 + r2 + r3 + r4, r1) && Contains(a + r1 + r2 + r3 + r4, r2)
    ensures Contains(a + r1 + r2 + r3 + r4, r3) && Contains(a + r1 + r2 + r3 + r4, r4)
  {
    ContainsMiddle(a, r1, r2 + r3 + r4);
    assert a + r1 + (r2 + r3 + r4) == a + r1 + r2 + r3 + r4;
    ContainsMiddle(a + r1, r2, r3 + r4);
    assert a + r1 + r2 + (r3 + r4) == a + r1 + r2 + r3 + r4;
    ContainsMiddle(a + r1 + r2, r3, r4);
    ContainsMiddle(a + r1 + r2 + r3, r4, "");
    assert a + r1 + r2 + r3 + r4 + "" == a + r1 + r2 + r3 + r4;
  }

  /** Every reading of a forecast is shown, a missing one as "N/A", in the
      text and in the HTML. */
  lemma ReadingsShown(info: Info)
    requires !IsAddressError(info)
    ensures Contains(FormatText(info), TextReading(info, "기온", "temperature"))
    ensures Contains(FormatText(info), TextReading(info, "습도", "humidity"))
    ensures Contains(FormatText(info), TextReading(info, "풍속", "wind_speed"))
    ensures Contains(FormatText(info), TextReading(info, "날씨", "condition"))
    ensures Contains(FormatHtml(info), HtmlReading(info, "\U{1F321}\U{FE0F} 기온", "temperature"))
    ensures Contains(FormatHtml(info), HtmlReading(info, "\U{1F4A7} 습도", "humidity"))
    ensures Contains(FormatHtml(info), HtmlReading(info, "\U{1F4A8} 풍속", "wind_speed"))
    ensures Contains(FormatHtml(info), HtmlReading(info, "\U{1F324}\U{FE0F} 날씨", "condition"))
  {
    var t1, t2 := TextReading(info, "기온", "temperature"), TextReading(info, "습도", "humidity");
    var t3, t4 := TextReading(info, "풍속", "wind_speed"), TextReading(info, "날씨", "condition");
    FourShown(":\n", t1, t2, t3, t4);
    var head := "\n" + Title(info);
    ContainsRight(head, TextBody(info), t1);
    ContainsRight(head, TextBody(info), t2);
    ContainsRight(head, TextBody(info), t3);
    ContainsRight(head, TextBody(info), t4);
    var h1, h2 := HtmlReading(info, "\U{1F321}\U{FE0F} 기온", "temperature"), HtmlReading(info, "\U{1F4A7} 습도", "humidity");
    var h3, h4 := HtmlReading(info, "\U{1F4A8} 풍속", "wind_speed"), HtmlReading(info, "\U{1F324}\U{FE0F} 날씨", "condition");
    var list := "</h3>\n<ul>\n" + h1 + h2 + h3 + h4;
    FourShown("</h3>\n<ul>\n", h1, h2, h3, h4);
    ContainsLeft(list, "</ul>\n", h1);
    ContainsLeft(list, "</ul>\n", h2);
    ContainsLeft(list, "</ul>\n", h3);
    ContainsLeft(list, "</ul>\n", h4);
    var hhead := "\n<h3>" + Title(info);
    ContainsRight(hhead, HtmlBody(info), h1);
    ContainsRight(hhead, HtmlBody(info), h2);
    ContainsRight(hhead, HtmlBody(info), h3);
    ContainsRight(hhead, HtmlBody(info), h4);
  }
}
