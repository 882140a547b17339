/** GameTDBData.cs: the typed view of one `<game>` record of the GameTDB catalog, and the
    locale-fallback and cover-URL rules derived from it. */
module GameTdb {
  import opened Wrappers
  import opened Xml
  import opened Text
  import opened Pairs

  datatype Rating = Rating(ratingType: string, theRating: string, descriptor: Option<string>)

  datatype Date = Date(year: Option<int>, month: Option<int>, day: Option<int>)

  /** One catalog record. `titles` and `synopses` map a locale code to its text, in
      insertion (= document) order; None stands for a null field. */
  datatype GameTdbData = GameTdbData(
    id: Option<string>, platform: Option<string>, region: Option<string>,
    languages: seq<string>,
    titles: seq<(string, string)>, synopses: seq<(string, string)>,
    developer: Option<string>, publisher: Option<string>,
    releaseDate: Option<Date>, genre: seq<string>, rating: Option<Rating>,
    players: Option<int>, requiredAccessories: seq<string>, accessories: seq<string>,
    onlinePlayers: Option<int>, onlineFeatures: seq<string>, saveBlocks: Option<int>,
    version: Option<string>, size: Option<int>, romName: Option<string>,
    crc: Option<string>, md5: Option<string>, sha1: Option<string>)

  // ---------------------------------------------------------------------------------------
  // Element access helpers

  /** GetElementText: the inner text of the first descendant named `tag`, or null. */
  function GetElementText(e: Element, tag: string): (r: Option<string>)
    ensures r.None? <==> forall d :: d in Descendants(e) ==> d.name != tag
  {
    var res := ElementsByTagName(e, tag);
    forall d | d in Descendants(e) ensures d.name == tag ==> |res| > 0 {
      NamedMembership(Descendants(e), tag, d);
    }
    if |res| > 0 then (NamedMembership(Descendants(e), tag, res[0]); Some(InnerText(res[0]))) else None
  }

  /** GetElementOrNull: the first descendant named `tag`, or null. */
  function GetElementOrNull(e: Element, tag: string): (r: Option<Element>)
    ensures r.None? <==> forall d :: d in Descendants(e) ==> d.name != tag
    ensures r.Some? ==> r.value in Descendants(e) && r.value.name == tag
  {
    var res := ElementsByTagName(e, tag);
    forall d | d in Descendants(e) ensures d.name == tag ==> |res| > 0 {
      NamedMembership(Descendants(e), tag, d);
    }
    if |res| > 0 then (NamedMembership(Descendants(e), tag, res[0]); Some(res[0])) else None
  }

  /** Both helpers see the same element: the first descendant in document order with that
      name. */
  lemma FirstDescendantIsUsed(e: Element, tag: string, k: nat)
    requires k < |Descendants(e)| && Descendants(e)[k].name == tag
    requires forall j :: 0 <= j < k ==> Descendants(e)[j].name != tag
    ensures GetElementOrNull(e, tag) == Some(Descendants(e)[k])
    ensures GetElementText(e, tag) == Some(InnerText(Descendants(e)[k]))
  {
    NamedHead(Descendants(e), tag, k);
  }

  /** ParseOrNull: applies `parser` to a non-null input; null stays null. */
  function ParseOrNull<T>(parser: Element -> T, input: Option<Element>): (r: Option<T>)
    ensures r.Some? <==> input.Some?
    ensures input.Some? ==> r.value == parser(input.value)
  {
    match input
    case Some(e) => Some(parser(e))
    case None => None
  }

  /** TryParseOrNull as evidently intended: null for a null input or an unparsable one. */
  function TryParseOrNull(parser: string -> Option<int>, input: Option<string>): (r: Option<int>)
    ensures r.None? <==> input.None? || parser(input.value).None?
    ensures r.Some? ==> r == parser(input.value)
  {
    match input
    case Some(s) => parser(s)
    case None => None
  }

  /** TryParseOrNull as written: its result type `TResult?` is the plain value type for
      TResult = int or ulong, so `default` is 0, not null. */
  function TryParseOrNullAsWritten(parser: string -> Option<int>, input: Option<string>): (r: int)
    ensures input.None? ==> r == 0
    ensures input.Some? ==> r == parser(input.value).GetOr(0)
  {
    match input
    case Some(s) => parser(s).GetOr(0)
    case None => 0
  }

  /** As written, a record without `<input>`, one with `players=""` and one with
      `players="0"` all get player count 0; as intended, only the last does. */
  lemma MissingCountReadsAsZero()
    ensures TryParseOrNullAsWritten(TryParseInt32, None) == 0
    ensures TryParseOrNullAsWritten(TryParseInt32, Some("")) == 0
    ensures TryParseOrNullAsWritten(TryParseInt32, Some("0")) == 0
    ensures TryParseOrNull(TryParseInt32, None) == None
    ensures TryParseOrNull(TryParseInt32, Some("")) == None
    ensures TryParseOrNull(TryParseInt32, Some("0")) == Some(0)
  {
    assert StripNumberWhite("0") == "0";
    assert DigitsValue("0") == 10 * DigitsValue("") + 0;
  }

  /** Which reading a definition follows where the code and its evident intent differ: the
      code as written, or the corrected one. */
  datatype Reading = AsWritten | Corrected

  /** A count property of the record (`int?` or `ulong?`) assigned from TryParseOrNull: as
      written the helper's 0 becomes a present 0; corrected, a missing count stays null. */
  function ParseCount(reading: Reading, parser: string -> Option<int>, input: Option<string>): Option<int>
  {
    match reading
    case AsWritten => Some(TryParseOrNullAsWritten(parser, input))
    case Corrected => TryParseOrNull(parser, input)
  }

  /** The "attribute of an optional element" reads such as `rom?.GetAttribute("size")`. */
  function AttributeOf(e: Option<Element>, attribute: string): (r: Option<string>)
    ensures r.Some? <==> e.Some?
  {
    match e
    case Some(x) => Some(GetAttribute(x, attribute))
    case None => None
  }

  /** `text?.Split(',') ?? Array.Empty<string>()`. */
  function SplitOrEmpty(text: Option<string>): (r: seq<string>)
    ensures text.None? <==> r == []
    ensures text.Some? ==> Join(r, ',') == text.value
    ensures forall i :: 0 <= i < |r| ==> ',' !in r[i]
  {
    match text
    case Some(t) => JoinSplit(t, ','); Split(t, ',')
    case None => []
  }

  // ---------------------------------------------------------------------------------------
  // Rating.Parse, Date.Parse

  /** Rating.Parse: type and value attributes ("" when missing) and the descriptor text. */
  function ParseRating(e: Element): (r: Rating)
    ensures r.ratingType == GetAttribute(e, "type") && r.theRating == GetAttribute(e, "value")
    ensures r.descriptor == GetElementText(e, "descriptor")
  {
    Rating(GetAttribute(e, "type"), GetAttribute(e, "value"), GetElementText(e, "descriptor"))
  }

  /** Date.Parse: each part is null unless its attribute is present and parses as an int32;
      a missing attribute reads as "", which never parses. */
  function ParseDate(e: Element): (r: Date)
    ensures "year" !in e.attributes ==> r.year.None?
    ensures "month" !in e.attributes ==> r.month.None?
    ensures "day" !in e.attributes ==> r.day.None?
    ensures r.year.Some? ==> ParseInteger(e.attributes["year"]) == r.year
    ensures r.month.Some? ==> ParseInteger(e.attributes["month"]) == r.month
    ensures r.day.Some? ==> ParseInteger(e.attributes["day"]) == r.day
    ensures "year" in e.attributes ==> r.year == TryParseInt32(e.attributes["year"])
    ensures "month" in e.attributes ==> r.month == TryParseInt32(e.attributes["month"])
    ensures "day" in e.attributes ==> r.day == TryParseInt32(e.attributes["day"])
  {
    Date(TryParseInt32(GetAttribute(e, "year")), TryParseInt32(GetAttribute(e, "month")),
         TryParseInt32(GetAttribute(e, "day")))
  }

  // ---------------------------------------------------------------------------------------
  // Parse

  /** The (lang, text) pairs of the `<locale>` elements that have a `tag` descendant, in
      document order: the sequence fed to ToDictionary. */
  function LocaleEntries(locales: seq<Element>, tag: string): (r: seq<(string, string)>)
    decreases |locales|
    ensures |r| <= |locales|
  {
    if locales == [] then []
    else
      var rest := LocaleEntries(locales[1..], tag);
      match GetElementText(locales[0], tag)
      case Some(t) => [(GetAttribute(locales[0], "lang"), t)] + rest
      case None => rest
  }

  /** An entry is in the dictionary exactly when some locale with that `lang` has a `tag`
      descendant with that text. */
  lemma {:induction false} LocaleEntriesExact(locales: seq<Element>, tag: string, lang: string, t: string)
    ensures (lang, t) in LocaleEntries(locales, tag) <==>
      exists i :: 0 <= i < |locales| && GetAttribute(locales[i], "lang") == lang &&
                  GetElementText(locales[i], tag) == Some(t)
  {
    if locales != [] {
      LocaleEntriesExact(locales[1..], tag, lang, t);
      var P := (i: int) => 0 <= i < |locales| && GetAttribute(locales[i], "lang") == lang &&
                           GetElementText(locales[i], tag) == Some(t);
      if (exists i :: P(i)) {
        var i :| P(i);
        if i > 0 {
          assert locales[1..][i - 1] == locales[i];
        }
      }
      if (exists i :: 0 <= i < |locales| - 1 && GetAttribute(locales[1..][i], "lang") == lang &&
                      GetElementText(locales[1..][i], tag) == Some(t)) {
        var i :| 0 <= i < |locales| - 1 && GetAttribute(locales[1..][i], "lang") == lang &&
                 GetElementText(locales[1..][i], tag) == Some(t);
        assert P(i + 1);
      }
    }
  }

  /** Enumerable.ToDictionary: keeps the pairs in order, or throws ArgumentException on a
      repeated key. */
  function ToDictionary(pairs: seq<(string, string)>): (r: Result<seq<(string, string)>>)
    ensures r.Ok? <==> DistinctKeys(pairs)
    ensures r.Ok? ==> r.value == pairs
    ensures r.Throws? ==> r.error == ArgumentException
  {
    if DistinctKeys(pairs) then Ok(pairs) else Throws(ArgumentException)
  }

  /** The `type` attributes of the controls whose `required` attribute is "true" (when
      `required` holds) or is anything else (when it does not), in document order. */
  function AccessoryTypes(controls: seq<Element>, required: bool): (r: seq<string>)
    decreases |controls|
    ensures |r| <= |controls|
  {
    if controls == [] then []
    else
      var rest := AccessoryTypes(controls[1..], required);
      if (GetAttribute(controls[0], "required") == "true") == required
      then [GetAttribute(controls[0], "type")] + rest
      else rest
  }

  function TypesOf(controls: seq<Element>): (r: seq<string>)
    ensures |r| == |controls| && forall i :: 0 <= i < |r| ==> r[i] == GetAttribute(controls[i], "type")
  {
    seq(|controls|, i requires 0 <= i < |controls| => GetAttribute(controls[i], "type"))
  }

  /** Required and optional accessories together are exactly the controls' types: every
      control lands in one of the two lists. */
  lemma {:induction false} AccessoriesPartitionControls(controls: seq<Element>)
    ensures |AccessoryTypes(controls, true)| + |AccessoryTypes(controls, false)| == |controls|
    ensures multiset(AccessoryTypes(controls, true)) + multiset(AccessoryTypes(controls, false))
            == multiset(TypesOf(controls))
  {
    if controls != [] {
      AccessoriesPartitionControls(controls[1..]);
      assert TypesOf(controls) == [GetAttribute(controls[0], "type")] + TypesOf(controls[1..]);
    }
  }

  /** GameTdbData.Parse: projects a `<game>` element onto a record, throwing only when two
      locales with the same `lang` both have a title (or both have a synopsis). */
  function Parse(root: Element, reading: Reading): (r: Result<GameTdbData>)
    ensures r.Ok? <==>
      DistinctKeys(LocaleEntries(ElementsByTagName(root, "locale"), "title")) &&
      DistinctKeys(LocaleEntries(ElementsByTagName(root, "locale"), "synopsis"))
    ensures r.Throws? ==> r.error == ArgumentException
    ensures r.Ok? ==> r.value.id == GetElementText(root, "id")
  {
    var locales := ElementsByTagName(root, "locale");
    var wifi := GetElementOrNull(root, "wi-fi");
    var input := GetElementOrNull(root, "input");
    var control := match input case Some(i) => ElementsByTagName(i, "control") case None => [];
    var rom := GetElementOrNull(root, "rom");
    var titles :- ToDictionary(LocaleEntries(locales, "title"));
    var synopses :- ToDictionary(LocaleEntries(locales, "synopsis"));
    Ok(GameTdbData(
      id := GetElementText(root, "id"),
      platform := GetElementText(root, "type"),
      region := GetElementText(root, "region"),
      languages := SplitOrEmpty(GetElementText(root, "languages")),
      titles := titles,
      synopses := synopses,
      developer := GetElementText(root, "developer"),
      publisher := GetElementText(root, "publisher"),
      releaseDate := ParseOrNull(ParseDate, GetElementOrNull(root, "date")),
      genre := SplitOrEmpty(GetElementText(root, "genre")),
      rating := ParseOrNull(ParseRating, GetElementOrNull(root, "rating")),
      players := ParseCount(reading, TryParseInt32, AttributeOf(input, "players")),
      requiredAccessories := AccessoryTypes(control, true),
      accessories := AccessoryTypes(control, false),
      onlinePlayers := ParseCount(reading, TryParseInt32, AttributeOf(wifi, "players")),
      onlineFeatures := match wifi
        case Some(w) => seq(|ElementsByTagName(w, "feature")|,
                            i requires 0 <= i < |ElementsByTagName(w, "feature")| =>
                              InnerText(ElementsByTagName(w, "feature")[i]))
        case None => [],
      saveBlocks := ParseCount(reading, TryParseInt32, AttributeOf(GetElementOrNull(root, "save"), "blocks")),
      version := AttributeOf(rom, "version"),
      size := ParseCount(reading, TryParseUInt64, AttributeOf(rom, "size")),
      romName := AttributeOf(rom, "name"),
      crc := AttributeOf(rom, "crc"),
      md5 := AttributeOf(rom, "md5"),
      sha1 := AttributeOf(rom, "sha1")))
  }

  /** Titles and synopses hold exactly the locales that have a title (synopsis), keyed by
      their `lang`. */
  lemma ParsedTitlesAreTheLocaleTitles(root: Element, reading: Reading, lang: string, t: string)
    requires Parse(root, reading).Ok?
    ensures (lang, t) in Parse(root, reading).value.titles <==>
      exists i :: 0 <= i < |ElementsByTagName(root, "locale")| &&
        GetAttribute(ElementsByTagName(root, "locale")[i], "lang") == lang &&
        GetElementText(ElementsByTagName(root, "locale")[i], "title") == Some(t)
    ensures (lang, t) in Parse(root, reading).value.synopses <==>
      exists i :: 0 <= i < |ElementsByTagName(root, "locale")| &&
        GetAttribute(ElementsByTagName(root, "locale")[i], "lang") == lang &&
        GetElementText(ElementsByTagName(root, "locale")[i], "synopsis") == Some(t)
  {
    LocaleEntriesExact(ElementsByTagName(root, "locale"), "title", lang, t);
    LocaleEntriesExact(ElementsByTagName(root, "locale"), "synopsis", lang, t);
  }

  /** The record's accessory lists partition the `<control>` elements of its `<input>`. */
  lemma ParsedAccessoriesPartitionControls(root: Element, reading: Reading)
    requires Parse(root, reading).Ok?
    ensures var d := Parse(root, reading).value;
      var control := match GetElementOrNull(root, "input")
        case Some(i) => ElementsByTagName(i, "control") case None => [];
      |d.requiredAccessories| + |d.accessories| == |control| &&
      multiset(d.requiredAccessories) + multiset(d.accessories) == multiset(TypesOf(control))
  {
    var control := match GetElementOrNull(root, "input")
      case Some(i) => ElementsByTagName(i, "control") case None => [];
    AccessoriesPartitionControls(control);
  }

  /** Corrected, a count is null exactly when its element or attribute is missing or does not
      parse; a present, parsable attribute gives its value, so absence and zero stay distinct. */
  lemma ParsedCountsAreNullWhenAbsent(root: Element)
    requires Parse(root, Corrected).Ok?
    ensures var d := Parse(root, Corrected).value;
      (d.players.None? <==> (GetElementOrNull(root, "input").None? ||
         TryParseInt32(GetAttribute(GetElementOrNull(root, "input").value, "players")).None?)) &&
      (d.onlinePlayers.None? <==> (GetElementOrNull(root, "wi-fi").None? ||
         TryParseInt32(GetAttribute(GetElementOrNull(root, "wi-fi").value, "players")).None?)) &&
      (d.saveBlocks.None? <==> (GetElementOrNull(root, "save").None? ||
         TryParseInt32(GetAttribute(GetElementOrNull(root, "save").value, "blocks")).None?)) &&
      (d.size.None? <==> (GetElementOrNull(root, "rom").None? ||
         TryParseUInt64(GetAttribute(GetElementOrNull(root, "rom").value, "size")).None?))
  {
  }

  /** As written, every count is present: a missing `<input>`, `<wi-fi>`, `<save>` or `<rom>`
      gives 0, the same as an attribute "0". */
  lemma ParsedCountsAsWritten(root: Element)
    requires Parse(root, AsWritten).Ok?
    ensures var d := Parse(root, AsWritten).value;
      d.players.Some? && d.onlinePlayers.Some? && d.saveBlocks.Some? && d.size.Some? &&
      (GetElementOrNull(root, "input").None? ==> d.players == Some(0)) &&
      (GetElementOrNull(root, "wi-fi").None? ==> d.onlinePlayers == Some(0)) &&
      (GetElementOrNull(root, "save").None? ==> d.saveBlocks == Some(0)) &&
      (GetElementOrNull(root, "rom").None? ==> d.size == Some(0))
  {
  }

  /** The two readings differ only in the four counts: they throw alike, and otherwise give
      the same record once the counts are set alike. */
  lemma ParseReadingsAgreeBeyondCounts(root: Element)
    ensures Parse(root, AsWritten).Ok? <==> Parse(root, Corrected).Ok?
    ensures Parse(root, AsWritten).Throws? ==> Parse(root, AsWritten) == Parse(root, Corrected)
    ensures Parse(root, AsWritten).Ok? ==>
      var w := Parse(root, AsWritten).value;
      var c := Parse(root, Corrected).value;
      w.(players := c.players, onlinePlayers := c.onlinePlayers, saveBlocks := c.saveBlocks, size := c.size) == c
  {
  }

  // ---------------------------------------------------------------------------------------
  // GetTitle, GetSynopsis

  /** The three-step fallback over a locale dictionary: the requested locale, else "EN",
      else the first entry in insertion order, else null. */
  function Localized(entries: seq<(string, string)>, targetLanguage: string): (r: Option<string>)
    ensures r.None? <==> entries == []
    ensures r.Some? ==> r.value in ValuesOf(entries)
  {
    match Lookup(entries, targetLanguage)
    case Some(t) => Some(t)
    case None =>
      match Lookup(entries, "EN")
      case Some(t) => Some(t)
      case None => if |entries| > 0 then Some(entries[0].1) else None
  }

  /** Each tier applies only when the ones before it found nothing. */
  lemma LocalizedFallbackOrder(entries: seq<(string, string)>, targetLanguage: string)
    ensures targetLanguage in KeysOf(entries) ==>
      Localized(entries, targetLanguage) == Lookup(entries, targetLanguage)
    ensures targetLanguage !in KeysOf(entries) && "EN" in KeysOf(entries) ==>
      Localized(entries, targetLanguage) == Lookup(entries, "EN")
    ensures targetLanguage !in KeysOf(entries) && "EN" !in KeysOf(entries) && entries != [] ==>
      Localized(entries, targetLanguage) == Some(entries[0].1)
  {
  }

  function GetTitle(d: GameTdbData, targetLanguage: string): (r: Option<string>)
    ensures r.None? <==> d.titles == []
    ensures r.Some? ==> r.value in ValuesOf(d.titles)
  {
    Localized(d.titles, targetLanguage)
  }

  function GetSynopsis(d: GameTdbData, targetLanguage: string): (r: Option<string>)
    ensures r.None? <==> d.synopses == []
    ensures r.Some? ==> r.value in ValuesOf(d.synopses)
  {
    Localized(d.synopses, targetLanguage)
  }

  /** The worked fallback cases: {DE: X, EN: Y} gives X for DE and Y for FR; {JA: Z} gives
      Z for FR. */
  lemma TitleFallbackExamples(d: GameTdbData, e: GameTdbData)
    requires d.titles == [("DE", "X"), ("EN", "Y")] && e.titles == [("JA", "Z")]
    ensures GetTitle(d, "DE") == Some("X") && GetTitle(d, "FR") == Some("Y")
    ensures GetTitle(e, "FR") == Some("Z")
  {
    assert KeysOf(d.titles) == ["DE", "EN"];
    assert KeysOf(e.titles) == ["JA"];
  }

  // ---------------------------------------------------------------------------------------
  // GetCoverUrl

  const CoverUrlBase: string := "https://art.gametdb.com/wii/"

  /** The region segment of a cover URL. */
  function RegionCode(region: Option<string>, languages: seq<string>, targetLanguage: string): (r: string)
    ensures region == Some("NTSC-J") ==> r == "JA"
    ensures region == Some("NTSC-U") ==> r == "US"
    ensures region == Some("NTSC-K") ==> r == "KO"
    ensures region == Some("PAL") ==> r in languages || (languages == [] && r == "EN")
    ensures region == Some("PAL") && targetLanguage in languages ==> r == targetLanguage
    ensures region == Some("PAL") && targetLanguage !in languages && "EN" in languages ==> r == "EN"
    ensures region == Some("PAL") && targetLanguage !in languages && "EN" !in languages && languages != [] ==>
      r == languages[0]
    ensures region !in {Some("NTSC-J"), Some("NTSC-U"), Some("NTSC-K"), Some("PAL")} ==> r == "EN"
  {
    match region
    case Some("NTSC-J") => "JA"
    case Some("NTSC-U") => "US"
    case Some("NTSC-K") => "KO"
    case Some("PAL") =>
      if targetLanguage in languages then targetLanguage
      else if "EN" in languages then "EN"
      else if |languages| > 0 then languages[0]
      else "EN"
    case _ => "EN"
  }

  /** GetCoverUrl: the GameTDB art URL for this record, cover type and language. A null Id
      prints as "". */
  function GetCoverUrl(d: GameTdbData, targetLanguage: string, coverType: string): (r: string)
    ensures var head := CoverUrlBase + coverType + "/";
      |head| <= |r| && r[..|head|] == head
    ensures var file := "/" + d.id.GetOr("") + ".png";
      |file| <= |r| && r[|r| - |file|..] == file
  {
    CoverUrlBase + coverType + "/" + RegionCode(d.region, d.languages, targetLanguage) + "/" +
    d.id.GetOr("") + ".png"
  }

  /** Outside PAL the requested language does not affect the URL. */
  lemma CoverUrlIgnoresLanguageOutsidePal(d: GameTdbData, a: string, b: string, coverType: string)
    requires d.region != Some("PAL")
    ensures GetCoverUrl(d, a, coverType) == GetCoverUrl(d, b, coverType)
  {
  }

  /** The examples: NTSC-U gives the US segment; PAL with languages [DE, EN] asked for IT
      falls to EN. */
  lemma RegionCodeExamples()
    ensures RegionCode(Some("NTSC-U"), [], "EN") == "US"
    ensures RegionCode(Some("PAL"), ["DE", "EN"], "IT") == "EN"
  {
  }

  /** After the fixed base, a cover URL split on '/' gives back its cover type, region code
      and file name, so different cover types or region codes give different URLs. */
  lemma CoverUrlSegments(d: GameTdbData, targetLanguage: string, coverType: string)
    requires '/' !in coverType && '/' !in d.id.GetOr("") && '/' !in targetLanguage
    requires forall i :: 0 <= i < |d.languages| ==> '/' !in d.languages[i]
    ensures var url := GetCoverUrl(d, targetLanguage, coverType);
      |CoverUrlBase| <= |url| && url[..|CoverUrlBase|] == CoverUrlBase &&
      Split(url[|CoverUrlBase|..], '/') ==
        [coverType, RegionCode(d.region, d.languages, targetLanguage), d.id.GetOr("") + ".png"]
  {
    var region := RegionCode(d.region, d.languages, targetLanguage);
    assert '/' !in region by {
      if region in d.languages {
        var i :| 0 <= i < |d.languages| && d.languages[i] == region;
      }
    }
    var file := d.id.GetOr("") + ".png";
    assert '/' !in file;
    var parts := [coverType, region, file];
    assert parts[1..] == [region, file] && parts[1..][1..] == [file];
    var path := coverType + "/" + region + "/" + file;
    assert Join(parts[1..][1..], '/') == file;
    assert Join(parts[1..], '/') == region + "/" + file;
    assert Join(parts, '/') == coverType + "/" + (region + "/" + file);
    assert Join(parts, '/') == path;
    var url := GetCoverUrl(d, targetLanguage, coverType);
    assert url == CoverUrlBase + path;
    assert url[|CoverUrlBase|..] == path;
    SplitJoin(parts, '/');
  }
}
