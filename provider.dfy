/** DolphinMetadataProvider: the per-game metadata provider. It finds the game's ID6 (from
    Dolphin's game list cache or from wit.exe), resolves it in the GameTDB catalog once, and
    answers the field queries from the record. */
module Provider {
  import opened Wrappers
  import opened Bytes
  import opened Text
  import opened Xml
  import opened GameTdb
  import Catalog
  import GamelistCache
  import Covers

  datatype MetadataField = CoverImage | Name | Description

  /** Which loader an image's extension selects. */
  datatype Loader = RvzCache | WitTool | Unsupported

  const RvzExtensions: seq<string> := [".rvz", ".wad"]
  const WitExtensions: seq<string> := [".iso", ".ciso", ".wbi", ".wbfs", ".wdf", ".wia", ".gcz", ".fst"]

  /** LoadGameData's switch on the lower-cased extension. */
  function LoaderFor(extension: string): (r: Loader)
    ensures r == RvzCache <==> extension in RvzExtensions
    ensures r == WitTool <==> extension in WitExtensions
    ensures r == Unsupported <==> extension !in RvzExtensions + WitExtensions
  {
    if extension in RvzExtensions then RvzCache
    else if extension in WitExtensions then WitTool
    else Unsupported
  }

  /** The extension test ignores ASCII case, and only the file name's extension counts. */
  lemma LoaderExamples()
    ensures LoaderFor(ToLowerInvariant(".RVZ")) == RvzCache
    ensures LoaderFor(ToLowerInvariant(".WBFS")) == WitTool
    ensures LoaderFor(ToLowerInvariant(".zip")) == Unsupported
    ensures LoaderFor(ToLowerInvariant(GetExtension("C:\\Games\\Zelda.RVZ"))) == RvzCache
    ensures LoaderFor(ToLowerInvariant(GetExtension("D:\\Wii.isos\\Metroid.iso"))) == WitTool
    ensures LoaderFor(ToLowerInvariant(GetExtension("C:\\Games.rvz\\Zelda"))) == Unsupported
  {
    GetExtensionExamples();
    assert ToLowerInvariant(".RVZ") == ".rvz";
    assert ToLowerInvariant(".WBFS") == ".wbfs";
    assert ToLowerInvariant(".zip") == ".zip";
    assert ToLowerInvariant(".iso") == ".iso";
  }

  /** The fields GetAvailableFields reports for a record: always the cover, the name when a
      title resolves and the description when a synopsis resolves, in that order. */
  function FieldsFor(d: GameTdbData, languagePreference: string): (r: seq<MetadataField>)
    ensures |r| >= 1 && r[0] == CoverImage
    ensures Name in r <==> GetTitle(d, languagePreference).Some?
    ensures Description in r <==> GetSynopsis(d, languagePreference).Some?
    ensures forall i, j :: 0 <= i < j < |r| ==> r[i] != r[j]
  {
    [CoverImage] +
    (if GetTitle(d, languagePreference).Some? then [Name] else []) +
    (if GetSynopsis(d, languagePreference).Some? then [Description] else [])
  }

  /** The cache step's ID6, as `Encoding.ASCII.GetString` of the found bytes; None when the
      cache is missing or holds no usable record. */
  function RvzCode(gamelist: Option<seq<byte>>, fullPathUtf8: seq<byte>): (r: Result<Option<string>>)
    ensures r.Ok? && r.value.Some? ==> |r.value.value| == 6
  {
    if gamelist.None? then Ok(None)
    else
      var scan :- GamelistCache.Scan(gamelist.value, GamelistCache.DolphinPath(fullPathUtf8));
      if scan.FoundId6? then Ok(Some(AsciiString(scan.id6))) else Ok(None)
  }

  /** The WIT step's code: wit's standard output, trimmed, and never validated. */
  function WitCode(witExists: bool, witOutput: string): (r: Option<string>)
    ensures r.Some? <==> witExists
    ensures r.Some? ==> r.value == Trim(witOutput)
  {
    if witExists then Some(Trim(witOutput)) else None
  }

  /** The cache step only ever yields six upper-case letters or digits. */
  lemma RvzCodeIsValidId6(gamelist: Option<seq<byte>>, fullPathUtf8: seq<byte>)
    requires RvzCode(gamelist, fullPathUtf8).Ok? && RvzCode(gamelist, fullPathUtf8).value.Some?
    ensures var code := RvzCode(gamelist, fullPathUtf8).value.value;
      |code| == 6 && forall i :: 0 <= i < 6 ==> ('A' <= code[i] <= 'Z' || '0' <= code[i] <= '9')
  {
    var path := GamelistCache.DolphinPath(fullPathUtf8);
    GamelistCache.ScanFindsFirstId6Field(gamelist.value, path);
    var id6 := GamelistCache.Scan(gamelist.value, path).value.id6;
    assert forall i :: 0 <= i < 6 ==> GamelistCache.IsId6Byte(id6[i]);
  }

  /** wit's output is not validated: a blank or short output reaches the catalog lookup, whose
      `Substring(0, 4)` throws as soon as no game matches it exactly and some game has an id. */
  lemma ShortWitOutputThrows(doc: Document, witOutput: string)
    requires |Trim(witOutput)| < 4
    requires forall j :: 0 <= j < |Catalog.Games(doc)| ==> Catalog.FirstId(Catalog.Games(doc)[j]) != Some(Trim(witOutput))
    requires exists j :: 0 <= j < |Catalog.Games(doc)| && Catalog.FirstId(Catalog.Games(doc)[j]).Some?
    ensures Catalog.ResolveGameData(doc, WitCode(true, witOutput).value).Throws?
  {
    Catalog.FindGameThrowsOnShortCode(Catalog.Games(doc), Trim(witOutput));
  }

  /** A loader's boolean result for a lookup outcome: true for a record, false for none,
      or the exception. */
  function Reported(outcome: Result<Option<GameTdbData>>): (r: Result<bool>)
    ensures r.Throws? <==> outcome.Throws?
    ensures r == Ok(true) <==> outcome.Ok? && outcome.value.Some?
  {
    match outcome
    case Throws(e) => Throws(e)
    case Ok(found) => Ok(found.Some?)
  }

  /** `_gameData` after a lookup: the record found, else what it was. */
  function Stored(outcome: Result<Option<GameTdbData>>, previous: Option<GameTdbData>): (r: Option<GameTdbData>)
    ensures outcome.Ok? && outcome.value.Some? ==> r == outcome.value
    ensures !(outcome.Ok? && outcome.value.Some?) ==> r == previous
  {
    if outcome.Ok? && outcome.value.Some? then outcome.value else previous
  }

  /** The cover file's name: the record's Id and ".png". */
  function CoverFileName(d: GameTdbData): (r: string)
    ensures |r| >= 4 && r[|r| - 4..] == ".png"
    ensures d.id.Some? ==> |r| == |d.id.value| + 4 && r[..|d.id.value|] == d.id.value
    ensures d.id.None? ==> r == ".png"
  {
    d.id.GetOr("") + ".png"
  }

  /** What GetCoverImage hands to Playnite. `cropped` says the data goes through CropBoxart. */
  datatype CoverImageResult =
    | NoCoverImage                                          // FindGoodCover found nothing
    | CoverFile(fileName: string, data: seq<byte>, cropped: bool)
    | BaseCoverImage                                        // the SDK default

  /** What GetCoverImage makes of a search's outcome: a "cropped_" preference crops a cover
      found in the requested format and falls back to the SDK default when the search throws;
      any other preference lets the search's exception escape. */
  function CoverImageOf(d: GameTdbData, coverDownloadPreference: string, search: Result<Covers.Cover>): (r: Result<CoverImageResult>)
    ensures r.Throws? <==> search.Throws? && !StartsWith(coverDownloadPreference, Covers.CroppedPrefix)
    ensures r == Ok(NoCoverImage) <==> search.Ok? && search.value.data.None?
    ensures forall data: seq<byte>, cropped :: r == Ok(CoverFile(CoverFileName(d), data, cropped)) <==>
      search.Ok? && search.value.data == Some(data) &&
      cropped == (StartsWith(coverDownloadPreference, Covers.CroppedPrefix) && search.value.isInRequestedFormat)
  {
    var cropping := StartsWith(coverDownloadPreference, Covers.CroppedPrefix);
    match search
    case Throws(e) => if cropping then Ok(BaseCoverImage) else Throws(e)
    case Ok(Cover(None, _)) => Ok(NoCoverImage)
    case Ok(Cover(Some(data), inFormat)) => Ok(CoverFile(CoverFileName(d), data, cropping && inFormat))
  }

  /** The cover image as written throws for a "cover", "cover3D" or "disc" preference, and
      equals the corrected one for a "cropped_" preference. */
  lemma CoverImageReadings(d: GameTdbData, coverDownloadPreference: string, languagePreference: string,
                           download: string -> Covers.Download)
    ensures var src := Covers.CoverSource(d, coverDownloadPreference, download, AsWritten);
      coverDownloadPreference in ["cover", "cover3D", "disc"] ==>
        CoverImageOf(d, coverDownloadPreference, Covers.FindCover(src, languagePreference)) == Throws(ArgumentOutOfRangeException)
    ensures var src := Covers.CoverSource(d, coverDownloadPreference, download, AsWritten);
      StartsWith(coverDownloadPreference, Covers.CroppedPrefix) ==>
        CoverImageOf(d, coverDownloadPreference, Covers.FindCover(src, languagePreference)) ==
        CoverImageOf(d, coverDownloadPreference, Covers.FindCover(src.(reading := Corrected), languagePreference))
  {
    var src := Covers.CoverSource(d, coverDownloadPreference, download, AsWritten);
    if coverDownloadPreference in ["cover", "cover3D", "disc"] {
      Covers.UncroppedSearchThrowsAsWritten(src, languagePreference);
      assert !StartsWith(coverDownloadPreference, Covers.CroppedPrefix);
    }
    if StartsWith(coverDownloadPreference, Covers.CroppedPrefix) {
      Covers.FindCoverAgreesOnCropped(src, languagePreference);
    }
  }

  /** One metadata request: the game's image path, what the environment provides for it, and
      the state the provider fills in lazily. */
  class DolphinMetadataProvider {
    const wiiDb: Document
    /** The bytes of gamelist.cache, or null when there is none. */
    const gamelist: array?<byte>
    const gameImagePath: string
    /** Path.GetFullPath(gameImagePath) encoded as UTF-8. */
    const fullPathUtf8: seq<byte>
    /** Whether wit/bin/wit.exe exists next to the plugin, and what `wit id6` prints. */
    const witExists: bool
    const witOutput: string
    const languagePreference: string
    const coverDownloadPreference: string

    var gameData: Option<GameTdbData>
    var availableFields: Option<seq<MetadataField>>

    /** The lazily filled state: nothing before the first AvailableFields; after it, the first
        load's record and the fields reported for it. */
    ghost predicate Valid()
      reads this, gamelist
    {
      (availableFields.None? ==> gameData.None?) &&
      (availableFields.Some? ==> gameData == Loaded() && availableFields.value == LoadedFields())
    }

    constructor (wiiDb: Document, gamelist: array?<byte>, gameImagePath: string, fullPathUtf8: seq<byte>,
                 witExists: bool, witOutput: string, languagePreference: string, coverDownloadPreference: string)
      ensures this.wiiDb == wiiDb && this.gamelist == gamelist && this.gameImagePath == gameImagePath
      ensures this.fullPathUtf8 == fullPathUtf8 && this.witExists == witExists && this.witOutput == witOutput
      ensures this.languagePreference == languagePreference && this.coverDownloadPreference == coverDownloadPreference
      ensures gameData == None && availableFields == None
      ensures Valid()
    {
      this.wiiDb := wiiDb;
      this.gamelist := gamelist;
      this.gameImagePath := gameImagePath;
      this.fullPathUtf8 := fullPathUtf8;
      this.witExists := witExists;
      this.witOutput := witOutput;
      this.languagePreference := languagePreference;
      this.coverDownloadPreference := coverDownloadPreference;
      gameData := None;
      availableFields := None;
    }

    function Gamelist(): Option<seq<byte>>
      reads gamelist
    {
      if gamelist == null then None else Some(gamelist[..])
    }

    /** The code the image's loader produces, or the exception it raises. */
    function LoaderCode(): Result<Option<string>>
      reads gamelist
    {
      match LoaderFor(ToLowerInvariant(GetExtension(gameImagePath)))
      case RvzCache => RvzCode(Gamelist(), fullPathUtf8)
      case WitTool => Ok(WitCode(witExists, witOutput))
      case Unsupported => Ok(None)
    }

    /** A code's catalog record: none without a code, else ParseGameData's lookup. */
    function ResolveCode(code: Result<Option<string>>): Result<Option<GameTdbData>>
    {
      var c :- code;
      if c.None? then Ok(None) else Catalog.ResolveGameData(wiiDb, c.value)
    }

    /** What a first LoadGameData resolves: the record, none, or the exception it catches. */
    function LoadOutcome(): Result<Option<GameTdbData>>
      reads gamelist
    {
      ResolveCode(LoaderCode())
    }

    /** The record the first LoadGameData stores. */
    function Loaded(): Option<GameTdbData>
      reads gamelist
    {
      Stored(LoadOutcome(), None)
    }

    /** The fields GetAvailableFields reports after the first load. */
    function LoadedFields(): seq<MetadataField>
      reads gamelist
    {
      if Loaded().Some? then FieldsFor(Loaded().value, languagePreference) else []
    }

    /** ParseGameData: on a catalog match the record is stored and the result is true. */
    method ParseGameData(id6: string) returns (r: Result<bool>)
      modifies this`gameData
      ensures r == Reported(Catalog.ResolveGameData(wiiDb, id6))
      ensures gameData == Stored(Catalog.ResolveGameData(wiiDb, id6), old(gameData))
    {
      var found :- Catalog.ResolveGameData(wiiDb, id6);
      if found.None? {
        return Ok(false);
      }
      gameData := found;
      return Ok(true);
    }

    /** LoadGameDataRvz: the cache step, then the catalog lookup of the ID6 it finds. */
    method LoadGameDataRvz() returns (r: Result<bool>)
      modifies this`gameData
      ensures r == Reported(ResolveCode(RvzCode(Gamelist(), fullPathUtf8)))
      ensures gameData == Stored(ResolveCode(RvzCode(Gamelist(), fullPathUtf8)), old(gameData))
    {
      var path := GamelistCache.DolphinPath(fullPathUtf8);
      var pathBytes := new byte[|path|](i requires 0 <= i < |path| => path[i]);
      assert pathBytes[..] == path;
      var scan :- GamelistCache.ScanCache(gamelist, pathBytes);
      if !scan.FoundId6? {
        return Ok(false);
      }
      var id6 := AsciiString(scan.id6);
      r := ParseGameData(id6);
    }

    /** LoadGameDataWit: false without wit.exe; otherwise the trimmed output is looked up. */
    method LoadGameDataWit() returns (r: Result<bool>)
      modifies this`gameData
      ensures r == Reported(ResolveCode(Ok(WitCode(witExists, witOutput))))
      ensures gameData == Stored(ResolveCode(Ok(WitCode(witExists, witOutput))), old(gameData))
    {
      if !witExists {
        return Ok(false);
      }
      var id6 := Trim(witOutput);
      r := ParseGameData(id6);
    }

    /** LoadGameData: true at once when a record is loaded; otherwise the extension's loader,
        with any exception caught as false. A record is stored exactly when it is true. */
    method LoadGameData() returns (loaded: bool)
      modifies this`gameData
      ensures old(gameData).Some? ==> loaded && gameData == old(gameData)
      ensures old(gameData).None? ==> (loaded <==> LoadOutcome().Ok? && LoadOutcome().value.Some?)
      ensures old(gameData).None? ==> gameData == Stored(LoadOutcome(), None)
    {
      if gameData.Some? {
        return true;
      }
      var r: Result<bool>;
      match LoaderFor(ToLowerInvariant(GetExtension(gameImagePath))) {
        case RvzCache =>
          r := LoadGameDataRvz();
        case WitTool =>
          r := LoadGameDataWit();
        case Unsupported =>
          r := Ok(false);
      }
      // catch (Exception) => false
      loaded := r == Ok(true);
    }

    /** GetAvailableFields: nothing when no record loads, else the record's fields. */
    method GetAvailableFields() returns (fields: seq<MetadataField>)
      modifies this`gameData
      ensures old(gameData).Some? ==> gameData == old(gameData)
      ensures old(gameData).None? ==> gameData == Stored(LoadOutcome(), None)
      ensures fields == if gameData.Some? then FieldsFor(gameData.value, languagePreference) else []
    {
      if gameData.None? {
        var loaded := LoadGameData();
        if !loaded {
          return [];
        }
      }
      fields := [CoverImage];
      if GetTitle(gameData.value, languagePreference).Some? {
        fields := fields + [Name];
      }
      if GetSynopsis(gameData.value, languagePreference).Some? {
        fields := fields + [Description];
      }
    }

    /** AvailableFields: computed on first use and then returned unchanged; either way they
        are the fields of the first load's record. */
    method AvailableFields() returns (fields: seq<MetadataField>)
      requires Valid()
      modifies this`gameData, this`availableFields
      ensures Valid()
      ensures old(availableFields).Some? ==>
        fields == old(availableFields).value && availableFields == old(availableFields) && gameData == old(gameData)
      ensures gameData == Loaded() && fields == LoadedFields() && availableFields == Some(fields)
    {
      if availableFields.None? {
        var computed := GetAvailableFields();
        availableFields := Some(computed);
      }
      fields := availableFields.value;
    }

    /** GetName: the title in the preferred language when the name is available; otherwise
        the SDK default (no value). So it is the loaded record's title, if any. */
    method GetName() returns (name: Option<string>)
      requires Valid()
      modifies this`gameData, this`availableFields
      ensures Valid() && gameData == Loaded() && availableFields == Some(LoadedFields())
      ensures name == if Loaded().Some? then GetTitle(Loaded().value, languagePreference) else None
    {
      var fields := AvailableFields();
      if Name in fields && gameData.Some? {
        return GetTitle(gameData.value, languagePreference);
      }
      return None;
    }

    /** GetDescription: the synopsis, under the same conditions as GetName. */
    method GetDescription() returns (description: Option<string>)
      requires Valid()
      modifies this`gameData, this`availableFields
      ensures Valid() && gameData == Loaded() && availableFields == Some(LoadedFields())
      ensures description == if Loaded().Some? then GetSynopsis(Loaded().value, languagePreference) else None
    {
      var fields := AvailableFields();
      if Description in fields && gameData.Some? {
        return GetSynopsis(gameData.value, languagePreference);
      }
      return None;
    }

    /** The cover search GetCoverImage runs, as written, for a loaded record. */
    function CoverSearch(d: GameTdbData, download: string -> Covers.Download, reading: Reading): Result<Covers.Cover>
    {
      Covers.FindCover(Covers.CoverSource(d, coverDownloadPreference, download, reading), languagePreference)
    }

    /** GetCoverImage: the SDK default without a record; otherwise the as-written search's
        outcome through CoverImageOf. A "cover", "cover3D" or "disc" preference makes it throw;
        on a "cropped_" preference it is what the corrected search gives. */
    method GetCoverImage(download: string -> Covers.Download) returns (r: Result<CoverImageResult>)
      requires Valid()
      modifies this`gameData, this`availableFields
      ensures Valid() && gameData == Loaded() && availableFields == Some(LoadedFields())
      ensures Loaded().None? ==> r == Ok(BaseCoverImage)
      ensures Loaded().Some? ==>
        r == CoverImageOf(Loaded().value, coverDownloadPreference, CoverSearch(Loaded().value, download, AsWritten))
      ensures Loaded().Some? && coverDownloadPreference in ["cover", "cover3D", "disc"] ==>
        r == Throws(ArgumentOutOfRangeException)
      ensures Loaded().Some? && StartsWith(coverDownloadPreference, Covers.CroppedPrefix) ==>
        r == CoverImageOf(Loaded().value, coverDownloadPreference, CoverSearch(Loaded().value, download, Corrected))
    {
      var fields := AvailableFields();
      if !(CoverImage in fields && gameData.Some?) {
        return Ok(BaseCoverImage);
      }
      var src := Covers.CoverSource(gameData.value, coverDownloadPreference, download, AsWritten);
      var search := Covers.FindGoodCover(src, languagePreference);
      CoverImageReadings(gameData.value, coverDownloadPreference, languagePreference, download);
      if StartsWith(coverDownloadPreference, Covers.CroppedPrefix) {
        if search.Throws? {
          return Ok(BaseCoverImage);
        }
        var cover := search.value;
        if cover.data.None? {
          return Ok(NoCoverImage);
        }
        return Ok(CoverFile(CoverFileName(gameData.value), cover.data.value, cover.isInRequestedFormat));
      }
      var cover :- search;
      if cover.data.None? {
        return Ok(NoCoverImage);
      }
      return Ok(CoverFile(CoverFileName(gameData.value), cover.data.value, false));
    }
  }
}
