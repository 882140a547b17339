# PlayniteDolphinMetadata, modelled in Dafny

PlayniteDolphinMetadata is a metadata plugin for the Playnite game launcher. It
gives GameCube and Wii games a name, a description and a cover. For each game image
it works in steps:

- It finds the disc's six-character ID6. For `.rvz` and `.wad` images it reads Dolphin's
  `gamelist.cache`. For the other disc formats it runs `wit id6`.
- It looks the code up in the GameTDB `wiitdb.xml` catalog. An exact match wins. Failing
  that, it tries the first four characters.
- It turns the matching `<game>` element into a `GameTdbData` record.
- It answers Playnite's field queries from that record. Covers are downloaded from
  art.gametdb.com with a chain of language and format fallbacks.
- The settings map display names to codes through a two-way ordered dictionary.

The model covers these parts:

| file | module | contents |
|---|---|---|
| `extensions.dfy` | `Extensions` | The byte-array search `Locate`. Imperative over arrays. |
| `gamelist_cache.dfy` | `GamelistCache` | The `gamelist.cache` record reader: a `BinaryReader` class, the header skip, the ID6 scan loop and `ValidateId6`. |
| `game_tdb_data.dfy` | `GameTdb` | The record, `Parse`, the title, synopsis and cover URL. Pure functions. |
| `catalog.dfy` | `Catalog` | `ParseGameData`'s two-tier catalog lookup, as a function. |
| `covers.dfy` | `Covers` | `TryDownloadCover` and `FindGoodCover`. |
| `provider.dfy` | `Provider` | `DolphinMetadataProvider` as a class that fills `_gameData` and `_availableFields` lazily. |
| `settings.dfy` | `Settings` | `OrderedDictionary`, `BiOrderedDictionary` and `DolphinMetadataSettings` as classes. |

These support modules model the .NET behaviour the core relies on:

- `Wrappers`: `Option`, and `Result`, in which a thrown .NET exception is `Throws(kind)`.
- `Bytes`: little-endian integers and ASCII decoding.
- `Text`: `Split`, `Trim`, `Substring`, `int.TryParse`, `Path.GetExtension` and `ToLowerInvariant`.
- `Xml`: an abstract DOM with `GetElementsByTagName`, `InnerText` and `GetAttribute`.
- `Pairs`: insertion-ordered key/value sequences.

The environment becomes explicit inputs of the model:

- The bytes of `gamelist.cache`, or none.
- The UTF-8 bytes of the image's full path.
- Whether `wit.exe` exists, and what it prints.
- The catalog document.
- A `download: string -> Download` function that stands for the web server.

The two places where the code does not do what it evidently means (see "## Findings") are
modelled both ways. The definitions concerned take a `Reading`, which is `AsWritten` or
`Corrected`. The catalog lookup and the provider use `AsWritten`, as the shipped program
does. Lemmas prove what the `Corrected` reading promises and where the two readings agree.

## Model

| member | source | states |
|---|---|---|
| Extensions.LocatedIsFirstOccurrence | PlayniteDolphinMetadata/Extensions.cs:8-22 | `Locate`'s result is -1 exactly when the candidate occurs nowhere; otherwise it is the least index where the whole candidate matches. |
| Extensions.Locate | PlayniteDolphinMetadata/Extensions.cs:8-22 | Returns -1 for a null or empty array, a null or empty candidate, or a candidate longer than the array. Otherwise it returns the first index at which the candidate occurs, and -1 when there is none. |
| Extensions.IsMatch | PlayniteDolphinMetadata/Extensions.cs:24-34 | True exactly when the candidate fits in the array from `position` and every byte agrees there. |
| Extensions.IsEmptyLocate | PlayniteDolphinMetadata/Extensions.cs:36-43 | True exactly for a null array, a null or empty candidate, or a candidate longer than the array; the empty-array test is subsumed. Apart from the empty candidate, nothing it rejects has a match. |
| Extensions.FirstMatchFrom | PlayniteDolphinMetadata/Extensions.cs:13-21 | The least matching index at or after `from`, or -1 when no index there matches. |
| GamelistCache.ValidateId6 | PlayniteDolphinMetadata/DolphinMetadataProvider.cs:216-227 | True exactly when every byte is `A`-`Z` or `0`-`9`. |
| GamelistCache.DolphinPath | PlayniteDolphinMetadata/DolphinMetadataProvider.cs:138 | Keeps the length. No backslash is left. Every other byte is kept in place. |
| GamelistCache.DolphinPathIdempotent | PlayniteDolphinMetadata/DolphinMetadataProvider.cs:138 | Sanitizing a path twice changes nothing more. |
| GamelistCache.ReadInt32At | PlayniteDolphinMetadata/DolphinMetadataProvider.cs:149 | `ReadInt32` succeeds exactly when 4 bytes remain. It then yields their signed little-endian value and advances 4. Otherwise it throws `EndOfStreamException`. |
| GamelistCache.ReadInt64At | PlayniteDolphinMetadata/DolphinMetadataProvider.cs:163-166 | `ReadInt64` succeeds exactly when 8 bytes remain, and then advances 8. |
| GamelistCache.ReadBytesAt | PlayniteDolphinMetadata/DolphinMetadataProvider.cs:150 | `ReadBytes` throws `ArgumentOutOfRangeException` exactly for a negative count. Otherwise it returns the next `count` bytes, or fewer at the end of the stream, and advances past them. |
| GamelistCache.BinaryReader.ReadInt32 | PlayniteDolphinMetadata/DolphinMetadataProvider.cs:149 | The read gives `ReadInt32At` at the reader's position and moves past it. At the end of the stream it throws `EndOfStreamException` and leaves the reader at the end. |
| GamelistCache.BinaryReader.ReadInt64 | PlayniteDolphinMetadata/DolphinMetadataProvider.cs:163-166 | The same for `ReadInt64At`. |
| GamelistCache.BinaryReader.ReadBytes | PlayniteDolphinMetadata/DolphinMetadataProvider.cs:150 | The read gives `ReadBytesAt` at the reader's position and moves past what it returned. A negative count throws and leaves the position. |
| GamelistCache.FirstId6Field | PlayniteDolphinMetadata/DolphinMetadataProvider.cs:178-208 | The least index at or after `from` that has a length prefix 6 followed by six valid ID6 bytes within the loop's bound `i < Length - 10`. It is none when no index qualifies. |
| GamelistCache.Id6Scan | PlayniteDolphinMetadata/DolphinMetadataProvider.cs:178-212 | The scan after the header ends in one of two ways: an ID6 is found or none is. It never says "no cache" or "path not found". |
| GamelistCache.Id6ScanSpec | PlayniteDolphinMetadata/DolphinMetadataProvider.cs:178-212 | The scan reports "no ID6" exactly when no index in range holds an ID6 field. A found ID6 has six valid bytes and is read from such a field. |
| GamelistCache.Id6ScanFound | PlayniteDolphinMetadata/DolphinMetadataProvider.cs:178-206 | A found ID6 is read from an ID6 field, and no earlier index in the scanned range holds one. |
| GamelistCache.SkipHeader | PlayniteDolphinMetadata/DolphinMetadataProvider.cs:148-175 | A header that is read through starts with the game's path: a 4-byte length equal to the path's length, then exactly the path bytes. The position after it lies inside the record. |
| GamelistCache.SkipHeaderRejectsOtherPath | PlayniteDolphinMetadata/DolphinMetadataProvider.cs:148-156 | "Not this path" exactly when the length and path reads succeed and the stored path differs from the game's path. |
| GamelistCache.Scan | PlayniteDolphinMetadata/DolphinMetadataProvider.cs:139-212 | "Path not found" exactly when `Locate` gives -1. A successful scan never says "no cache". |
| GamelistCache.RecordAfter | PlayniteDolphinMetadata/DolphinMetadataProvider.cs:148-212 | A throwing header read makes the record throw. A mismatching path gives "path not found". Otherwise the scan starts right after the header. |
| GamelistCache.ScanRecord | PlayniteDolphinMetadata/DolphinMetadataProvider.cs:145-212 | Once the path has been located, the result is never "no cache" and never "path not found". |
| GamelistCache.ScanThrowsNearStart | PlayniteDolphinMetadata/DolphinMetadataProvider.cs:145 | A path found at offsets 0-3 makes `new MemoryStream(_gamelist, location - 4, …)` throw `ArgumentOutOfRangeException`. |
| GamelistCache.ScanParts | PlayniteDolphinMetadata/DolphinMetadataProvider.cs:139-206 | A scan that finds an ID6 reads the record 4 bytes before the located path. Its header matches, and the ID6 search starts right after it. |
| GamelistCache.ScanFindsFirstId6Field | PlayniteDolphinMetadata/DolphinMetadataProvider.cs:178-206 | A found ID6 has six valid bytes. It comes from the first ID6 field after the record header. |
| GamelistCache.RecordHeader | PlayniteDolphinMetadata/DolphinMetadataProvider.cs:148-175 | The encoding of a record header: length-prefixed path, length-prefixed name, then 28 bytes of sizes and flags. |
| GamelistCache.ReadLengthPrefixed | PlayniteDolphinMetadata/DolphinMetadataProvider.cs:149-150 | A length-prefixed field reads back as its length and then its bytes, each advancing past what it read. |
| GamelistCache.SkipHeaderOfEncodedRecord | PlayniteDolphinMetadata/DolphinMetadataProvider.cs:148-175 | Reading an encoded header for the same path ends exactly after the header. |
| GamelistCache.ScanRecordOfEncodedRecord | PlayniteDolphinMetadata/DolphinMetadataProvider.cs:145-206 | An encoded record followed by a length-6 field holding a valid ID6 yields that ID6. |
| GamelistCache.ScanFindsEncodedRecord | PlayniteDolphinMetadata/DolphinMetadataProvider.cs:139-206 | This round trip also holds through `Locate`: a cache holding an encoded record for the path, whose first occurrence is that record's path, yields the record's ID6. |
| GamelistCache.ReadHeader | PlayniteDolphinMetadata/DolphinMetadataProvider.cs:146-175 | The nine reads on a `BinaryReader` compute `SkipHeader`. On success the reader stands right after the header. |
| GamelistCache.Id6FieldAt | PlayniteDolphinMetadata/DolphinMetadataProvider.cs:181-201 | One loop step yields six bytes exactly when the index holds a length prefix 6 followed by a valid ID6. It yields the six bytes after the prefix. |
| GamelistCache.ScanForId6 | PlayniteDolphinMetadata/DolphinMetadataProvider.cs:178-212 | The loop over the cache array computes `Id6Scan`. |
| GamelistCache.ReadRecord | PlayniteDolphinMetadata/DolphinMetadataProvider.cs:145-212 | Reading the header and then scanning computes `ScanRecord`. |
| GamelistCache.ScanCache | PlayniteDolphinMetadata/DolphinMetadataProvider.cs:131-212 | A null cache gives "no cache". Otherwise the result is `Scan` of the cache bytes. |
| GameTdb.GetElementText | PlayniteDolphinMetadata/GameTDBData.cs:180-184 | None exactly when no descendant has the tag. Otherwise it is the text of the first such descendant (see the next row). |
| GameTdb.GetElementOrNull | PlayniteDolphinMetadata/GameTDBData.cs:186-190 | None exactly when no descendant has the tag. Otherwise it is a descendant with that tag. |
| GameTdb.FirstDescendantIsUsed | PlayniteDolphinMetadata/GameTDBData.cs:180-190 | Both lookups pick the first descendant, in document order, that has the tag. |
| GameTdb.ParseOrNull | PlayniteDolphinMetadata/GameTDBData.cs:169-172 | Null input gives null. Otherwise the result is the parser's value. |
| GameTdb.TryParseOrNull | PlayniteDolphinMetadata/GameTDBData.cs:175-178 | Corrected reading: null exactly when the input is null or does not parse; otherwise the parsed value. |
| GameTdb.TryParseOrNullAsWritten | PlayniteDolphinMetadata/GameTDBData.cs:175-178 | As compiled for value types: a missing or unparsable input gives 0. |
| GameTdb.MissingCountReadsAsZero | PlayniteDolphinMetadata/GameTDBData.cs:138 | As written, a missing `players` attribute, an empty one and `"0"` all give 0. The corrected reading tells the first two apart from the third. |
| GameTdb.AttributeOf | PlayniteDolphinMetadata/GameTDBData.cs:160-165 | `rom?.GetAttribute(x)` is null exactly when the element is null. |
| GameTdb.SplitOrEmpty | PlayniteDolphinMetadata/GameTDBData.cs:110 | A missing element gives the empty array. Otherwise the comma-free parts join back to the text. |
| GameTdb.ParseRating | PlayniteDolphinMetadata/GameTDBData.cs:199-207 | Type and value are the attributes; the descriptor is the `<descriptor>` text. |
| GameTdb.ParseDate | PlayniteDolphinMetadata/GameTDBData.cs:216-224 | Each part is the int32 its attribute parses to: null when the attribute is missing or does not parse, and the value when it does. |
| GameTdb.LocaleEntriesExact | PlayniteDolphinMetadata/GameTDBData.cs:113-120 | A `(lang, text)` pair is an entry exactly when some `<locale>` has that `lang` attribute and that first title (or synopsis). |
| GameTdb.ToDictionary | PlayniteDolphinMetadata/GameTDBData.cs:116 | Succeeds exactly when the languages are distinct, keeping every pair in order. A duplicate throws `ArgumentException`. |
| GameTdb.TypesOf | PlayniteDolphinMetadata/GameTDBData.cs:141 | One `type` attribute per control, in order. |
| GameTdb.AccessoriesPartitionControls | PlayniteDolphinMetadata/GameTDBData.cs:139-146 | The required and optional accessory lists together are exactly the control types, as a multiset. |
| GameTdb.Parse | PlayniteDolphinMetadata/GameTDBData.cs:87-167 | Succeeds exactly when the title and synopsis languages are each distinct. It throws `ArgumentException` otherwise. The id is the `<id>` text. The four counts follow the given reading. |
| GameTdb.ParsedTitlesAreTheLocaleTitles | PlayniteDolphinMetadata/GameTDBData.cs:113-120 | The parsed titles and synopses are exactly the locales' entries. |
| GameTdb.ParsedAccessoriesPartitionControls | PlayniteDolphinMetadata/GameTDBData.cs:92-146 | The parsed accessories partition the `<input>`'s controls. |
| GameTdb.ParsedCountsAreNullWhenAbsent | PlayniteDolphinMetadata/GameTDBData.cs:138-161 | Corrected: each count is null exactly when its element is missing or its attribute does not parse. |
| GameTdb.ParsedCountsAsWritten | PlayniteDolphinMetadata/GameTDBData.cs:138-161 | As written, all four counts are present. A missing `<input>`, `<wi-fi>`, `<save>` or `<rom>` gives 0. |
| GameTdb.ParseReadingsAgreeBeyondCounts | PlayniteDolphinMetadata/GameTDBData.cs:87-167 | The two readings throw alike. Otherwise their records differ only in the four counts. |
| GameTdb.LocalizedFallbackOrder | PlayniteDolphinMetadata/GameTDBData.cs:68-85 | The target language wins. Then "EN". Then the first entry. |
| GameTdb.Localized | PlayniteDolphinMetadata/GameTDBData.cs:68-85 | Null exactly when the dictionary is empty. Otherwise it is one of its values. |
| GameTdb.GetTitle | PlayniteDolphinMetadata/GameTDBData.cs:68-76 | Null exactly when there are no titles. Otherwise it is one of the titles. |
| GameTdb.GetSynopsis | PlayniteDolphinMetadata/GameTDBData.cs:78-85 | Null exactly when there are no synopses. Otherwise it is one of the synopses. |
| GameTdb.TitleFallbackExamples | PlayniteDolphinMetadata/GameTDBData.cs:68-76 | Concrete cases of each fallback tier. |
| GameTdb.RegionCode | PlayniteDolphinMetadata/GameTDBData.cs:50-62 | NTSC-J, NTSC-U and NTSC-K map to JA, US and KO. PAL takes the target language if the game has it, then EN, then the first listed language, then EN. Any other region gives EN. |
| GameTdb.GetCoverUrl | PlayniteDolphinMetadata/GameTDBData.cs:46-66 | The URL starts with the base, the cover type and a `/`. It ends with `/`, the Id and `.png`. |
| GameTdb.CoverUrlIgnoresLanguageOutsidePal | PlayniteDolphinMetadata/GameTDBData.cs:46-66 | Outside PAL the language does not affect the URL. |
| GameTdb.RegionCodeExamples | PlayniteDolphinMetadata/GameTDBData.cs:50-62 | Concrete region cases. |
| GameTdb.CoverUrlSegments | PlayniteDolphinMetadata/GameTDBData.cs:65 | The URL is `https://art.gametdb.com/wii/` followed by exactly three `/`-separated segments: the cover type, the region code and `Id.png`. |
| Catalog.Games | PlayniteDolphinMetadata/DolphinMetadataProvider.cs:264-265 | Exactly the `<game>` elements of the document, the document element included. |
| Catalog.FirstIdIsFirstIdText | PlayniteDolphinMetadata/DolphinMetadataProvider.cs:268-282 | None exactly when the game has no `<id>` descendant. Otherwise the inner text of the first one. |
| Catalog.FirstWithId | PlayniteDolphinMetadata/DolphinMetadataProvider.cs:267-272 | The first game whose first `<id>` equals the code, or none when no game's does. |
| Catalog.FirstWithShortId | PlayniteDolphinMetadata/DolphinMetadataProvider.cs:278-283 | Throws `ArgumentOutOfRangeException` exactly when the code is shorter than 4 and some game has an `<id>`. For longer codes it is the first game matching the four-character prefix. |
| Catalog.FindGamePrefersExactMatch | PlayniteDolphinMetadata/DolphinMetadataProvider.cs:267-274 | The first exact match is chosen. |
| Catalog.FindGameFallsBackToShortId | PlayniteDolphinMetadata/DolphinMetadataProvider.cs:274-283 | Without an exact match, the first game matching the first four characters is chosen. |
| Catalog.FindGameMissesWithoutMatch | PlayniteDolphinMetadata/DolphinMetadataProvider.cs:285-289 | Neither kind of match gives "not found". |
| Catalog.FindGameThrowsOnShortCode | PlayniteDolphinMetadata/DolphinMetadataProvider.cs:282 | A code shorter than 4 throws exactly when nothing matches it exactly and some game has an `<id>`. |
| Catalog.FindGame | PlayniteDolphinMetadata/DolphinMetadataProvider.cs:264-290 | A found element is one of the catalog's games. |
| Catalog.FoundGameHasCode | PlayniteDolphinMetadata/DolphinMetadataProvider.cs:264-290 | A found game's id is the code or its first four characters. |
| Catalog.SixCharacterCodeNeverThrows | PlayniteDolphinMetadata/DolphinMetadataProvider.cs:282 | A six-character code never reaches the throwing `Substring`. |
| Catalog.LookupExamples | PlayniteDolphinMetadata/DolphinMetadataProvider.cs:264-290 | Concrete exact, four-character and missing lookups. |
| Catalog.ResolveGameData | PlayniteDolphinMetadata/DolphinMetadataProvider.cs:262-295 | A record is returned only when it parses from a game that has the code, or the code's four-character prefix, as its id. |
| Covers.DefaultFormatAsWritten | PlayniteDolphinMetadata/DolphinMetadataProvider.cs:390 | As written: succeeds exactly when the preference has at least 8 characters, and drops 8. |
| Covers.DefaultFormatAsWrittenMisreadsUncropped | PlayniteDolphinMetadata/DolphinMetadataProvider.cs:390 | "cover", "cover3D" and "disc" throw. "coverfullHQ" gives "lHQ" and "coverfull" gives "l". |
| Covers.DefaultFormat | PlayniteDolphinMetadata/DolphinMetadataProvider.cs:390 | Corrected: removes the "cropped_" prefix when present, and keeps any other preference. |
| Covers.DefaultFormatAgreesOnCropped | PlayniteDolphinMetadata/DolphinMetadataProvider.cs:390 | On "cropped_" preferences, as written and corrected agree. |
| Covers.TryDownloadCover | PlayniteDolphinMetadata/DolphinMetadataProvider.cs:386-403 | A format that cannot be computed throws `ArgumentOutOfRangeException` before any request. Otherwise: "no cover" exactly on HTTP 404, data exactly when the download succeeds, and any other answer throws `WebException` or `NullReferenceException`. |
| Covers.UncroppedPreferenceThrowsAsWritten | PlayniteDolphinMetadata/DolphinMetadataProvider.cs:390 | As written, a default-format download with "cover", "cover3D" or "disc" throws before any request. |
| Covers.CoverfullHQRequestsLhqAsWritten | PlayniteDolphinMetadata/DolphinMetadataProvider.cs:390 | As written, "coverfullHQ" requests the art directory "lHQ". |
| Covers.TryDownloadAgreesOnCropped | PlayniteDolphinMetadata/DolphinMetadataProvider.cs:386-403 | The two readings download the same thing when the format is explicit or the preference starts with "cropped_". |
| Covers.PrependIf | PlayniteDolphinMetadata/DolphinMetadataProvider.cs:358-362 | Under its guard the attempt is put in front of the rest of the chain. Otherwise the chain is the rest unchanged. |
| Covers.Run | PlayniteDolphinMetadata/DolphinMetadataProvider.cs:350-376 | No attempts give no cover. A miss is always flagged as the requested format. |
| Covers.CoverAttempts | PlayniteDolphinMetadata/DolphinMetadataProvider.cs:350-372 | The first attempt is the preferred language in the default format. The chain ends with one attempt per game language. At most three attempts lie between. |
| Covers.FindCover | PlayniteDolphinMetadata/DolphinMetadataProvider.cs:350-376 | The attempt chain run in order. A miss is flagged as the requested format. |
| Covers.LanguageAttempts | PlayniteDolphinMetadata/DolphinMetadataProvider.cs:369-372 | One attempt per game language, in order, in the requested format. |
| Covers.RunIsFirstDecisiveAttempt | PlayniteDolphinMetadata/DolphinMetadataProvider.cs:350-376 | The search's outcome is that of the first attempt that does not answer 404: its data, or its exception. |
| Covers.RunMissesIffAllNotFound | PlayniteDolphinMetadata/DolphinMetadataProvider.cs:350-376 | No cover is found exactly when every attempt answers 404. |
| Covers.RunHitComesFromAttempt | PlayniteDolphinMetadata/DolphinMetadataProvider.cs:350-376 | Found data was downloaded by an attempt. Every attempt before it answered 404. Its format flag is that attempt's. |
| Covers.CoverAttemptsOutOfFormat | PlayniteDolphinMetadata/DolphinMetadataProvider.cs:352-372 | Only the regular-cover attempt is out of the requested format. It is present exactly when the preference is not "cover". |
| Covers.PreferredCoverWins | PlayniteDolphinMetadata/DolphinMetadataProvider.cs:356 | A cover in the preferred language and format is returned, in the requested format. |
| Covers.OutOfFormatCoverIsRegularCover | PlayniteDolphinMetadata/DolphinMetadataProvider.cs:362-366 | A cover out of the requested format is the regular cover in the preferred language. The preference then is not "cover". |
| Covers.NoCoverWhenEverythingIsMissing | PlayniteDolphinMetadata/DolphinMetadataProvider.cs:375 | When every URL answers 404 and the default format can be computed, there is no data. |
| Covers.RunErrorComesFromAttempt | PlayniteDolphinMetadata/DolphinMetadataProvider.cs:350-376 | An exception of the search is the exception of one of its attempts. |
| Covers.CorrectedSearchFailsOnlyOnTheWeb | PlayniteDolphinMetadata/DolphinMetadataProvider.cs:350-403 | Corrected, the search throws only `WebException` or `NullReferenceException`, from the web. |
| Covers.UncroppedSearchThrowsAsWritten | PlayniteDolphinMetadata/DolphinMetadataProvider.cs:354-390 | As written, "cover", "cover3D" or "disc" make the search throw `ArgumentOutOfRangeException` at its first download, whatever the web holds. |
| Covers.RunAgrees | PlayniteDolphinMetadata/DolphinMetadataProvider.cs:350-376 | Sources whose attempts answer alike give the same search. |
| Covers.FindCoverAgreesOnCropped | PlayniteDolphinMetadata/DolphinMetadataProvider.cs:350-390 | On a "cropped_" preference the search as written and the corrected search are the same. |
| Covers.FindGoodCover | PlayniteDolphinMetadata/DolphinMetadataProvider.cs:350-376 | The method computes `FindCover` under the source's reading; the rows above state that outcome's properties. |
| Covers.TryRecordLanguages | PlayniteDolphinMetadata/DolphinMetadataProvider.cs:369-372 | The `foreach` over the game's languages computes the chain of language attempts. |
| Provider.LoaderFor | PlayniteDolphinMetadata/DolphinMetadataProvider.cs:93-126 | `.rvz` and `.wad` select the cache. The eight disc extensions select wit. Anything else is unsupported. These are exact. |
| Provider.LoaderExamples | PlayniteDolphinMetadata/DolphinMetadataProvider.cs:93-126 | The extension test ignores case. A full `.RVZ` path selects the cache and an `.iso` path selects wit. A dot in a directory name does not count. |
| Provider.FieldsFor | PlayniteDolphinMetadata/DolphinMetadataProvider.cs:64-78 | Cover first. Name exactly when a title resolves. Description exactly when a synopsis resolves. No duplicates. |
| Provider.RvzCode | PlayniteDolphinMetadata/DolphinMetadataProvider.cs:129-206 | A code from the cache has six characters. |
| Provider.RvzCodeIsValidId6 | PlayniteDolphinMetadata/DolphinMetadataProvider.cs:199-206 | A code from the cache consists of upper-case letters and digits. |
| Provider.WitCode | PlayniteDolphinMetadata/DolphinMetadataProvider.cs:231-259 | There is a code exactly when wit.exe exists. It is the trimmed output. |
| Provider.ShortWitOutputThrows | PlayniteDolphinMetadata/DolphinMetadataProvider.cs:258-282 | A short wit output that matches nothing exactly makes the lookup throw. |
| Provider.Reported | PlayniteDolphinMetadata/DolphinMetadataProvider.cs:274-294 | A loader throws exactly when the lookup throws. It returns true exactly when a record was found. |
| Provider.Stored | PlayniteDolphinMetadata/DolphinMetadataProvider.cs:292 | `_gameData` becomes the found record, and is otherwise unchanged. |
| Provider.DolphinMetadataProvider.ParseGameData | PlayniteDolphinMetadata/DolphinMetadataProvider.cs:262-295 | Reports and stores the catalog lookup's outcome. |
| Provider.DolphinMetadataProvider.LoadGameDataRvz | PlayniteDolphinMetadata/DolphinMetadataProvider.cs:129-213 | Reports and stores the lookup of the cache's code. |
| Provider.DolphinMetadataProvider.LoadGameDataWit | PlayniteDolphinMetadata/DolphinMetadataProvider.cs:229-260 | Reports and stores the lookup of wit's code. |
| Provider.DolphinMetadataProvider.LoadGameData | PlayniteDolphinMetadata/DolphinMetadataProvider.cs:81-127 | True at once when a record is loaded. Otherwise the result is true exactly when the loader finds a record, and exceptions become false. |
| Provider.DolphinMetadataProvider.GetAvailableFields | PlayniteDolphinMetadata/DolphinMetadataProvider.cs:58-79 | No fields when nothing loads. Otherwise the record's fields. |
| Provider.DolphinMetadataProvider.AvailableFields | PlayniteDolphinMetadata/DolphinMetadataProvider.cs:49-56 | Computed once; later calls return the same list without reloading. Either way the fields are those of the first load's record, and that record is stored. |
| Provider.DolphinMetadataProvider.GetName | PlayniteDolphinMetadata/DolphinMetadataProvider.cs:297-303 | The title of the first load's record in the preferred language. The SDK default (no value) when nothing loads or there is no title. The loaded record and its fields are stored. |
| Provider.DolphinMetadataProvider.GetDescription | PlayniteDolphinMetadata/DolphinMetadataProvider.cs:305-311 | The synopsis of the first load's record in the preferred language. The SDK default when nothing loads or there is no synopsis. The loaded record and its fields are stored. |
| Provider.DolphinMetadataProvider.GetCoverImage | PlayniteDolphinMetadata/DolphinMetadataProvider.cs:313-343 | The SDK default when nothing loads. Otherwise the as-written search's outcome through `CoverImageOf`. So "cover", "cover3D" or "disc" throw `ArgumentOutOfRangeException`, and a "cropped_" preference gives what the corrected search gives. |
| Provider.CoverImageOf | PlayniteDolphinMetadata/DolphinMetadataProvider.cs:315-340 | A search exception escapes exactly for a preference without "cropped_". A miss gives null. Found data becomes `Id.png`, cropped exactly for a "cropped_" preference and an in-format cover. |
| Provider.CoverFileName | PlayniteDolphinMetadata/DolphinMetadataProvider.cs:325-338 | The Id followed by `.png`; a null Id gives just `.png`. |
| Provider.CoverImageReadings | PlayniteDolphinMetadata/DolphinMetadataProvider.cs:313-390 | As written, the image throws for "cover", "cover3D" or "disc", and equals the corrected image for a "cropped_" preference. |
| Pairs.Lookup | PlayniteDolphinMetadata/DolphinMetadataSettings.cs:213-217 | None exactly when the key is absent. Otherwise the value of an entry under that key. |
| Pairs.LookupOfEntry | PlayniteDolphinMetadata/DolphinMetadataSettings.cs:213-217 | With distinct keys, a key yields the value stored with it. |
| Pairs.Assign | PlayniteDolphinMetadata/DolphinMetadataSettings.cs:219-222 | The indexer setter keeps the length for a present key and grows by one for a new key. |
| Pairs.AssignSpec | PlayniteDolphinMetadata/DolphinMetadataSettings.cs:219-222 | The key order is kept, or the new key is appended. The key reads back the new value. Other keys keep theirs. Distinct keys stay distinct. |
| Pairs.LookupSwapRoundTrip | PlayniteDolphinMetadata/DolphinMetadataSettings.cs:196-197 | With both sides distinct, `GetKey(GetValue(k)) == k`. |
| Pairs.KeysOfSwap | PlayniteDolphinMetadata/DolphinMetadataSettings.cs:180 | Reverse-dictionary keys are the forward values; they are distinct exactly when the values are. |
| Settings.OrderedDictionary.Count | PlayniteDolphinMetadata/DolphinMetadataSettings.cs:241 | The count is the number of keys and of values. |
| Settings.OrderedDictionary.Get | PlayniteDolphinMetadata/DolphinMetadataSettings.cs:213-218 | Null exactly when the key is absent. Otherwise the stored value. |
| Settings.OrderedDictionary.ContainsIffEntry | PlayniteDolphinMetadata/DolphinMetadataSettings.cs:245 | `Contains` holds exactly when some entry has the key. |
| Settings.OrderedDictionary.TryGetValue | PlayniteDolphinMetadata/DolphinMetadataSettings.cs:260-269 | Found exactly when the key is present. The value is the stored one, and the default otherwise. |
| Settings.OrderedDictionary.Add | PlayniteDolphinMetadata/DolphinMetadataSettings.cs:246 | Throws `ArgumentException` exactly for a present key, leaving the entries. Otherwise it appends the pair. |
| Settings.OrderedDictionary.Set | PlayniteDolphinMetadata/DolphinMetadataSettings.cs:219-222 | Replaces in place or appends. The key reads back the value, and other keys are unchanged. |
| Settings.OrderedDictionary.Clear | PlayniteDolphinMetadata/DolphinMetadataSettings.cs:247 | No entries remain. |
| Settings.BiOrderedDictionary.Add | PlayniteDolphinMetadata/DolphinMetadataSettings.cs:182-191 | Throws `ArgumentException` exactly when either side is already present, changing nothing. Otherwise both directions gain the pair, and it reads back both ways. Inverse dictionaries stay inverse. |
| Settings.BiOrderedDictionary.TryGetValue | PlayniteDolphinMetadata/DolphinMetadataSettings.cs:193 | Found exactly when the first side is present; the value is the forward lookup. |
| Settings.BiOrderedDictionary.TryGetKey | PlayniteDolphinMetadata/DolphinMetadataSettings.cs:194 | Found exactly when the second side is present; the value is the reverse lookup. |
| Settings.BiOrderedDictionary.SetItem | PlayniteDolphinMetadata/DolphinMetadataSettings.cs:199-203 | Only the forward dictionary changes; the reverse one is left as it was. |
| Settings.BiOrderedDictionary.GetValue | PlayniteDolphinMetadata/DolphinMetadataSettings.cs:196 | Null exactly when the first side is absent. Otherwise the value stored with it. |
| Settings.BiOrderedDictionary.GetKey | PlayniteDolphinMetadata/DolphinMetadataSettings.cs:197 | Null exactly when the second side is absent. Otherwise its first, which maps forward to it while the dictionaries are inverse. |
| Settings.FromEntries | PlayniteDolphinMetadata/DolphinMetadataSettings.cs:23-41 | The collection initializer succeeds exactly when names and codes are each distinct. It then holds the entries in order, with inverse dictionaries. |
| Settings.RepeatedEntry | PlayniteDolphinMetadata/DolphinMetadataSettings.cs:184-188 | An entry whose name or code appeared earlier rules out distinctness. |
| Settings.FreshEntry | PlayniteDolphinMetadata/DolphinMetadataSettings.cs:184-188 | An entry whose name and code are both new keeps the table distinct through it. |
| Settings.CoverEntriesAreDistinct | PlayniteDolphinMetadata/DolphinMetadataSettings.cs:23-31 | The cover table has distinct names and distinct codes. |
| Settings.LanguageEntriesAreDistinct | PlayniteDolphinMetadata/DolphinMetadataSettings.cs:33-41 | The language table has distinct names and distinct codes. |
| Settings.TablesAreDistinct | PlayniteDolphinMetadata/DolphinMetadataSettings.cs:23-41 | Both tables have distinct names and distinct codes, so their static initialization never throws. |
| Settings.DefaultsAreTableCodes | PlayniteDolphinMetadata/DolphinMetadataSettings.cs:63-70 | "EN" and "cropped_coverfullHQ" are codes in their tables. |
| Settings.TableNameRoundTrip | PlayniteDolphinMetadata/DolphinMetadataSettings.cs:47-59 | Setting a display name and reading it back gives that name. |
| Settings.IndexerSetBreaksRoundTrip | PlayniteDolphinMetadata/DolphinMetadataSettings.cs:199-203 | The indexer setter updates only the forward side, so the reverse lookup goes stale. |
| Settings.CoverCodesNameArtDirectories | PlayniteDolphinMetadata/DolphinMetadataSettings.cs:25-30 | With the corrected format, every cover code names an art.gametdb.com directory. |
| Settings.DolphinMetadataSettings.OnPropertySet | PlayniteDolphinMetadata/DolphinMetadataSettings.cs:161-171 | Stores the new value. It raises each extra property name, in order, exactly when the values differ or either is null. |
| Settings.DolphinMetadataSettings.SetLanguagePreference | PlayniteDolphinMetadata/DolphinMetadataSettings.cs:64-68 | Stores the value. Notifies `LanguagePreference` and `LanguagePreferenceName` exactly when the old or the new value is null or the two differ. |
| Settings.DolphinMetadataSettings.SetCoverDownloadPreference | PlayniteDolphinMetadata/DolphinMetadataSettings.cs:71-75 | Stores the value. Notifies `CoverDownloadPreference` and `CoverDownloadPreferenceName` exactly when the old or the new value is null or the two differ. |
| Settings.DolphinMetadataSettings.SetPathToDolphinUserFolder | PlayniteDolphinMetadata/DolphinMetadataSettings.cs:82-86 | Stores the value. Notifies `PathToDolphinUserFolder` and `PathStatus` exactly when the old or the new value is null or the two differ. |
| Settings.DolphinMetadataSettings.LanguagePreferenceName | PlayniteDolphinMetadata/DolphinMetadataSettings.cs:55-58 | Throws `ArgumentNullException` exactly for a null preference. What it reads back after a name is set is stated by `SetLanguagePreferenceName`. |
| Settings.DolphinMetadataSettings.CoverDownloadPreferenceName | PlayniteDolphinMetadata/DolphinMetadataSettings.cs:48-51 | Same, for the cover preference. |
| Settings.DolphinMetadataSettings.SetLanguagePreferenceName | PlayniteDolphinMetadata/DolphinMetadataSettings.cs:54-59 | A null name throws `ArgumentNullException` and changes nothing. A known name stores its code and reads back as itself; an unknown one stores null. Both property names are raised, in that order, exactly when the old or the new code is null or the two differ. So setting an unknown name while the code is already null still notifies. |
| Settings.DolphinMetadataSettings.SetCoverDownloadPreferenceName | PlayniteDolphinMetadata/DolphinMetadataSettings.cs:47-52 | Same, for the cover preference and its two property names. |
| Settings.DolphinMetadataSettings.VerifySettings | PlayniteDolphinMetadata/DolphinMetadataSettings.cs:140-144 | Always valid, with no errors. |
| Settings.DolphinMetadataSettings.constructor | PlayniteDolphinMetadata/DolphinMetadataSettings.cs:63-112 | Defaults are "EN", "cropped_coverfullHQ" and an empty path, with no notifications. |
| Settings.DolphinMetadataSettings.FromSaved | PlayniteDolphinMetadata/DolphinMetadataSettings.cs:114-125 | Without saved settings the defaults stay, with no notifications. Otherwise the three saved values are stored. |
| Text.JoinSplit | PlayniteDolphinMetadata/GameTDBData.cs:110 | `string.Split(',')` loses nothing: joining the parts gives back the text. |
| Text.SplitJoin | PlayniteDolphinMetadata/GameTDBData.cs:132 | Splitting a join of comma-free parts gives back the parts. |
| Text.TrimIdempotent | PlayniteDolphinMetadata/DolphinMetadataProvider.cs:258 | Trimming wit's output twice changes nothing more. |
| Text.TrimKeepsInfix | PlayniteDolphinMetadata/DolphinMetadataProvider.cs:258 | `Trim` removes only leading and trailing white space; what remains is a contiguous part of the input. |
| Text.TryParseInt32 | PlayniteDolphinMetadata/GameTDBData.cs:138 | Parses exactly the decimal integers in the 32-bit range. |
| Text.ParseIntegerOfToString | PlayniteDolphinMetadata/GameTDBData.cs:138 | Every integer's decimal text parses back to that integer, with no range check. |
| Text.TryParseInt32OfToString | PlayniteDolphinMetadata/GameTDBData.cs:138 | Every 32-bit integer's decimal text parses back to it. |
| Text.TryParseUInt64 | PlayniteDolphinMetadata/GameTDBData.cs:161 | Parses exactly the decimal integers in the unsigned 64-bit range. |
| Text.GetExtension | PlayniteDolphinMetadata/DolphinMetadataProvider.cs:93 | Non-empty exactly when the last path component has a '.' before its end. It is then the suffix from that component's last '.'. Otherwise it is empty. |
| Text.ExtensionOfFileName | PlayniteDolphinMetadata/DolphinMetadataProvider.cs:93 | A path ending in a '.' and a dot-free, separator-free tail has that '.' and tail as its extension, whatever precedes it. |
| Text.NoExtensionWithoutDot | PlayniteDolphinMetadata/DolphinMetadataProvider.cs:93 | A file name without a '.' after a separator has no extension. |
| Text.GetExtensionExamples | PlayniteDolphinMetadata/DolphinMetadataProvider.cs:93 | `C:\Games\Zelda.RVZ` gives `.RVZ`. `C:\Games.rvz\Zelda` gives nothing. |
| Text.ToLowerInvariant | PlayniteDolphinMetadata/DolphinMetadataProvider.cs:93 | Same length. ASCII upper-case letters are lowered and every other character is kept. |
| Text.SubstringFrom | PlayniteDolphinMetadata/DolphinMetadataProvider.cs:390 | Succeeds exactly for a start within the string. The result is the part after it. |
| Text.Substring | PlayniteDolphinMetadata/DolphinMetadataProvider.cs:282 | Succeeds exactly when the range lies within the string. The result is that range. |
| Bytes.Int32Le | PlayniteDolphinMetadata/DolphinMetadataProvider.cs:149-159 | A signed 32-bit value; it is negative exactly when the top bit is set. |
| Bytes.Int32RoundTrip | PlayniteDolphinMetadata/DolphinMetadataProvider.cs:149 | Every non-negative length written little-endian reads back. |
| Bytes.AsciiString | PlayniteDolphinMetadata/DolphinMetadataProvider.cs:204 | One character per byte. ASCII bytes keep their value. |
| Xml.GetAttribute | PlayniteDolphinMetadata/GameTDBData.cs:114-145 | A missing attribute reads as the empty string. |
| Xml.NamedMembership | PlayniteDolphinMetadata/GameTDBData.cs:89-92 | `GetElementsByTagName` returns exactly the descendants with that tag. |
| Xml.NamedHead | PlayniteDolphinMetadata/GameTDBData.cs:183 | The first element it returns is the first such descendant in document order. |

## Left out

- `CropBoxart` (DolphinMetadataProvider.cs:410-434): bitmap decoding and cropping are not modelled. `CoverFile.cropped` only records whether the data would be cropped. An exception from cropping is not modelled either.
- `wit.exe`: the subprocess, its standard error, and `Path.Combine` or `GetDirectoryName` of the DLL path. The model takes two inputs instead: whether the tool exists, and its concatenated standard output.
- `WebClient.DownloadData`: this is the `download` function. A `WebException` without an HTTP response becomes `NoResponse`, which throws `NullReferenceException` at the `as HttpWebResponse` dereference.
- `Path.GetFullPath` and `Encoding.UTF8.GetBytes`: the model takes the encoded full path as input. The `Replace('\\', '/')` is modelled on those bytes. For UTF-8 this is equivalent, because 0x5C never occurs inside a multi-byte sequence.
- Loading and parsing of `wiitdb.xml` and reading of `gamelist.cache` live in DolphinMetadataPlugin.cs, which is not part of this model. The document and the cache bytes are inputs.
- Logging, `Dispose`, `ReleaseWiiDb`, and the constructor's plugin lookups are not modelled.
- `_options.GameData.GameImagePath` being null, and null preferences reaching the provider: the provider's path and preferences are non-null strings.
- The SDK's base `GetName`, `GetDescription` and `GetCoverImage`: they are represented by `None` and `BaseCoverImage`.
- `DolphinMetadataSettings`: `PathStatus` (File.Exists), `LastWiiTdbUpdate` (DateTime), `BeginEdit`, `EndEdit` (saving through the plugin), `CancelEdit`, and the XAML-only `LanguageNames` and `CoverNames` are left out. `PropertyChanged` dispatch is recorded as a list of raised property names.
- The single-property `OnPropertySet` overload (DolphinMetadataSettings.cs:152-159) is never called, so it is left out.
- `OrderedDictionary.Remove(K)` and `Remove(KeyValuePair)` (DolphinMetadataSettings.cs:253-258, 274) are left out. For a present key, `Remove(key)` calls itself and never terminates, so there is no result to model. Nothing in the core calls them.
- `OrderedDictionary`'s integer indexer, `Insert`, `RemoveAt`, `CopyTo`, `IsReadOnly` and the enumerators are left out, because nothing in the core uses them.
- The static tables are per-instance constant entry sequences. `FromEntries` proves that building them succeeds.
- Settings.OrderedDictionary.Get: a missing key reads as null, as `(V)null` does for the string tables here. The cast's `NullReferenceException`, which a value-type `V` would raise instead, is not modelled.
- GamelistCache.ReadInt64At: the 64-bit values are skipped by the source, so the contract states only the bounds and the advance; `Int64Le` gives the value.
- GamelistCache.ReadBytesAt: `OutOfMemoryException` for a huge count is not modelled; a count past the end returns what remains.
- `int.TryParse` and `ulong.TryParse` are modelled as optional white space, an optional sign and decimal digits (`NumberStyles.Integer`, invariant culture). Culture-specific signs are not modelled.
- Provider.DolphinMetadataProvider.LoadGameData: on .NET Framework, `Path.GetExtension` throws `ArgumentException` for a path holding `"`, `<`, `>`, `|` or a control character. That call (DolphinMetadataProvider.cs:93) is outside both `try` blocks, so the exception escapes `GetAvailableFields` and the field queries. The model's `GetExtension` never throws, so such a path goes through the extension switch like any other.
- Text.ToLowerInvariant: only ASCII letters are case-mapped; other Unicode case mappings are not modelled.

## Findings

| source | as written | input that shows it | evidently intended | confidence | as-written member | corrected member |
|---|---|---|---|---|---|---|
| PlayniteDolphinMetadata/GameTDBData.cs:175-178 | `TryParseOrNull<TResult>` returns an unconstrained `TResult?`, which for `int` and `ulong` is plain `TResult`, so `default` is 0 | a `<game>` without `<input players=…>`: `Players` is 0, the same as `players="0"` | null when the attribute is missing or does not parse | not executed | GameTdb.TryParseOrNullAsWritten, GameTdb.MissingCountReadsAsZero, GameTdb.ParsedCountsAsWritten | GameTdb.TryParseOrNull, GameTdb.ParsedCountsAreNullWhenAbsent |
| PlayniteDolphinMetadata/DolphinMetadataProvider.cs:390 | the default format is `CoverDownloadPreference.Substring("cropped_".Length)` whatever the preference | preference "cover", "cover3D" or "disc" throws `ArgumentOutOfRangeException`; "coverfullHQ" requests format "lHQ" | strip "cropped_" only when the preference has it | not executed | Covers.DefaultFormatAsWritten, Covers.DefaultFormatAsWrittenMisreadsUncropped, Covers.UncroppedSearchThrowsAsWritten, Provider.CoverImageReadings | Covers.DefaultFormat, Covers.CorrectedSearchFailsOnlyOnTheWeb, Settings.CoverCodesNameArtDirectories |
