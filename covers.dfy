/** Cover download with fallbacks: DolphinMetadataProvider.FindGoodCover and
    TryDownloadCover. The web client is an oracle from URL to download outcome. */
module Covers {
  import opened Wrappers
  import opened Bytes
  import opened Text
  import opened GameTdb

  const HttpNotFound: int := 404
  const RegularCover: string := "cover"
  const CroppedPrefix: string := "cropped_"

  /** The outcome of WebClient.DownloadData for one URL: the body, an HTTP error status,
      or a failure that carries no HTTP response (DNS, timeout, refused connection). */
  datatype Download = Downloaded(data: seq<byte>) | HttpError(status: int) | NoResponse

  /** What one cover search depends on: the game record, the cover preference, the web, and
      which reading of the default format it follows. */
  datatype CoverSource = CoverSource(game: GameTdbData, coverPreference: string, download: string -> Download,
                                     reading: Reading)

  // ---------------------------------------------------------------------------------------
  // The default format

  /** The default format as written: `CoverDownloadPreference.Substring("cropped_".Length)`,
      applied whether or not the preference starts with "cropped_". */
  function DefaultFormatAsWritten(coverPreference: string): (r: Result<string>)
    ensures r.Ok? <==> |CroppedPrefix| <= |coverPreference|
    ensures r.Throws? ==> r.error == ArgumentOutOfRangeException
    ensures r.Ok? ==> |r.value| == |coverPreference| - |CroppedPrefix|
  {
    SubstringFrom(coverPreference, |CroppedPrefix|)
  }

  /** The preferences that do not start with "cropped_" either throw or name an art
      directory that does not exist. */
  lemma DefaultFormatAsWrittenMisreadsUncropped()
    ensures DefaultFormatAsWritten("cover") == Throws(ArgumentOutOfRangeException)
    ensures DefaultFormatAsWritten("cover3D") == Throws(ArgumentOutOfRangeException)
    ensures DefaultFormatAsWritten("disc") == Throws(ArgumentOutOfRangeException)
    ensures DefaultFormatAsWritten("coverfullHQ") == Ok("lHQ")
    ensures DefaultFormatAsWritten("coverfull") == Ok("l")
  {
    assert "coverfullHQ"[8..] == "lHQ";
    assert "coverfull"[8..] == "l";
  }

  /** The default format, corrected: a "cropped_" preference downloads the art it crops,
      and any other preference downloads itself. */
  function DefaultFormat(coverPreference: string): (r: string)
    ensures StartsWith(coverPreference, CroppedPrefix) ==> CroppedPrefix + r == coverPreference
    ensures !StartsWith(coverPreference, CroppedPrefix) ==> r == coverPreference
  {
    if StartsWith(coverPreference, CroppedPrefix) then coverPreference[|CroppedPrefix|..] else coverPreference
  }

  /** On the preferences the code was written for, the correction changes nothing. */
  lemma DefaultFormatAgreesOnCropped(coverPreference: string)
    requires StartsWith(coverPreference, CroppedPrefix)
    ensures DefaultFormatAsWritten(coverPreference) == Ok(DefaultFormat(coverPreference))
  {
  }

  // ---------------------------------------------------------------------------------------
  // TryDownloadCover

  /** The format one download requests: the explicit one, or else the default format under
      the source's reading. */
  function RequestedFormat(src: CoverSource, format: Option<string>): Result<string>
  {
    if format.Some? then Ok(format.value)
    else
      match src.reading
      case AsWritten => DefaultFormatAsWritten(src.coverPreference)
      case Corrected => Ok(DefaultFormat(src.coverPreference))
  }

  /** The URL one download uses, or the exception computing its format raises. */
  function CoverUrl(src: CoverSource, language: string, format: Option<string>): Result<string>
  {
    var actual :- RequestedFormat(src, format);
    Ok(GetCoverUrl(src.game, language, actual))
  }

  /** TryDownloadCover: the data on success and None on HTTP 404. Any other WebException
      is rethrown; one without a response fails on `(e.Response as HttpWebResponse)`. The
      exception computing the default format is no WebException, so it escapes. */
  function TryDownloadCover(src: CoverSource, language: string, format: Option<string>): (r: Result<Option<seq<byte>>>)
    ensures CoverUrl(src, language, format).Throws? ==> r == Throws(ArgumentOutOfRangeException)
    ensures r == Ok(None) <==>
      CoverUrl(src, language, format).Ok? && src.download(CoverUrl(src, language, format).value) == HttpError(HttpNotFound)
    ensures forall data :: r == Ok(Some(data)) <==>
      CoverUrl(src, language, format).Ok? && src.download(CoverUrl(src, language, format).value) == Downloaded(data)
    ensures CoverUrl(src, language, format).Ok? && r.Throws? ==> r.error in {WebException, NullReferenceException}
  {
    var url :- CoverUrl(src, language, format);
    match src.download(url)
    case Downloaded(data) => Ok(Some(data))
    case HttpError(status) => if status == HttpNotFound then Ok(None) else Throws(WebException)
    case NoResponse => Throws(NullReferenceException)
  }

  /** As written, a default-format download with the preference "cover", "cover3D" or "disc"
      throws whatever the web would answer. */
  lemma UncroppedPreferenceThrowsAsWritten(src: CoverSource, language: string)
    requires src.reading == AsWritten && src.coverPreference in ["cover", "cover3D", "disc"]
    ensures TryDownloadCover(src, language, None) == Throws(ArgumentOutOfRangeException)
  {
  }

  /** As written, the preference "coverfullHQ" requests the art directory "lHQ". */
  lemma CoverfullHQRequestsLhqAsWritten(src: CoverSource, language: string)
    requires src.reading == AsWritten && src.coverPreference == "coverfullHQ"
    ensures CoverUrl(src, language, None) == Ok(GetCoverUrl(src.game, language, "lHQ"))
  {
    DefaultFormatAsWrittenMisreadsUncropped();
  }

  /** With an explicit format, or a preference that starts with "cropped_", the two readings
      download the same URL. */
  lemma TryDownloadAgreesOnCropped(src: CoverSource, language: string, format: Option<string>)
    requires format.Some? || StartsWith(src.coverPreference, CroppedPrefix)
    ensures TryDownloadCover(src.(reading := AsWritten), language, format) ==
            TryDownloadCover(src.(reading := Corrected), language, format)
  {
    if format.None? {
      DefaultFormatAgreesOnCropped(src.coverPreference);
    }
  }

  // ---------------------------------------------------------------------------------------
  // The attempts of FindGoodCover

  /** One download: language, format (None: the default one) and whether a hit counts as
      the requested format. */
  datatype Attempt = Attempt(language: string, format: Option<string>, inRequestedFormat: bool)

  function TryAttempt(src: CoverSource, a: Attempt): Result<Option<seq<byte>>>
  {
    TryDownloadCover(src, a.language, a.format)
  }

  /** The cover found, if any, and false when it is only the regular cover. */
  datatype Cover = Cover(data: Option<seq<byte>>, isInRequestedFormat: bool)

  /** The attempts in order, stopping at the first that downloads or throws. */
  function Run(src: CoverSource, attempts: seq<Attempt>): (r: Result<Cover>)
    decreases |attempts|
    ensures attempts == [] ==> r == Ok(Cover(None, true))
    ensures r.Ok? && r.value.data.None? ==> r == Ok(Cover(None, true))
  {
    if attempts == [] then Ok(Cover(None, true))
    else
      var found :- TryAttempt(src, attempts[0]);
      if found.Some? then Ok(Cover(found, attempts[0].inRequestedFormat)) else Run(src, attempts[1..])
  }

  function PrependIf(condition: bool, a: Attempt, rest: seq<Attempt>): (r: seq<Attempt>)
    ensures condition ==> r == [a] + rest
    ensures !condition ==> r == rest
  {
    if condition then [a] + rest else rest
  }

  /** One attempt per language of the record, in the default format. */
  function LanguageAttempts(languages: seq<string>): (r: seq<Attempt>)
    ensures |r| == |languages|
    ensures forall j :: 0 <= j < |languages| ==> r[j] == Attempt(languages[j], None, true)
  {
    seq(|languages|, j requires 0 <= j < |languages| => Attempt(languages[j], None, true))
  }

  /** The order FindGoodCover tries: the preferred language, then EN and AU unless one is the
      preferred language, then the regular cover in the preferred language unless that is the
      preference, then every language of the record. */
  function CoverAttempts(languagePreference: string, coverPreference: string, languages: seq<string>): (r: seq<Attempt>)
    ensures |languages| + 1 <= |r| <= |languages| + 4
    ensures r[0] == Attempt(languagePreference, None, true)
    ensures r[|r| - |languages|..] == LanguageAttempts(languages)
  {
    [Attempt(languagePreference, None, true)] +
    PrependIf(languagePreference != "EN", Attempt("EN", None, true),
    PrependIf(languagePreference != "AU", Attempt("AU", None, true),
    PrependIf(coverPreference != RegularCover, Attempt(languagePreference, Some(RegularCover), false),
    LanguageAttempts(languages))))
  }

  /** FindGoodCover's outcome: the attempts of CoverAttempts, run in order. A miss is always
      flagged as the requested format. */
  function FindCover(src: CoverSource, languagePreference: string): (r: Result<Cover>)
    ensures r.Ok? && r.value.data.None? ==> r == Ok(Cover(None, true))
  {
    Run(src, CoverAttempts(languagePreference, src.coverPreference, src.game.languages))
  }

  /** FindGoodCover as the code runs it: fixed attempts with early returns, then a loop over
      the record's languages. */
  method FindGoodCover(src: CoverSource, languagePreference: string) returns (r: Result<Cover>)
    ensures r == FindCover(src, languagePreference)
  {
    var languages := src.game.languages;
    ghost var rest := CoverAttempts(languagePreference, src.coverPreference, languages);
    assert rest[0] == Attempt(languagePreference, None, true);
    var data :- TryDownloadCover(src, languagePreference, None);
    if data.Some? {
      return Ok(Cover(data, true));
    }
    rest := rest[1..];
    assert FindCover(src, languagePreference) == Run(src, rest);
    if languagePreference != "EN" {
      assert rest[0] == Attempt("EN", None, true);
      data :- TryDownloadCover(src, "EN", None);
      if data.Some? {
        return Ok(Cover(data, true));
      }
      rest := rest[1..];
    }
    assert FindCover(src, languagePreference) == Run(src, rest);
    if languagePreference != "AU" {
      assert rest[0] == Attempt("AU", None, true);
      data :- TryDownloadCover(src, "AU", None);
      if data.Some? {
        return Ok(Cover(data, true));
      }
      rest := rest[1..];
    }
    assert FindCover(src, languagePreference) == Run(src, rest);
    // The regular cover usually exists for every entry.
    if src.coverPreference != RegularCover {
      assert rest[0] == Attempt(languagePreference, Some(RegularCover), false);
      data :- TryDownloadCover(src, languagePreference, Some(RegularCover));
      if data.Some? {
        return Ok(Cover(data, false));
      }
      rest := rest[1..];
    }
    assert rest == LanguageAttempts(languages);
    // Then any language the record lists.
    r := TryRecordLanguages(src, languages);
  }

  /** The `foreach (var language in _gameData.Languages)` tail of FindGoodCover. */
  method TryRecordLanguages(src: CoverSource, languages: seq<string>) returns (r: Result<Cover>)
    ensures r == Run(src, LanguageAttempts(languages))
  {
    ghost var rest := LanguageAttempts(languages);
    for i := 0 to |languages|
      invariant rest == LanguageAttempts(languages[i..])
      invariant Run(src, LanguageAttempts(languages)) == Run(src, rest)
    {
      var data :- TryDownloadCover(src, languages[i], None);
      if data.Some? {
        return Ok(Cover(data, true));
      }
      rest := rest[1..];
      assert rest == LanguageAttempts(languages[i + 1..]);
    }
    return Ok(Cover(None, true));
  }

  // ---------------------------------------------------------------------------------------
  // What the search promises

  /** The search is decided by the first attempt that does not answer 404: its data, with
      its format flag, or its exception. */
  lemma {:induction false} RunIsFirstDecisiveAttempt(src: CoverSource, attempts: seq<Attempt>, i: nat)
    requires i < |attempts|
    requires forall j :: 0 <= j < i ==> TryAttempt(src, attempts[j]) == Ok(None)
    requires TryAttempt(src, attempts[i]) != Ok(None)
    ensures match TryAttempt(src, attempts[i])
      case Ok(found) => Run(src, attempts) == Ok(Cover(found, attempts[i].inRequestedFormat))
      case Throws(e) => Run(src, attempts) == Throws(e)
  {
    if i > 0 {
      assert TryAttempt(src, attempts[0]) == Ok(None);
      RunIsFirstDecisiveAttempt(src, attempts[1..], i - 1);
    }
  }

  /** No cover, still flagged as the requested format, exactly when every attempt is a 404. */
  lemma {:induction false} RunMissesIffAllNotFound(src: CoverSource, attempts: seq<Attempt>)
    ensures Run(src, attempts) == Ok(Cover(None, true)) <==>
      forall j :: 0 <= j < |attempts| ==> TryAttempt(src, attempts[j]) == Ok(None)
    decreases |attempts|
  {
    if attempts != [] {
      RunMissesIffAllNotFound(src, attempts[1..]);
      if TryAttempt(src, attempts[0]) == Ok(None) {
        forall j | 0 <= j < |attempts[1..]|
          ensures TryAttempt(src, attempts[1..][j]) == TryAttempt(src, attempts[j + 1])
        {
        }
      }
    }
  }

  /** A cover found comes from one attempt's download, with that attempt's format flag. */
  lemma {:induction false} RunHitComesFromAttempt(src: CoverSource, attempts: seq<Attempt>, data: seq<byte>, flag: bool)
    requires Run(src, attempts) == Ok(Cover(Some(data), flag))
    ensures exists i ::
      0 <= i < |attempts| && TryAttempt(src, attempts[i]) == Ok(Some(data)) && attempts[i].inRequestedFormat == flag
    decreases |attempts|
  {
    if TryAttempt(src, attempts[0]) == Ok(None) {
      RunHitComesFromAttempt(src, attempts[1..], data, flag);
      var i :| 0 <= i < |attempts[1..]| &&
        TryAttempt(src, attempts[1..][i]) == Ok(Some(data)) && attempts[1..][i].inRequestedFormat == flag;
      assert attempts[i + 1] == attempts[1..][i];
    }
  }

  /** The only attempt whose hit is flagged as out of the requested format is the regular
      cover in the preferred language, and it is tried unless the regular cover is the
      preference itself. */
  lemma CoverAttemptsOutOfFormat(languagePreference: string, coverPreference: string, languages: seq<string>)
    ensures var attempts := CoverAttempts(languagePreference, coverPreference, languages);
      (forall a :: a in attempts && !a.inRequestedFormat ==> a == Attempt(languagePreference, Some(RegularCover), false)) &&
      (Attempt(languagePreference, Some(RegularCover), false) in attempts <==> coverPreference != RegularCover)
  {
    var regular := Attempt(languagePreference, Some(RegularCover), false);
    var tail := LanguageAttempts(languages);
    assert forall a :: a in tail ==> a.inRequestedFormat;
    var t3 := PrependIf(coverPreference != RegularCover, regular, tail);
    assert regular in t3 <==> coverPreference != RegularCover;
    var t2 := PrependIf(languagePreference != "AU", Attempt("AU", None, true), t3);
    assert forall a :: a in t2 ==> a in t3 || a.inRequestedFormat;
    assert regular in t2 <==> regular in t3;
    var t1 := PrependIf(languagePreference != "EN", Attempt("EN", None, true), t2);
    assert forall a :: a in t1 ==> a in t2 || a.inRequestedFormat;
    assert regular in t1 <==> regular in t2;
    var attempts := [Attempt(languagePreference, None, true)] + t1;
    assert attempts == CoverAttempts(languagePreference, coverPreference, languages);
    assert forall a :: a in attempts ==> a in t1 || a.inRequestedFormat;
  }

  /** The first attempt is the preferred language in the preferred format. */
  lemma PreferredCoverWins(src: CoverSource, languagePreference: string, data: seq<byte>)
    requires CoverUrl(src, languagePreference, None).Ok?
    requires src.download(CoverUrl(src, languagePreference, None).value) == Downloaded(data)
    ensures FindCover(src, languagePreference) == Ok(Cover(Some(data), true))
  {
  }

  /** A cover out of the requested format is the regular cover of the preferred language. */
  lemma OutOfFormatCoverIsRegularCover(src: CoverSource, languagePreference: string, data: seq<byte>)
    requires FindCover(src, languagePreference) == Ok(Cover(Some(data), false))
    ensures src.coverPreference != RegularCover
    ensures src.download(GetCoverUrl(src.game, languagePreference, RegularCover)) == Downloaded(data)
  {
    var attempts := CoverAttempts(languagePreference, src.coverPreference, src.game.languages);
    RunHitComesFromAttempt(src, attempts, data, false);
    var i :| 0 <= i < |attempts| && TryAttempt(src, attempts[i]) == Ok(Some(data)) && !attempts[i].inRequestedFormat;
    CoverAttemptsOutOfFormat(languagePreference, src.coverPreference, src.game.languages);
    assert attempts[i] in attempts;
  }

  /** When nothing answers but 404 and the default format can be computed, there is no
      cover. */
  lemma NoCoverWhenEverythingIsMissing(src: CoverSource, languagePreference: string)
    requires forall url :: src.download(url) == HttpError(HttpNotFound)
    requires RequestedFormat(src, None).Ok?
    ensures FindCover(src, languagePreference) == Ok(Cover(None, true))
  {
    RunMissesIffAllNotFound(src, CoverAttempts(languagePreference, src.coverPreference, src.game.languages));
  }

  /** An exception of the search is the exception of one of its attempts. */
  lemma {:induction false} RunErrorComesFromAttempt(src: CoverSource, attempts: seq<Attempt>)
    requires Run(src, attempts).Throws?
    ensures exists i :: 0 <= i < |attempts| && TryAttempt(src, attempts[i]) == Throws(Run(src, attempts).error)
    decreases |attempts|
  {
    if TryAttempt(src, attempts[0]).Ok? {
      RunErrorComesFromAttempt(src, attempts[1..]);
      var i :| 0 <= i < |attempts[1..]| && TryAttempt(src, attempts[1..][i]) == Throws(Run(src, attempts).error);
      assert attempts[i + 1] == attempts[1..][i];
    }
  }

  /** Corrected, the search fails only on the web: a status other than 404, or no response. */
  lemma CorrectedSearchFailsOnlyOnTheWeb(src: CoverSource, languagePreference: string)
    requires src.reading == Corrected
    ensures FindCover(src, languagePreference).Throws? ==>
      FindCover(src, languagePreference).error in {WebException, NullReferenceException}
  {
    var attempts := CoverAttempts(languagePreference, src.coverPreference, src.game.languages);
    if Run(src, attempts).Throws? {
      RunErrorComesFromAttempt(src, attempts);
    }
  }

  /** As written, the preference "cover", "cover3D" or "disc" makes the search throw at its
      first download, whatever the web holds. */
  lemma UncroppedSearchThrowsAsWritten(src: CoverSource, languagePreference: string)
    requires src.reading == AsWritten && src.coverPreference in ["cover", "cover3D", "disc"]
    ensures FindCover(src, languagePreference) == Throws(ArgumentOutOfRangeException)
  {
    UncroppedPreferenceThrowsAsWritten(src, languagePreference);
  }

  /** Two sources whose attempts answer alike give the same search. */
  lemma {:induction false} RunAgrees(a: CoverSource, b: CoverSource, attempts: seq<Attempt>)
    requires forall i :: 0 <= i < |attempts| ==> TryAttempt(a, attempts[i]) == TryAttempt(b, attempts[i])
    ensures Run(a, attempts) == Run(b, attempts)
    decreases |attempts|
  {
    if attempts != [] {
      assert TryAttempt(a, attempts[0]) == TryAttempt(b, attempts[0]);
      forall i | 0 <= i < |attempts[1..]| ensures TryAttempt(a, attempts[1..][i]) == TryAttempt(b, attempts[1..][i]) {
        assert attempts[1..][i] == attempts[i + 1];
      }
      RunAgrees(a, b, attempts[1..]);
    }
  }

  /** On a "cropped_" preference, the preferences the code was written for, the search as
      written and the corrected search are the same. */
  lemma FindCoverAgreesOnCropped(src: CoverSource, languagePreference: string)
    requires StartsWith(src.coverPreference, CroppedPrefix)
    ensures FindCover(src.(reading := AsWritten), languagePreference) ==
            FindCover(src.(reading := Corrected), languagePreference)
  {
    var attempts := CoverAttempts(languagePreference, src.coverPreference, src.game.languages);
    forall i | 0 <= i < |attempts|
      ensures TryAttempt(src.(reading := AsWritten), attempts[i]) == TryAttempt(src.(reading := Corrected), attempts[i])
    {
      TryDownloadAgreesOnCropped(src, attempts[i].language, attempts[i].format);
    }
    RunAgrees(src.(reading := AsWritten), src.(reading := Corrected), attempts);
  }
}
