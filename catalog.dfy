/** The catalog lookup of DolphinMetadataProvider.ParseGameData: the first `<game>` whose
    first `<id>` is the ID6, else the first whose id is the ID6's first four characters. */
module Catalog {
  import opened Wrappers
  import opened Xml
  import opened Text
  import GameTdb

  /** The text a `<game>` is matched on: that of its first `<id>` descendant, if any. */
  function FirstId(e: Element): Option<string>
  {
    GameTdb.GetElementText(e, "id")
  }

  /** `id.Count > 0 && id[0].InnerText`: no id without an `<id>` descendant, else the text of
      the first one. */
  lemma FirstIdIsFirstIdText(e: Element)
    ensures FirstId(e).None? <==> ElementsByTagName(e, "id") == []
    ensures FirstId(e).Some? ==> FirstId(e).value == InnerText(ElementsByTagName(e, "id")[0])
  {
  }

  /** `_wiiDb.GetElementsByTagName("game")`: every `<game>` of the document, in order. */
  function Games(doc: Document): (r: seq<Element>)
    ensures forall g :: g in r <==> g in [doc.root] + Descendants(doc.root) && g.name == "game"
  {
    forall g ensures g in Named([doc.root] + Descendants(doc.root), "game") <==>
      g in [doc.root] + Descendants(doc.root) && g.name == "game"
    {
      NamedMembership([doc.root] + Descendants(doc.root), "game", g);
    }
    DocumentElementsByTagName(doc, "game")
  }

  /** The first pass, `FirstOrDefault(first id == code)`: the position of the first game whose
      first id is `code`. */
  function FirstWithId(games: seq<Element>, code: string): (r: Option<nat>)
    decreases |games|
    ensures r.Some? ==> r.value < |games| && FirstId(games[r.value]) == Some(code)
    ensures r.Some? ==> forall j :: 0 <= j < r.value ==> FirstId(games[j]) != Some(code)
    ensures r.None? <==> forall j :: 0 <= j < |games| ==> FirstId(games[j]) != Some(code)
  {
    if games == [] then None
    else if FirstId(games[0]) == Some(code) then Some(0)
    else match FirstWithId(games[1..], code)
      case Some(i) => Some(i + 1)
      case None => None
  }

  /** The second pass as the code runs it: `id6.Substring(0, 4)` is evaluated inside the
      predicate, after `id.Count > 0 &&`, so it throws as soon as a game with an `<id>` is
      reached while the ID6 is shorter than four characters. */
  function FirstWithShortId(games: seq<Element>, id6: string): (r: Result<Option<nat>>)
    decreases |games|
    ensures r.Throws? <==> |id6| < 4 && exists j :: 0 <= j < |games| && FirstId(games[j]).Some?
    ensures r.Throws? ==> r.error == ArgumentOutOfRangeException
    ensures |id6| >= 4 ==> r == Ok(FirstWithId(games, id6[..4]))
    ensures |id6| < 4 && r.Ok? ==> r.value.None?
  {
    if games == [] then Ok(None)
    else
      var rest := FirstWithShortId(games[1..], id6);
      var shifted: Result<Option<nat>> := match rest
        case Ok(Some(i)) => Ok(Some(i + 1))
        case Ok(None) => Ok(None)
        case Throws(e) => Throws(e);
      assert forall j :: 1 <= j < |games| ==> games[1..][j - 1] == games[j];
      match FirstId(games[0])
      case None => shifted
      case Some(id) =>
        match Substring(id6, 0, 4)
        case Throws(e) => Throws(e)
        case Ok(short) => if id == short then Ok(Some(0)) else shifted
  }

  /** The element ParseGameData settles on, before projecting it. */
  function FindGame(games: seq<Element>, id6: string): (r: Result<Option<Element>>)
    ensures r.Ok? && r.value.Some? ==> r.value.value in games
  {
    match FirstWithId(games, id6)
    case Some(i) => Ok(Some(games[i]))
    case None =>
      var short :- FirstWithShortId(games, id6);
      match short
      case Some(i) => Ok(Some(games[i]))
      case None => Ok(None)
  }

  /** The exact tier wins whenever some game carries the ID6: the first such in document
      order. */
  lemma FindGamePrefersExactMatch(games: seq<Element>, id6: string, k: nat)
    requires k < |games| && FirstId(games[k]) == Some(id6)
    requires forall j :: 0 <= j < k ==> FirstId(games[j]) != Some(id6)
    ensures FindGame(games, id6) == Ok(Some(games[k]))
  {
    var r := FirstWithId(games, id6);
    assert r.Some?;
    assert r.value == k by {
      if r.value < k {} else if r.value > k {}
    }
  }

  /** Only when no game carries the ID6 does the four-character tier apply, again taking the
      first match in document order. */
  lemma FindGameFallsBackToShortId(games: seq<Element>, id6: string, k: nat)
    requires |id6| >= 4
    requires forall j :: 0 <= j < |games| ==> FirstId(games[j]) != Some(id6)
    requires k < |games| && FirstId(games[k]) == Some(id6[..4])
    requires forall j :: 0 <= j < k ==> FirstId(games[j]) != Some(id6[..4])
    ensures FindGame(games, id6) == Ok(Some(games[k]))
  {
    var r := FirstWithId(games, id6[..4]);
    assert r.Some?;
    assert r.value == k by {
      if r.value < k {} else if r.value > k {}
    }
  }

  /** With neither tier matching there is no result, and no exception. */
  lemma FindGameMissesWithoutMatch(games: seq<Element>, id6: string)
    requires |id6| >= 4
    requires forall j :: 0 <= j < |games| ==> FirstId(games[j]) != Some(id6)
    requires forall j :: 0 <= j < |games| ==> FirstId(games[j]) != Some(id6[..4])
    ensures FindGame(games, id6) == Ok(None)
  {
  }

  /** A code shorter than four characters throws exactly when some game has an `<id>` and
      none has that very code. */
  lemma FindGameThrowsOnShortCode(games: seq<Element>, id6: string)
    requires |id6| < 4
    ensures FindGame(games, id6).Throws? <==>
      (forall j :: 0 <= j < |games| ==> FirstId(games[j]) != Some(id6)) &&
      (exists j :: 0 <= j < |games| && FirstId(games[j]).Some?)
  {
  }

  /** ParseGameData's outcome: the projected record, none, or the exception it lets escape
      (from Substring or from a duplicate locale in the matched record). */
  function ResolveGameData(doc: Document, id6: string): (r: Result<Option<GameTdb.GameTdbData>>)
    ensures r.Ok? && r.value.Some? ==>
      r.value.value.id == Some(id6) || (|id6| >= 4 && r.value.value.id == Some(id6[..4]))
  {
    var found :- FindGame(Games(doc), id6);
    match found
    case None => Ok(None)
    case Some(e) =>
      var d :- GameTdb.Parse(e, GameTdb.AsWritten);
      FoundGameHasCode(Games(doc), id6);
      Ok(Some(d))
  }

  lemma FoundGameHasCode(games: seq<Element>, id6: string)
    ensures FindGame(games, id6).Ok? && FindGame(games, id6).value.Some? ==>
      FirstId(FindGame(games, id6).value.value) == Some(id6) ||
      (|id6| >= 4 && FirstId(FindGame(games, id6).value.value) == Some(id6[..4]))
  {
  }

  /** A game with no `<id>` never matches, and a valid six-character code never reaches the
      throwing Substring. */
  lemma SixCharacterCodeNeverThrows(doc: Document, id6: string)
    requires |id6| == 6
    ensures FindGame(Games(doc), id6).Ok?
  {
  }

  /** The worked example: RSBE01 finds the RSBE01 record; RSBE, with no RSBE-coded record
      in the first tier but one whose id is exactly RSBE, finds that one. */
  lemma LookupExamples(a: Element, b: Element)
    requires FirstId(a) == Some("RSBE01") && FirstId(b) == Some("RSBE")
    ensures FindGame([a, b], "RSBE01") == Ok(Some(a))
    ensures FindGame([a, b], "RSBE") == Ok(Some(b))
    ensures FindGame([a, b], "RMCP01") == Ok(None)
  {
    FindGamePrefersExactMatch([a, b], "RSBE01", 0);
    FindGamePrefersExactMatch([a, b], "RSBE", 1);
    assert "RMCP01"[..4] == "RMCP";
    FindGameMissesWithoutMatch([a, b], "RMCP01");
  }
}
