/** DolphinMetadataSettings.cs: the ordered dictionaries, the two name/code tables and the
    settings object whose properties notify when they change. */
module Settings {
  import opened Wrappers
  import opened Pairs
  import Covers

  // ---------------------------------------------------------------------------------------
  // OrderedDictionary<K, V>

  /** The generic wrapper over System.Collections.Specialized.OrderedDictionary: entries in
      insertion order with distinct keys. A missing key reads as null (None). */
  class OrderedDictionary<K(==), V(==)> {
    var entries: seq<(K, V)>

    ghost predicate Valid()
      reads this
    {
      DistinctKeys(entries)
    }

    constructor ()
      ensures Valid() && entries == []
    {
      entries := [];
    }

    function Keys(): seq<K>
      reads this
    {
      KeysOf(entries)
    }

    function Values(): seq<V>
      reads this
    {
      ValuesOf(entries)
    }

    function Count(): (r: nat)
      reads this
      ensures r == |Keys()| == |Values()|
    {
      |entries|
    }

    /** Contains / ContainsKey. */
    predicate Contains(key: K)
      reads this
    {
      key in Keys()
    }

    /** A key is contained exactly when some entry has it. */
    lemma ContainsIffEntry(key: K)
      ensures Contains(key) <==> exists i :: 0 <= i < |entries| && entries[i].0 == key
    {
      if Contains(key) {
        var i :| 0 <= i < |Keys()| && Keys()[i] == key;
        assert entries[i].0 == key;
      }
    }

    /** The indexer getter `this[key]`. */
    function Get(key: K): (r: Option<V>)
      reads this
      ensures r.None? <==> !Contains(key)
      ensures r.Some? ==> (key, r.value) in entries
    {
      Lookup(entries, key)
    }

    /** Contains(KeyValuePair): the key is present and its value equals the pair's. */
    predicate ContainsPair(key: K, value: V)
      reads this
    {
      Contains(key) && Get(key) == Some(value)
    }

    /** TryGetValue: false with the default (null) value exactly when the key is absent. */
    method TryGetValue(key: K) returns (found: bool, value: Option<V>)
      ensures found <==> Contains(key)
      ensures !found ==> value.None?
      ensures found ==> value == Get(key) && value.Some? && (key, value.value) in entries
    {
      if !Contains(key) {
        return false, None;
      }
      return true, Get(key);
    }

    /** Add: throws ArgumentException for a key already present, otherwise appends. */
    method Add(key: K, value: V) returns (r: Result<()>)
      requires Valid()
      modifies this
      ensures Valid()
      ensures r.Throws? <==> old(Contains(key))
      ensures r.Throws? ==> r.error == ArgumentException && entries == old(entries)
      ensures r.Ok? ==> entries == old(entries) + [(key, value)]
    {
      if Contains(key) {
        return Throws(ArgumentException);
      }
      entries := entries + [(key, value)];
      return Ok(());
    }

    /** The indexer setter `this[key] = value`. */
    method Set(key: K, value: V)
      requires Valid()
      modifies this
      ensures Valid()
      ensures entries == Assign(old(entries), key, value)
      ensures Get(key) == Some(value)
      ensures forall k :: k != key ==> Get(k) == Lookup(old(entries), k)
    {
      AssignSpec(entries, key, value);
      var i := IndexOfKey(entries, key);
      if i >= 0 {
        entries := entries[i := (key, value)];
      } else {
        entries := entries + [(key, value)];
      }
    }

    method Clear()
      modifies this
      ensures Valid() && entries == []
    {
      entries := [];
    }
  }

  // ---------------------------------------------------------------------------------------
  // BiOrderedDictionary<TKey, TValue>

  /** A forward and a reverse ordered dictionary, kept inverse by Add. */
  class BiOrderedDictionary<K(==), V(==)> {
    const firstToSecond: OrderedDictionary<K, V>
    const secondToFirst: OrderedDictionary<V, K>

    ghost predicate Valid()
      reads this, firstToSecond, secondToFirst
    {
      firstToSecond as object != secondToFirst as object &&
      firstToSecond.Valid() && secondToFirst.Valid()
    }

    /** The reverse dictionary holds every forward entry exchanged, in the same order. */
    ghost predicate Inverse()
      reads this, firstToSecond, secondToFirst
    {
      secondToFirst.entries == Swap(firstToSecond.entries)
    }

    constructor ()
      ensures Valid() && Inverse()
      ensures fresh(firstToSecond) && fresh(secondToFirst)
      ensures firstToSecond.entries == [] && secondToFirst.entries == []
    {
      firstToSecond := new OrderedDictionary();
      secondToFirst := new OrderedDictionary();
    }

    function Keys(): seq<K>
      reads this, firstToSecond
    {
      firstToSecond.Keys()
    }

    /** `Values` are the reverse dictionary's keys. */
    function Values(): seq<V>
      reads this, secondToFirst
    {
      secondToFirst.Keys()
    }

    /** GetValue: the forward indexer, null for a missing first. */
    function GetValue(first: K): (r: Option<V>)
      reads this, firstToSecond
      ensures r.None? <==> first !in Keys()
      ensures r.Some? ==> (first, r.value) in firstToSecond.entries
    {
      firstToSecond.Get(first)
    }

    /** GetKey: the reverse indexer; with the dictionaries inverse, a second found maps back
        from its first. */
    function GetKey(second: V): (r: Option<K>)
      reads this, firstToSecond, secondToFirst
      ensures r.None? <==> second !in Values()
      ensures r.Some? ==> (second, r.value) in secondToFirst.entries
      ensures r.Some? && Inverse() ==> (r.value, second) in firstToSecond.entries
    {
      secondToFirst.Get(second)
    }

    /** Add: ArgumentException when `first` is already a key or `second` already a value;
        otherwise both dictionaries grow by the pair. */
    method Add(first: K, second: V) returns (r: Result<()>)
      requires Valid()
      modifies firstToSecond, secondToFirst
      ensures Valid()
      ensures r.Throws? <==> old(firstToSecond.Contains(first)) || old(secondToFirst.Contains(second))
      ensures r.Throws? ==> r.error == ArgumentException
      ensures r.Throws? ==> firstToSecond.entries == old(firstToSecond.entries) &&
                            secondToFirst.entries == old(secondToFirst.entries)
      ensures r.Ok? ==> firstToSecond.entries == old(firstToSecond.entries) + [(first, second)] &&
                        secondToFirst.entries == old(secondToFirst.entries) + [(second, first)]
      ensures r.Ok? ==> GetValue(first) == Some(second) && GetKey(second) == Some(first)
      ensures old(Inverse()) ==> Inverse()
    {
      if firstToSecond.Contains(first) || secondToFirst.Contains(second) {
        return Throws(ArgumentException);
      }
      var added := firstToSecond.Add(first, second);
      added := secondToFirst.Add(second, first);
      IndexOfKeyAppend(old(firstToSecond.entries), (first, second), first);
      IndexOfKeyAppend(old(secondToFirst.entries), (second, first), second);
      assert Swap(firstToSecond.entries) == Swap(old(firstToSecond.entries)) + [(second, first)];
      return Ok(());
    }

    method TryGetValue(first: K) returns (found: bool, second: Option<V>)
      ensures found <==> firstToSecond.Contains(first)
      ensures !found ==> second.None?
      ensures found ==> second == GetValue(first)
    {
      found, second := firstToSecond.TryGetValue(first);
    }

    method TryGetKey(second: V) returns (found: bool, first: Option<K>)
      ensures found <==> secondToFirst.Contains(second)
      ensures !found ==> first.None?
      ensures found ==> first == GetKey(second)
    {
      found, first := secondToFirst.TryGetValue(second);
    }

    /** The indexer setter: only the forward dictionary changes. */
    method SetItem(key: K, value: V)
      requires Valid()
      modifies firstToSecond
      ensures Valid()
      ensures firstToSecond.entries == Assign(old(firstToSecond.entries), key, value)
      ensures secondToFirst.entries == old(secondToFirst.entries)
    {
      firstToSecond.Set(key, value);
    }
  }

  /** The collection initializer: `new BiOrderedDictionary { {a, b}, ... }` calls Add for each
      pair in order; it succeeds exactly when names and codes are both distinct, and then
      holds the pairs in order, with the reverse dictionary inverse to it. */
  method FromEntries<K(==), V(==)>(entries: seq<(K, V)>) returns (r: Result<()>, d: BiOrderedDictionary<K, V>)
    ensures fresh(d) && fresh(d.firstToSecond) && fresh(d.secondToFirst) && d.Valid()
    ensures r.Ok? <==> DistinctKeys(entries) && DistinctValues(entries)
    ensures r.Ok? ==> d.firstToSecond.entries == entries && d.Inverse()
  {
    d := new BiOrderedDictionary();
    for i := 0 to |entries|
      invariant fresh(d.firstToSecond) && fresh(d.secondToFirst) && d.Valid() && d.Inverse()
      invariant d.firstToSecond.entries == entries[..i]
      invariant DistinctKeys(entries[..i]) && DistinctValues(entries[..i])
    {
      KeysOfSwap(entries[..i]);
      r := d.Add(entries[i].0, entries[i].1);
      if r.Throws? {
        RepeatedEntry(entries, i);
        return;
      }
      FreshEntry(entries, i);
    }
    assert entries[..|entries|] == entries;
    r := Ok(());
  }

  /** An entry whose key and value are both new keeps the prefix through it distinct. */
  lemma FreshEntry<K, V>(entries: seq<(K, V)>, i: nat)
    requires i < |entries|
    requires DistinctKeys(entries[..i]) && DistinctValues(entries[..i])
    requires entries[i].0 !in KeysOf(entries[..i]) && entries[i].1 !in ValuesOf(entries[..i])
    ensures DistinctKeys(entries[..i + 1]) && DistinctValues(entries[..i + 1])
  {
    var p := entries[..i + 1];
    forall j | 0 <= j < i ensures p[j].0 != p[i].0 && p[j].1 != p[i].1 {
      assert KeysOf(entries[..i])[j] == p[j].0 && ValuesOf(entries[..i])[j] == p[j].1;
    }
  }

  /** An entry whose key or value already occurs earlier breaks distinctness. */
  lemma RepeatedEntry<K, V>(entries: seq<(K, V)>, i: nat)
    requires i < |entries|
    requires entries[i].0 in KeysOf(entries[..i]) || entries[i].1 in ValuesOf(entries[..i])
    ensures !(DistinctKeys(entries) && DistinctValues(entries))
  {
    if entries[i].0 in KeysOf(entries[..i]) {
      var j :| 0 <= j < i && KeysOf(entries[..i])[j] == entries[i].0;
      assert entries[j].0 == entries[i].0;
    } else {
      var j :| 0 <= j < i && ValuesOf(entries[..i])[j] == entries[i].1;
      assert entries[j].1 == entries[i].1;
    }
  }

  // ---------------------------------------------------------------------------------------
  // The static tables

  /** CoversToCodes: display name and GameTDB art code of each cover preference. */
  const CoverEntries: seq<(string, string)> := [
    ("Regular Cover (Small)", "cover"),
    ("3D Cover (Small)", "cover3D"),
    ("Disc Label", "disc"),
    ("HQ Boxart", "coverfullHQ"),
    ("HQ Boxart, cropped to cover only", "cropped_coverfullHQ"),
    ("Full Boxart", "coverfull")
  ]

  /** LanguagesToCodes: display name and language code of each language preference. */
  const LanguageEntries: seq<(string, string)> := [
    ("English", "EN"),
    ("German", "DE"),
    ("French", "FR"),
    ("Spanish", "ES"),
    ("Italian", "IT"),
    ("Dutch", "NL")
  ]

  const DefaultLanguagePreference: string := "EN"
  const DefaultCoverDownloadPreference: string := "cropped_coverfullHQ"

  /** Both tables have distinct names and distinct codes, so building them never throws. */
  lemma TablesAreDistinct()
    ensures DistinctKeys(CoverEntries) && DistinctValues(CoverEntries)
    ensures DistinctKeys(LanguageEntries) && DistinctValues(LanguageEntries)
  {
    CoverEntriesAreDistinct();
    LanguageEntriesAreDistinct();
  }

  /** The cover names differ in length, and so do the cover codes. */
  lemma CoverEntriesAreDistinct()
    ensures DistinctKeys(CoverEntries) && DistinctValues(CoverEntries)
  {
    assert forall i, j :: 0 <= i < j < |CoverEntries| ==> |CoverEntries[i].0| != |CoverEntries[j].0|;
    assert forall i, j :: 0 <= i < j < |CoverEntries| ==> |CoverEntries[i].1| != |CoverEntries[j].1|;
  }

  /** The language names differ in their first letter, the language codes in their second. */
  lemma LanguageEntriesAreDistinct()
    ensures DistinctKeys(LanguageEntries) && DistinctValues(LanguageEntries)
  {
    assert forall i, j :: 0 <= i < j < |LanguageEntries| ==> LanguageEntries[i].0[0] != LanguageEntries[j].0[0];
    assert forall i, j :: 0 <= i < j < |LanguageEntries| ==> LanguageEntries[i].1[1] != LanguageEntries[j].1[1];
  }

  /** The default preferences are codes of their tables. */
  lemma DefaultsAreTableCodes()
    ensures DefaultLanguagePreference in ValuesOf(LanguageEntries)
    ensures DefaultCoverDownloadPreference in ValuesOf(CoverEntries)
  {
    assert ValuesOf(LanguageEntries)[0] == DefaultLanguagePreference;
    assert ValuesOf(CoverEntries)[4] == DefaultCoverDownloadPreference;
  }

  /** Looking a table name up and then its code in the reverse table gives the name back. */
  lemma TableNameRoundTrip(entries: seq<(string, string)>, name: string)
    requires entries == CoverEntries || entries == LanguageEntries
    requires name in KeysOf(entries)
    ensures Lookup(entries, name).Some?
    ensures Lookup(Swap(entries), Lookup(entries, name).value) == Some(name)
  {
    TablesAreDistinct();
    LookupSwapRoundTrip(entries, name);
  }

  /** The indexer setter changes only the forward table, so the reverse lookup no longer
      undoes the forward one: after `LanguagesToCodes["English"] = "DE"`, the name of the
      code of "English" reads as "German". */
  lemma IndexerSetBreaksRoundTrip()
    ensures Lookup(Assign(LanguageEntries, "English", "DE"), "English") == Some("DE")
    ensures Lookup(Swap(LanguageEntries), "DE") == Some("German")
  {
    AssignSpec(LanguageEntries, "English", "DE");
    TablesAreDistinct();
    KeysOfSwap(LanguageEntries);
    LookupOfEntry(Swap(LanguageEntries), 1);
  }

  /** The GameTDB art directories. */
  const ArtDirectories: seq<string> := ["cover", "cover3D", "disc", "coverfullHQ", "coverfull"]

  /** With the corrected default format, every cover code downloads from an art directory. */
  lemma CoverCodesNameArtDirectories()
    ensures forall i :: 0 <= i < |CoverEntries| ==> Covers.DefaultFormat(CoverEntries[i].1) in ArtDirectories
  {
    assert Covers.DefaultFormat("cropped_coverfullHQ") == "coverfullHQ";
    assert Covers.DefaultFormat("coverfullHQ") == "coverfullHQ" by {
      assert "coverfullHQ"[..8][1] != Covers.CroppedPrefix[1];
    }
    assert Covers.DefaultFormat("coverfull") == "coverfull" by {
      assert "coverfull"[..8][1] != Covers.CroppedPrefix[1];
    }
    forall i | 0 <= i < |CoverEntries| ensures Covers.DefaultFormat(CoverEntries[i].1) in ArtDirectories {
      assert i in {0, 1, 2, 3, 4, 5};
    }
  }

  // ---------------------------------------------------------------------------------------
  // DolphinMetadataSettings

  /** OnPropertySet's test: assign and notify unless both values are non-null and equal. */
  predicate Differs(oldValue: Option<string>, newValue: Option<string>)
  {
    oldValue.None? || newValue.None? || newValue != oldValue
  }

  /** The properties read back from a saved settings file. */
  datatype SavedSettings = SavedSettings(
    languagePreference: Option<string>,
    coverDownloadPreference: Option<string>,
    pathToDolphinUserFolder: Option<string>)

  class DolphinMetadataSettings {
    var languagePreference: Option<string>
    var coverDownloadPreference: Option<string>
    var pathToDolphinUserFolder: Option<string>
    /** The PropertyChanged events raised so far, by property name. */
    var notifications: seq<string>
    /** CoversToCodes and LanguagesToCodes. */
    const coversToCodes: BiOrderedDictionary<string, string>
    const languagesToCodes: BiOrderedDictionary<string, string>

    ghost predicate Valid()
      reads this, coversToCodes, coversToCodes.firstToSecond, coversToCodes.secondToFirst
      reads languagesToCodes, languagesToCodes.firstToSecond, languagesToCodes.secondToFirst
    {
      coversToCodes.Valid() && coversToCodes.Inverse() && coversToCodes.firstToSecond.entries == CoverEntries &&
      languagesToCodes.Valid() && languagesToCodes.Inverse() && languagesToCodes.firstToSecond.entries == LanguageEntries
    }

    /** The deserialization constructor: the defaults, and both tables built. */
    constructor ()
      ensures Valid()
      ensures languagePreference == Some(DefaultLanguagePreference)
      ensures coverDownloadPreference == Some(DefaultCoverDownloadPreference)
      ensures pathToDolphinUserFolder == Some("")
      ensures notifications == []
    {
      TablesAreDistinct();
      var coversBuilt, covers := FromEntries(CoverEntries);
      var languagesBuilt, languages := FromEntries(LanguageEntries);
      coversToCodes := covers;
      languagesToCodes := languages;
      languagePreference := Some(DefaultLanguagePreference);
      coverDownloadPreference := Some(DefaultCoverDownloadPreference);
      pathToDolphinUserFolder := Some("");
      notifications := [];
    }

    /** The plugin constructor: the defaults, then the saved values through the setters. */
    constructor FromSaved(saved: Option<SavedSettings>)
      ensures Valid()
      ensures saved.None? ==>
        languagePreference == Some(DefaultLanguagePreference) &&
        coverDownloadPreference == Some(DefaultCoverDownloadPreference) &&
        pathToDolphinUserFolder == Some("") && notifications == []
      ensures saved.Some? ==>
        languagePreference == saved.value.languagePreference &&
        coverDownloadPreference == saved.value.coverDownloadPreference &&
        pathToDolphinUserFolder == saved.value.pathToDolphinUserFolder
    {
      TablesAreDistinct();
      var coversBuilt, covers := FromEntries(CoverEntries);
      var languagesBuilt, languages := FromEntries(LanguageEntries);
      coversToCodes := covers;
      languagesToCodes := languages;
      languagePreference := Some(DefaultLanguagePreference);
      coverDownloadPreference := Some(DefaultCoverDownloadPreference);
      pathToDolphinUserFolder := Some("");
      notifications := [];
      new;
      if saved.None? {
        return;
      }
      SetLanguagePreference(saved.value.languagePreference);
      SetCoverDownloadPreference(saved.value.coverDownloadPreference);
      SetPathToDolphinUserFolder(saved.value.pathToDolphinUserFolder);
    }

    /** OnPropertySet with `params string[] additionalProperties`: the value to store through
        the `ref`, which is always the new one, and a PropertyChanged per listed name, in
        order, exactly when the values differ. */
    method OnPropertySet(oldValue: Option<string>, newValue: Option<string>, additionalProperties: seq<string>)
      returns (stored: Option<string>)
      modifies this`notifications
      ensures stored == newValue
      ensures notifications == old(notifications) + (if Differs(oldValue, newValue) then additionalProperties else [])
    {
      stored := oldValue;
      if oldValue.None? || newValue.None? || newValue != oldValue {
        stored := newValue;
        for i := 0 to |additionalProperties|
          invariant notifications == old(notifications) + additionalProperties[..i]
        {
          notifications := notifications + [additionalProperties[i]];
        }
        assert additionalProperties[..|additionalProperties|] == additionalProperties;
      }
    }

    /** The private LanguagePreference setter. */
    method SetLanguagePreference(value: Option<string>)
      modifies this`languagePreference, this`notifications
      ensures languagePreference == value
      ensures notifications == old(notifications) +
        (if Differs(old(languagePreference), value) then ["LanguagePreference", "LanguagePreferenceName"] else [])
    {
      languagePreference := OnPropertySet(languagePreference, value, ["LanguagePreference", "LanguagePreferenceName"]);
    }

    /** The private CoverDownloadPreference setter. */
    method SetCoverDownloadPreference(value: Option<string>)
      modifies this`coverDownloadPreference, this`notifications
      ensures coverDownloadPreference == value
      ensures notifications == old(notifications) +
        (if Differs(old(coverDownloadPreference), value) then ["CoverDownloadPreference", "CoverDownloadPreferenceName"] else [])
    {
      coverDownloadPreference := OnPropertySet(coverDownloadPreference, value, ["CoverDownloadPreference", "CoverDownloadPreferenceName"]);
    }

    /** The public PathToDolphinUserFolder setter. */
    method SetPathToDolphinUserFolder(value: Option<string>)
      modifies this`pathToDolphinUserFolder, this`notifications
      ensures pathToDolphinUserFolder == value
      ensures notifications == old(notifications) +
        (if Differs(old(pathToDolphinUserFolder), value) then ["PathToDolphinUserFolder", "PathStatus"] else [])
    {
      pathToDolphinUserFolder := OnPropertySet(pathToDolphinUserFolder, value, ["PathToDolphinUserFolder", "PathStatus"]);
    }

    /** LanguagePreferenceName's getter: the name of the current code, null for a code not in
        the table, and ArgumentNullException for a null code. */
    function LanguagePreferenceName(): (r: Result<Option<string>>)
      reads this, languagesToCodes, languagesToCodes.firstToSecond, languagesToCodes.secondToFirst
      ensures r.Throws? <==> languagePreference.None?
      ensures r.Throws? ==> r.error == ArgumentNullException
    {
      if languagePreference.None? then Throws(ArgumentNullException)
      else Ok(languagesToCodes.GetKey(languagePreference.value))
    }

    function CoverDownloadPreferenceName(): (r: Result<Option<string>>)
      reads this, coversToCodes, coversToCodes.firstToSecond, coversToCodes.secondToFirst
      ensures r.Throws? <==> coverDownloadPreference.None?
      ensures r.Throws? ==> r.error == ArgumentNullException
    {
      if coverDownloadPreference.None? then Throws(ArgumentNullException)
      else Ok(coversToCodes.GetKey(coverDownloadPreference.value))
    }

    /** LanguagePreferenceName's setter: stores the name's code (null for a name not in the
        table); a table name reads back as itself. */
    method SetLanguagePreferenceName(value: Option<string>) returns (r: Result<()>)
      requires Valid()
      modifies this`languagePreference, this`notifications
      ensures Valid()
      ensures value.None? ==>
        r == Throws(ArgumentNullException) && languagePreference == old(languagePreference) && notifications == old(notifications)
      ensures value.Some? ==> r.Ok? && languagePreference == Lookup(LanguageEntries, value.value)
      ensures value.Some? ==>
        var raised := Differs(old(languagePreference), Lookup(LanguageEntries, value.value));
        notifications == old(notifications) + (if raised then ["LanguagePreference", "LanguagePreferenceName"] else [])
      ensures value.Some? && value.value in KeysOf(LanguageEntries) ==> LanguagePreferenceName() == Ok(value)
    {
      if value.None? {
        return Throws(ArgumentNullException);
      }
      var code := languagesToCodes.GetValue(value.value);
      SetLanguagePreference(code);
      if value.value in KeysOf(LanguageEntries) {
        TableNameRoundTrip(LanguageEntries, value.value);
      }
      return Ok(());
    }

    method SetCoverDownloadPreferenceName(value: Option<string>) returns (r: Result<()>)
      requires Valid()
      modifies this`coverDownloadPreference, this`notifications
      ensures Valid()
      ensures value.None? ==>
        r == Throws(ArgumentNullException) && coverDownloadPreference == old(coverDownloadPreference) && notifications == old(notifications)
      ensures value.Some? ==> r.Ok? && coverDownloadPreference == Lookup(CoverEntries, value.value)
      ensures value.Some? ==>
        var raised := Differs(old(coverDownloadPreference), Lookup(CoverEntries, value.value));
        notifications == old(notifications) + (if raised then ["CoverDownloadPreference", "CoverDownloadPreferenceName"] else [])
      ensures value.Some? && value.value in KeysOf(CoverEntries) ==> CoverDownloadPreferenceName() == Ok(value)
    {
      if value.None? {
        return Throws(ArgumentNullException);
      }
      var code := coversToCodes.GetValue(value.value);
      SetCoverDownloadPreference(code);
      if value.value in KeysOf(CoverEntries) {
        TableNameRoundTrip(CoverEntries, value.value);
      }
      return Ok(());
    }

    /** VerifySettings accepts every state, with no errors. */
    method VerifySettings() returns (ok: bool, errors: seq<string>)
      ensures ok && errors == []
    {
      return true, [];
    }
  }
}
