/** The `.rvz`/`.wad` path of DolphinMetadataProvider.LoadGameDataRvz: find the game's
    record in Dolphin's `gamelist.cache` by its path, skip the fixed-size fields after it,
    then scan for the ID6 stored as a length-prefixed string. */
module GamelistCache {
  import opened Wrappers
  import opened Bytes
  import opened Extensions

  // ---------------------------------------------------------------------------------------
  // ValidateId6

  /** An ID6 character: an upper-case ASCII letter or an ASCII digit. */
  predicate IsId6Byte(b: byte)
  {
    ('A' as int <= b as int <= 'Z' as int) || ('0' as int <= b as int <= '9' as int)
  }

  predicate ValidId6(candidate: seq<byte>)
  {
    forall i :: 0 <= i < |candidate| ==> IsId6Byte(candidate[i])
  }

  /** ValidateId6: true exactly when every byte is in A-Z or 0-9; the length is not checked
      here (the scan always passes six bytes). */
  method ValidateId6(candidateId6: seq<byte>) returns (r: bool)
    ensures r <==> ValidId6(candidateId6)
  {
    for i := 0 to |candidateId6|
      invariant forall j :: 0 <= j < i ==> IsId6Byte(candidateId6[j])
    {
      var b := candidateId6[i];
      if !(('A' as int <= b as int && b as int <= 'Z' as int) || ('0' as int <= b as int && b as int <= '9' as int)) {
        return false;
      }
    }
    return true;
  }

  /** The path as Dolphin stores it: `Replace('\\', '/')` on the full path, then UTF-8. In
      UTF-8 the byte 0x5C occurs only as the encoding of '\\' (bytes of multi-byte sequences
      are at least 0x80), so the replacement is made on the encoded bytes. */
  function DolphinPath(utf8: seq<byte>): (r: seq<byte>)
    ensures |r| == |utf8|
    ensures forall i :: 0 <= i < |r| ==> r[i] != 0x5C
    ensures forall i :: 0 <= i < |r| && utf8[i] != 0x5C ==> r[i] == utf8[i]
  {
    seq(|utf8|, i requires 0 <= i < |utf8| => if utf8[i] == 0x5C then 0x2F else utf8[i])
  }

  /** A path already in Dolphin's form is left alone. */
  lemma DolphinPathIdempotent(utf8: seq<byte>)
    ensures DolphinPath(DolphinPath(utf8)) == DolphinPath(utf8)
  {
  }

  // ---------------------------------------------------------------------------------------
  // BinaryReader over a MemoryStream

  /** A successful read: the value and the stream position after it. */
  datatype Read<T> = Read(value: T, next: nat)

  /** Reading a fixed-width field at `pos`: the bytes, or EndOfStreamException when fewer
      than `width` bytes remain. */
  function ReadFixedAt(s: seq<byte>, pos: nat, width: nat): (r: Result<Read<seq<byte>>>)
    requires pos <= |s|
    ensures r.Ok? <==> pos + width <= |s|
    ensures r.Ok? ==> |r.value.value| == width && r.value.next == pos + width
    ensures r.Throws? ==> r.error == EndOfStreamException
  {
    if pos + width <= |s| then Ok(Read(s[pos..pos + width], pos + width)) else Throws(EndOfStreamException)
  }

  function ReadInt32At(s: seq<byte>, pos: nat): (r: Result<Read<int>>)
    requires pos <= |s|
    ensures r.Ok? <==> pos + 4 <= |s|
    ensures r.Ok? ==> r.value.next == pos + 4 && r.value.value == Int32Le(s[pos..pos + 4])
  {
    var f :- ReadFixedAt(s, pos, 4);
    Ok(Read(Int32Le(f.value), f.next))
  }

  function ReadInt64At(s: seq<byte>, pos: nat): (r: Result<Read<int>>)
    requires pos <= |s|
    ensures r.Ok? <==> pos + 8 <= |s|
    ensures r.Ok? ==> r.value.next == pos + 8
  {
    var f :- ReadFixedAt(s, pos, 8);
    Ok(Read(Int64Le(f.value), f.next))
  }

  /** BinaryReader.ReadBytes(count): a negative count throws; otherwise up to `count` bytes,
      fewer when the stream ends first. */
  function ReadBytesAt(s: seq<byte>, pos: nat, count: int): (r: Result<Read<seq<byte>>>)
    requires pos <= |s|
    ensures r.Ok? <==> count >= 0
    ensures r.Throws? ==> r.error == ArgumentOutOfRangeException
    ensures r.Ok? ==> r.value.next == (if pos + count <= |s| then pos + count else |s|)
    ensures r.Ok? ==> r.value.value == s[pos..r.value.next]
  {
    if count < 0 then Throws(ArgumentOutOfRangeException)
    else
      var n := if pos + count <= |s| then pos + count else |s|;
      Ok(Read(s[pos..n], n))
  }

  /** A BinaryReader positioned in a MemoryStream whose contents are `stream`. */
  class BinaryReader {
    const stream: seq<byte>
    var position: nat

    ghost predicate Valid()
      reads this
    {
      position <= |stream|
    }

    constructor (stream: seq<byte>)
      ensures Valid() && this.stream == stream && position == 0
    {
      this.stream := stream;
      position := 0;
    }

    /** ReadInt32; when the stream ends early the read consumes what is left and throws. */
    method ReadInt32() returns (r: Result<int>)
      requires Valid()
      modifies this
      ensures Valid()
      ensures match ReadInt32At(stream, old(position))
        case Ok(x) => r == Ok(x.value) && position == x.next
        case Throws(e) => r == Throws(e) && position == |stream|
    {
      if position + 4 <= |stream| {
        r := Ok(Int32Le(stream[position..position + 4]));
        position := position + 4;
      } else {
        r := Throws(EndOfStreamException);
        position := |stream|;
      }
    }

    method ReadInt64() returns (r: Result<int>)
      requires Valid()
      modifies this
      ensures Valid()
      ensures match ReadInt64At(stream, old(position))
        case Ok(x) => r == Ok(x.value) && position == x.next
        case Throws(e) => r == Throws(e) && position == |stream|
    {
      if position + 8 <= |stream| {
        r := Ok(Int64Le(stream[position..position + 8]));
        position := position + 8;
      } else {
        r := Throws(EndOfStreamException);
        position := |stream|;
      }
    }

    /** ReadBytes; a negative count throws before anything is read. */
    method ReadBytes(count: int) returns (r: Result<seq<byte>>)
      requires Valid()
      modifies this
      ensures Valid()
      ensures match ReadBytesAt(stream, old(position), count)
        case Ok(x) => r == Ok(x.value) && position == x.next
        case Throws(e) => r == Throws(e) && position == old(position)
    {
      if count < 0 {
        return Throws(ArgumentOutOfRangeException);
      }
      var n := if position + count <= |stream| then position + count else |stream|;
      r := Ok(stream[position..n]);
      position := n;
    }
  }

  // ---------------------------------------------------------------------------------------
  // The record scan

  /** What the `.rvz` path finds in the cache before any catalog lookup. */
  datatype CacheScan =
    | NoCache          // `_gamelist == null`: there is no cache file
    | PathNotFound     // the path bytes occur nowhere in the cache
    | PathMismatch     // the length-prefixed path field is not exactly the path
    | NoId6            // no length-prefixed, valid ID6 after the fixed fields
    | FoundId6(id6: seq<byte>)

  /** The four bytes of a little-endian int32 6: the length prefix of the ID6 string. */
  const Id6LengthPrefix: seq<byte> := [6, 0, 0, 0]

  /** At absolute index `k` of the cache sits a length prefix 6 followed by a valid ID6. */
  predicate IsId6Field(g: seq<byte>, k: nat)
  {
    k + 10 <= |g| && g[k] == 6 && g[k + 1] == 0 && g[k + 2] == 0 && g[k + 3] == 0 &&
    ValidId6(g[k + 4..k + 10])
  }

  /** The first start `k >= from` with `k < |g| - 10` (the scan's bound) of an ID6 field. */
  function FirstId6Field(g: seq<byte>, from: nat): (r: Option<nat>)
    decreases |g| - from
    ensures r.Some? ==> from <= r.value && r.value + 10 < |g| && IsId6Field(g, r.value)
    ensures r.Some? ==> forall k :: from <= k < r.value ==> !IsId6Field(g, k)
    ensures r.None? ==> forall k :: from <= k && k + 10 < |g| ==> !IsId6Field(g, k)
  {
    if from + 10 >= |g| then None
    else if IsId6Field(g, from) then Some(from)
    else FirstId6Field(g, from + 1)
  }

  /** Position, relative to the record start, where the ID6 scan begins: after the path
      field, the file-name field and 28 fixed bytes; or the exception a read raises. */
  function SkipHeader(s: seq<byte>, path: seq<byte>): (r: Result<Option<nat>>)
    ensures r.Ok? && r.value.Some? ==> r.value.value <= |s|
    ensures r.Ok? && r.value.Some? ==>
      4 + |path| <= |s| && Int32Le(s[..4]) == |path| && s[4..4 + |path|] == path
  {
    var pathLength :- ReadInt32At(s, 0 as nat);
    var pathRead :- ReadBytesAt(s, pathLength.next, pathLength.value);
    if pathRead.value != path then Ok(None)
    else
      var nameLength :- ReadInt32At(s, pathRead.next);
      var name :- ReadBytesAt(s, nameLength.next, nameLength.value);
      var fileSize :- ReadInt64At(s, name.next);
      var volumeSize :- ReadInt64At(s, fileSize.next);
      var volumeSizeIsAccurate :- ReadInt32At(s, volumeSize.next);
      var isDatelDisc :- ReadInt32At(s, volumeSizeIsAccurate.next);
      var isNKit :- ReadInt32At(s, isDatelDisc.next);
      Ok(Some(isNKit.next))
  }

  /** The bytes the stored path field yields: up to its length, fewer at the end. */
  function StoredPath(s: seq<byte>): seq<byte>
    requires 4 <= |s|
  {
    var n := Int32Le(s[..4]);
    if n < 0 then [] else s[4..if 4 + n <= |s| then 4 + n else |s|]
  }

  /** The header is rejected as "not this path" exactly when both path reads succeed and
      the stored path differs from `path`. */
  lemma SkipHeaderRejectsOtherPath(s: seq<byte>, path: seq<byte>)
    ensures SkipHeader(s, path) == Ok(None) <==>
      4 <= |s| && Int32Le(s[..4]) >= 0 && StoredPath(s) != path
  {
  }

  /** The whole cache step, from the cache contents `g` and the path bytes. */
  function Scan(g: seq<byte>, path: seq<byte>): (r: Result<CacheScan>)
    ensures r == Ok(PathNotFound) <==> Located(g, path) == -1
    ensures r.Ok? ==> !r.value.NoCache?
  {
    var location := Located(g, path);
    if location == -1 then Ok(PathNotFound)
    else if location < 4 then Throws(ArgumentOutOfRangeException)
    else
      ScanRecord(g, path, location - 4)
  }

  /** The record that starts at `origin` of the cache: the header reads, then the scan. */
  function ScanRecord(g: seq<byte>, path: seq<byte>, origin: nat): (r: Result<CacheScan>)
    requires origin <= |g|
    ensures r.Ok? ==> !r.value.NoCache? && !r.value.PathNotFound?
  {
    RecordAfter(g, origin, SkipHeader(g[origin..], path))
  }

  /** The outcome of a record once its header has been read: the read's exception, a path
      mismatch, or the scan from the end of the header. */
  function RecordAfter(g: seq<byte>, origin: nat, header: Result<Option<nat>>): (r: Result<CacheScan>)
    requires header.Ok? && header.value.Some? ==> origin + header.value.value <= |g|
    ensures r.Throws? <==> header.Throws?
    ensures r == Ok(PathMismatch) <==> header == Ok(None)
    ensures header.Ok? && header.value.Some? ==> r == Ok(Id6Scan(g, origin + header.value.value))
  {
    var start :- header;
    if start.None? then Ok(PathMismatch) else Ok(Id6Scan(g, origin + start.value))
  }

  /** The outcome of the forward scan from absolute index `from`. */
  function Id6Scan(g: seq<byte>, from: nat): (r: CacheScan)
    ensures r.NoId6? || r.FoundId6?
  {
    match FirstId6Field(g, from)
    case None => NoId6
    case Some(k) => FoundId6(g[k + 4..k + 10])
  }

  /** The scan reports no ID6 exactly when no index in range holds an ID6 field, and a
      found ID6 is the valid content of such a field. */
  lemma Id6ScanSpec(g: seq<byte>, from: nat)
    ensures var r := Id6Scan(g, from);
      (r.NoId6? <==> forall k :: from <= k && k + 10 < |g| ==> !IsId6Field(g, k)) &&
      (r.FoundId6? ==>
        |r.id6| == 6 && ValidId6(r.id6) &&
        exists k: nat :: from <= k && IsId6Field(g, k) && k + 10 < |g| && g[k + 4..k + 10] == r.id6)
  {
    var f := FirstId6Field(g, from);
    if f.Some? {
      assert IsId6Field(g, f.value);
    }
  }

  /** The reads of LoadGameDataRvz up to the ID6 scan, on a reader at the record start:
      the reader's position after the fixed fields, or None when the path field differs. */
  method ReadHeader(reader: BinaryReader, path: seq<byte>) returns (r: Result<Option<nat>>)
    requires reader.Valid() && reader.position == 0
    modifies reader
    ensures reader.Valid()
    ensures r == SkipHeader(reader.stream, path)
    ensures r.Ok? && r.value.Some? ==> reader.position == r.value.value
  {
    // m_file_path
    var gamePathLength :- reader.ReadInt32();
    var gamePathRead :- reader.ReadBytes(gamePathLength);
    if gamePathRead != path {
      return Ok(None);
    }
    // m_file_name
    var fileNameLength :- reader.ReadInt32();
    var fileName :- reader.ReadBytes(fileNameLength);
    // m_file_size, m_volume_size
    var fileSize :- reader.ReadInt64();
    var volumeSize :- reader.ReadInt64();
    // m_volume_size_is_accurate, m_is_datel_disc, m_is_nkit
    var volumeSizeIsAccurate :- reader.ReadInt32();
    var isDatelDisc :- reader.ReadInt32();
    var isNKit :- reader.ReadInt32();
    return Ok(Some(reader.position));
  }

  /** The forward scan of LoadGameDataRvz: stream positions `i` from `start` while
      `i < stream.Length - 10`, the stream beginning at `origin` of the cache. */
  method ScanForId6(gamelist: array<byte>, origin: nat, start: nat) returns (r: CacheScan)
    requires origin + start <= gamelist.Length
    ensures r == Id6Scan(gamelist[..], origin + start)
  {
    ghost var g := gamelist[..];
    var length := gamelist.Length - origin;
    var i := start;
    while i < length - 10
      invariant start <= i
      invariant FirstId6Field(g, origin + start) == FirstId6Field(g, origin + i)
    {
      var id6bytes := Id6FieldAt(gamelist, i + origin);
      if id6bytes.Some? {
        assert FirstId6Field(g, origin + i) == Some(origin + i);
        return FoundId6(id6bytes.value);
      }
      assert FirstId6Field(g, origin + i) == FirstId6Field(g, origin + i + 1);
      i := i + 1;
    }
    assert FirstId6Field(g, origin + i) == None;
    return NoId6;
  }

  /** One step of the scan: the length-6 test at `location1`, then ValidateId6 on the six
      bytes after it; the ID6 bytes when both pass. */
  method Id6FieldAt(gamelist: array<byte>, location1: nat) returns (id6bytes: Option<seq<byte>>)
    requires location1 + 10 <= gamelist.Length
    ensures id6bytes.Some? <==> IsId6Field(gamelist[..], location1)
    ensures id6bytes.Some? ==> id6bytes.value == gamelist[location1 + 4..location1 + 10]
  {
    if gamelist[location1 + 0] == 0x06 && gamelist[location1 + 1] == 0x00 &&
       gamelist[location1 + 2] == 0x00 && gamelist[location1 + 3] == 0x00 {
      var candidate := gamelist[location1 + 4..location1 + 10];
      assert candidate == gamelist[..][location1 + 4..location1 + 10];
      var valid := ValidateId6(candidate);
      if valid {
        return Some(candidate);
      }
    }
    return None;
  }

  /** The cache step of LoadGameDataRvz, as the code runs it: Locate, the BinaryReader reads
      over `MemoryStream(_gamelist, location - 4, ...)`, and the forward scan. */
  method ScanCache(gamelist: array?<byte>, path: array<byte>) returns (r: Result<CacheScan>)
    ensures gamelist == null ==> r == Ok(NoCache)
    ensures gamelist != null ==> r == Scan(gamelist[..], path[..])
  {
    if gamelist == null {
      return Ok(NoCache);
    }
    var location := Locate(gamelist, path);
    if location == -1 {
      return Ok(PathNotFound);
    }
    if location - 4 < 0 {
      return Throws(ArgumentOutOfRangeException);
    }
    r := ReadRecord(gamelist, path[..], location - 4);
  }

  /** LoadGameDataRvz from `new MemoryStream(_gamelist, origin, ...)` on. */
  method ReadRecord(gamelist: array<byte>, path: seq<byte>, origin: nat) returns (r: Result<CacheScan>)
    requires origin <= gamelist.Length
    ensures r == ScanRecord(gamelist[..], path, origin)
  {
    ghost var g := gamelist[..];
    var reader := new BinaryReader(gamelist[origin..]);
    assert reader.stream == g[origin..];
    var header := ReadHeader(reader, path);
    assert header == SkipHeader(g[origin..], path);
    var start :- header;
    if start.None? {
      return Ok(PathMismatch);
    }
    // The dictionaries that follow are not parsed: search for the ID6 instead.
    var found := ScanForId6(gamelist, origin, reader.position);
    return Ok(found);
  }

  // ---------------------------------------------------------------------------------------
  // What the scan promises

  /** The start of a GameFileCache record as Dolphin writes it: the path and the file name
      as length-prefixed byte strings, then 28 bytes of sizes and flags. */
  function RecordHeader(path: seq<byte>, name: seq<byte>, fixed: seq<byte>): (r: seq<byte>)
    requires |path| < TwoTo31 && |name| < TwoTo31 && |fixed| == 28
    ensures |r| == 4 + |path| + 4 + |name| + 28
  {
    EncodeInt32(|path|) + path + EncodeInt32(|name|) + name + fixed
  }

  /** The header reads recover the header's length from an encoded record. */
  lemma SkipHeaderOfEncodedRecord(path: seq<byte>, name: seq<byte>, fixed: seq<byte>, tail: seq<byte>)
    requires |path| < TwoTo31 && |name| < TwoTo31 && |fixed| == 28
    ensures SkipHeader(RecordHeader(path, name, fixed) + tail, path) == Ok(Some(|RecordHeader(path, name, fixed)|))
  {
    var s := RecordHeader(path, name, fixed) + tail;
    var p1 := 4 + |path|;
    var p2 := p1 + 4 + |name|;
    assert s[..p1] == EncodeInt32(|path|) + path;
    assert s[p1..p2] == EncodeInt32(|name|) + name;
    ReadLengthPrefixed(s, 0, path);
    ReadLengthPrefixed(s, p1, name);
    assert p2 + 28 <= |s|;
  }

  /** A length-prefixed field reads back as its length and then its bytes. */
  lemma ReadLengthPrefixed(s: seq<byte>, pos: nat, field: seq<byte>)
    requires |field| < TwoTo31 && pos + 4 + |field| <= |s|
    requires s[pos..pos + 4 + |field|] == EncodeInt32(|field|) + field
    ensures ReadInt32At(s, pos) == Ok(Read(|field|, pos + 4))
    ensures ReadBytesAt(s, pos + 4, |field|) == Ok(Read(field, pos + 4 + |field|))
  {
    var slice := s[pos..pos + 4 + |field|];
    assert s[pos..pos + 4] == slice[..4] == EncodeInt32(|field|);
    assert s[pos + 4..pos + 4 + |field|] == slice[4..] == field;
    Int32RoundTrip(|field|);
  }

  /** Round trip: a cache holding an encoded record for `path`, with the ID6 field directly
      after the header, scans to that ID6, provided the path's first occurrence in the
      cache is the record's own path field and at least one byte follows the ID6. */
  lemma ScanFindsEncodedRecord(g: seq<byte>, prefix: seq<byte>, path: seq<byte>, name: seq<byte>,
                               fixed: seq<byte>, id6: seq<byte>, rest: seq<byte>)
    requires |path| < TwoTo31 && |name| < TwoTo31 && |fixed| == 28
    requires |id6| == 6 && ValidId6(id6) && |rest| >= 1
    requires g == prefix + RecordHeader(path, name, fixed) + Id6LengthPrefix + id6 + rest
    requires Located(g, path) == |prefix| + 4
    ensures Scan(g, path) == Ok(FoundId6(id6))
  {
    ScanRecordOfEncodedRecord(g, prefix, path, name, fixed, id6, rest);
  }

  lemma ScanRecordOfEncodedRecord(g: seq<byte>, prefix: seq<byte>, path: seq<byte>, name: seq<byte>,
                                  fixed: seq<byte>, id6: seq<byte>, rest: seq<byte>)
    requires |path| < TwoTo31 && |name| < TwoTo31 && |fixed| == 28
    requires |id6| == 6 && ValidId6(id6) && |rest| >= 1
    requires g == prefix + RecordHeader(path, name, fixed) + Id6LengthPrefix + id6 + rest
    ensures ScanRecord(g, path, |prefix|) == Ok(FoundId6(id6))
  {
    var head := RecordHeader(path, name, fixed);
    var tail := Id6LengthPrefix + id6 + rest;
    var k := |prefix| + |head|;
    assert g == prefix + head + tail;
    assert g[|prefix|..] == head + tail;
    SkipHeaderOfEncodedRecord(path, name, fixed, tail);
    assert IsId6Field(g, k) && g[k + 4..k + 10] == id6 by {
      assert g[k..] == tail;
    }
    assert FirstId6Field(g, k) == Some(k);
  }

  /** A path found within four bytes of the start cannot have a length field before it:
      the MemoryStream constructor throws. */
  lemma ScanThrowsNearStart(g: seq<byte>, path: seq<byte>)
    requires 0 <= Located(g, path) < 4
    ensures Scan(g, path) == Throws(ArgumentOutOfRangeException)
  {
  }

  /** A found ID6 is six valid characters that follow a length prefix 6 inside the cache,
      with at least one byte after them, and no such field lies between the end of the
      record's fixed fields and it. */
  lemma ScanFindsFirstId6Field(g: seq<byte>, path: seq<byte>)
    requires Scan(g, path).Ok? && Scan(g, path).value.FoundId6?
    ensures var id6 := Scan(g, path).value.id6;
      |id6| == 6 && ValidId6(id6) &&
      exists origin: nat, start: nat, k: nat ::
        origin + 4 == Located(g, path) &&
        SkipHeader(g[origin..], path) == Ok(Some(start)) &&
        origin + start <= k && k + 10 < |g| && IsId6Field(g, k) && g[k + 4..k + 10] == id6 &&
        (forall j :: origin + start <= j < k ==> !IsId6Field(g, j))
  {
    var origin, start := ScanParts(g, path);
    var k := Id6ScanFound(g, origin + start);
  }

  /** A successful scan comes from the record four bytes before the located path. */
  lemma ScanParts(g: seq<byte>, path: seq<byte>) returns (origin: nat, start: nat)
    requires Scan(g, path).Ok? && Scan(g, path).value.FoundId6?
    ensures origin + 4 == Located(g, path)
    ensures SkipHeader(g[origin..], path) == Ok(Some(start))
    ensures Scan(g, path) == Ok(Id6Scan(g, origin + start))
  {
    var location := Located(g, path);
    assert location >= 4;
    origin := location - 4;
    var header := SkipHeader(g[origin..], path);
    assert Scan(g, path) == RecordAfter(g, origin, header);
    start := header.value.value;
  }

  /** A found ID6 is the content of the first ID6 field from `from` on. */
  lemma Id6ScanFound(g: seq<byte>, from: nat) returns (k: nat)
    requires Id6Scan(g, from).FoundId6?
    ensures from <= k && k + 10 < |g| && IsId6Field(g, k) && g[k + 4..k + 10] == Id6Scan(g, from).id6
    ensures forall j :: from <= j < k ==> !IsId6Field(g, j)
  {
    k := FirstId6Field(g, from).value;
  }
}
