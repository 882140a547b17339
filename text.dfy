/** The .NET string operations the core relies on, stated over `string` (a sequence of
    UTF-16 code units in .NET, of `char` here). */
module Text {
  import opened Wrappers

  // ---------------------------------------------------------------------------------------
  // String.Substring

  /** String.Substring(start): the suffix from `start`; throws when `start` is past the end. */
  function SubstringFrom(s: string, start: int): (r: Result<string>)
    ensures r.Ok? <==> 0 <= start <= |s|
    ensures r.Ok? ==> s == s[..start] + r.value
  {
    if 0 <= start <= |s| then Ok(s[start..]) else Throws(ArgumentOutOfRangeException)
  }

  /** String.Substring(start, length): throws unless the range lies inside `s`. */
  function Substring(s: string, start: int, length: int): (r: Result<string>)
    ensures r.Ok? <==> 0 <= start && 0 <= length && start + length <= |s|
    ensures r.Ok? ==> |r.value| == length && s[start..start + length] == r.value
  {
    if 0 <= start && 0 <= length && start + length <= |s| then Ok(s[start..start + length])
    else Throws(ArgumentOutOfRangeException)
  }

  predicate StartsWith(s: string, prefix: string)
  {
    |prefix| <= |s| && s[..|prefix|] == prefix
  }

  // ---------------------------------------------------------------------------------------
  // String.Trim

  /** Char.IsWhiteSpace: the Unicode White_Space characters of the Basic Multilingual Plane. */
  predicate IsWhiteSpace(c: char)
  {
    ('\U{0009}' <= c <= '\U{000D}') || c == '\U{0020}' || c == '\U{0085}' || c == '\U{00A0}' ||
    c == '\U{1680}' || ('\U{2000}' <= c <= '\U{200A}') || c == '\U{2028}' || c == '\U{2029}' ||
    c == '\U{202F}' || c == '\U{205F}' || c == '\U{3000}'
  }

  /** Drops leading white space. */
  function TrimStart(s: string): (r: string)
    ensures |r| <= |s| && r == s[|s| - |r|..]
    ensures r == [] || !IsWhiteSpace(r[0])
    ensures forall i :: 0 <= i < |s| - |r| ==> IsWhiteSpace(s[i])
  {
    if |s| > 0 && IsWhiteSpace(s[0]) then TrimStart(s[1..]) else s
  }

  /** Drops trailing white space. */
  function TrimEnd(s: string): (r: string)
    ensures |r| <= |s| && r == s[..|r|]
    ensures r == [] || !IsWhiteSpace(r[|r| - 1])
    ensures forall i :: |r| <= i < |s| ==> IsWhiteSpace(s[i])
  {
    if |s| > 0 && IsWhiteSpace(s[|s| - 1]) then TrimEnd(s[..|s| - 1]) else s
  }

  /** String.Trim: removes leading and trailing white space and nothing else. */
  function Trim(s: string): (r: string)
    ensures r == [] || (!IsWhiteSpace(r[0]) && !IsWhiteSpace(r[|r| - 1]))
  {
    TrimEnd(TrimStart(s))
  }

  /** What Trim keeps is an infix of its input, and everything it drops is white space. */
  lemma TrimKeepsInfix(s: string)
    ensures var r, a := Trim(s), |s| - |TrimStart(s)|;
      a + |r| <= |s| && s[a..a + |r|] == r &&
      (forall i :: 0 <= i < a ==> IsWhiteSpace(s[i])) &&
      (forall i :: a + |r| <= i < |s| ==> IsWhiteSpace(s[i]))
  {
    var t := TrimStart(s);
    var r := TrimEnd(t);
    var a := |s| - |t|;
    assert t == s[a..] && r == t[..|r|];
    assert s[a..a + |r|] == r;
    TrimEndOfSuffix(s, a);
  }

  /** Trimming the end of a suffix of `s` drops only white space of `s`. */
  lemma TrimEndOfSuffix(s: string, a: nat)
    requires a <= |s|
    ensures forall i :: a + |TrimEnd(s[a..])| <= i < |s| ==> IsWhiteSpace(s[i])
  {
    var t := s[a..];
    forall i | a + |TrimEnd(t)| <= i < |s| ensures IsWhiteSpace(s[i]) {
      assert s[i] == t[i - a];
    }
  }

  /** Trimming twice is trimming once. */
  lemma TrimIdempotent(s: string)
    ensures Trim(Trim(s)) == Trim(s)
  {
    var r := Trim(s);
    assert TrimStart(r) == r;
  }

  // ---------------------------------------------------------------------------------------
  // String.Split(char) and String.Join

  /** String.Split(sep): the pieces between separators; "" splits into [""] and a trailing
      separator yields a trailing empty piece. */
  function Split(s: string, sep: char): (r: seq<string>)
    decreases |s|
    ensures |r| >= 1
    ensures forall i :: 0 <= i < |r| ==> sep !in r[i]
  {
    if |s| == 0 then [""]
    else
      var rest := Split(s[1..], sep);
      if s[0] == sep then [""] + rest else [[s[0]] + rest[0]] + rest[1..]
  }

  /** String.Join(sep, parts). */
  function Join(parts: seq<string>, sep: char): string
    requires |parts| >= 1
    decreases |parts|
  {
    if |parts| == 1 then parts[0] else parts[0] + [sep] + Join(parts[1..], sep)
  }

  /** Joining the pieces back with the separator gives the original string. */
  lemma {:induction false} JoinSplit(s: string, sep: char)
    ensures Join(Split(s, sep), sep) == s
  {
    if |s| > 0 {
      JoinSplit(s[1..], sep);
      var rest := Split(s[1..], sep);
      if s[0] != sep {
        var r := Split(s, sep);
        if |rest| == 1 {
          assert r == [[s[0]] + rest[0]];
        } else {
          assert r[1..] == rest[1..];
          assert Join(r, sep) == [s[0]] + rest[0] + [sep] + Join(rest[1..], sep);
        }
      }
    }
  }

  /** Splitting a join of separator-free pieces gives the pieces back. */
  lemma {:induction false} SplitJoin(parts: seq<string>, sep: char)
    requires |parts| >= 1
    requires forall i :: 0 <= i < |parts| ==> sep !in parts[i]
    ensures Split(Join(parts, sep), sep) == parts
  {
    if |parts| == 1 {
      SplitWithoutSeparator(parts[0], sep);
    } else {
      SplitJoin(parts[1..], sep);
      SplitPrefix(parts[0], Join(parts[1..], sep), sep);
      assert [parts[0]] + parts[1..] == parts;
    }
  }

  lemma {:induction false} SplitWithoutSeparator(s: string, sep: char)
    requires sep !in s
    ensures Split(s, sep) == [s]
  {
    if |s| > 0 {
      SplitWithoutSeparator(s[1..], sep);
      assert [s[0]] + s[1..] == s;
    }
  }

  lemma {:induction false} SplitPrefix(a: string, b: string, sep: char)
    requires sep !in a
    ensures Split(a + [sep] + b, sep) == [a] + Split(b, sep)
  {
    if |a| == 0 {
      assert a + [sep] + b == [sep] + b;
      assert ([sep] + b)[1..] == b;
    } else {
      SplitPrefix(a[1..], b, sep);
      assert (a + [sep] + b)[1..] == a[1..] + [sep] + b;
      assert [a[0]] + a[1..] == a;
    }
  }

  // ---------------------------------------------------------------------------------------
  // String.ToLowerInvariant and Path.GetExtension

  /** String.ToLowerInvariant on the ASCII letters; other characters are kept. */
  function ToLowerInvariant(s: string): (r: string)
    ensures |r| == |s|
    ensures forall i :: 0 <= i < |s| ==>
      r[i] == if 'A' <= s[i] <= 'Z' then (s[i] as int + 32) as char else s[i]
  {
    seq(|s|, i requires 0 <= i < |s| => if 'A' <= s[i] <= 'Z' then (s[i] as int + 32) as char else s[i])
  }

  /** The directory and volume separators that end Path.GetExtension's backward scan. */
  predicate IsPathSeparator(c: char)
  {
    c == '\\' || c == '/' || c == ':'
  }

  /** Index `j` of `path` holds the '.' that starts an extension: it is not the last
      character, and after it the last path component has no '.' and ends. */
  predicate ExtensionStart(path: string, j: int)
  {
    0 <= j < |path| - 1 && path[j] == '.' &&
    forall k :: j < k < |path| ==> path[k] != '.' && !IsPathSeparator(path[k])
  }

  /** Path.GetExtension: scanning back from the end, the suffix that starts at the last '.'
      of the last path component, including the '.', or "" when that component has no '.'
      or ends with it. */
  function GetExtension(path: string): (r: string)
    ensures r == "" || (|r| >= 2 && |r| <= |path| && r[0] == '.' && r == path[|path| - |r|..])
    ensures r != "" ==> forall i :: 1 <= i < |r| ==> r[i] != '.' && !IsPathSeparator(r[i])
    ensures r != "" ==> ExtensionStart(path, |path| - |r|)
    ensures forall j :: ExtensionStart(path, j) ==> r == path[j..]
  {
    ExtensionBefore(path, |path|)
  }

  function ExtensionBefore(path: string, i: nat): (r: string)
    requires i <= |path|
    requires forall k :: i <= k < |path| ==> path[k] != '.' && !IsPathSeparator(path[k])
    decreases i
    ensures r == "" || (|r| >= 2 && |r| <= |path| && r[0] == '.' && r == path[|path| - |r|..])
    ensures r != "" ==> forall k :: 1 <= k < |r| ==> r[k] != '.' && !IsPathSeparator(r[k])
    ensures r != "" ==> ExtensionStart(path, |path| - |r|)
    ensures forall j :: j < i && ExtensionStart(path, j) ==> r == path[j..]
  {
    if i == 0 then ""
    else if path[i - 1] == '.' then (if i != |path| then path[i - 1..] else "")
    else if IsPathSeparator(path[i - 1]) then ""
    else ExtensionBefore(path, i - 1)
  }

  /** A file name's extension is what follows its last '.', whatever directory precedes it. */
  lemma ExtensionOfFileName(prefix: string, extension: string)
    requires |extension| >= 2 && extension[0] == '.'
    requires forall i :: 1 <= i < |extension| ==> extension[i] != '.' && !IsPathSeparator(extension[i])
    ensures GetExtension(prefix + extension) == extension
  {
    var path := prefix + extension;
    assert forall k :: |prefix| < k < |path| ==> path[k] == extension[k - |prefix|];
    assert ExtensionStart(path, |prefix|);
    assert path[|prefix|..] == extension;
  }

  /** A file name without a '.' has no extension, even when a directory name has one. */
  lemma NoExtensionWithoutDot(directory: string, name: string)
    requires |directory| >= 1 && IsPathSeparator(directory[|directory| - 1])
    requires forall i :: 0 <= i < |name| ==> name[i] != '.' && !IsPathSeparator(name[i])
    ensures GetExtension(directory + name) == ""
  {
    var path := directory + name;
    assert IsPathSeparator(path[|directory| - 1]);
    assert forall k :: |directory| <= k < |path| ==> path[k] == name[k - |directory|];
  }

  lemma GetExtensionExamples()
    ensures GetExtension("C:\\Games\\Zelda.RVZ") == ".RVZ"
    ensures GetExtension("D:\\Wii.isos\\Metroid.iso") == ".iso"
    ensures GetExtension("C:\\Games.rvz\\Zelda") == ""
  {
    ExtensionOfFileName("C:\\Games\\Zelda", ".RVZ");
    assert "C:\\Games\\Zelda" + ".RVZ" == "C:\\Games\\Zelda.RVZ";
    ExtensionOfFileName("D:\\Wii.isos\\Metroid", ".iso");
    assert "D:\\Wii.isos\\Metroid" + ".iso" == "D:\\Wii.isos\\Metroid.iso";
    NoExtensionWithoutDot("C:\\Games.rvz\\", "Zelda");
    assert "C:\\Games.rvz\\" + "Zelda" == "C:\\Games.rvz\\Zelda";
  }

  // ---------------------------------------------------------------------------------------
  // Int32.TryParse and UInt64.TryParse under NumberStyles.Integer

  /** The white space NumberStyles.AllowLeadingWhite and AllowTrailingWhite accept. */
  predicate IsNumberWhite(c: char)
  {
    c == ' ' || '\t' <= c <= '\r'
  }

  predicate IsDigit(c: char)
  {
    '0' <= c <= '9'
  }

  predicate AllDigits(s: string)
  {
    forall i :: 0 <= i < |s| ==> IsDigit(s[i])
  }

  /** The natural number a string of decimal digits denotes. */
  function DigitsValue(s: string): (r: nat)
    requires AllDigits(s)
    decreases |s|
  {
    if |s| == 0 then 0 else 10 * DigitsValue(s[..|s| - 1]) + (s[|s| - 1] as int - '0' as int)
  }

  function StripNumberWhite(s: string): (r: string)
    decreases |s|
    ensures |r| <= |s|
  {
    if |s| > 0 && IsNumberWhite(s[0]) then StripNumberWhite(s[1..])
    else if |s| > 0 && IsNumberWhite(s[|s| - 1]) then StripNumberWhite(s[..|s| - 1])
    else s
  }

  /** The integer an optionally signed, white-space padded run of decimal digits denotes,
      before any range check; None for anything else (the empty string included). */
  function ParseInteger(s: string): (r: Option<int>)
    ensures s == "" ==> r == None
  {
    var t := StripNumberWhite(s);
    if |t| >= 2 && (t[0] == '-' || t[0] == '+') && AllDigits(t[1..]) then
      var magnitude: int := DigitsValue(t[1..]);
      Some(if t[0] == '-' then -magnitude else magnitude)
    else if |t| >= 1 && AllDigits(t) then Some(DigitsValue(t))
    else None
  }

  /** Int32.TryParse: None when the text is not an integer or overflows 32 bits. */
  function TryParseInt32(s: string): (r: Option<int>)
    ensures r.Some? ==> -0x8000_0000 <= r.value < 0x8000_0000 && ParseInteger(s) == r
    ensures r.None? ==> ParseInteger(s).None? || !(-0x8000_0000 <= ParseInteger(s).value < 0x8000_0000)
  {
    match ParseInteger(s)
    case Some(v) => if -0x8000_0000 <= v < 0x8000_0000 then Some(v) else None
    case None => None
  }

  /** UInt64.TryParse: None when the text is not an integer or lies outside 0 .. 2^64-1. */
  function TryParseUInt64(s: string): (r: Option<int>)
    ensures r.Some? ==> 0 <= r.value < 0x1_0000_0000_0000_0000 && ParseInteger(s) == r
    ensures r.None? ==> ParseInteger(s).None? || !(0 <= ParseInteger(s).value < 0x1_0000_0000_0000_0000)
  {
    match ParseInteger(s)
    case Some(v) => if 0 <= v < 0x1_0000_0000_0000_0000 then Some(v) else None
    case None => None
  }

  /** Int32.ToString() in the invariant culture: the decimal digits of `n`. */
  function NatToString(n: nat): (r: string)
    decreases n
    ensures |r| >= 1 && AllDigits(r)
  {
    if n < 10 then [('0' as int + n) as char] else NatToString(n / 10) + [('0' as int + n % 10) as char]
  }

  function IntToString(n: int): string
  {
    if n < 0 then "-" + NatToString(-n) else NatToString(n)
  }

  lemma {:induction false} DigitsOfNatToString(n: nat)
    ensures DigitsValue(NatToString(n)) == n
  {
    var r := NatToString(n);
    if n >= 10 {
      DigitsOfNatToString(n / 10);
      assert r[..|r| - 1] == NatToString(n / 10);
    }
  }

  /** The decimal text of an integer has no white space to strip. */
  lemma StripNumberWhiteOfToString(n: int)
    ensures StripNumberWhite(IntToString(n)) == IntToString(n)
  {
    var s := IntToString(n);
    var d := NatToString(if n < 0 then -n else n);
    assert IsDigit(d[0]) && IsDigit(d[|d| - 1]);
    assert !IsNumberWhite(s[0]) && !IsNumberWhite(s[|s| - 1]);
  }

  /** What Int32.ToString() prints denotes the number. */
  lemma ParseIntegerOfToString(n: int)
    ensures ParseInteger(IntToString(n)) == Some(n)
  {
    var s := IntToString(n);
    StripNumberWhiteOfToString(n);
    if n < 0 {
      DigitsOfNatToString(-n);
      assert s[1..] == NatToString(-n);
    } else {
      DigitsOfNatToString(n);
      assert s[0] != '-' && s[0] != '+';
    }
  }

  /** Parsing what Int32.ToString() prints gives the number back. */
  lemma TryParseInt32OfToString(n: int)
    requires -0x8000_0000 <= n < 0x8000_0000
    ensures TryParseInt32(IntToString(n)) == Some(n)
  {
    ParseIntegerOfToString(n);
  }
}
