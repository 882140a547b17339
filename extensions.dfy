/** The byte-array search helpers of Extensions.cs: `Locate` finds the first occurrence of a
    candidate byte sequence inside a buffer. */
module Extensions {
  import opened Bytes

  /** `candidate` occurs in `s` starting at `position` and fits inside `s`. */
  predicate MatchesAt(s: seq<byte>, position: int, candidate: seq<byte>)
  {
    0 <= position && |candidate| <= |s| - position &&
    s[position..position + |candidate|] == candidate
  }

  /** The guard of `Locate`: a null or empty buffer or candidate, or a candidate longer than
      the buffer. Apart from the empty candidate, which matches everywhere, nothing it rejects
      could have been found; the empty-buffer test adds nothing to the length test. */
  predicate IsEmptyLocate(buffer: array?<byte>, candidate: array?<byte>): (r: bool)
    reads buffer, candidate
    ensures r <==> buffer == null || candidate == null || candidate.Length == 0 ||
                   buffer.Length < candidate.Length
    ensures r && buffer != null && candidate != null && candidate.Length > 0 ==>
      forall j :: 0 <= j < buffer.Length ==> !MatchesAt(buffer[..], j, candidate[..])
  {
    buffer == null || candidate == null ||
    buffer.Length == 0 || candidate.Length == 0 || candidate.Length > buffer.Length
  }

  /** The least position `>= from` where `candidate` matches, or -1 when there is none. */
  function FirstMatchFrom(s: seq<byte>, candidate: seq<byte>, from: nat): (r: int)
    decreases |s| - from
    ensures r == -1 || (from <= r < |s| && MatchesAt(s, r, candidate))
    ensures r != -1 ==> forall j :: from <= j < r ==> !MatchesAt(s, j, candidate)
    ensures r == -1 ==> forall j :: from <= j < |s| ==> !MatchesAt(s, j, candidate)
  {
    if from >= |s| then -1
    else if MatchesAt(s, from, candidate) then from
    else FirstMatchFrom(s, candidate, from + 1)
  }

  /** What `Locate` returns for non-null arrays with contents `s` and `candidate`. */
  function Located(s: seq<byte>, candidate: seq<byte>): int
  {
    if |s| == 0 || |candidate| == 0 || |candidate| > |s| then -1 else FirstMatchFrom(s, candidate, 0)
  }

  /** `Located` is the least matching index, and -1 exactly when the inputs are degenerate
      or no position matches. */
  lemma LocatedIsFirstOccurrence(s: seq<byte>, candidate: seq<byte>)
    ensures var r := Located(s, candidate);
      (r >= 0 ==> r + |candidate| <= |s| && s[r..r + |candidate|] == candidate &&
                  forall j :: 0 <= j < r ==> !MatchesAt(s, j, candidate))
    ensures Located(s, candidate) == -1 <==>
      (|s| == 0 || |candidate| == 0 || |candidate| > |s| ||
       forall j :: 0 <= j < |s| ==> !MatchesAt(s, j, candidate))
    ensures Located(s, candidate) >= -1
  {
  }

  /** IsMatch: compares `candidate` with `buffer` from `position`, refusing first a candidate
      that does not fit in the remaining suffix, so no read is out of bounds. */
  method IsMatch(buffer: array<byte>, position: int, candidate: array<byte>) returns (r: bool)
    requires 0 <= position
    ensures r <==> MatchesAt(buffer[..], position, candidate[..])
  {
    if candidate.Length > buffer.Length - position {
      return false;
    }
    for i := 0 to candidate.Length
      invariant buffer[position..position + i] == candidate[..i]
    {
      if buffer[position + i] != candidate[i] {
        assert buffer[..][position..position + candidate.Length][i] != candidate[..][i];
        return false;
      }
    }
    assert candidate[..candidate.Length] == candidate[..];
    return true;
  }

  /** Locate: the index of the first occurrence of `candidate` in `self`, or -1. */
  method Locate(self: array?<byte>, candidate: array?<byte>) returns (r: int)
    ensures IsEmptyLocate(self, candidate) ==> r == -1
    ensures self != null && candidate != null ==> r == Located(self[..], candidate[..])
    ensures self != null && candidate != null && r >= 0 ==>
      r + candidate.Length <= self.Length && self[r..r + candidate.Length] == candidate[..]
  {
    if IsEmptyLocate(self, candidate) {
      return -1;
    }
    for i := 0 to self.Length
      invariant forall j :: 0 <= j < i ==> !MatchesAt(self[..], j, candidate[..])
    {
      var m := IsMatch(self, i, candidate);
      if !m {
        continue;
      }
      return i;
    }
    return -1;
  }
}
