/** The value-codec ID scanner and the grammar it accepts. */
module CodecIds {
  import opened Basics

  datatype IdError = Empty | EmptySegment | InvalidSegment

  const DOT: byte := 0x2e

  predicate IsLetter(b: byte) { 0x41 <= b <= 0x5a || 0x61 <= b <= 0x7a }

  predicate IsWord(b: byte) { IsLetter(b) || 0x30 <= b <= 0x39 || b == 0x5f }

  /** The two classes of characters, in the source's own terms. */
  lemma CharacterClasses(c: char)
    requires c as int < 256
    ensures IsLetter(c as int) <==> 'A' <= c <= 'Z' || 'a' <= c <= 'z'
    ensures IsWord(c as int) <==> 'A' <= c <= 'Z' || 'a' <= c <= 'z' || '0' <= c <= '9' || c == '_'
    ensures c as int == DOT <==> c == '.'
  {
  }

  // ---------------------------------------------------------------------------------------------------------
  // Grammar
  // ---------------------------------------------------------------------------------------------------------

  /** A letter, then letters, digits and underscores. */
  predicate IsSegment(s: seq<byte>) {
    |s| > 0 && IsLetter(s[0]) && forall k | 1 <= k < |s| :: IsWord(s[k])
  }

  /** Segments with a dot between any two. */
  function Join(segments: seq<seq<byte>>): seq<byte>
    requires segments != []
  {
    if |segments| == 1 then segments[0] else segments[0] + [DOT] + Join(segments[1..])
  }

  ghost predicate IsJoined(segments: seq<seq<byte>>, id: seq<byte>) {
    segments != [] && (forall k | 0 <= k < |segments| :: IsSegment(segments[k])) && Join(segments) == id
  }

  ghost predicate InGrammar(id: seq<byte>) {
    exists segments :: IsJoined(segments, id)
  }

  // ---------------------------------------------------------------------------------------------------------
  // Left-to-right specification of the scanner
  // ---------------------------------------------------------------------------------------------------------

  /** Position of the first dot, or the length when there is none. */
  function FirstDot(s: seq<byte>): (n: nat)
    ensures n <= |s| && DOT !in s[..n] && (n < |s| ==> s[n] == DOT)
  {
    if s == [] || s[0] == DOT then 0
    else
      var n := 1 + FirstDot(s[1..]);
      assert s[..n] == [s[0]] + s[1..][..n - 1];
      n
  }

  /** The error of what is left of an ID: the first segment decides, then the rest. */
  function ScanError(s: seq<byte>): Option<IdError>
    decreases |s|
  {
    var n := FirstDot(s);
    if n == |s| then (if IsSegment(s) then None else Some(InvalidSegment))
    else if n == 0 || n + 1 == |s| then Some(EmptySegment)
    else if !IsSegment(s[..n]) then Some(InvalidSegment)
    else ScanError(s[n + 1..])
  }

  function IdErrorOf(id: seq<byte>): Option<IdError> {
    if id == [] then Some(Empty) else ScanError(id)
  }

  /** A segment holds no dot, so the first dot of a joined ID ends its first segment. */
  lemma FirstDotOfJoin(segment: seq<byte>, rest: seq<byte>)
    requires IsSegment(segment)
    ensures FirstDot(segment) == |segment| && FirstDot(segment + [DOT] + rest) == |segment|
  {
    var joined := segment + [DOT] + rest;
    forall k | 0 <= k < |segment| ensures segment[k] != DOT && joined[k] != DOT {
      assert joined[k] == segment[k] && (IsLetter(segment[k]) || IsWord(segment[k]));
    }
    assert joined[|segment|] == DOT;
    FirstDotIs(segment, |segment|);
    FirstDotIs(joined, |segment|);
  }

  /** A position with no dot before it, and a dot or the end at it, is the first dot. */
  lemma FirstDotIs(s: seq<byte>, n: nat)
    requires n <= |s| && (forall k | 0 <= k < n :: s[k] != DOT) && (n < |s| ==> s[n] == DOT)
    ensures FirstDot(s) == n
  {
    var m := FirstDot(s);
    assert forall k | 0 <= k < m :: s[..m][k] == s[k];
  }

  lemma {:induction false} GrammarScans(segments: seq<seq<byte>>, id: seq<byte>)
    requires IsJoined(segments, id)
    ensures id != [] && ScanError(id) == None
    decreases |segments|
  {
    assert IsSegment(segments[0]);
    if |segments| == 1 {
      FirstDotOfJoin(segments[0], []);
    } else {
      var rest := Join(segments[1..]);
      GrammarScans(segments[1..], rest);
      FirstDotOfJoin(segments[0], rest);
      assert id[..|segments[0]|] == segments[0] && id[|segments[0]| + 1..] == rest;
    }
  }

  lemma {:induction false} ScanFindsSegments(id: seq<byte>) returns (segments: seq<seq<byte>>)
    requires ScanError(id) == None
    ensures IsJoined(segments, id)
    decreases |id|
  {
    var n := FirstDot(id);
    if n == |id| {
      segments := [id];
    } else {
      var rest := ScanFindsSegments(id[n + 1..]);
      segments := [id[..n]] + rest;
      assert segments[1..] == rest;
      assert id == id[..n] + [DOT] + id[n + 1..];
    }
  }

  /** An ID has no error exactly when it is a non-empty dot-joined sequence of segments. */
  lemma ErrorFreeIffInGrammar(id: seq<byte>)
    ensures IdErrorOf(id) == None <==> InGrammar(id)
  {
    if IdErrorOf(id) == None {
      var segments := ScanFindsSegments(id);
    }
    if InGrammar(id) {
      var segments :| IsJoined(segments, id);
      GrammarScans(segments, id);
    }
  }

  // ---------------------------------------------------------------------------------------------------------
  // Which error
  // ---------------------------------------------------------------------------------------------------------

  /** The pieces between dots, good or bad. */
  function Split(s: seq<byte>): (pieces: seq<seq<byte>>)
    ensures pieces != [] && Join(pieces) == s
    ensures forall k | 0 <= k < |pieces| :: DOT !in pieces[k]
  {
    var n := FirstDot(s);
    if n == |s| then [s]
    else
      var rest := Split(s[n + 1..]);
      assert ([s[..n]] + rest)[1..] == rest && s == s[..n] + [DOT] + s[n + 1..];
      [s[..n]] + rest
  }

  /** Piece `k` is the first that is not a segment. */
  ghost predicate FirstBad(pieces: seq<seq<byte>>, k: nat) {
    k < |pieces| && !IsSegment(pieces[k]) && forall j | 0 <= j < k :: IsSegment(pieces[j])
  }

  /** The first bad piece decides the error.  It is an empty segment, or an invalid one, unless the ID ends in a dot
      right behind it: a trailing dot is noticed before the piece in front of it is looked at. */
  lemma {:induction false} FirstBadPieceDecides(id: seq<byte>, k: nat)
    requires id != [] && FirstBad(Split(id), k)
    ensures var pieces := Split(id);
            ScanError(id) ==
            Some(if pieces[k] == [] || (k + 2 == |pieces| && pieces[k + 1] == []) then EmptySegment
                 else InvalidSegment)
    decreases |id|
  {
    var n, pieces := FirstDot(id), Split(id);
    if n < |id| {
      var rest := Split(id[n + 1..]);
      assert pieces == [id[..n]] + rest && pieces[1..] == rest;
      assert rest[0] == [] && |rest| == 1 <==> n + 1 == |id| by {
        if n + 1 == |id| {
          assert id[n + 1..] == [];
        } else {
          assert Join(rest) == id[n + 1..] && id[n + 1..] != [];
        }
      }
      if k > 0 {
        assert IsSegment(pieces[0]);
        if n + 1 < |id| {
          assert FirstBad(rest, k - 1) by {
            forall j | 0 <= j < k - 1 ensures IsSegment(rest[j]) {
              assert rest[j] == pieces[j + 1];
            }
          }
          FirstBadPieceDecides(id[n + 1..], k - 1);
        }
      }
    }
  }

  // ---------------------------------------------------------------------------------------------------------
  // The scanner
  // ---------------------------------------------------------------------------------------------------------

  /** `validate_segment` on `bytes[start..end]`. */
  method ValidateSegment(bytes: seq<byte>, start: nat, end: nat) returns (error: Option<IdError>)
    requires start <= end <= |bytes|
    ensures error == if IsSegment(bytes[start..end]) then None else Some(InvalidSegment)
  {
    if start == end || !IsLetter(bytes[start]) {
      return Some(InvalidSegment);
    }
    var index := start + 1;
    while index < end
      invariant start + 1 <= index <= end
      invariant forall k | start + 1 <= k < index :: IsWord(bytes[k])
    {
      var b := bytes[index];
      if !IsWord(b) {
        assert bytes[start..end][index - start] == b;
        return Some(InvalidSegment);
      }
      index := index + 1;
    }
    return None;
  }

  /** A dot at `index` ends the segment that began at `start`. */
  lemma ScanAtDot(bytes: seq<byte>, start: nat, index: nat)
    requires start <= index < |bytes| && DOT !in bytes[start..index] && bytes[index] == DOT
    ensures ScanError(bytes[start..]) ==
            if start == index || index + 1 == |bytes| then Some(EmptySegment)
            else if !IsSegment(bytes[start..index]) then Some(InvalidSegment)
            else ScanError(bytes[index + 1..])
  {
    var s := bytes[start..];
    forall k | 0 <= k < index - start ensures s[k] != DOT {
      assert s[k] == bytes[start..index][k];
    }
    FirstDotIs(s, index - start);
    assert s[..index - start] == bytes[start..index] && s[index - start + 1..] == bytes[index + 1..];
  }

  /** Without a further dot the rest is the last segment. */
  lemma ScanAtEnd(bytes: seq<byte>, start: nat)
    requires start <= |bytes| && DOT !in bytes[start..]
    ensures ScanError(bytes[start..]) == if IsSegment(bytes[start..]) then None else Some(InvalidSegment)
  {
    FirstDotIs(bytes[start..], |bytes| - start);
  }

  /** `validate`: one pass over the bytes that only remembers where the current segment began.  It never asks for
      the validation of an empty segment. */
  method Validate(bytes: seq<byte>) returns (error: Option<IdError>)
    ensures error == IdErrorOf(bytes)
    ensures error == None <==> InGrammar(bytes)
    ensures error == Some(Empty) <==> bytes == []
  {
    hide ScanError, InGrammar, FirstDot, IsSegment;
    ErrorFreeIffInGrammar(bytes);
    if bytes == [] {
      return Some(Empty);
    }
    var start, index := 0, 0;
    assert bytes[0..] == bytes;
    while index < |bytes|
      invariant 0 <= start <= index <= |bytes| && start < |bytes|
      invariant DOT !in bytes[start..index]
      invariant ScanError(bytes) == ScanError(bytes[start..])
    {
      if bytes[index] == DOT {
        ScanAtDot(bytes, start, index);
        if start == index || index + 1 == |bytes| {
          return Some(EmptySegment);
        }
        assert start < index;
        var bad := ValidateSegment(bytes, start, index);
        if bad.Some? {
          return bad;
        }
        start := index + 1;
      }
      index := index + 1;
    }
    assert start < |bytes|;
    assert bytes[start..index] == bytes[start..];
    ScanAtEnd(bytes, start);
    error := ValidateSegment(bytes, start, |bytes|);
  }
}
