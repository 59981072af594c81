/** Text segments (words, lines, sentences, paragraphs) over the bytes of a UTF-8 string. */
module Utf8Text {

  type byte = x: int | 0 <= x < 256

  const NEWLINE: byte := 0x0A
  const SPACE: byte := 0x20

  // ---- UTF-8 (section 4 of RFC 3629) ---------------------------------------

  predicate IsTail(b: byte) {
    0x80 <= b <= 0xBF
  }

  predicate TailAt(s: seq<byte>, i: nat) {
    i < |s| && IsTail(s[i])
  }

  /** The length of the character that `s` starts with; 0 if `s` starts with none. */
  function CharLen(s: seq<byte>): (n: nat)
    ensures n <= |s| && n <= 4
    ensures n > 0 ==> !IsTail(s[0]) && forall i :: 1 <= i < n ==> IsTail(s[i])
    ensures n > 1 ==> s[0] >= 0x80
  {
    if s == [] then 0
    else if s[0] < 0x80 then 1
    else if 0xC2 <= s[0] <= 0xDF && TailAt(s, 1) then 2
    else if 0xE0 <= s[0] <= 0xEF && TailAt(s, 1) && TailAt(s, 2)
         && (s[0] == 0xE0 ==> s[1] >= 0xA0) && (s[0] == 0xED ==> s[1] <= 0x9F) then 3
    else if 0xF0 <= s[0] <= 0xF4 && TailAt(s, 1) && TailAt(s, 2) && TailAt(s, 3)
         && (s[0] == 0xF0 ==> s[1] >= 0x90) && (s[0] == 0xF4 ==> s[1] <= 0x8F) then 4
    else 0
  }

  predicate ValidUtf8(s: seq<byte>) {
    s == [] || (CharLen(s) > 0 && ValidUtf8(s[CharLen(s)..]))
  }

  /** `str::is_char_boundary` */
  predicate IsCharBoundary(s: seq<byte>, pos: nat) {
    pos == 0 || pos == |s| || (pos < |s| && !IsTail(s[pos]))
  }

  /** A continuation byte never follows an ASCII byte and never comes first. */
  lemma {:induction false} TailFollowsNonAscii(s: seq<byte>, pos: nat)
    requires ValidUtf8(s) && pos < |s| && IsTail(s[pos])
    ensures 0 < pos && s[pos - 1] >= 0x80
  {
    var n := CharLen(s);
    if pos >= n {
      assert s[n..][pos - n] == s[pos];
      TailFollowsNonAscii(s[n..], pos - n);
    }
  }

  lemma CharLenOfPrefix(s: seq<byte>, pos: nat)
    requires CharLen(s) > 0 && CharLen(s) <= pos <= |s|
    ensures CharLen(s[..pos]) == CharLen(s)
  {
  }

  /** Cutting valid text at a character boundary leaves two valid texts. */
  lemma CutAtCharBoundary(s: seq<byte>, pos: nat)
    requires ValidUtf8(s) && pos <= |s| && IsCharBoundary(s, pos)
    ensures ValidUtf8(s[..pos]) && ValidUtf8(s[pos..])
  {
    FrontIsValid(s, pos);
    BackIsValid(s, pos);
  }

  lemma {:induction false} FrontIsValid(s: seq<byte>, pos: nat)
    requires ValidUtf8(s) && pos <= |s| && IsCharBoundary(s, pos)
    ensures ValidUtf8(s[..pos])
    decreases |s|
  {
    if pos > 0 {
      BoundaryPastFirstChar(s, pos);
      FrontIsValid(s[CharLen(s)..], pos - CharLen(s));
      PrefixByFirstChar(s, CharLen(s), pos);
    }
  }

  lemma {:induction false} BackIsValid(s: seq<byte>, pos: nat)
    requires ValidUtf8(s) && pos <= |s| && IsCharBoundary(s, pos)
    ensures ValidUtf8(s[pos..])
    decreases |s|
  {
    if pos == 0 {
      assert s[0..] == s;
    } else {
      BoundaryPastFirstChar(s, pos);
      var n := CharLen(s);
      BackIsValid(s[n..], pos - n);
      assert s[n..][pos - n..] == s[pos..];
    }
  }

  lemma BoundaryPastFirstChar(s: seq<byte>, pos: nat)
    requires ValidUtf8(s) && 0 < pos <= |s| && IsCharBoundary(s, pos)
    ensures 0 < CharLen(s) <= pos && ValidUtf8(s[CharLen(s)..])
    ensures IsCharBoundary(s[CharLen(s)..], pos - CharLen(s))
  {
    var n := CharLen(s);
    assert n <= pos;
    assert pos < |s| ==> s[n..][pos - n] == s[pos];
  }

  lemma PrefixByFirstChar(s: seq<byte>, n: nat, pos: nat)
    requires 0 < n == CharLen(s) <= pos <= |s| && ValidUtf8(s[n..][..pos - n])
    ensures ValidUtf8(s[..pos])
  {
    CharLenOfPrefix(s, pos);
    assert s[..pos][n..] == s[n..][..pos - n];
  }

  lemma CutOut(s: seq<byte>, start: nat, end: nat)
    requires ValidUtf8(s) && start <= end <= |s| && IsCharBoundary(s, start) && IsCharBoundary(s, end)
    ensures ValidUtf8(s[..start]) && ValidUtf8(s[start..end]) && ValidUtf8(s[end..])
  {
    CutAtCharBoundary(s, start);
    CutAtCharBoundary(s, end);
    assert IsCharBoundary(s[..end], start);
    CutAtCharBoundary(s[..end], start);
    assert s[..end][start..] == s[start..end];
  }

  // ---- Boundaries ----------------------------------------------------------

  type Boundary = (seq<byte>, nat) -> bool

  predicate IsWordByte(b: byte) {
    0x30 <= b <= 0x39 || 0x41 <= b <= 0x5A || 0x61 <= b <= 0x7A || b == 0x5F
  }

  predicate IsWordBoundary(text: seq<byte>, pos: nat) {
    if pos == 0 || pos >= |text| then true
    else IsWordByte(text[pos]) != IsWordByte(text[pos - 1])
  }

  predicate IsLineBoundary(text: seq<byte>, pos: nat) {
    if pos == 0 || pos >= |text| then true else text[pos - 1] == NEWLINE
  }

  predicate IsSentenceEnd(b: byte) {
    b == 0x2E || b == 0x21 || b == 0x3F
  }

  predicate IsSentenceBoundary(text: seq<byte>, pos: nat) {
    if pos == 0 || pos >= |text| then true
    else IsSentenceEnd(text[pos - 1]) && (text[pos] == SPACE || text[pos] == NEWLINE)
  }

  predicate IsParagraphBoundary(text: seq<byte>, pos: nat) {
    if pos == 0 || pos >= |text| then true
    else text[pos - 1] == NEWLINE && pos >= 2 && text[pos - 2] == NEWLINE
  }

  /** A boundary that holds at both ends and only ever between characters. */
  ghost predicate Cuts(text: seq<byte>, isBoundary: Boundary) {
    && isBoundary(text, 0) && isBoundary(text, |text|)
    && forall pos: nat :: pos <= |text| && isBoundary(text, pos) ==> IsCharBoundary(text, pos)
  }

  datatype TextBoundary = ByChar | ByWord | ByLine | BySentence | ByParagraph | ByAll

  function BoundaryOf(kind: TextBoundary): Boundary
    requires kind !in {ByChar, ByAll}
  {
    match kind
    case ByWord => IsWordBoundary
    case ByLine => IsLineBoundary
    case BySentence => IsSentenceBoundary
    case ByParagraph => IsParagraphBoundary
  }

  /** On valid text none of the four boundaries falls inside a character. */
  lemma BoundariesCut(text: seq<byte>, kind: TextBoundary)
    requires ValidUtf8(text) && kind !in {ByChar, ByAll}
    ensures Cuts(text, BoundaryOf(kind))
  {
    forall pos: nat | 0 < pos < |text| && BoundaryOf(kind)(text, pos)
      ensures IsCharBoundary(text, pos)
    {
      if IsTail(text[pos]) {
        TailFollowsNonAscii(text, pos);
      }
    }
  }

  // ---- Segments ------------------------------------------------------------

  /** The last boundary at or before `pos`. */
  function SegmentStart(text: seq<byte>, pos: nat, isBoundary: Boundary): (start: nat)
    ensures start <= pos
    ensures start == 0 || isBoundary(text, start)
    ensures forall p :: start < p <= pos ==> !isBoundary(text, p)
  {
    if pos == 0 || isBoundary(text, pos) then pos else SegmentStart(text, pos - 1, isBoundary)
  }

  /** The first boundary at or after `pos`. */
  function SegmentEnd(text: seq<byte>, pos: nat, isBoundary: Boundary): (end: nat)
    requires pos <= |text|
    ensures pos <= end <= |text|
    ensures end == |text| || isBoundary(text, end)
    ensures forall p :: pos <= p < end ==> !isBoundary(text, p)
    decreases |text| - pos
  {
    if pos == |text| || isBoundary(text, pos) then pos else SegmentEnd(text, pos + 1, isBoundary)
  }

  /** The walk back, from character to character, stops at the nearest boundary. */
  method WalkBack(text: seq<byte>, offset: nat, isBoundary: Boundary) returns (start: nat)
    requires offset < |text| && Cuts(text, isBoundary)
    ensures start == SegmentStart(text, offset, isBoundary)
  {
    start := offset;
    while start > 0 && !isBoundary(text, start)
      invariant start <= offset
      invariant SegmentStart(text, start, isBoundary) == SegmentStart(text, offset, isBoundary)
    {
      start := start - 1;
      while start > 0 && !IsCharBoundary(text, start)
        invariant start <= offset
        invariant SegmentStart(text, start, isBoundary) == SegmentStart(text, offset, isBoundary)
      {
        start := start - 1;
      }
    }
  }

  /** The walk forward, likewise. */
  method WalkForward(text: seq<byte>, offset: nat, isBoundary: Boundary) returns (end: nat)
    requires offset < |text| && Cuts(text, isBoundary)
    ensures end == SegmentEnd(text, offset + 1, isBoundary)
  {
    end := offset + 1;
    while end < |text| && !isBoundary(text, end)
      invariant offset < end <= |text|
      invariant SegmentEnd(text, end, isBoundary) == SegmentEnd(text, offset + 1, isBoundary)
    {
      end := end + 1;
      while end < |text| && !IsCharBoundary(text, end)
        invariant offset < end <= |text|
        invariant SegmentEnd(text, end, isBoundary) == SegmentEnd(text, offset + 1, isBoundary)
      {
        end := end + 1;
      }
    }
  }

  method ExtractSegment(text: seq<byte>, offset: nat, isBoundary: Boundary)
      returns (segment: seq<byte>, start: nat, end: nat)
    requires offset < |text| && Cuts(text, isBoundary)
    ensures start == SegmentStart(text, offset, isBoundary) && end == SegmentEnd(text, offset + 1, isBoundary)
    ensures IsCharBoundary(text, start) && IsCharBoundary(text, end)
    ensures segment == text[start..end]
  {
    start := WalkBack(text, offset, isBoundary);
    end := WalkForward(text, offset, isBoundary);
    segment := text[start..end];
  }

  /** The segment around `offset`: the nearest boundaries on both sides, with no boundary inside. */
  ghost predicate IsSegment(text: seq<byte>, isBoundary: Boundary, start: nat, end: nat) {
    && start < end <= |text| && isBoundary(text, start) && isBoundary(text, end)
    && forall p :: start < p < end ==> !isBoundary(text, p)
  }

  lemma SegmentAround(text: seq<byte>, offset: nat, isBoundary: Boundary)
    requires offset < |text| && Cuts(text, isBoundary)
    ensures var start, end := SegmentStart(text, offset, isBoundary), SegmentEnd(text, offset + 1, isBoundary);
            start <= offset < end && IsSegment(text, isBoundary, start, end)
  {
  }

  /** Every offset of a segment gives that segment: two segments are equal or disjoint. */
  lemma OffsetsShareSegment(text: seq<byte>, isBoundary: Boundary, start: nat, end: nat, offset: nat)
    requires Cuts(text, isBoundary) && IsSegment(text, isBoundary, start, end) && start <= offset < end
    ensures SegmentStart(text, offset, isBoundary) == start && SegmentEnd(text, offset + 1, isBoundary) == end
  {
    var s, e := SegmentStart(text, offset, isBoundary), SegmentEnd(text, offset + 1, isBoundary);
    assert !(s < start <= offset) && !(offset + 1 <= end < e);
    assert isBoundary(text, s) && isBoundary(text, e);
  }

  /** The segments of the text from the boundary `from` on, in order. */
  function SegmentsFrom(text: seq<byte>, from: nat, isBoundary: Boundary): seq<seq<byte>>
    requires from <= |text|
    decreases |text| - from
  {
    if from == |text| then []
    else
      var end := SegmentEnd(text, from + 1, isBoundary);
      [text[from..end]] + SegmentsFrom(text, end, isBoundary)
  }

  function Concat(parts: seq<seq<byte>>): seq<byte> {
    if parts == [] then [] else parts[0] + Concat(parts[1..])
  }

  /** The segments concatenate to the text. */
  lemma {:induction false} SegmentsPartition(text: seq<byte>, from: nat, isBoundary: Boundary)
    requires from <= |text|
    ensures Concat(SegmentsFrom(text, from, isBoundary)) == text[from..]
    decreases |text| - from
  {
    if from < |text| {
      var end := SegmentEnd(text, from + 1, isBoundary);
      SegmentsPartition(text, end, isBoundary);
      var rest := SegmentsFrom(text, end, isBoundary);
      assert ([text[from..end]] + rest)[1..] == rest;
      assert text[from..] == text[from..end] + text[end..];
    }
  }

  /** None of the segments is empty, and each is valid text by itself. */
  lemma {:induction false} SegmentsAreText(text: seq<byte>, from: nat, isBoundary: Boundary, k: nat)
    requires ValidUtf8(text) && Cuts(text, isBoundary) && from <= |text| && isBoundary(text, from)
    requires k < |SegmentsFrom(text, from, isBoundary)|
    ensures SegmentsFrom(text, from, isBoundary)[k] != [] && ValidUtf8(SegmentsFrom(text, from, isBoundary)[k])
    decreases k
  {
    var end := SegmentEnd(text, from + 1, isBoundary);
    if k == 0 {
      CutOut(text, from, end);
    } else {
      SegmentsAreText(text, end, isBoundary, k - 1);
    }
  }

  /** Where the `j`-th piece of the text from `from` on starts. */
  ghost function PieceStart(text: seq<byte>, from: nat, isBoundary: Boundary, j: nat): nat
    requires from <= |text| && j <= |SegmentsFrom(text, from, isBoundary)|
  {
    from + |Concat(SegmentsFrom(text, from, isBoundary)[..j])|
  }

  lemma PieceStartNext(text: seq<byte>, from: nat, isBoundary: Boundary, j: nat)
    requires from < |text|
    requires var end := SegmentEnd(text, from + 1, isBoundary); j <= |SegmentsFrom(text, end, isBoundary)|
    ensures PieceStart(text, from, isBoundary, j + 1) ==
            PieceStart(text, SegmentEnd(text, from + 1, isBoundary), isBoundary, j)
  {
    var end := SegmentEnd(text, from + 1, isBoundary);
    var rest := SegmentsFrom(text, end, isBoundary);
    var pieces := SegmentsFrom(text, from, isBoundary);
    assert pieces == [text[from..end]] + rest;
    assert pieces[..j + 1][1..] == rest[..j];
    assert Concat(pieces[..j + 1]) == text[from..end] + Concat(rest[..j]);
  }

  /** The segment around an offset is one of the pieces, and stands where that piece stands. */
  lemma {:induction false} OffsetIsInPiece(text: seq<byte>, from: nat, offset: nat, isBoundary: Boundary)
      returns (j: nat)
    requires Cuts(text, isBoundary) && isBoundary(text, from) && from <= offset < |text|
    ensures j < |SegmentsFrom(text, from, isBoundary)|
    ensures PieceStart(text, from, isBoundary, j) == SegmentStart(text, offset, isBoundary)
    ensures SegmentsFrom(text, from, isBoundary)[j] ==
            text[SegmentStart(text, offset, isBoundary)..SegmentEnd(text, offset + 1, isBoundary)]
    decreases |text| - from
  {
    var end := SegmentEnd(text, from + 1, isBoundary);
    if offset < end {
      OffsetsShareSegment(text, isBoundary, from, end, offset);
      j := 0;
    } else {
      var k := OffsetIsInPiece(text, end, offset, isBoundary);
      PieceStartNext(text, from, isBoundary, k);
      j := k + 1;
    }
  }

  lemma PieceStartFirst(text: seq<byte>, from: nat, isBoundary: Boundary)
    requires from <= |text|
    ensures PieceStart(text, from, isBoundary, 0) == from
  {
  }

  /** The piece stands at the nearest boundaries. */
  ghost predicate PieceStandsAt(text: seq<byte>, isBoundary: Boundary, piece: seq<byte>, start: nat) {
    && start < |text| && SegmentStart(text, start, isBoundary) == start
    && piece == text[start..SegmentEnd(text, start + 1, isBoundary)]
  }

  lemma PieceAfterFirst(text: seq<byte>, from: nat, isBoundary: Boundary, j: nat)
    requires from < |text| && 0 < j < |SegmentsFrom(text, from, isBoundary)|
    ensures var end := SegmentEnd(text, from + 1, isBoundary);
            && j - 1 < |SegmentsFrom(text, end, isBoundary)|
            && SegmentsFrom(text, from, isBoundary)[j] == SegmentsFrom(text, end, isBoundary)[j - 1]
            && PieceStart(text, from, isBoundary, j) == PieceStart(text, end, isBoundary, j - 1)
  {
    PieceStartNext(text, from, isBoundary, j - 1);
  }

  /** Every piece is the segment around its own start. */
  lemma {:induction false} PieceIsSegment(text: seq<byte>, from: nat, isBoundary: Boundary, j: nat)
    requires Cuts(text, isBoundary) && from <= |text| && isBoundary(text, from)
    requires j < |SegmentsFrom(text, from, isBoundary)|
    ensures PieceStandsAt(text, isBoundary, SegmentsFrom(text, from, isBoundary)[j],
                          PieceStart(text, from, isBoundary, j))
    decreases j
  {
    if j > 0 {
      PieceAfterFirst(text, from, isBoundary, j);
      PieceIsSegment(text, SegmentEnd(text, from + 1, isBoundary), isBoundary, j - 1);
    } else {
      PieceStartFirst(text, from, isBoundary);
    }
  }

  /** Every line segment lies inside one paragraph segment. */
  lemma LinesWithinParagraphs(text: seq<byte>, offset: nat)
    requires ValidUtf8(text) && offset < |text|
    ensures SegmentStart(text, offset, IsParagraphBoundary) <= SegmentStart(text, offset, IsLineBoundary)
    ensures SegmentEnd(text, offset + 1, IsLineBoundary) <= SegmentEnd(text, offset + 1, IsParagraphBoundary)
  {
    assert forall p: nat :: IsParagraphBoundary(text, p) ==> IsLineBoundary(text, p);
    var start := SegmentStart(text, offset, IsParagraphBoundary);
    var end := SegmentEnd(text, offset + 1, IsParagraphBoundary);
    assert start == 0 || IsLineBoundary(text, start);
    assert IsLineBoundary(text, end);
  }

  /** A word segment is a maximal run of bytes of one kind, word bytes or others. */
  lemma WordSegmentsAreRuns(text: seq<byte>, start: nat, end: nat)
    requires start < end <= |text|
    ensures IsSegment(text, IsWordBoundary, start, end) <==>
              && (forall i :: start <= i < end ==> IsWordByte(text[i]) == IsWordByte(text[start]))
              && (0 < start ==> IsWordByte(text[start - 1]) != IsWordByte(text[start]))
              && (end < |text| ==> IsWordByte(text[end]) != IsWordByte(text[start]))
  {
    if IsSegment(text, IsWordBoundary, start, end) {
      forall i | start <= i < end
        ensures IsWordByte(text[i]) == IsWordByte(text[start])
      {
        WordRun(text, start, end, i);
      }
      assert IsWordBoundary(text, end) && IsWordBoundary(text, start);
    }
  }

  lemma {:induction false} WordRun(text: seq<byte>, start: nat, end: nat, i: nat)
    requires IsSegment(text, IsWordBoundary, start, end) && start <= i < end
    ensures IsWordByte(text[i]) == IsWordByte(text[start])
    decreases i
  {
    if start < i {
      assert !IsWordBoundary(text, i);
      WordRun(text, start, end, i - 1);
    }
  }

  /** A line segment holds a newline at most at its end, and ends in one unless the text ends. */
  lemma LineSegmentsEndInNewline(text: seq<byte>, start: nat, end: nat)
    requires start < end <= |text|
    ensures IsSegment(text, IsLineBoundary, start, end) <==>
              && (forall i :: start <= i < end - 1 ==> text[i] != NEWLINE)
              && (0 < start ==> text[start - 1] == NEWLINE)
              && (end < |text| ==> text[end - 1] == NEWLINE)
  {
    if IsSegment(text, IsLineBoundary, start, end) {
      forall i | start <= i < end - 1
        ensures text[i] != NEWLINE
      {
        assert !IsLineBoundary(text, i + 1);
      }
    }
  }

  /** A sentence ends at byte `i`: an end mark with a space or a newline after it. */
  predicate EndsSentence(text: seq<byte>, i: nat) {
    i + 1 < |text| && IsSentenceEnd(text[i]) && (text[i + 1] == SPACE || text[i + 1] == NEWLINE)
  }

  /** A sentence segment ends a sentence at most at its last byte, and does so unless the text ends. */
  lemma SentenceSegmentsEndSentences(text: seq<byte>, start: nat, end: nat)
    requires start < end <= |text|
    ensures IsSegment(text, IsSentenceBoundary, start, end) <==>
              && (forall i: nat :: start <= i < end - 1 ==> !EndsSentence(text, i))
              && (0 < start ==> EndsSentence(text, start - 1))
              && (end < |text| ==> EndsSentence(text, end - 1))
  {
    assert forall p: nat :: 0 < p < |text| ==> (IsSentenceBoundary(text, p) <==> EndsSentence(text, p - 1));
    if IsSegment(text, IsSentenceBoundary, start, end) {
      forall i: nat | start <= i < end - 1
        ensures !EndsSentence(text, i)
      {
        assert !IsSentenceBoundary(text, i + 1);
      }
    }
  }

  /** The bytes `i` and `i + 1` are a blank line. */
  predicate IsBlankLine(text: seq<byte>, i: nat) {
    i + 1 < |text| && text[i] == NEWLINE && text[i + 1] == NEWLINE
  }

  /** A paragraph segment has two newlines in a row at most at its end, and has them there unless the text ends. */
  lemma ParagraphSegmentsEndInBlankLines(text: seq<byte>, start: nat, end: nat)
    requires start < end <= |text|
    ensures IsSegment(text, IsParagraphBoundary, start, end) <==>
              && (forall i: nat :: start <= i + 1 < end - 1 ==> !IsBlankLine(text, i))
              && (0 < start ==> 1 < start && IsBlankLine(text, start - 2))
              && (end < |text| ==> 1 < end && IsBlankLine(text, end - 2))
  {
    assert forall p: nat :: 1 < p < |text| ==> (IsParagraphBoundary(text, p) <==> IsBlankLine(text, p - 2));
    assert 1 < |text| ==> !IsParagraphBoundary(text, 1);
    if IsSegment(text, IsParagraphBoundary, start, end) {
      forall i: nat | start <= i + 1 < end - 1
        ensures !IsBlankLine(text, i)
      {
        assert !IsParagraphBoundary(text, i + 2);
      }
    }
  }

  // ---- get_text_at_offset --------------------------------------------------

  /** A segment with its offsets, or the panic of slicing inside a character. */
  datatype TextRange = Range(text: seq<byte>, start: nat, end: nat) | Panic

  function TextAtOffset(text: seq<byte>, offset: nat, kind: TextBoundary): TextRange
    requires ValidUtf8(text)
  {
    if offset >= |text| then Range([], 0, 0)
    else match kind
      case ByAll => Range(text, 0, |text|)
      case ByChar =>
        if IsCharBoundary(text, offset) then
          var n := CharLen(text[offset..]);
          Range(text[offset..offset + n], offset, offset + n)
        else Panic
      case _ =>
        var start := SegmentStart(text, offset, BoundaryOf(kind));
        var end := SegmentEnd(text, offset + 1, BoundaryOf(kind));
        Range(text[start..end], start, end)
  }

  method GetTextAtOffset(text: seq<byte>, offset: nat, kind: TextBoundary) returns (r: TextRange)
    requires ValidUtf8(text)
    ensures r == TextAtOffset(text, offset, kind)
  {
    if offset >= |text| {
      return Range([], 0, 0);
    }
    match kind
    case ByChar =>
      if !IsCharBoundary(text, offset) {
        return Panic;
      }
      var n := CharLen(text[offset..]);
      return Range(text[offset..offset + n], offset, offset + n);
    case ByAll =>
      return Range(text, 0, |text|);
    case _ =>
      BoundariesCut(text, kind);
      var segment, start, end := ExtractSegment(text, offset, BoundaryOf(kind));
      return Range(segment, start, end);
  }

  /** The pieces of the text that one kind of boundary cuts. */
  ghost function Pieces(text: seq<byte>, kind: TextBoundary): seq<seq<byte>>
    requires kind !in {ByChar, ByAll}
  {
    SegmentsFrom(text, 0, BoundaryOf(kind))
  }

  ghost function StartOf(pieces: seq<seq<byte>>, j: nat): nat
    requires j <= |pieces|
  {
    |Concat(pieces[..j])|
  }

  /** What the call returns for an offset is the piece that covers the offset, where that piece stands. */
  lemma ReturnsThePiece(text: seq<byte>, offset: nat, kind: TextBoundary) returns (j: nat)
    requires ValidUtf8(text) && offset < |text| && kind !in {ByChar, ByAll}
    ensures var pieces := Pieces(text, kind);
            && j < |pieces| && StartOf(pieces, j) <= offset < StartOf(pieces, j) + |pieces[j]|
            && TextAtOffset(text, offset, kind) ==
               Range(pieces[j], StartOf(pieces, j), StartOf(pieces, j) + |pieces[j]|)
  {
    BoundariesCut(text, kind);
    j := OffsetIsInPiece(text, 0, offset, BoundaryOf(kind));
    SegmentAround(text, offset, BoundaryOf(kind));
  }

  /** And every piece is returned, for one at the offset where it starts. */
  lemma EveryPieceIsReturned(text: seq<byte>, kind: TextBoundary, j: nat)
    requires ValidUtf8(text) && kind !in {ByChar, ByAll} && j < |Pieces(text, kind)|
    ensures var pieces := Pieces(text, kind);
            TextAtOffset(text, StartOf(pieces, j), kind) ==
            Range(pieces[j], StartOf(pieces, j), StartOf(pieces, j) + |pieces[j]|)
  {
    BoundariesCut(text, kind);
    PieceIsSegment(text, 0, BoundaryOf(kind), j);
  }

  /** The pieces concatenate to the text, and each is valid text that is not empty. */
  lemma PiecesMakeTheText(text: seq<byte>, kind: TextBoundary)
    requires ValidUtf8(text) && kind !in {ByChar, ByAll}
    ensures Concat(Pieces(text, kind)) == text
    ensures forall j :: 0 <= j < |Pieces(text, kind)| ==>
              Pieces(text, kind)[j] != [] && ValidUtf8(Pieces(text, kind)[j])
  {
    BoundariesCut(text, kind);
    SegmentsPartition(text, 0, BoundaryOf(kind));
    assert text[0..] == text;
    forall j | 0 <= j < |Pieces(text, kind)|
      ensures Pieces(text, kind)[j] != [] && ValidUtf8(Pieces(text, kind)[j])
    {
      SegmentsAreText(text, 0, BoundaryOf(kind), j);
    }
  }

  /** The call panics exactly for a character asked for at an offset inside one. */
  lemma PanicsIff(text: seq<byte>, offset: nat, kind: TextBoundary)
    requires ValidUtf8(text)
    ensures TextAtOffset(text, offset, kind) == Panic <==>
              kind == ByChar && offset < |text| && IsTail(text[offset])
  {
    if offset < |text| && IsTail(text[offset]) {
      TailFollowsNonAscii(text, offset);
    }
  }

  lemma SegmentRangeIsCut(text: seq<byte>, offset: nat, kind: TextBoundary)
    requires ValidUtf8(text) && offset < |text| && kind !in {ByChar, ByAll}
    ensures var r := TextAtOffset(text, offset, kind);
            && r != Panic && r.start <= offset < r.end <= |text| && r.text == text[r.start..r.end]
            && IsCharBoundary(text, r.start) && IsCharBoundary(text, r.end)
  {
    SegmentRange(text, offset, kind);
  }

  lemma RangeIsCut(text: seq<byte>, offset: nat, kind: TextBoundary)
    requires ValidUtf8(text) && offset < |text| && TextAtOffset(text, offset, kind) != Panic
    ensures var r := TextAtOffset(text, offset, kind);
            && r.start <= offset < r.end <= |text| && r.text == text[r.start..r.end]
            && IsCharBoundary(text, r.start) && IsCharBoundary(text, r.end)
  {
    match kind
    case ByChar => CharRange(text, offset);
    case ByAll => assert text[0..|text|] == text;
    case _ => SegmentRangeIsCut(text, offset, kind);
  }

  /** Whatever is returned is valid text, cut at character boundaries, around the offset. */
  lemma ReturnedTextIsValid(text: seq<byte>, offset: nat, kind: TextBoundary)
    requires ValidUtf8(text) && offset < |text| && TextAtOffset(text, offset, kind) != Panic
    ensures var r := TextAtOffset(text, offset, kind);
            && r.start <= offset < r.end <= |text| && r.text == text[r.start..r.end]
            && ValidUtf8(text[..r.start]) && ValidUtf8(r.text) && ValidUtf8(text[r.end..])
  {
    RangeIsCut(text, offset, kind);
    var r := TextAtOffset(text, offset, kind);
    CutOut(text, r.start, r.end);
  }

  lemma CharRange(text: seq<byte>, offset: nat)
    requires ValidUtf8(text) && offset < |text| && IsCharBoundary(text, offset)
    ensures var n := CharLen(text[offset..]); 0 < n && IsCharBoundary(text, offset + n)
  {
    var rest := text[offset..];
    CutAtCharBoundary(text, offset);
    CharEndIsBoundary(rest);
    assert offset + CharLen(rest) < |text| ==> rest[CharLen(rest)] == text[offset + CharLen(rest)];
  }

  lemma SegmentRange(text: seq<byte>, offset: nat, kind: TextBoundary)
    requires ValidUtf8(text) && offset < |text| && kind !in {ByChar, ByAll}
    ensures var start := SegmentStart(text, offset, BoundaryOf(kind));
            var end := SegmentEnd(text, offset + 1, BoundaryOf(kind));
            start <= offset < end <= |text| && IsCharBoundary(text, start) && IsCharBoundary(text, end)
  {
    BoundariesCut(text, kind);
    SegmentAround(text, offset, BoundaryOf(kind));
  }

  lemma CharEndIsBoundary(s: seq<byte>)
    requires ValidUtf8(s) && s != []
    ensures CharLen(s) > 0 && IsCharBoundary(s, CharLen(s))
  {
    var n := CharLen(s);
    if n < |s| {
      assert CharLen(s[n..]) > 0;
      assert s[n..][0] == s[n];
    }
  }
}
