/** What the call returns for each kind of boundary, said of the bytes of the text, and what a character is. */
module TextLaws {
  import opened Utf8Text

  // ---- Characters ----------------------------------------------------------

  /** The code points that UTF-8 encodes. */
  predicate IsScalar(cp: nat) {
    cp <= 0xD7FF || 0xE000 <= cp <= 0x10FFFF
  }

  /** The octet sequence of a code point, as the table in section 3 of RFC 3629 builds it. */
  function Encode(cp: nat): (s: seq<byte>)
    requires IsScalar(cp)
    ensures s != []
  {
    if cp < 0x80 then [cp]
    else if cp < 0x800 then [0xC0 + cp / 64, 0x80 + cp % 64]
    else if cp < 0x1_0000 then [0xE0 + cp / 64 / 64, 0x80 + cp / 64 % 64, 0x80 + cp % 64]
    else [0xF0 + cp / 64 / 64 / 64, 0x80 + cp / 64 / 64 % 64, 0x80 + cp / 64 % 64, 0x80 + cp % 64]
  }

  lemma SixBits(q: nat, r: nat)
    requires r < 64
    ensures (q * 64 + r) / 64 == q && (q * 64 + r) % 64 == r
  {
  }

  /** Text that begins with an encoded code point has it as its first character. */
  lemma EncodedIsChar(cp: nat, rest: seq<byte>)
    requires IsScalar(cp)
    ensures CharLen(Encode(cp) + rest) == |Encode(cp)|
  {
    var s := Encode(cp) + rest;
    assert forall i :: 0 <= i < |Encode(cp)| ==> s[i] == Encode(cp)[i];
  }

  /** The code points of two, three and four octets, put together from their bits. */
  lemma DecodesTwo(a: nat, b: nat) returns (cp: nat)
    requires 2 <= a < 32 && b < 64
    ensures IsScalar(cp) && Encode(cp) == [0xC0 + a, 0x80 + b]
  {
    cp := a * 64 + b;
    SixBits(a, b);
  }

  lemma DecodesThree(a: nat, b: nat, c: nat) returns (cp: nat)
    requires a < 16 && b < 64 && c < 64 && (a == 0 ==> 32 <= b) && (a == 13 ==> b < 32)
    ensures IsScalar(cp) && Encode(cp) == [0xE0 + a, 0x80 + b, 0x80 + c]
  {
    cp := (a * 64 + b) * 64 + c;
    SixBits(a * 64 + b, c);
    SixBits(a, b);
  }

  lemma DecodesFour(a: nat, b: nat, c: nat, d: nat) returns (cp: nat)
    requires a < 5 && b < 64 && c < 64 && d < 64 && (a == 0 ==> 16 <= b) && (a == 4 ==> b < 16)
    ensures IsScalar(cp) && Encode(cp) == [0xF0 + a, 0x80 + b, 0x80 + c, 0x80 + d]
  {
    cp := ((a * 64 + b) * 64 + c) * 64 + d;
    SixBits((a * 64 + b) * 64 + c, d);
    SixBits(a * 64 + b, c);
    SixBits(a, b);
  }

  /** And every first character is an encoded code point. */
  lemma CharIsEncoded(s: seq<byte>) returns (cp: nat)
    requires CharLen(s) > 0
    ensures IsScalar(cp) && s[..CharLen(s)] == Encode(cp)
  {
    var n := CharLen(s);
    if n == 1 {
      cp := s[0];
    } else if n == 2 {
      cp := DecodesTwo(s[0] - 0xC0, s[1] - 0x80);
    } else if n == 3 {
      cp := DecodesThree(s[0] - 0xE0, s[1] - 0x80, s[2] - 0x80);
    } else {
      cp := DecodesFour(s[0] - 0xF0, s[1] - 0x80, s[2] - 0x80, s[3] - 0x80);
    }
  }

  ghost predicate AreScalars(cps: seq<nat>) {
    forall k :: 0 <= k < |cps| ==> IsScalar(cps[k])
  }

  function EncodeAll(cps: seq<nat>): seq<byte>
    requires AreScalars(cps)
  {
    if cps == [] then [] else Encode(cps[0]) + EncodeAll(cps[1..])
  }

  lemma {:induction false} EncodedIsValid(cps: seq<nat>)
    requires AreScalars(cps)
    ensures ValidUtf8(EncodeAll(cps))
  {
    if cps != [] {
      EncodedIsValid(cps[1..]);
      EncodedIsChar(cps[0], EncodeAll(cps[1..]));
      assert EncodeAll(cps)[|Encode(cps[0])|..] == EncodeAll(cps[1..]);
    }
  }

  lemma {:induction false} ValidIsEncoded(s: seq<byte>) returns (cps: seq<nat>)
    requires ValidUtf8(s)
    ensures AreScalars(cps) && EncodeAll(cps) == s
  {
    if s == [] {
      cps := [];
    } else {
      var n := CharLen(s);
      var cp := CharIsEncoded(s);
      var rest := ValidIsEncoded(s[n..]);
      cps := [cp] + rest;
      assert cps[1..] == rest && s == s[..n] + s[n..];
    }
  }

  /** Valid texts are exactly the encodings of sequences of code points. */
  lemma ValidIff(s: seq<byte>)
    ensures ValidUtf8(s) <==> exists cps :: AreScalars(cps) && EncodeAll(cps) == s
  {
    if ValidUtf8(s) {
      var cps := ValidIsEncoded(s);
    }
    if cps :| AreScalars(cps) && EncodeAll(cps) == s {
      EncodedIsValid(cps);
    }
  }

  // ---- What is returned ----------------------------------------------------

  /** The call returns the bytes from `start` to `end`, which enclose the offset. */
  ghost predicate Returns(text: seq<byte>, offset: nat, kind: TextBoundary, start: nat, end: nat)
    requires ValidUtf8(text)
  {
    start <= offset < end <= |text| && TextAtOffset(text, offset, kind) == Range(text[start..end], start, end)
  }

  /** An ASCII letter, digit or underscore. */
  predicate IsNameByte(b: byte) {
    b < 0x80 && var c := b as char; 'a' <= c <= 'z' || 'A' <= c <= 'Z' || '0' <= c <= '9' || c == '_'
  }

  /** A maximal run of name bytes, or of other bytes. */
  ghost predicate IsRun(text: seq<byte>, start: nat, end: nat)
    requires start < end <= |text|
  {
    && (forall i :: start <= i < end ==> IsNameByte(text[i]) == IsNameByte(text[start]))
    && (0 < start ==> IsNameByte(text[start - 1]) != IsNameByte(text[start]))
    && (end < |text| ==> IsNameByte(text[end]) != IsNameByte(text[start]))
  }

  lemma NameBytes(b: byte)
    ensures IsNameByte(b) == IsWordByte(b)
  {
  }

  lemma SegmentOf(text: seq<byte>, offset: nat, kind: TextBoundary) returns (start: nat, end: nat)
    requires ValidUtf8(text) && offset < |text| && kind !in {ByChar, ByAll}
    ensures Returns(text, offset, kind, start, end) && IsSegment(text, BoundaryOf(kind), start, end)
  {
    BoundariesCut(text, kind);
    SegmentAround(text, offset, BoundaryOf(kind));
    start, end := SegmentStart(text, offset, BoundaryOf(kind)), SegmentEnd(text, offset + 1, BoundaryOf(kind));
  }

  /** A word: the maximal run of name bytes, or of other bytes, around the offset. */
  lemma WordAt(text: seq<byte>, offset: nat) returns (start: nat, end: nat)
    requires ValidUtf8(text) && offset < |text|
    ensures Returns(text, offset, ByWord, start, end) && IsRun(text, start, end)
  {
    start, end := SegmentOf(text, offset, ByWord);
    WordSegmentsAreRuns(text, start, end);
    forall i | 0 <= i < |text|
      ensures IsNameByte(text[i]) == IsWordByte(text[i])
    {
      NameBytes(text[i]);
    }
  }

  predicate IsNewline(b: byte) {
    b as char == '\n'
  }

  /** A line: no newline but at its end, from a newline or the start to a newline or the end. */
  lemma LineAt(text: seq<byte>, offset: nat) returns (start: nat, end: nat)
    requires ValidUtf8(text) && offset < |text|
    ensures Returns(text, offset, ByLine, start, end)
    ensures forall i :: start <= i < end - 1 ==> !IsNewline(text[i])
    ensures 0 < start ==> IsNewline(text[start - 1])
    ensures end < |text| ==> IsNewline(text[end - 1])
  {
    start, end := SegmentOf(text, offset, ByLine);
    LineSegmentsEndInNewline(text, start, end);
  }

  /** A full stop, exclamation or question mark before a space or newline. */
  predicate EndMarkAt(text: seq<byte>, i: nat) {
    && i + 1 < |text|
    && (text[i] as char == '.' || text[i] as char == '!' || text[i] as char == '?')
    && (text[i + 1] as char == ' ' || text[i + 1] as char == '\n')
  }

  /** A sentence: no end mark but at its last byte, from one end mark or the start to the next or the end. */
  lemma SentenceAt(text: seq<byte>, offset: nat) returns (start: nat, end: nat)
    requires ValidUtf8(text) && offset < |text|
    ensures Returns(text, offset, BySentence, start, end)
    ensures forall i: nat :: start <= i < end - 1 ==> !EndMarkAt(text, i)
    ensures 0 < start ==> EndMarkAt(text, start - 1)
    ensures end < |text| ==> EndMarkAt(text, end - 1)
  {
    start, end := SegmentOf(text, offset, BySentence);
    SentenceSegmentsEndSentences(text, start, end);
    assert forall i: nat :: EndMarkAt(text, i) <==> EndsSentence(text, i);
  }

  predicate BlankLineAt(text: seq<byte>, i: nat) {
    i + 1 < |text| && IsNewline(text[i]) && IsNewline(text[i + 1])
  }

  /** A paragraph: no two newlines in a row but at its end, from two such or the start to two such or the end. */
  lemma ParagraphAt(text: seq<byte>, offset: nat) returns (start: nat, end: nat)
    requires ValidUtf8(text) && offset < |text|
    ensures Returns(text, offset, ByParagraph, start, end)
    ensures forall i: nat :: start <= i + 1 < end - 1 ==> !BlankLineAt(text, i)
    ensures 0 < start ==> 1 < start && BlankLineAt(text, start - 2)
    ensures end < |text| ==> 1 < end && BlankLineAt(text, end - 2)
  {
    start, end := SegmentOf(text, offset, ByParagraph);
    ParagraphSegmentsEndInBlankLines(text, start, end);
    assert forall i: nat :: BlankLineAt(text, i) <==> IsBlankLine(text, i);
  }

  /** A character: the one code point encoded at the offset. */
  lemma CharacterAt(text: seq<byte>, offset: nat) returns (cp: nat, end: nat)
    requires ValidUtf8(text) && offset < |text| && !IsTail(text[offset])
    ensures Returns(text, offset, ByChar, offset, end)
    ensures IsScalar(cp) && text[offset..end] == Encode(cp)
  {
    CharRange(text, offset);
    cp := CharIsEncoded(text[offset..]);
    end := offset + CharLen(text[offset..]);
    assert text[offset..end] == text[offset..][..end - offset];
  }

  /** Everything, and nothing for an offset out of range. */
  lemma AllAndNothing(text: seq<byte>, offset: nat, kind: TextBoundary)
    requires ValidUtf8(text)
    ensures offset < |text| ==> TextAtOffset(text, offset, ByAll) == Range(text, 0, |text|)
    ensures offset >= |text| ==> TextAtOffset(text, offset, kind) == Range([], 0, 0)
  {
  }
}
