/** The whitespace codec: payload bits become space (0) and tab (1) glyphs, one
    glyph appended to each line of the pretty-printed cover document, lines
    separated by "\n\r" (line feed, then carriage return). */
module WhitespaceCodec {
  import opened Wrappers
  import opened BitStream
  import opened Text

  /** The separator the program writes and splits on: LF then CR, not CRLF. */
  const LineSeparator: string := "\n\r"

  /** The separator `extract_tags` splits the stripped document on. */
  const TagBoundary: string := "><"

  predicate IsGlyph(c: char) { c == ' ' || c == '\t' }

  predicate AllGlyphs(s: string)
  {
    forall k :: 0 <= k < |s| ==> IsGlyph(s[k])
  }

  /** '0' becomes a space, '1' a tab. */
  function Glyph(b: bool): (c: char)
    ensures IsGlyph(c)
  {
    if b then '\t' else ' '
  }

  /** `replace(' ', '0').replace('\t', '1')` on a string of glyphs. */
  function GlyphBits(ws: string): (bits: seq<bool>)
    ensures |bits| == |ws|
    ensures forall k :: 0 <= k < |ws| && IsGlyph(ws[k]) ==> Glyph(bits[k]) == ws[k]
  {
    seq(|ws|, k requires 0 <= k < |ws| => ws[k] == '\t')
  }

  // ----- bytes_to_whitespace / whitespace_to_bytes -----

  /** `bytes_to_whitespace`: eight glyphs per byte, most significant bit first. */
  function BytesToWhitespace(p: seq<Byte>): (ws: string)
    ensures |ws| == 8 * |p| && AllGlyphs(ws)
  {
    var bits := BytesToBits(p);
    seq(|bits|, k requires 0 <= k < |bits| => Glyph(bits[k]))
  }

  /** What `whitespace_to_bytes` returns for a string of glyphs. */
  function DecodeGlyphs(ws: string): (bytes: seq<nat>)
    requires AllGlyphs(ws)
    ensures |bytes| == (|ws| + 7) / 8
  {
    GroupsShape(PadToByte(GlyphBits(ws)));
    Groups(PadToByte(GlyphBits(ws)))
  }

  /** The glyphs of byte `i` spell its eight binary digits, most significant first. */
  lemma {:induction false} WhitespaceOfByte(p: seq<Byte>, i: nat)
    requires i < |p|
    ensures GlyphBits(BytesToWhitespace(p)[8 * i .. 8 * i + 8]) == ZeroFilled(p[i], 8)
    ensures FromBits(GlyphBits(BytesToWhitespace(p)[8 * i .. 8 * i + 8])) == p[i]
  {
    BytesToBitsAt(p, i);
    GlyphBitsOfBytes(p, 8 * i, 8 * i + 8);
  }

  /** A slice of the glyphs reads as the same slice of the payload bits. */
  lemma {:induction false} GlyphBitsOfBytes(p: seq<Byte>, a: nat, b: nat)
    requires a <= b <= 8 * |p|
    ensures GlyphBits(BytesToWhitespace(p)[a..b]) == BytesToBits(p)[a..b]
  {
    var ws, bits := BytesToWhitespace(p), BytesToBits(p);
    forall k | 0 <= k < b - a
      ensures GlyphBits(ws[a..b])[k] == bits[a + k]
    {
      assert ws[a..b][k] == ws[a + k] == Glyph(bits[a + k]);
    }
  }

  /** Whitespace written for a byte list decodes to that byte list. */
  lemma {:induction false} WhitespaceRoundTrip(p: seq<Byte>)
    ensures DecodeGlyphs(BytesToWhitespace(p)) == p
  {
    assert GlyphBits(BytesToWhitespace(p)) == BytesToBits(p);
    GroupsOfBytes(p);
  }

  /** `whitespace_to_bytes` returns ceil(n/8) values, each in [0, 255]. */
  lemma {:induction false} DecodeGlyphsRange(ws: string)
    requires AllGlyphs(ws)
    ensures |DecodeGlyphs(ws)| == (|ws| + 7) / 8
    ensures forall j :: 0 <= j < |DecodeGlyphs(ws)| ==> DecodeGlyphs(ws)[j] < 256
  {
    GroupsShape(PadToByte(GlyphBits(ws)));
  }

  /** Every full group of eight glyphs is read as a binary number, tab = 1. */
  lemma {:induction false} DecodeGlyphsFullGroup(ws: string, k: nat)
    requires AllGlyphs(ws) && 8 * k + 8 <= |ws|
    ensures DecodeGlyphs(ws)[k] == FromBits(GlyphBits(ws[8 * k .. 8 * k + 8]))
  {
    var padded := PadToByte(GlyphBits(ws));
    GroupsAt(padded, k);
    assert padded[8 * k .. Min(8 * k + 8, |padded|)] == GlyphBits(ws[8 * k .. 8 * k + 8]);
  }

  /** A short last group is right-padded with zero bits: its value is shifted
      left by the number of missing positions. */
  lemma {:induction false} DecodeGlyphsLastGroup(ws: string, k: nat)
    requires AllGlyphs(ws) && 8 * k < |ws| < 8 * k + 8
    ensures DecodeGlyphs(ws)[k] == FromBits(GlyphBits(ws[8 * k ..])) * Pow2(8 * k + 8 - |ws|)
  {
    PaddedLastGroup(GlyphBits(ws), k);
    GlyphBitsSlice(ws, 8 * k);
  }

  /** The bits of a tail of the glyphs are the tail of their bits. */
  lemma GlyphBitsSlice(ws: string, i: nat)
    requires i <= |ws|
    ensures GlyphBits(ws)[i..] == GlyphBits(ws[i..])
  {
  }

  // ----- intersperse_whitespace / extract_whitespace -----

  /** The text `intersperse_whitespace` builds from the cover lines: line `i`
      followed by glyph `i` and the separator while both last; then either the
      remaining lines joined by the separator with one more separator after
      them, or the remaining glyphs with nothing around them. */
  function Interspersed(lines: seq<string>, glyphs: string): string
    decreases |lines|
  {
    if |glyphs| == 0 && |lines| > 0 then Join(lines, LineSeparator) + LineSeparator
    else if |lines| == 0 then glyphs
    else lines[0] + [glyphs[0]] + LineSeparator + Interspersed(lines[1..], glyphs[1..])
  }

  /** `w` in front of the glyphs a scan found, if it found any. */
  function Prepend(w: string, found: Option<string>): Option<string>
  {
    match found
    case None => None
    case Some(rest) => Some(w + rest)
  }

  /** The scan `extract_whitespace` makes over the split lines: every line but
      the last gives its final glyph until one ends in something else (an empty
      line raises IndexError, here None); when no line stopped the scan, the
      whole last piece is appended. */
  function ScanLines(lines: seq<string>): Option<string>
    requires |lines| >= 1
    decreases |lines|
  {
    if |lines| == 1 then Some(lines[0])
    else if |lines[0]| == 0 then None
    else
      var c := lines[0][|lines[0]| - 1];
      if !IsGlyph(c) then Some("")
      else Prepend([c], ScanLines(lines[1..]))
  }

  /** What `extract_whitespace` returns for a text (None where it raises). */
  function Extracted(text: string): Option<string>
  {
    ScanLines(Split(text, LineSeparator))
  }

  /** A line of the pretty-printed cover: non-empty, no line feed inside,
      and not ending in a glyph. The printed text ends in a line feed, so
      splitting it on line feeds gives these lines and then one empty piece;
      `ExtractPrinted` covers the list with that piece. */
  predicate CoverLine(line: string)
  {
    |line| > 0 && Avoids(line, '\n') && !IsGlyph(line[|line| - 1])
  }

  /** Extracting from an interspersed text gives back exactly the glyphs, both
      when the lines outnumber the glyphs and when glyphs are left over. */
  lemma {:induction false} ExtractInterspersed(lines: seq<string>, glyphs: string)
    requires forall k :: 0 <= k < |lines| ==> CoverLine(lines[k])
    requires AllGlyphs(glyphs)
    ensures Extracted(Interspersed(lines, glyphs)) == Some(glyphs)
    decreases |lines|
  {
    if |glyphs| == 0 && |lines| > 0 {
      SplitJoined(lines, LineSeparator);
      var pieces := lines + [""];
      assert pieces[0] == lines[0];
    } else if |lines| == 0 {
      SplitWhole(glyphs, LineSeparator);
    } else {
      var first := lines[0] + [glyphs[0]];
      var rest := Interspersed(lines[1..], glyphs[1..]);
      SplitAfter(first, rest, LineSeparator);
      ExtractInterspersed(lines[1..], glyphs[1..]);
      var pieces := [first] + Split(rest, LineSeparator);
      assert pieces[1..] == Split(rest, LineSeparator);
      assert glyphs == [glyphs[0]] + glyphs[1..];
    }
  }

  /** The cover lines as `intersperse_whitespace` receives them end in the
      empty piece after the printed text's final line feed. Extraction then
      gives back the glyphs unless there are exactly as many glyphs as real
      lines: the empty piece is then not the last one, and reading its final
      character raises IndexError. */
  lemma {:induction false} ExtractPrinted(lines: seq<string>, glyphs: string)
    requires forall k :: 0 <= k < |lines| ==> CoverLine(lines[k])
    requires AllGlyphs(glyphs)
    ensures Extracted(Interspersed(lines + [""], glyphs)) ==
      if |glyphs| == |lines| then None else Some(glyphs)
    decreases |lines|
  {
    var printed := lines + [""];
    if |glyphs| == 0 {
      assert forall k :: 0 <= k < |printed| ==> Avoids(printed[k], '\n');
      SplitJoined(printed, LineSeparator);
      var pieces := printed + [""];
      assert pieces[0] == printed[0];
      if |lines| > 0 {
        assert pieces[0] == lines[0];
      }
    } else if |lines| == 0 {
      assert printed == [""];
      SplitWhole(glyphs[1..], LineSeparator);
      SplitAfter([glyphs[0]], glyphs[1..], LineSeparator);
      assert Interspersed(printed, glyphs) == [glyphs[0]] + LineSeparator + glyphs[1..];
      var pieces := [[glyphs[0]], glyphs[1..]];
      assert IsGlyph(pieces[0][|pieces[0]| - 1]);
      assert ScanLines(pieces) == Prepend([glyphs[0]], Some(glyphs[1..]));
      assert glyphs == [glyphs[0]] + glyphs[1..];
    } else {
      var first := lines[0] + [glyphs[0]];
      assert printed[1..] == lines[1..] + [""];
      var rest := Interspersed(lines[1..] + [""], glyphs[1..]);
      SplitAfter(first, rest, LineSeparator);
      ExtractPrinted(lines[1..], glyphs[1..]);
      var pieces := [first] + Split(rest, LineSeparator);
      assert pieces[1..] == Split(rest, LineSeparator);
      assert glyphs == [glyphs[0]] + glyphs[1..];
    }
  }

  /** Bytes written into a printed cover come back unchanged, except when
      the cover has exactly eight lines per byte: the decoder then raises. */
  lemma {:induction false} PrintedSchemeRoundTrip(lines: seq<string>, p: seq<Byte>)
    requires forall k :: 0 <= k < |lines| ==> CoverLine(lines[k])
    ensures Extracted(Interspersed(lines + [""], BytesToWhitespace(p))) ==
      if 8 * |p| == |lines| then None else Some(BytesToWhitespace(p))
  {
    ExtractPrinted(lines, BytesToWhitespace(p));
  }

  /** The whole whitespace scheme: bytes written into any well-formed cover
      come back unchanged. */
  lemma {:induction false} WhitespaceSchemeRoundTrip(lines: seq<string>, p: seq<Byte>)
    requires forall k :: 0 <= k < |lines| ==> CoverLine(lines[k])
    ensures Extracted(Interspersed(lines, BytesToWhitespace(p))) == Some(BytesToWhitespace(p))
    ensures DecodeGlyphs(BytesToWhitespace(p)) == p
  {
    ExtractInterspersed(lines, BytesToWhitespace(p));
    WhitespaceRoundTrip(p);
  }

  method WhitespaceToBytes(whitespace: string) returns (myBytes: seq<nat>)
    requires AllGlyphs(whitespace)
    ensures myBytes == DecodeGlyphs(whitespace)
  {
    var message := GlyphBits(whitespace);
    if |message| % 8 != 0 {
      message := message + Zeros(8 - |message| % 8);
    }
    assert message == PadToByte(GlyphBits(whitespace));
    ghost var total := |message| / 8;
    assert |message| == 8 * total;
    myBytes := [];
    var index := 0;
    ghost var done := 0;
    while index < |message|
      invariant 0 <= done <= total && index == 8 * done
      invariant myBytes == Groups(message[..index])
    {
      GroupsStep(message, index);
      myBytes := myBytes + [FromBits(message[index..index + 8])];
      index := index + 8;
      done := done + 1;
    }
    assert message[..index] == message;
  }

  /** One round of the loop of `intersperse_whitespace`, behind the text `r`
      written so far. */
  lemma {:induction false} InterspersedStep(lines: seq<string>, glyphs: string, i: nat, r: string)
    requires i < |lines| && i < |glyphs|
    ensures r + Interspersed(lines[i..], glyphs[i..])
         == r + lines[i] + [glyphs[i]] + LineSeparator + Interspersed(lines[i + 1..], glyphs[i + 1..])
  {
    assert lines[i..][1..] == lines[i + 1..];
    assert glyphs[i..][1..] == glyphs[i + 1..];
  }

  /** What follows the loop of `intersperse_whitespace` once the lines or the
      glyphs have run out, behind the text `r` written so far. */
  lemma {:induction false} InterspersedRest(lines: seq<string>, glyphs: string, i: nat, r: string)
    requires i == Min(|lines|, |glyphs|)
    ensures r + Interspersed(lines[i..], glyphs[i..])
         == if |lines| > |glyphs| then r + Join(lines[i..], LineSeparator) + LineSeparator else r + glyphs[i..]
  {
  }

  /** `intersperse_whitespace`, taking the cover lines as already pretty-printed
      and split on line feeds. */
  method IntersperseWhitespace(coverList: seq<string>, whitespace: string) returns (results: string)
    ensures results == Interspersed(coverList, whitespace)
  {
    results := "";
    var index := 0;
    var minimum := Min(|coverList|, |whitespace|);
    assert coverList[index..] == coverList && whitespace[index..] == whitespace;
    while index < minimum
      invariant 0 <= index <= minimum
      invariant results + Interspersed(coverList[index..], whitespace[index..]) == Interspersed(coverList, whitespace)
    {
      InterspersedStep(coverList, whitespace, index, results);
      results := results + coverList[index] + [whitespace[index]] + LineSeparator;
      index := index + 1;
    }
    InterspersedRest(coverList, whitespace, index, results);
    if |coverList| > |whitespace| {
      results := results + Join(coverList[index..], LineSeparator) + LineSeparator;
    } else {
      results := results + whitespace[index..];
    }
  }

  /** `extract_whitespace`; None where the program raises IndexError on an
      empty line. The checks on the last piece build an exception object but
      never raise it, so they have no effect and are not modelled. */
  method ExtractWhitespace(encodedText: string) returns (r: Option<string>)
    ensures r == Extracted(encodedText)
  {
    var whitespace: string := "";
    var encodedLines := Split(encodedText, LineSeparator);
    var index := 0;
    assert encodedLines[index..] == encodedLines;
    assert Extracted(encodedText) == Prepend(whitespace, ScanLines(encodedLines[index..])) by {
      var scan := ScanLines(encodedLines);
      if scan.Some? {
        assert whitespace + scan.value == scan.value;
      }
    }
    while index < |encodedLines| - 1
      invariant 0 <= index < |encodedLines|
      invariant Extracted(encodedText) == Prepend(whitespace, ScanLines(encodedLines[index..]))
    {
      var each := encodedLines[index];
      if |each| == 0 {
        return None;
      }
      assert encodedLines[index..][1..] == encodedLines[index + 1..];
      if !IsGlyph(each[|each| - 1]) {
        // the scan stops: no more glyphs
        assert whitespace + "" == whitespace;
        return Some(whitespace);
      }
      var scan := ScanLines(encodedLines[index + 1..]);
      if scan.Some? {
        assert whitespace + ([each[|each| - 1]] + scan.value) == (whitespace + [each[|each| - 1]]) + scan.value;
      }
      whitespace := whitespace + [each[|each| - 1]];
      index := index + 1;
    }
    assert encodedLines[index..] == [encodedLines[|encodedLines| - 1]];
    // `encoded_text[-1]` raises on an empty text and the handler skips the
    // append; the last piece is then empty anyway.
    if |encodedText| > 0 {
      whitespace := whitespace + encodedLines[|encodedLines| - 1];
    } else {
      assert encodedLines == [""];
      assert whitespace + "" == whitespace;
    }
    r := Some(whitespace);
  }

  // ----- extract_tags -----

  /** `extract_tags`: split on "><", put the brackets back on both sides of
      every piece, then drop the first character of the first token and the
      last character of the last one. */
  function ExtractTags(text: string): (tokens: seq<string>)
    ensures |tokens| == |Split(text, TagBoundary)|
  {
    var pieces := Split(text, TagBoundary);
    var wrapped := seq(|pieces|, k requires 0 <= k < |pieces| => "<" + pieces[k] + ">");
    var trimmed := wrapped[0 := wrapped[0][1..]];
    var last := trimmed[|trimmed| - 1];
    trimmed[|trimmed| - 1 := last[..|last| - 1]]
  }

  /** Token `k` is piece `k` with '<' before it unless it is the first and '>'
      after it unless it is the last. */
  predicate TokenOf(pieces: seq<string>, tokens: seq<string>, k: nat)
    requires k < |pieces| == |tokens|
  {
    tokens[k] == (if k == 0 then "" else "<") + pieces[k] + (if k == |pieces| - 1 then "" else ">")
  }

  lemma {:induction false} ExtractTagsTokens(text: string)
    ensures forall k :: 0 <= k < |ExtractTags(text)| ==> TokenOf(Split(text, TagBoundary), ExtractTags(text), k)
  {
    var pieces := Split(text, TagBoundary);
    var tokens := ExtractTags(text);
    forall k | 0 <= k < |tokens|
      ensures TokenOf(pieces, tokens, k)
    {
      if k == 0 && |pieces| == 1 {
        assert tokens[0] == ("<" + pieces[0] + ">")[1..][..|pieces[0]|];
      }
    }
  }

  lemma {:induction false} ConcatTokensFrom(pieces: seq<string>, tokens: seq<string>, j: nat)
    requires 1 <= j < |pieces| == |tokens|
    requires forall k :: 0 <= k < |pieces| ==> TokenOf(pieces, tokens, k)
    ensures Concat(tokens[j..]) == "<" + Join(pieces[j..], TagBoundary)
    decreases |pieces| - j
  {
    assert TokenOf(pieces, tokens, j);
    assert tokens[j..][1..] == tokens[j + 1..];
    if j == |pieces| - 1 {
      assert tokens[j + 1..] == [];
    } else {
      ConcatTokensFrom(pieces, tokens, j + 1);
      assert pieces[j..][1..] == pieces[j + 1..];
    }
  }

  /** Tokens made from the pieces concatenate to the pieces joined on "><". */
  lemma {:induction false} ConcatTokens(pieces: seq<string>, tokens: seq<string>)
    requires 1 <= |pieces| == |tokens|
    requires forall k :: 0 <= k < |pieces| ==> TokenOf(pieces, tokens, k)
    ensures Concat(tokens) == Join(pieces, TagBoundary)
  {
    assert TokenOf(pieces, tokens, 0);
    if |pieces| == 1 {
      assert tokens[1..] == [];
      assert tokens[0] == pieces[0];
    } else {
      ConcatTokensFrom(pieces, tokens, 1);
      var rest := Join(pieces[1..], TagBoundary);
      assert tokens[0] == pieces[0] + ">";
      assert (pieces[0] + ">") + ("<" + rest) == pieces[0] + TagBoundary + rest;
    }
  }

  /** Concatenating the tokens gives back the text; every token but the first
      starts with '<' and every token but the last ends with '>'. */
  lemma {:induction false} ExtractTagsReconstructs(text: string)
    ensures Concat(ExtractTags(text)) == text
    ensures forall k :: 0 < k < |ExtractTags(text)| ==>
      |ExtractTags(text)[k]| > 0 && ExtractTags(text)[k][0] == '<'
    ensures forall k :: 0 <= k < |ExtractTags(text)| - 1 ==>
      |ExtractTags(text)[k]| > 0 && ExtractTags(text)[k][|ExtractTags(text)[k]| - 1] == '>'
  {
    var pieces := Split(text, TagBoundary);
    var tokens := ExtractTags(text);
    ExtractTagsTokens(text);
    JoinSplit(text, TagBoundary);
    ConcatTokens(pieces, tokens);
    forall k | 0 <= k < |tokens|
      ensures 0 < k ==> |tokens[k]| > 0 && tokens[k][0] == '<'
      ensures k < |tokens| - 1 ==> |tokens[k]| > 0 && tokens[k][|tokens[k]| - 1] == '>'
    {
      assert TokenOf(pieces, tokens, k);
    }
  }
}
