/**
 * PdfEncodingMap (src/podofo/main/PdfEncodingMap.cpp): the mapping between
 * character codes of a PDF string and Unicode code points or CIDs.
 *
 * An encoding map is modelled as a value whose virtual lookups
 * (tryGetCodePoints, tryGetCharCode, tryGetCharCodeSpan, tryGetNextCharCode)
 * are function-valued fields. The scanning operations are proved against
 * recursive reference definitions, and the CMap writers against the text
 * they are specified to produce, whose shape is then proved on its own
 * (sorted, one line per entry, a hex literal that reads back).
 */
module Encoding {
  import opened Common
  import opened Text

  // ---------------------------------------------------------------------
  // Values

  /** PdfCharCode: a code and the number of bytes it occupies in a string. */
  datatype CharCode = CharCode(code: uint32, codeSpaceSize: byte)

  /** The value-initialised PdfCharCode `{ }`. */
  const NoCode := CharCode(0, 0)

  /** PdfCID: a CID and the character code it was read from. */
  datatype CID = CID(id: uint32, unit: CharCode)

  /** The value-initialised PdfCID `{ }`. */
  const NoCID := CID(0, NoCode)

  /** PdfEncodingLimits. */
  datatype Limits = Limits(minCodeSize: byte, maxCodeSize: byte, firstChar: CharCode, lastChar: CharCode)

  /** The scanners read at least one and at most four bytes per code (a 32-bit `code`). */
  predicate ValidLimits(l: Limits)
  {
    1 <= l.maxCodeSize <= 4
  }

  datatype MapType = Simple | CMap

  datatype WModeKind = Horizontal | Vertical

  /** A code point value read as `unsigned` (char32_t is unsigned). */
  function CodePointId(cp: CodePoint): uint32
  {
    cp
  }

  /**
   * A PdfEncodingMap: its type, limits, ligature support, raw writing mode,
   * and its four lookups.
   *  - codePoints: tryGetCodePoints, the code points of a character code;
   *  - charCode: tryGetCharCode, the character code of one code point;
   *  - charCodeSpan: tryGetCharCodeSpan, the character code of a ligature;
   *  - nextCharCode: tryGetNextCharCode, the code at an index of a UTF-8
   *    string and the index after it (maps with ligature support).
   */
  datatype EncodingMap = EncodingMap(
    mapType: MapType,
    limits: Limits,
    hasLigatures: bool,
    wModeRaw: int,
    codePoints: CharCode -> Option<seq<CodePoint>>,
    charCode: CodePoint -> Option<CharCode>,
    charCodeSpan: seq<CodePoint> -> Option<CharCode>,
    nextCharCode: (seq<byte>, nat) -> Option<(CharCode, nat)>)

  lemma Pow256AtMost4(n: nat)
    requires n <= 4
    ensures Pow256(n) <= UINT32_LIMIT
  {
    assert Pow256(0) == 1;
    assert Pow256(1) == 0x100;
    assert Pow256(2) == 0x1_0000;
    assert Pow256(3) == 0x100_0000;
    assert Pow256(4) == 0x1_0000_0000;
  }

  /** The `len` bytes of `s` at `it`, accumulated big-endian into a code of size `len`. */
  function CodeAt(s: seq<byte>, it: nat, len: nat): (c: CharCode)
    requires it + len <= |s| && len <= 4
    ensures c.codeSpaceSize == len
  {
    BigEndianBound(s[it..it + len]);
    Pow256AtMost4(len);
    CharCode(BigEndian(s[it..it + len]), len)
  }

  /** `code <<= 8; code |= b`: one more byte extends the big-endian value. */
  lemma AccumulateByte(s: seq<byte>, it: nat, curr: nat)
    requires it <= curr < |s|
    ensures BigEndian(s[it..curr + 1]) == BigEndian(s[it..curr]) * 256 + s[curr]
  {
    assert s[it..curr + 1][..curr - it] == s[it..curr];
  }

  // ---------------------------------------------------------------------
  // GetWModeSafe

  /** GetWModeSafe: vertical exactly when the raw writing mode is 1. */
  function GetWModeSafe(m: EncodingMap): (k: WModeKind)
    ensures k == Vertical <==> m.wModeRaw == 1
  {
    if m.wModeRaw == 1 then Vertical else Horizontal
  }

  // ---------------------------------------------------------------------
  // tryGetNextCodePoints

  /** A code of `len` bytes at `it` is one tryGetNextCodePoints accepts. */
  predicate MatchesAt(m: EncodingMap, s: seq<byte>, it: nat, len: nat)
    requires ValidLimits(m.limits)
  {
    1 <= len && m.limits.minCodeSize <= len <= m.limits.maxCodeSize && it + len <= |s|
    && m.codePoints(CodeAt(s, it, len)).Some?
  }

  /**
   * Reference definition of the matching rule of section 9.7.6.2 of
   * ISO 32000-1:2008: the shortest accepted code length from `len` on, with
   * the code points it maps to.
   */
  function FirstMatchFrom(m: EncodingMap, s: seq<byte>, it: nat, len: nat): (r: Option<(nat, seq<CodePoint>)>)
    requires ValidLimits(m.limits) && 1 <= len
    ensures r.Some? ==> len <= r.value.0 <= m.limits.maxCodeSize && it + r.value.0 <= |s|
    decreases m.limits.maxCodeSize + 1 - len
  {
    if len > m.limits.maxCodeSize as int || it + len > |s| then None
    else if MatchesAt(m, s, it, len) then Some((len, m.codePoints(CodeAt(s, it, len)).value))
    else FirstMatchFrom(m, s, it, len + 1)
  }

  function FirstMatch(m: EncodingMap, s: seq<byte>, it: nat): (r: Option<(nat, seq<CodePoint>)>)
    requires ValidLimits(m.limits)
    ensures r.Some? ==> 1 <= r.value.0 <= m.limits.maxCodeSize && it + r.value.0 <= |s|
  {
    FirstMatchFrom(m, s, it, 1)
  }

  /** One step of the search: a length that does not match defers to the next one. */
  lemma FirstMatchStep(m: EncodingMap, s: seq<byte>, it: nat, len: nat)
    requires ValidLimits(m.limits) && 1 <= len <= m.limits.maxCodeSize && it + len <= |s|
    ensures !MatchesAt(m, s, it, len) ==> FirstMatchFrom(m, s, it, len) == FirstMatchFrom(m, s, it, len + 1)
    ensures MatchesAt(m, s, it, len) ==>
      FirstMatchFrom(m, s, it, len) == Some((len, m.codePoints(CodeAt(s, it, len)).value))
  {
  }

  /** FirstMatchFrom finds the shortest accepted length, and finds none only when there is none. */
  lemma {:induction false} FirstMatchFromSpec(m: EncodingMap, s: seq<byte>, it: nat, len: nat)
    requires ValidLimits(m.limits) && 1 <= len
    ensures FirstMatchFrom(m, s, it, len).Some? ==>
      (var l := FirstMatchFrom(m, s, it, len).value.0;
       MatchesAt(m, s, it, l) && m.codePoints(CodeAt(s, it, l)) == Some(FirstMatchFrom(m, s, it, len).value.1)
       && forall k :: len <= k < l ==> !MatchesAt(m, s, it, k))
    ensures FirstMatchFrom(m, s, it, len).None? ==> forall k :: len <= k ==> !MatchesAt(m, s, it, k)
    decreases m.limits.maxCodeSize + 1 - len
  {
    if len <= m.limits.maxCodeSize as int && it + len <= |s| {
      FirstMatchStep(m, s, it, len);
      if !MatchesAt(m, s, it, len) {
        FirstMatchFromSpec(m, s, it, len + 1);
      }
    }
  }

  /** The match FirstMatch reports is the shortest code the map accepts at `it`. */
  lemma FirstMatchSpec(m: EncodingMap, s: seq<byte>, it: nat)
    requires ValidLimits(m.limits)
    ensures FirstMatch(m, s, it).Some? ==>
      (var (l, cps) := FirstMatch(m, s, it).value;
       MatchesAt(m, s, it, l) && m.codePoints(CodeAt(s, it, l)) == Some(cps)
       && forall k: nat :: k < l ==> !MatchesAt(m, s, it, k))
    ensures FirstMatch(m, s, it).None? <==> forall k :: !MatchesAt(m, s, it, k)
  {
    FirstMatchFromSpec(m, s, it, 1);
  }

  /**
   * tryGetNextCodePoints: extends the code one byte at a time, from one byte
   * up to MaxCodeSize, and stops at the first length that is at least
   * MinCodeSize and that the map knows. On success the index moves past the
   * code; on failure it stays.
   */
  method TryGetNextCodePoints(m: EncodingMap, s: seq<byte>, it: nat)
    returns (ok: bool, next: nat, unit: CharCode, codePoints: seq<CodePoint>)
    requires it <= |s| && ValidLimits(m.limits)
    ensures ok <==> FirstMatch(m, s, it).Some?
    ensures ok ==> (next == it + FirstMatch(m, s, it).value.0
      && unit == CodeAt(s, it, next - it)
      && codePoints == FirstMatch(m, s, it).value.1)
    ensures !ok ==> next == it
  {
    ok, next, unit, codePoints := false, it, NoCode, [];
    var curr := it;
    var code: nat := 0;
    var i := 1;
    while curr < |s|
      invariant it <= curr <= |s| && curr - it == i - 1 && 1 <= i <= m.limits.maxCodeSize as int + 1
      invariant code == BigEndian(s[it..curr])
      invariant FirstMatch(m, s, it) == FirstMatchFrom(m, s, it, i)
      invariant !ok && next == it
    {
      if i > m.limits.maxCodeSize as int {
        return;
      }
      AccumulateByte(s, it, curr);
      code := code * 256 + s[curr];
      curr := curr + 1;
      assert code == CodeAt(s, it, i).code;
      unit := CharCode(code, i);
      FirstMatchStep(m, s, it, i);
      if i < m.limits.minCodeSize as int || m.codePoints(unit).None? {
        i := i + 1;
        continue;
      }
      codePoints := m.codePoints(unit).value;
      next := curr;
      ok := true;
      return;
    }
  }

  // ---------------------------------------------------------------------
  // TryGetNextCID

  /**
   * TryGetNextCID. A CMap reads the next code with tryGetNextCodePoints and
   * accepts it when it maps to exactly one code point, the CID; the index
   * moves past any code found, even one rejected for mapping to several code
   * points. Any other map reads exactly MaxCodeSize bytes and takes the code
   * itself as the CID.
   */
  method TryGetNextCID(m: EncodingMap, s: seq<byte>, it: nat) returns (ok: bool, next: nat, cid: CID)
    requires it <= |s| && ValidLimits(m.limits)
    ensures m.mapType == CMap && FirstMatch(m, s, it).None? ==> !ok && next == it && cid == NoCID
    ensures m.mapType == CMap && FirstMatch(m, s, it).Some? ==>
      (var (len, cps) := FirstMatch(m, s, it).value;
       next == it + len && (ok <==> |cps| == 1)
       && cid == if ok then CID(CodePointId(cps[0]), CodeAt(s, it, len)) else NoCID)
    ensures m.mapType != CMap && it + m.limits.maxCodeSize as int <= |s| ==>
      (var max := m.limits.maxCodeSize as int;
       ok && next == it + max && cid == CID(CodeAt(s, it, max).code, CodeAt(s, it, max)))
    ensures m.mapType != CMap && it + m.limits.maxCodeSize as int > |s| ==> !ok && next == it && cid == NoCID
  {
    if m.mapType == CMap {
      var unit, codePoints;
      ok, next, unit, codePoints := TryGetNextCodePoints(m, s, it);
      if !ok || |codePoints| != 1 {
        cid := NoCID;
        ok := false;
        return;
      }
      cid := CID(CodePointId(codePoints[0]), unit);
      return;
    }
    var curr := it;
    var code: nat := 0;
    var i := 1;
    next := it;
    while curr < |s|
      invariant it <= curr <= |s| && curr - it == i - 1 && 1 <= i <= m.limits.maxCodeSize as int
      invariant code == BigEndian(s[it..curr])
    {
      AccumulateByte(s, it, curr);
      code := code * 256 + s[curr];
      curr := curr + 1;
      if i == m.limits.maxCodeSize as int {
        assert code == CodeAt(s, it, i).code;
        cid := CID(code, CharCode(code, i));
        next := curr;
        ok := true;
        return;
      }
      i := i + 1;
    }
    ok, cid := false, NoCID;
  }

  // ---------------------------------------------------------------------
  // TryGetNextCharCode and TryGetCharCode

  /** The outcome of TryGetNextCharCode: success, the index after the step, the code. */
  datatype Step = Step(ok: bool, next: nat, code: CharCode)

  /**
   * TryGetNextCharCode over the UTF-8 string `s` at index `it`. At the end
   * of the string it fails with a cleared code. A map with ligature support
   * asks tryGetNextCharCode and moves only on success. Any other map decodes
   * one code point (raising on malformed UTF-8), moves past it, and looks
   * it up with tryGetCharCode; a failed lookup clears the code.
   */
  function TryGetNextCharCode(m: EncodingMap, s: seq<byte>, it: nat): (r: Result<Step>)
    requires it <= |s|
    ensures it == |s| ==> r == Ok(Step(false, it, NoCode))
    ensures r.Ok? && !r.value.ok ==> r.value.code == NoCode
    ensures m.hasLigatures ==> r.Ok? && (!r.value.ok ==> r.value.next == it)
    ensures m.hasLigatures && it < |s| ==>
      (r.value.ok <==> m.nextCharCode(s, it).Some?)
      && (r.value.ok ==> (r.value.code, r.value.next) == m.nextCharCode(s, it).value)
    ensures !m.hasLigatures && it < |s| ==> (r.Ok? <==> Utf8Decode(s[it..]).Ok?)
    ensures !m.hasLigatures && it < |s| && r.Ok? ==>
      (var (cp, n) := Utf8Decode(s[it..]).value;
       r.value.next == it + n <= |s| && s[it..r.value.next] == Utf8Encode(cp)
       && r.value.ok == m.charCode(cp).Some?)
  {
    if it == |s| then Ok(Step(false, it, NoCode))
    else if m.hasLigatures then
      match m.nextCharCode(s, it)
      case None => Ok(Step(false, it, NoCode))
      case Some((code, after)) => Ok(Step(true, after, code))
    else
      match Utf8Decode(s[it..])
      case Err(e) => Err(e)
      case Ok((cp, n)) =>
        Utf8EncodeDecode(s[it..]);
        assert s[it..][..n] == s[it..it + n];
        match m.charCode(cp)
        case None => Ok(Step(false, it + n, NoCode))
        case Some(code) => Ok(Step(true, it + n, code))
  }

  /**
   * TryGetCharCode(unicodeview): one code point goes to tryGetCharCode; a
   * ligature of several goes to tryGetCharCodeSpan when the map supports
   * ligatures; anything else fails.
   */
  function TryGetCharCode(m: EncodingMap, codePoints: seq<CodePoint>): (r: Option<CharCode>)
    ensures |codePoints| == 1 ==> r == m.charCode(codePoints[0])
    ensures |codePoints| != 1 && r.Some? ==> m.hasLigatures && |codePoints| > 1 && r == m.charCodeSpan(codePoints)
    ensures m.hasLigatures && |codePoints| > 1 ==> r == m.charCodeSpan(codePoints)
  {
    if |codePoints| == 1 then m.charCode(codePoints[0])
    else if |codePoints| == 0 || !m.hasLigatures then None
    else m.charCodeSpan(codePoints)
  }

  /**
   * Scanning a single encoded code point with TryGetNextCharCode agrees with
   * TryGetCharCode on that code point, for a map without ligatures.
   */
  lemma NextCharCodeAgreesWithCharCode(m: EncodingMap, cp: CodePoint, rest: seq<byte>)
    requires !m.hasLigatures && !IsSurrogate(cp)
    ensures var r := TryGetNextCharCode(m, Utf8Encode(cp) + rest, 0);
      r.Ok? && r.value.next == |Utf8Encode(cp)|
      && (r.value.ok <==> TryGetCharCode(m, [cp]).Some?)
      && (r.value.ok ==> Some(r.value.code) == TryGetCharCode(m, [cp]))
  {
    var s := Utf8Encode(cp) + rest;
    Utf8DecodeEncode(cp, rest);
    assert s[0..] == s;
  }

  // ---------------------------------------------------------------------
  // Output streams and the text the writers produce

  /** An OutputStream: the text written to it so far. */
  class OutputStream {
    var written: string

    constructor()
      ensures written == []
    {
      written := [];
    }

    method Write(text: string)
      modifies this
      ensures written == old(written) + text
    {
      written := written + text;
    }
  }

  /** Text without a line break. */
  predicate NoNewline(t: string)
  {
    forall j :: 0 <= j < |t| ==> t[j] != '\n'
  }

  /** One line: text without a line break, then a line break. */
  predicate IsLine(t: string)
  {
    |t| >= 1 && t[|t| - 1] == '\n' && NoNewline(t[..|t| - 1])
  }

  function CountNewlines(t: string): nat
  {
    if t == [] then 0 else CountNewlines(t[..|t| - 1]) + if t[|t| - 1] == '\n' then 1 else 0
  }

  /** The lines one after the other. */
  function Concat(lines: seq<string>): string
  {
    if lines == [] then "" else Concat(lines[..|lines| - 1]) + lines[|lines| - 1]
  }

  lemma {:induction false} CountNewlinesAppend(a: string, b: string)
    ensures CountNewlines(a + b) == CountNewlines(a) + CountNewlines(b)
    decreases |b|
  {
    if b == [] {
      assert a + b == a;
    } else {
      assert (a + b)[..|a + b| - 1] == a + b[..|b| - 1];
      CountNewlinesAppend(a, b[..|b| - 1]);
    }
  }

  lemma {:induction false} NoNewlineCount(t: string)
    requires NoNewline(t)
    ensures CountNewlines(t) == 0
  {
    if t != [] {
      NoNewlineCount(t[..|t| - 1]);
    }
  }

  /** The number of line breaks in a run of lines is the number of lines. */
  lemma {:induction false} ConcatLinesCount(lines: seq<string>)
    requires forall i :: 0 <= i < |lines| ==> IsLine(lines[i])
    ensures CountNewlines(Concat(lines)) == |lines|
  {
    if lines != [] {
      var last := lines[|lines| - 1];
      ConcatLinesCount(lines[..|lines| - 1]);
      CountNewlinesAppend(Concat(lines[..|lines| - 1]), last);
      NoNewlineCount(last[..|last| - 1]);
      CountNewlinesAppend(last[..|last| - 1], "\n");
      assert last == last[..|last| - 1] + "\n";
    }
  }

  lemma NoNewlineAppend(a: string, b: string)
    requires NoNewline(a) && NoNewline(b)
    ensures NoNewline(a + b)
  {
    forall j | 0 <= j < |a + b| ensures (a + b)[j] != '\n' {
      if j >= |a| {
        assert (a + b)[j] == b[j - |a|];
      }
    }
  }

  lemma MakesLine(t: string)
    requires NoNewline(t)
    ensures IsLine(t + "\n")
  {
    assert (t + "\n")[..|t|] == t;
  }

  lemma HexNoNewline(bs: seq<byte>)
    ensures NoNewline(HexOfBytes(bs))
  {
    HexOfBytesIsHex(bs);
  }

  lemma DecimalNoNewline(n: nat)
    ensures NoNewline(Decimal(n))
  {
  }

  lemma {:induction false} JoinNoNewline(pieces: seq<string>)
    requires forall i :: 0 <= i < |pieces| ==> NoNewline(pieces[i])
    ensures NoNewline(JoinSpaced(pieces))
  {
    if |pieces| > 1 {
      JoinNoNewline(pieces[..|pieces| - 1]);
      NoNewlineAppend(JoinSpaced(pieces[..|pieces| - 1]), " ");
      NoNewlineAppend(JoinSpaced(pieces[..|pieces| - 1]) + " ", pieces[|pieces| - 1]);
    }
  }

  // ---------------------------------------------------------------------
  // Hex literals of character codes (PdfCharCode::WriteHexTo)

  /** `<`, the code written on codeSpaceSize bytes in upper-case hex, `>`. */
  function CharCodeHex(c: CharCode): string
  {
    "<" + HexOfBytes(BigEndianBytes(c.code, c.codeSpaceSize)) + ">"
  }

  /** Reads a character code literal back: its digits give the bytes, its length the size. */
  function ParseCharCodeHex(t: string): Option<CharCode>
  {
    if |t| >= 2 && t[0] == '<' && t[|t| - 1] == '>' then
      match BytesOfHex(t[1..|t| - 1])
      case Some(bs) =>
        if |bs| <= 4 then
          BigEndianBound(bs);
          Pow256AtMost4(|bs|);
          Some(CharCode(BigEndian(bs), |bs|))
        else None
      case None => None
    else None
  }

  /** A code that fits its size reads back from its literal. */
  lemma CharCodeHexRoundTrip(c: CharCode)
    requires c.codeSpaceSize <= 4 && c.code < Pow256(c.codeSpaceSize)
    ensures ParseCharCodeHex(CharCodeHex(c)) == Some(c)
  {
    var bs := BigEndianBytes(c.code, c.codeSpaceSize);
    var t := CharCodeHex(c);
    assert t[1..|t| - 1] == HexOfBytes(bs);
    HexRoundTrip(bs);
    BigEndianRoundTrip(c.code, c.codeSpaceSize);
  }

  lemma CharCodeHexNoNewline(c: CharCode)
    ensures NoNewline(CharCodeHex(c))
  {
    var h := HexOfBytes(BigEndianBytes(c.code, c.codeSpaceSize));
    HexNoNewline(BigEndianBytes(c.code, c.codeSpaceSize));
    NoNewlineAppend("<", h);
    NoNewlineAppend("<" + h, ">");
  }

  // ---------------------------------------------------------------------
  // AppendUTF16CodeTo

  /** The UTF-16BE hex digits of one code point. */
  function Utf16Piece(cp: CodePoint): string
  {
    HexOfBytes(Utf16BE(cp))
  }

  function Utf16Pieces(codePoints: seq<CodePoint>): (r: seq<string>)
    ensures |r| == |codePoints|
  {
    seq(|codePoints|, i requires 0 <= i < |codePoints| => Utf16Piece(codePoints[i]))
  }

  /** The UTF-16BE hex of each code point, separated by single spaces. */
  function Utf16Hex(codePoints: seq<CodePoint>): string
  {
    if |codePoints| == 0 then ""
    else if |codePoints| == 1 then Utf16Piece(codePoints[0])
    else Utf16Hex(codePoints[..|codePoints| - 1]) + " " + Utf16Piece(codePoints[|codePoints| - 1])
  }

  /** Utf16Hex is the pieces joined by spaces. */
  lemma {:induction false} Utf16HexIsJoined(codePoints: seq<CodePoint>)
    ensures Utf16Hex(codePoints) == JoinSpaced(Utf16Pieces(codePoints))
  {
    if |codePoints| > 1 {
      var init := codePoints[..|codePoints| - 1];
      Utf16HexIsJoined(init);
      assert Utf16Pieces(codePoints)[..|codePoints| - 1] == Utf16Pieces(init);
    }
  }

  /** `<`, the UTF-16BE hex of each code point separated by single spaces, `>`. */
  function Utf16Literal(codePoints: seq<CodePoint>): string
  {
    "<" + Utf16Hex(codePoints) + ">"
  }

  function DecodeUtf16Pieces(pieces: seq<string>): Option<seq<CodePoint>>
  {
    if pieces == [] then Some([])
    else
      match BytesOfHex(pieces[0])
      case None => None
      case Some(bs) =>
        match (Utf16BEDecode(bs), DecodeUtf16Pieces(pieces[1..]))
        case (Some(cp), Some(rest)) => Some([cp] + rest)
        case _ => None
  }

  /** Reads a UTF-16BE hex literal back into code points. */
  function ParseUtf16Literal(t: string): Option<seq<CodePoint>>
  {
    if |t| >= 2 && t[0] == '<' && t[|t| - 1] == '>' then DecodeUtf16Pieces(SplitSpaced(t[1..|t| - 1]))
    else None
  }

  lemma {:induction false} DecodeUtf16PiecesRoundTrip(codePoints: seq<CodePoint>)
    ensures DecodeUtf16Pieces(Utf16Pieces(codePoints)) == Some(codePoints)
  {
    if codePoints != [] {
      var ps := Utf16Pieces(codePoints);
      HexRoundTrip(Utf16BE(codePoints[0]));
      Utf16RoundTrip(codePoints[0]);
      assert ps[1..] == Utf16Pieces(codePoints[1..]);
      DecodeUtf16PiecesRoundTrip(codePoints[1..]);
      assert codePoints == [codePoints[0]] + codePoints[1..];
    }
  }

  /** The literal AppendUTF16CodeTo writes reads back as the code points it was written from. */
  lemma Utf16LiteralRoundTrip(codePoints: seq<CodePoint>)
    ensures ParseUtf16Literal(Utf16Literal(codePoints)) == Some(codePoints)
  {
    var ps := Utf16Pieces(codePoints);
    forall i | 0 <= i < |ps| ensures |ps[i]| > 0 && NoSpace(ps[i]) {
      HexHasNoSpace(Utf16BE(codePoints[i]));
    }
    SplitJoin(ps);
    Utf16HexIsJoined(codePoints);
    var t := Utf16Literal(codePoints);
    assert t[1..|t| - 1] == JoinSpaced(ps);
    DecodeUtf16PiecesRoundTrip(codePoints);
  }

  lemma Utf16LiteralNoNewline(codePoints: seq<CodePoint>)
    ensures NoNewline(Utf16Literal(codePoints))
  {
    var ps := Utf16Pieces(codePoints);
    forall i | 0 <= i < |ps| ensures NoNewline(ps[i]) {
      HexNoNewline(Utf16BE(codePoints[i]));
    }
    JoinNoNewline(ps);
    Utf16HexIsJoined(codePoints);
    NoNewlineAppend("<", JoinSpaced(ps));
    NoNewlineAppend("<" + JoinSpaced(ps), ">");
  }

  /** Extending the code points by one extends the spaced hex by one piece. */
  /** What AppendUTF16CodeTo writes for one code point: a space unless it is the first, then its hex. */
  function SeparatedPiece(first: bool, cp: CodePoint): string
  {
    (if first then "" else " ") + Utf16Piece(cp)
  }

  lemma Utf16HexSnoc(codePoints: seq<CodePoint>, i: nat)
    requires i < |codePoints|
    ensures Utf16Hex(codePoints[..i + 1]) == Utf16Hex(codePoints[..i]) + SeparatedPiece(i == 0, codePoints[i])
  {
    assert codePoints[..i + 1][..i] == codePoints[..i];
  }

  /** The inner loop of AppendUTF16CodeTo: each byte as two hex digits (utls::WriteCharHexTo). */
  method WriteHexBytes(stream: OutputStream, data: seq<byte>)
    modifies stream
    ensures stream.written == old(stream.written) + HexOfBytes(data)
  {
    var l := 0;
    while l < |data|
      invariant 0 <= l <= |data|
      invariant stream.written == old(stream.written) + HexOfBytes(data[..l])
    {
      HexOfBytesAppend(data[..l], [data[l]]);
      assert data[..l + 1] == data[..l] + [data[l]];
      stream.Write(HexOfBytes([data[l]]));
      l := l + 1;
    }
    assert data[..l] == data;
  }

  /** One code point of AppendUTF16CodeTo. */
  method WriteUtf16Piece(stream: OutputStream, first: bool, cp: CodePoint)
    modifies stream
    ensures stream.written == old(stream.written) + SeparatedPiece(first, cp)
  {
    if !first {
      stream.Write(" ");
    }
    WriteHexBytes(stream, Utf16BE(cp));
  }

  /**
   * AppendUTF16CodeTo: writes `<`, then for each code point its UTF-16BE
   * bytes as hex pairs, a space between code points, then `>`.
   */
  method AppendUtf16CodeTo(stream: OutputStream, codePoints: seq<CodePoint>)
    modifies stream
    ensures stream.written == old(stream.written) + Utf16Literal(codePoints)
  {
    stream.Write("<");
    ghost var prefix := stream.written;
    var first := true;
    var i := 0;
    while i < |codePoints|
      invariant 0 <= i <= |codePoints| && first == (i == 0)
      invariant stream.written == prefix + Utf16Hex(codePoints[..i])
    {
      ghost var done := Utf16Hex(codePoints[..i]);
      Utf16HexSnoc(codePoints, i);
      WriteUtf16Piece(stream, first, codePoints[i]);
      AppendAssoc(prefix, done, SeparatedPiece(first, codePoints[i]));
      first := false;
      i := i + 1;
    }
    assert codePoints[..i] == codePoints;
    stream.Write(">");
  }

  // ---------------------------------------------------------------------
  // Deterministic order of the char codes (std::set<PdfCharCode>)

  /** The order of the sorted key set: by code, then by code space size. */
  predicate CodeBefore(a: CharCode, b: CharCode)
  {
    a.code < b.code || (a.code == b.code && a.codeSpaceSize < b.codeSpaceSize)
  }

  predicate StrictlyAscending(codes: seq<CharCode>)
  {
    forall i, j :: 0 <= i < j < |codes| ==> CodeBefore(codes[i], codes[j])
  }

  predicate IsLeast(k: CharCode, keys: set<CharCode>)
  {
    k in keys && forall c :: c in keys && c != k ==> CodeBefore(k, c)
  }

  lemma {:induction false} LeastExists(keys: set<CharCode>)
    requires keys != {}
    ensures exists k :: IsLeast(k, keys)
    decreases |keys|
  {
    var x :| x in keys;
    if keys == {x} {
      assert IsLeast(x, keys);
    } else {
      LeastExists(keys - {x});
      var y :| IsLeast(y, keys - {x});
      if CodeBefore(x, y) {
        forall c | c in keys && c != x ensures CodeBefore(x, c) {
          if c != y {
            assert CodeBefore(y, c);
          }
        }
        assert IsLeast(x, keys);
      } else {
        assert CodeBefore(y, x);
        assert IsLeast(y, keys);
      }
    }
  }

  lemma LeastUnique(keys: set<CharCode>)
    ensures forall a, b :: IsLeast(a, keys) && IsLeast(b, keys) ==> a == b
  {
  }

  /** The keys in ascending order, each once. */
  function SortedCodes(keys: set<CharCode>): (r: seq<CharCode>)
    ensures StrictlyAscending(r) && |r| == |keys|
    ensures forall c :: c in r <==> c in keys
    decreases |keys|
  {
    if keys == {} then []
    else
      LeastExists(keys);
      LeastUnique(keys);
      var k :| IsLeast(k, keys);
      var rest := SortedCodes(keys - {k});
      assert |keys - {k}| == |keys| - 1;
      assert forall i :: 0 <= i < |rest| ==> CodeBefore(k, rest[i]);
      [k] + rest
  }

  // ---------------------------------------------------------------------
  // The lines of a CMap

  /** A PdfCharCodeMap range: the source codes from srcCodeLo to srcCodeHi and the first destination. */
  datatype CodeRange = CodeRange(srcCodeLo: CharCode, srcCodeHi: CharCode, dstCodeLo: seq<CodePoint>)

  /** One bfchar entry: the code, a space, the UTF-16 literal. */
  function BfCharLine(code: CharCode, codePoints: seq<CodePoint>): string
  {
    CharCodeHex(code) + " " + Utf16Literal(codePoints) + "\n"
  }

  /** One bfrange entry: both codes with nothing between them, a space, the UTF-16 literal. */
  function BfRangeLine(range: CodeRange): string
  {
    CharCodeHex(range.srcCodeLo) + CharCodeHex(range.srcCodeHi) + " " + Utf16Literal(range.dstCodeLo) + "\n"
  }

  /** writeCIDMapping: the code, a space, the CID in decimal. */
  function CidCharLine(code: CharCode, cid: uint32): string
  {
    CharCodeHex(code) + " " + Decimal(cid) + "\n"
  }

  /** writeCIDRange: both codes with nothing between them, a space, the first CID in decimal. */
  function CidRangeLine(lo: CharCode, hi: CharCode, cid: uint32): string
  {
    CharCodeHex(lo) + CharCodeHex(hi) + " " + Decimal(cid) + "\n"
  }

  lemma BfCharLineIsLine(code: CharCode, codePoints: seq<CodePoint>)
    ensures IsLine(BfCharLine(code, codePoints))
  {
    CharCodeHexNoNewline(code);
    Utf16LiteralNoNewline(codePoints);
    NoNewlineAppend(CharCodeHex(code), " ");
    NoNewlineAppend(CharCodeHex(code) + " ", Utf16Literal(codePoints));
    MakesLine(CharCodeHex(code) + " " + Utf16Literal(codePoints));
  }

  lemma BfRangeLineIsLine(range: CodeRange)
    ensures IsLine(BfRangeLine(range))
  {
    var a, b := CharCodeHex(range.srcCodeLo), CharCodeHex(range.srcCodeHi);
    CharCodeHexNoNewline(range.srcCodeLo);
    CharCodeHexNoNewline(range.srcCodeHi);
    Utf16LiteralNoNewline(range.dstCodeLo);
    NoNewlineAppend(a, b);
    NoNewlineAppend(a + b, " ");
    NoNewlineAppend(a + b + " ", Utf16Literal(range.dstCodeLo));
    MakesLine(a + b + " " + Utf16Literal(range.dstCodeLo));
  }

  lemma CidCharLineIsLine(code: CharCode, cid: uint32)
    ensures IsLine(CidCharLine(code, cid))
  {
    CharCodeHexNoNewline(code);
    NoNewlineAppend(CharCodeHex(code), " ");
    NoNewlineAppend(CharCodeHex(code) + " ", Decimal(cid));
    MakesLine(CharCodeHex(code) + " " + Decimal(cid));
  }

  lemma CidRangeLineIsLine(lo: CharCode, hi: CharCode, cid: uint32)
    ensures IsLine(CidRangeLine(lo, hi, cid))
  {
    var a, b := CharCodeHex(lo), CharCodeHex(hi);
    CharCodeHexNoNewline(lo);
    CharCodeHexNoNewline(hi);
    NoNewlineAppend(a, b);
    NoNewlineAppend(a + b, " ");
    NoNewlineAppend(a + b + " ", Decimal(cid));
    MakesLine(a + b + " " + Decimal(cid));
  }


  lemma ConcatSnoc(lines: seq<string>, i: nat)
    requires i < |lines|
    ensures Concat(lines[..i + 1]) == Concat(lines[..i]) + lines[i]
  {
    assert lines[..i + 1][..i] == lines[..i];
  }

  /** Writes `lines` one after the other. */
  method WriteLines(stream: OutputStream, lines: seq<string>)
    modifies stream
    ensures stream.written == old(stream.written) + Concat(lines)
  {
    var i := 0;
    while i < |lines|
      invariant 0 <= i <= |lines|
      invariant stream.written == old(stream.written) + Concat(lines[..i])
    {
      ConcatSnoc(lines, i);
      AppendAssoc(old(stream.written), Concat(lines[..i]), lines[i]);
      stream.Write(lines[i]);
      i := i + 1;
    }
    assert lines[..i] == lines;
  }

  // ---------------------------------------------------------------------
  // PdfEncodingMapBase: the writers over a PdfCharCodeMap

  /** PdfCharCodeMap: single mappings and ranges. */
  datatype CharCodeMap = CharCodeMap(mappings: map<CharCode, seq<CodePoint>>, ranges: seq<CodeRange>)

  /** The bfchar lines: one per mapping, in ascending code order. */
  function BfCharLines(mappings: map<CharCode, seq<CodePoint>>): (lines: seq<string>)
    ensures |lines| == |mappings|
  {
    var codes := SortedCodes(mappings.Keys);
    seq(|codes|, i requires 0 <= i < |codes| => BfCharLine(codes[i], mappings[codes[i]]))
  }

  function BfRangeLines(ranges: seq<CodeRange>): (lines: seq<string>)
    ensures |lines| == |ranges|
  {
    seq(|ranges|, i requires 0 <= i < |ranges| => BfRangeLine(ranges[i]))
  }

  /** A block: the number of lines, the begin keyword, the lines, the end keyword. */
  function CountedBlock(begin: string, lines: seq<string>, end: string): string
  {
    Decimal(|lines|) + begin + Concat(lines) + end
  }

  /** A block as the base map writes it: nothing at all when there are no lines. */
  function Block(begin: string, lines: seq<string>, end: string): string
  {
    if |lines| == 0 then "" else CountedBlock(begin, lines, end)
  }

  /** PdfEncodingMapBase::AppendToUnicodeEntries: a bfchar block, then a bfrange block. */
  function BaseToUnicodeEntries(charMap: CharCodeMap): string
  {
    Block(" beginbfchar\n", BfCharLines(charMap.mappings), "endbfchar\n")
      + Block(" beginbfrange\n", BfRangeLines(charMap.ranges), "endbfrange\n")
  }

  /** Each single mapping and each range maps to at least one code point (the CID writers read the first). */
  predicate HasCids(charMap: CharCodeMap)
  {
    (forall c :: c in charMap.mappings ==> |charMap.mappings[c]| > 0)
    && forall i :: 0 <= i < |charMap.ranges| ==> |charMap.ranges[i].dstCodeLo| > 0
  }

  function CidCharLines(mappings: map<CharCode, seq<CodePoint>>): (lines: seq<string>)
    requires forall c :: c in mappings ==> |mappings[c]| > 0
    ensures |lines| == |mappings|
  {
    var codes := SortedCodes(mappings.Keys);
    seq(|codes|, i requires 0 <= i < |codes| => CidCharLine(codes[i], CodePointId(mappings[codes[i]][0])))
  }

  function CidRangeLines(ranges: seq<CodeRange>): (lines: seq<string>)
    requires forall i :: 0 <= i < |ranges| ==> |ranges[i].dstCodeLo| > 0
    ensures |lines| == |ranges|
  {
    seq(|ranges|, i requires 0 <= i < |ranges| =>
      CidRangeLine(ranges[i].srcCodeLo, ranges[i].srcCodeHi, CodePointId(ranges[i].dstCodeLo[0])))
  }

  /** PdfEncodingMapBase::AppendCIDMappingEntries: a cidchar block, then a cidrange block. */
  function BaseCidMappingEntries(charMap: CharCodeMap): string
    requires HasCids(charMap)
  {
    Block(" begincidchar\n", CidCharLines(charMap.mappings), "endcidchar\n")
      + Block(" begincidrange\n", CidRangeLines(charMap.ranges), "endcidrange\n")
  }

  /**
   * The count that opens the bfchar block is its number of lines: one per
   * mapping (BfCharLines gives one line per code of SortedCodes, whose own
   * contract makes those codes exactly the keys, ascending).
   */
  lemma BfCharBlockSpec(mappings: map<CharCode, seq<CodePoint>>)
    ensures CountNewlines(Concat(BfCharLines(mappings))) == |mappings|
  {
    var lines := BfCharLines(mappings);
    forall i | 0 <= i < |lines| ensures IsLine(lines[i]) {
      var codes := SortedCodes(mappings.Keys);
      BfCharLineIsLine(codes[i], mappings[codes[i]]);
    }
    ConcatLinesCount(lines);
  }

  /** The bfrange block has one line per range, in the ranges' order. */
  lemma BfRangeBlockSpec(ranges: seq<CodeRange>)
    ensures CountNewlines(Concat(BfRangeLines(ranges))) == |ranges|
  {
    var lines := BfRangeLines(ranges);
    forall i | 0 <= i < |lines| ensures IsLine(lines[i]) {
      BfRangeLineIsLine(ranges[i]);
    }
    ConcatLinesCount(lines);
  }

  /** The cidchar and cidrange blocks have one line per mapping and per range. */
  lemma CidBlocksSpec(charMap: CharCodeMap)
    requires HasCids(charMap)
    ensures CountNewlines(Concat(CidCharLines(charMap.mappings))) == |charMap.mappings|
    ensures CountNewlines(Concat(CidRangeLines(charMap.ranges))) == |charMap.ranges|
  {
    var chars, ranges := CidCharLines(charMap.mappings), CidRangeLines(charMap.ranges);
    forall i | 0 <= i < |chars| ensures IsLine(chars[i]) {
      var codes := SortedCodes(charMap.mappings.Keys);
      CidCharLineIsLine(codes[i], CodePointId(charMap.mappings[codes[i]][0]));
    }
    forall i | 0 <= i < |ranges| ensures IsLine(ranges[i]) {
      var r := charMap.ranges[i];
      CidRangeLineIsLine(r.srcCodeLo, r.srcCodeHi, CodePointId(r.dstCodeLo[0]));
    }
    ConcatLinesCount(chars);
    ConcatLinesCount(ranges);
  }

  /** The text of a non-empty block, regrouped as the writers produce it. */
  lemma BlockRegroup(w: string, begin: string, lines: seq<string>, end: string)
    ensures w + Decimal(|lines|) + begin + Concat(lines) + end == w + CountedBlock(begin, lines, end)
  {
    AppendAssoc(w, Decimal(|lines|), begin);
    AppendAssoc(w, Decimal(|lines|) + begin, Concat(lines));
    AppendAssoc(w, Decimal(|lines|) + begin + Concat(lines), end);
  }

  /** One bfchar entry, written piece by piece. */
  method WriteBfCharLine(stream: OutputStream, code: CharCode, codePoints: seq<CodePoint>)
    modifies stream
    ensures stream.written == old(stream.written) + BfCharLine(code, codePoints)
  {
    ghost var w := old(stream.written);
    var a := CharCodeHex(code);
    stream.Write(a);
    stream.Write(" ");
    AppendUtf16CodeTo(stream, codePoints);
    stream.Write("\n");
    AppendAssoc(w, a, " ");
    AppendAssoc(w, a + " ", Utf16Literal(codePoints));
    AppendAssoc(w, a + " " + Utf16Literal(codePoints), "\n");
  }

  /** One bfrange entry, written piece by piece. */
  method WriteBfRangeLine(stream: OutputStream, range: CodeRange)
    modifies stream
    ensures stream.written == old(stream.written) + BfRangeLine(range)
  {
    ghost var w := old(stream.written);
    var a, b := CharCodeHex(range.srcCodeLo), CharCodeHex(range.srcCodeHi);
    stream.Write(a);
    stream.Write(b);
    stream.Write(" ");
    AppendUtf16CodeTo(stream, range.dstCodeLo);
    stream.Write("\n");
    AppendAssoc(w, a, b);
    AppendAssoc(w, a + b, " ");
    AppendAssoc(w, a + b + " ", Utf16Literal(range.dstCodeLo));
    AppendAssoc(w, a + b + " " + Utf16Literal(range.dstCodeLo), "\n");
  }

  /** The bfchar block: the count, then one entry per code of the sorted key set. */
  method WriteBfCharBlock(stream: OutputStream, mappings: map<CharCode, seq<CodePoint>>)
    modifies stream
    ensures stream.written == old(stream.written) + Block(" beginbfchar\n", BfCharLines(mappings), "endbfchar\n")
  {
    if |mappings| != 0 {
      var ordered := SortedCodes(mappings.Keys);
      ghost var lines := BfCharLines(mappings);
      stream.Write(Decimal(|mappings|));
      stream.Write(" beginbfchar\n");
      ghost var start := stream.written;
      for i := 0 to |ordered|
        invariant stream.written == start + Concat(lines[..i])
      {
        ConcatSnoc(lines, i);
        AppendAssoc(start, Concat(lines[..i]), lines[i]);
        WriteBfCharLine(stream, ordered[i], mappings[ordered[i]]);
      }
      assert lines[..|ordered|] == lines;
      stream.Write("endbfchar\n");
      BlockRegroup(old(stream.written), " beginbfchar\n", lines, "endbfchar\n");
    }
  }

  /** The bfrange block: the count, then one entry per range. */
  method WriteBfRangeBlock(stream: OutputStream, ranges: seq<CodeRange>)
    modifies stream
    ensures stream.written == old(stream.written) + Block(" beginbfrange\n", BfRangeLines(ranges), "endbfrange\n")
  {
    if |ranges| != 0 {
      ghost var lines := BfRangeLines(ranges);
      stream.Write(Decimal(|ranges|));
      stream.Write(" beginbfrange\n");
      ghost var start := stream.written;
      for i := 0 to |ranges|
        invariant stream.written == start + Concat(lines[..i])
      {
        ConcatSnoc(lines, i);
        AppendAssoc(start, Concat(lines[..i]), lines[i]);
        WriteBfRangeLine(stream, ranges[i]);
      }
      assert lines[..|ranges|] == lines;
      stream.Write("endbfrange\n");
      BlockRegroup(old(stream.written), " beginbfrange\n", lines, "endbfrange\n");
    }
  }

  /**
   * PdfEncodingMapBase::AppendToUnicodeEntries: when there are mappings,
   * their count and `beginbfchar`, one line per code in ascending order,
   * `endbfchar`; then likewise the ranges in a bfrange block.
   */
  method AppendToUnicodeEntries(stream: OutputStream, charMap: CharCodeMap)
    modifies stream
    ensures stream.written == old(stream.written) + BaseToUnicodeEntries(charMap)
  {
    WriteBfCharBlock(stream, charMap.mappings);
    WriteBfRangeBlock(stream, charMap.ranges);
    AppendAssoc(old(stream.written), Block(" beginbfchar\n", BfCharLines(charMap.mappings), "endbfchar\n"),
      Block(" beginbfrange\n", BfRangeLines(charMap.ranges), "endbfrange\n"));
  }

  /** writeCIDMapping, written piece by piece. */
  method WriteCidMapping(stream: OutputStream, code: CharCode, cid: uint32)
    modifies stream
    ensures stream.written == old(stream.written) + CidCharLine(code, cid)
  {
    ghost var w := old(stream.written);
    var a, d := CharCodeHex(code), Decimal(cid);
    stream.Write(a);
    stream.Write(" ");
    stream.Write(d);
    stream.Write("\n");
    AppendAssoc(w, a, " ");
    AppendAssoc(w, a + " ", d);
    AppendAssoc(w, a + " " + d, "\n");
  }

  /** writeCIDRange, written piece by piece. */
  method WriteCidRange(stream: OutputStream, lo: CharCode, hi: CharCode, cid: uint32)
    modifies stream
    ensures stream.written == old(stream.written) + CidRangeLine(lo, hi, cid)
  {
    ghost var w := old(stream.written);
    var a, b, d := CharCodeHex(lo), CharCodeHex(hi), Decimal(cid);
    stream.Write(a);
    stream.Write(b);
    stream.Write(" ");
    stream.Write(d);
    stream.Write("\n");
    AppendAssoc(w, a, b);
    AppendAssoc(w, a + b, " ");
    AppendAssoc(w, a + b + " ", d);
    AppendAssoc(w, a + b + " " + d, "\n");
  }

  method WriteCidCharBlock(stream: OutputStream, mappings: map<CharCode, seq<CodePoint>>)
    requires forall c :: c in mappings ==> |mappings[c]| > 0
    modifies stream
    ensures stream.written == old(stream.written) + Block(" begincidchar\n", CidCharLines(mappings), "endcidchar\n")
  {
    if |mappings| != 0 {
      var ordered := SortedCodes(mappings.Keys);
      ghost var lines := CidCharLines(mappings);
      stream.Write(Decimal(|mappings|));
      stream.Write(" begincidchar\n");
      ghost var start := stream.written;
      for i := 0 to |ordered|
        invariant stream.written == start + Concat(lines[..i])
      {
        ConcatSnoc(lines, i);
        AppendAssoc(start, Concat(lines[..i]), lines[i]);
        WriteCidMapping(stream, ordered[i], CodePointId(mappings[ordered[i]][0]));
      }
      assert lines[..|ordered|] == lines;
      stream.Write("endcidchar\n");
      BlockRegroup(old(stream.written), " begincidchar\n", lines, "endcidchar\n");
    }
  }

  method WriteCidRangeBlock(stream: OutputStream, ranges: seq<CodeRange>)
    requires forall i :: 0 <= i < |ranges| ==> |ranges[i].dstCodeLo| > 0
    modifies stream
    ensures stream.written == old(stream.written) + Block(" begincidrange\n", CidRangeLines(ranges), "endcidrange\n")
  {
    if |ranges| != 0 {
      ghost var lines := CidRangeLines(ranges);
      stream.Write(Decimal(|ranges|));
      stream.Write(" begincidrange\n");
      ghost var start := stream.written;
      for i := 0 to |ranges|
        invariant stream.written == start + Concat(lines[..i])
      {
        ConcatSnoc(lines, i);
        AppendAssoc(start, Concat(lines[..i]), lines[i]);
        WriteCidRange(stream, ranges[i].srcCodeLo, ranges[i].srcCodeHi, CodePointId(ranges[i].dstCodeLo[0]));
      }
      assert lines[..|ranges|] == lines;
      stream.Write("endcidrange\n");
      BlockRegroup(old(stream.written), " begincidrange\n", lines, "endcidrange\n");
    }
  }

  /**
   * PdfEncodingMapBase::AppendCIDMappingEntries: a cidchar block over the
   * sorted mappings and a cidrange block over the ranges, each CID being the
   * first code point of the destination.
   */
  method AppendCidMappingEntries(stream: OutputStream, charMap: CharCodeMap)
    requires HasCids(charMap)
    modifies stream
    ensures stream.written == old(stream.written) + BaseCidMappingEntries(charMap)
  {
    WriteCidCharBlock(stream, charMap.mappings);
    WriteCidRangeBlock(stream, charMap.ranges);
    AppendAssoc(old(stream.written), Block(" begincidchar\n", CidCharLines(charMap.mappings), "endcidchar\n"),
      Block(" begincidrange\n", CidRangeLines(charMap.ranges), "endcidrange\n"));
  }

  // ---------------------------------------------------------------------
  // AppendCodeSpaceRange

  /** PdfEncodingMap::AppendCodeSpaceRange: one range, from the first to the last char code. */
  function LimitsCodeSpaceRange(limits: Limits): string
  {
    "1 begincodespacerange\n" + CharCodeHex(limits.firstChar) + CharCodeHex(limits.lastChar)
      + "\nendcodespacerange\n"
  }

  method AppendLimitsCodeSpaceRange(stream: OutputStream, limits: Limits)
    modifies stream
    ensures stream.written == old(stream.written) + LimitsCodeSpaceRange(limits)
  {
    var a, b := CharCodeHex(limits.firstChar), CharCodeHex(limits.lastChar);
    stream.Write("1 begincodespacerange\n");
    stream.Write(a);
    stream.Write(b);
    stream.Write("\nendcodespacerange\n");
    AppendAssoc(old(stream.written), "1 begincodespacerange\n", a);
    AppendAssoc(old(stream.written), "1 begincodespacerange\n" + a, b);
    AppendAssoc(old(stream.written), "1 begincodespacerange\n" + a + b, "\nendcodespacerange\n");
  }

  /** The ranges of PdfEncodingMapBase::AppendCodeSpaceRange, each as its two codes, separated by line breaks. */
  function CodeSpaceBody(ranges: seq<(CharCode, CharCode)>): string
  {
    if |ranges| == 0 then ""
    else if |ranges| == 1 then CharCodeHex(ranges[0].0) + CharCodeHex(ranges[0].1)
    else
      var last := ranges[|ranges| - 1];
      CodeSpaceBody(ranges[..|ranges| - 1]) + "\n" + CharCodeHex(last.0) + CharCodeHex(last.1)
  }

  /** PdfEncodingMapBase::AppendCodeSpaceRange. */
  function BaseCodeSpaceRange(ranges: seq<(CharCode, CharCode)>): string
  {
    Decimal(|ranges|) + " begincodespacerange\n" + CodeSpaceBody(ranges) + "\nendcodespacerange\n"
  }

  /** Between the header and the trailer there is one line per range. */
  lemma {:induction false} CodeSpaceBodyLines(ranges: seq<(CharCode, CharCode)>)
    ensures CountNewlines(CodeSpaceBody(ranges) + "\n") == |ranges| + if |ranges| == 0 then 1 else 0
  {
    if |ranges| == 0 {
      assert CodeSpaceBody(ranges) + "\n" == "\n";
      assert "\n"[..0] == "";
    } else {
      var last := CharCodeHex(ranges[|ranges| - 1].0) + CharCodeHex(ranges[|ranges| - 1].1);
      CharCodeHexNoNewline(ranges[|ranges| - 1].0);
      CharCodeHexNoNewline(ranges[|ranges| - 1].1);
      NoNewlineAppend(CharCodeHex(ranges[|ranges| - 1].0), CharCodeHex(ranges[|ranges| - 1].1));
      NoNewlineCount(last);
      CountNewlinesAppend(last, "\n");
      assert "\n"[..0] == "";
      if |ranges| > 1 {
        var init := ranges[..|ranges| - 1];
        CodeSpaceBodyLines(init);
        CountNewlinesAppend(CodeSpaceBody(init) + "\n", last + "\n");
        AppendAssoc(CodeSpaceBody(init) + "\n", CharCodeHex(ranges[|ranges| - 1].0), CharCodeHex(ranges[|ranges| - 1].1));
        AppendAssoc(CodeSpaceBody(init) + "\n", last, "\n");
      }
    }
  }

  method AppendCodeSpaceRange(stream: OutputStream, ranges: seq<(CharCode, CharCode)>)
    modifies stream
    ensures stream.written == old(stream.written) + BaseCodeSpaceRange(ranges)
  {
    stream.Write(Decimal(|ranges|));
    stream.Write(" begincodespacerange\n");
    ghost var start := stream.written;
    var first := true;
    for i := 0 to |ranges|
      invariant first == (i == 0)
      invariant stream.written == start + CodeSpaceBody(ranges[..i])
    {
      assert ranges[..i + 1][..i] == ranges[..i];
      ghost var done := CodeSpaceBody(ranges[..i]);
      if first {
        first := false;
      } else {
        stream.Write("\n");
      }
      stream.Write(CharCodeHex(ranges[i].0));
      stream.Write(CharCodeHex(ranges[i].1));
      if i == 0 {
        assert CodeSpaceBody(ranges[..i + 1]) == CharCodeHex(ranges[i].0) + CharCodeHex(ranges[i].1);
      } else {
        AppendAssoc(start, done, "\n");
        AppendAssoc(start, done + "\n", CharCodeHex(ranges[i].0));
        AppendAssoc(start, done + "\n" + CharCodeHex(ranges[i].0), CharCodeHex(ranges[i].1));
      }
    }
    assert ranges[..|ranges|] == ranges;
    stream.Write("\nendcodespacerange\n");
    AppendAssoc(old(stream.written), Decimal(|ranges|), " begincodespacerange\n");
    AppendAssoc(old(stream.written) + Decimal(|ranges|), " begincodespacerange\n", CodeSpaceBody(ranges));
    AppendAssoc(old(stream.written), Decimal(|ranges|) + " begincodespacerange\n", CodeSpaceBody(ranges));
    AppendAssoc(old(stream.written), Decimal(|ranges|) + " begincodespacerange\n" + CodeSpaceBody(ranges),
      "\nendcodespacerange\n");
  }

  // ---------------------------------------------------------------------
  // PdfEncodingMapOneByte: the writers over the code range of the limits

  /** The number of bytes a code needs, at least one. */
  function ByteCount(code: uint32): (n: byte)
    ensures 1 <= n <= 4 && code < Pow256(n)
  {
    Pow256AtMost4(4);
    assert Pow256(1) == 0x100 && Pow256(2) == 0x1_0000 && Pow256(3) == 0x100_0000;
    if code < 0x100 then 1 else if code < 0x1_0000 then 2 else if code < 0x100_0000 then 3 else 4
  }

  /** PdfCharCode(unsigned): the code with the size its value needs. */
  function CharCodeOf(code: uint32): (c: CharCode)
    ensures c.code == code && c.codeSpaceSize <= 4 && c.code < Pow256(c.codeSpaceSize)
  {
    CharCode(code, ByteCount(code))
  }

  /** The code points found for the codes lo .. hi-1, in code order, skipping the codes not found. */
  function UnicodeArrayEntries(m: EncodingMap, lo: nat, hi: nat): seq<seq<CodePoint>>
    requires hi <= UINT32_LIMIT
    decreases hi
  {
    if hi <= lo then []
    else
      UnicodeArrayEntries(m, lo, hi - 1)
        + match m.codePoints(CharCodeOf(hi - 1)) case None => [] case Some(cps) => [cps]
  }

  function ArrayLines(entries: seq<seq<CodePoint>>): (lines: seq<string>)
    ensures |lines| == |entries|
  {
    seq(|entries|, i requires 0 <= i < |entries| => Utf16Literal(entries[i]) + "\n")
  }

  /** The one-byte writers loop up to the last code, which must not be UINT_MAX (the loop would not end). */
  predicate OneByteLimits(limits: Limits)
  {
    limits.maxCodeSize == 1 && limits.lastChar.code < UINT32_LIMIT - 1
  }

  /** PdfEncodingMapOneByte::AppendToUnicodeEntries: one bfrange whose array lists the code points found. */
  function OneByteToUnicodeEntries(m: EncodingMap): string
    requires OneByteLimits(m.limits)
  {
    var limits := m.limits;
    "1 beginbfrange\n" + CharCodeHex(limits.firstChar) + " " + CharCodeHex(limits.lastChar) + " [\n"
      + Concat(ArrayLines(UnicodeArrayEntries(m, limits.firstChar.code, limits.lastChar.code + 1)))
      + "]\n" + "endbfrange\n"
  }

  /** At most one entry per code; exactly one per code exactly when every code is found. */
  lemma {:induction false} UnicodeArrayEntriesCount(m: EncodingMap, lo: nat, hi: nat)
    requires lo <= hi <= UINT32_LIMIT
    ensures |UnicodeArrayEntries(m, lo, hi)| <= hi - lo
    ensures |UnicodeArrayEntries(m, lo, hi)| == hi - lo
      <==> forall c :: lo <= c < hi ==> m.codePoints(CharCodeOf(c)).Some?
    decreases hi
  {
    if hi > lo {
      UnicodeArrayEntriesCount(m, lo, hi - 1);
    }
  }

  /** When every code is found, the k-th entry of the array is the code points of code lo + k. */
  lemma {:induction false} UnicodeArrayEntriesAligned(m: EncodingMap, lo: nat, hi: nat)
    requires lo <= hi <= UINT32_LIMIT
    requires forall c :: lo <= c < hi ==> m.codePoints(CharCodeOf(c)).Some?
    ensures |UnicodeArrayEntries(m, lo, hi)| == hi - lo
    ensures forall k :: 0 <= k < hi - lo ==> UnicodeArrayEntries(m, lo, hi)[k] == m.codePoints(CharCodeOf(lo + k)).value
    decreases hi
  {
    if hi > lo {
      UnicodeArrayEntriesAligned(m, lo, hi - 1);
    }
  }

  /**
   * A code that is not found shifts the later entries: for codes 0..2 with
   * code 1 missing, the array holds two entries and its second, which a
   * bfrange array assigns to code 1, belongs to code 2.
   */
  lemma UnicodeArrayShiftsOnMissingCode()
    ensures var m := EncodingMap(Simple, Limits(1, 1, CharCodeOf(0), CharCodeOf(2)), false, -1,
        (c: CharCode) => if c.code == 0 then Some([0x41]) else if c.code == 2 then Some([0x43]) else None,
        (cp: CodePoint) => None, (cps: seq<CodePoint>) => None, (s: seq<byte>, i: nat) => None);
      UnicodeArrayEntries(m, 0, 3) == [[0x41], [0x43]]
  {
  }

  /** One entry of the array: the UTF-16 literal and a line break. */
  method WriteArrayEntry(stream: OutputStream, codePoints: seq<CodePoint>)
    modifies stream
    ensures stream.written == old(stream.written) + (Utf16Literal(codePoints) + "\n")
  {
    AppendUtf16CodeTo(stream, codePoints);
    stream.Write("\n");
  }

  /** The array text grows by the entry of the next code when that code is found, and not otherwise. */
  lemma UnicodeArrayStep(m: EncodingMap, first: nat, code: nat)
    requires first <= code < UINT32_LIMIT
    ensures m.codePoints(CharCodeOf(code)).None? ==>
      UnicodeArrayEntries(m, first, code + 1) == UnicodeArrayEntries(m, first, code)
    ensures m.codePoints(CharCodeOf(code)).Some? ==>
      Concat(ArrayLines(UnicodeArrayEntries(m, first, code + 1)))
        == Concat(ArrayLines(UnicodeArrayEntries(m, first, code)))
          + (Utf16Literal(m.codePoints(CharCodeOf(code)).value) + "\n")
  {
    var before := UnicodeArrayEntries(m, first, code);
    if m.codePoints(CharCodeOf(code)).Some? {
      var after := before + [m.codePoints(CharCodeOf(code)).value];
      assert UnicodeArrayEntries(m, first, code + 1) == after;
      assert ArrayLines(after)[..|before|] == ArrayLines(before);
      ConcatSnoc(ArrayLines(after), |before|);
      assert ArrayLines(after)[..|before| + 1] == ArrayLines(after);
    }
  }

  /** The array entries for the codes from `first` to `last`, written in turn. */
  method WriteUnicodeArray(stream: OutputStream, m: EncodingMap, first: uint32, last: nat)
    requires last < UINT32_LIMIT - 1
    modifies stream
    ensures stream.written == old(stream.written) + Concat(ArrayLines(UnicodeArrayEntries(m, first, last + 1)))
  {
    var code: nat := first;
    while code <= last
      invariant code == first || first <= code <= last + 1
      invariant stream.written == old(stream.written) + Concat(ArrayLines(UnicodeArrayEntries(m, first, code)))
    {
      UnicodeArrayStep(m, first, code);
      match m.codePoints(CharCodeOf(code)) {
        case None =>
        case Some(codePoints) =>
          AppendAssoc(old(stream.written), Concat(ArrayLines(UnicodeArrayEntries(m, first, code))),
            Utf16Literal(codePoints) + "\n");
          WriteArrayEntry(stream, codePoints);
      }
      code := code + 1;
    }
    if code == first {
      assert UnicodeArrayEntries(m, first, last + 1) == [];
    }
  }

  /**
   * PdfEncodingMapOneByte::AppendToUnicodeEntries: a single bfrange from the
   * first to the last char code, whose array holds, for each code in turn,
   * the code points the map finds; codes it does not find are skipped.
   */
  method OneByteAppendToUnicodeEntries(stream: OutputStream, m: EncodingMap)
    requires OneByteLimits(m.limits)
    modifies stream
    ensures stream.written == old(stream.written) + OneByteToUnicodeEntries(m)
  {
    var limits := m.limits;
    var a, b := CharCodeHex(limits.firstChar), CharCodeHex(limits.lastChar);
    ghost var w := old(stream.written);
    stream.Write("1 beginbfrange\n");
    stream.Write(a);
    stream.Write(" ");
    stream.Write(b);
    stream.Write(" [\n");
    AppendAssoc(w, "1 beginbfrange\n", a);
    AppendAssoc(w, "1 beginbfrange\n" + a, " ");
    AppendAssoc(w, "1 beginbfrange\n" + a + " ", b);
    AppendAssoc(w, "1 beginbfrange\n" + a + " " + b, " [\n");
    ghost var header := "1 beginbfrange\n" + a + " " + b + " [\n";
    WriteUnicodeArray(stream, m, limits.firstChar.code, limits.lastChar.code);
    ghost var entries := Concat(ArrayLines(UnicodeArrayEntries(m, limits.firstChar.code, limits.lastChar.code + 1)));
    stream.Write("]\n");
    stream.Write("endbfrange\n");
    AppendAssoc(w, header, entries);
    AppendAssoc(w, header + entries, "]\n");
    AppendAssoc(w, header + entries + "]\n", "endbfrange\n");
  }

  /** Every span the map returns has a first element, which the CID writer dereferences. */
  ghost predicate NonEmptySpans(m: EncodingMap)
  {
    forall c :: m.codePoints(c).Some? ==> |m.codePoints(c).value| > 0
  }

  /** A mapping collected by PdfEncodingMapOneByte::AppendCIDMappingEntries: a char code and its glyph id. */
  datatype CidMapping = CidMapping(code: CharCode, cid: uint32)

  /**
   * The mappings collected for the codes lo .. hi-1: each code whose code
   * points are found and whose first code point has a glyph in the font
   * program (`tryGetGid`, PdfFont::TryGetGID), in code order.
   */
  function CidMappings(m: EncodingMap, tryGetGid: CodePoint -> Option<uint32>, lo: nat, hi: nat): seq<CidMapping>
    requires hi <= UINT32_LIMIT && NonEmptySpans(m)
    decreases hi
  {
    if hi <= lo then []
    else
      CidMappings(m, tryGetGid, lo, hi - 1)
        + match m.codePoints(CharCodeOf(hi - 1))
          case None => []
          case Some(cps) =>
            match tryGetGid(cps[0])
            case None => []
            case Some(gid) => [CidMapping(CharCodeOf(hi - 1), gid)]
  }

  function CidMappingLines(mappings: seq<CidMapping>): (lines: seq<string>)
    ensures |lines| == |mappings|
  {
    seq(|mappings|, i requires 0 <= i < |mappings| => CidCharLine(mappings[i].code, mappings[i].cid))
  }

  /** PdfEncodingMapOneByte::AppendCIDMappingEntries: one cidchar block, written even when it is empty. */
  function OneByteCidMappingEntries(m: EncodingMap, tryGetGid: CodePoint -> Option<uint32>): string
    requires OneByteLimits(m.limits) && NonEmptySpans(m)
  {
    var mappings := CidMappings(m, tryGetGid, m.limits.firstChar.code, m.limits.lastChar.code + 1);
    CountedBlock(" begincidchar\n", CidMappingLines(mappings), "endcidchar\n")
  }

  /** A code with a mapping is found and has a glyph for its first code point. */
  predicate MapsToGid(m: EncodingMap, tryGetGid: CodePoint -> Option<uint32>, code: uint32)
    requires NonEmptySpans(m)
  {
    m.codePoints(CharCodeOf(code)).Some? && tryGetGid(m.codePoints(CharCodeOf(code)).value[0]).Some?
  }

  /** A collected mapping is a code in range that maps to a glyph, paired with that glyph. */
  ghost predicate SoundMapping(m: EncodingMap, tryGetGid: CodePoint -> Option<uint32>, lo: nat, hi: nat, e: CidMapping)
    requires NonEmptySpans(m)
  {
    lo <= e.code.code < hi && e.code == CharCodeOf(e.code.code)
    && MapsToGid(m, tryGetGid, e.code.code)
    && tryGetGid(m.codePoints(e.code).value[0]) == Some(e.cid)
  }

  /**
   * The collected mappings are exactly the codes in range that map to a
   * glyph, each with that glyph, in strictly ascending code order.
   */
  lemma {:induction false} CidMappingsSpec(m: EncodingMap, tryGetGid: CodePoint -> Option<uint32>, lo: nat, hi: nat)
    requires hi <= UINT32_LIMIT && NonEmptySpans(m)
    ensures forall e <- CidMappings(m, tryGetGid, lo, hi) :: SoundMapping(m, tryGetGid, lo, hi, e)
    ensures var ms := CidMappings(m, tryGetGid, lo, hi);
      forall i, j :: 0 <= i < j < |ms| ==> ms[i].code.code < ms[j].code.code
    ensures var ms := CidMappings(m, tryGetGid, lo, hi);
      forall c: uint32 :: lo <= c < hi && MapsToGid(m, tryGetGid, c) ==>
        exists i :: 0 <= i < |ms| && ms[i].code.code == c
    decreases hi
  {
    if hi > lo {
      var init := CidMappings(m, tryGetGid, lo, hi - 1);
      CidMappingsSpec(m, tryGetGid, lo, hi - 1);
      var ms := CidMappings(m, tryGetGid, lo, hi);
      forall e <- init ensures SoundMapping(m, tryGetGid, lo, hi, e) {
        assert SoundMapping(m, tryGetGid, lo, hi - 1, e);
      }
      if MapsToGid(m, tryGetGid, hi - 1) {
        var e := CidMapping(CharCodeOf(hi - 1), tryGetGid(m.codePoints(CharCodeOf(hi - 1)).value[0]).value);
        assert ms == init + [e];
        assert SoundMapping(m, tryGetGid, lo, hi, e);
        forall i, j | 0 <= i < j < |ms| ensures ms[i].code.code < ms[j].code.code {
          assert ms[i] == init[i] && init[i] in init;
          if j < |init| {
            assert ms[j] == init[j];
          } else {
            assert ms[j] == e;
          }
        }
        forall c: uint32 | lo <= c < hi && MapsToGid(m, tryGetGid, c)
          ensures exists i :: 0 <= i < |ms| && ms[i].code.code == c
        {
          if c < hi - 1 {
            var i :| 0 <= i < |init| && init[i].code.code == c;
            assert ms[i] == init[i];
          } else {
            assert ms[|init|] == e;
          }
        }
      } else {
        assert ms == init;
      }
    }
  }

  /** The count that opens the cidchar block is its number of lines. */
  lemma CidMappingLinesCount(mappings: seq<CidMapping>)
    ensures CountNewlines(Concat(CidMappingLines(mappings))) == |mappings|
  {
    var lines := CidMappingLines(mappings);
    forall i | 0 <= i < |lines| ensures IsLine(lines[i]) {
      CidCharLineIsLine(mappings[i].code, mappings[i].cid);
    }
    ConcatLinesCount(lines);
  }

  /**
   * PdfEncodingMapOneByte::AppendCIDMappingEntries: collects, for each code
   * from the first to the last char code, the glyph id of its first code
   * point, then writes the count and one cidchar line per mapping.
   */
  method OneByteAppendCidMappingEntries(stream: OutputStream, m: EncodingMap, tryGetGid: CodePoint -> Option<uint32>)
    requires OneByteLimits(m.limits) && NonEmptySpans(m)
    modifies stream
    ensures stream.written == old(stream.written) + OneByteCidMappingEntries(m, tryGetGid)
  {
    var first := m.limits.firstChar.code;
    var lastCode := m.limits.lastChar.code;
    var code: nat := first;
    var mappings: seq<CidMapping> := [];
    while code <= lastCode
      invariant code == first || first <= code <= lastCode + 1
      invariant mappings == CidMappings(m, tryGetGid, first, code)
    {
      var charCode := CharCodeOf(code);
      match m.codePoints(charCode) {
        case None =>
        case Some(codePoints) =>
          match tryGetGid(codePoints[0]) {
            case None =>
            case Some(gid) =>
              mappings := mappings + [CidMapping(charCode, gid)];
          }
      }
      code := code + 1;
    }
    if code == first {
      assert CidMappings(m, tryGetGid, first, lastCode + 1) == [];
    }
    ghost var lines := CidMappingLines(mappings);
    stream.Write(Decimal(|mappings|));
    stream.Write(" begincidchar\n");
    ghost var start := stream.written;
    for i := 0 to |mappings|
      invariant stream.written == start + Concat(lines[..i])
    {
      ConcatSnoc(lines, i);
      AppendAssoc(start, Concat(lines[..i]), lines[i]);
      WriteCidMapping(stream, mappings[i].code, mappings[i].cid);
    }
    assert lines[..|mappings|] == lines;
    stream.Write("endcidchar\n");
    BlockRegroup(old(stream.written), " begincidchar\n", lines, "endcidchar\n");
  }
}
