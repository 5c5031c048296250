/**
 * Byte and text encodings the encoding-map writers and readers rely on:
 * big-endian integers, upper-case hexadecimal, decimal numbers, UTF-8
 * (the decoder the library uses to step through a UTF-8 string) and
 * UTF-16BE (what a ToUnicode CMap holds). Each encoder is paired with its
 * decoder and a round-trip lemma.
 */
module Text {
  import opened Common

  /** A Unicode code point (char32_t restricted to the Unicode range). */
  type CodePoint = x: int | 0 <= x <= 0x10FFFF

  predicate IsSurrogate(cp: int) { 0xD800 <= cp <= 0xDFFF }

  // ---------------------------------------------------------------------
  // Big-endian integers

  function Pow256(n: nat): (r: nat)
    ensures r >= 1
  {
    if n == 0 then 1 else 256 * Pow256(n - 1)
  }

  /** The unsigned big-endian value of a byte string (`code <<= 8; code |= b` per byte). */
  function BigEndian(s: seq<byte>): nat
  {
    if s == [] then 0 else BigEndian(s[..|s| - 1]) * 256 + s[|s| - 1]
  }

  /** The `n` low-order bytes of `v`, most significant first. */
  function BigEndianBytes(v: nat, n: nat): (r: seq<byte>)
    ensures |r| == n
  {
    if n == 0 then [] else BigEndianBytes(v / 256, n - 1) + [v % 256]
  }

  lemma {:induction false} BigEndianBound(s: seq<byte>)
    ensures BigEndian(s) < Pow256(|s|)
  {
    if s != [] {
      BigEndianBound(s[..|s| - 1]);
    }
  }

  /** Writing `v` on `n` bytes and reading it back yields `v` whenever it fits. */
  lemma {:induction false} BigEndianRoundTrip(v: nat, n: nat)
    requires v < Pow256(n)
    ensures BigEndian(BigEndianBytes(v, n)) == v
  {
    if n > 0 {
      var r := BigEndianBytes(v, n);
      assert r[..n - 1] == BigEndianBytes(v / 256, n - 1);
      BigEndianRoundTrip(v / 256, n - 1);
    }
  }

  /** Conversely, a byte string is the fixed-width encoding of its own value. */
  lemma {:induction false} BigEndianBytesOfValue(s: seq<byte>)
    ensures BigEndianBytes(BigEndian(s), |s|) == s
  {
    if s != [] {
      var p := s[..|s| - 1];
      BigEndianBytesOfValue(p);
      assert s == p + [s[|s| - 1]];
    }
  }

  // ---------------------------------------------------------------------
  // Hexadecimal

  /** The upper-case hexadecimal digit of a nibble. */
  function HexDigit(n: nat): (c: char)
    requires n < 16
    ensures HexDigitValue(c) == Some(n)
  {
    if n < 10 then ('0' as int + n) as char else ('A' as int + n - 10) as char
  }

  function HexDigitValue(c: char): Option<nat>
  {
    if '0' <= c <= '9' then Some(c as int - '0' as int)
    else if 'A' <= c <= 'F' then Some(c as int - 'A' as int + 10)
    else None
  }

  /** Two upper-case hexadecimal digits per byte, most significant nibble first. */
  function HexOfBytes(bs: seq<byte>): (r: string)
    ensures |r| == 2 * |bs|
  {
    if bs == [] then "" else [HexDigit(bs[0] / 16), HexDigit(bs[0] % 16)] + HexOfBytes(bs[1..])
  }

  /** Reads pairs of hexadecimal digits back into bytes. */
  function BytesOfHex(s: string): Option<seq<byte>>
    decreases |s|
  {
    if s == [] then Some([])
    else if |s| == 1 then None
    else
      match (HexDigitValue(s[0]), HexDigitValue(s[1]), BytesOfHex(s[2..]))
      case (Some(hi), Some(lo), Some(rest)) =>
        if hi < 16 && lo < 16 then Some([hi * 16 + lo] + rest) else None
      case _ => None
  }

  /** Hex text of a concatenation is the concatenation of the hex texts. */
  lemma {:induction false} HexOfBytesAppend(a: seq<byte>, b: seq<byte>)
    ensures HexOfBytes(a + b) == HexOfBytes(a) + HexOfBytes(b)
  {
    if a != [] {
      var d := [HexDigit(a[0] / 16), HexDigit(a[0] % 16)];
      assert (a + b)[0] == a[0] && (a + b)[1..] == a[1..] + b;
      HexOfBytesAppend(a[1..], b);
      assert HexOfBytes(a + b) == d + HexOfBytes(a[1..] + b);
      assert HexOfBytes(a) == d + HexOfBytes(a[1..]);
    } else {
      assert a + b == b;
    }
  }

  lemma {:induction false} HexRoundTrip(bs: seq<byte>)
    ensures BytesOfHex(HexOfBytes(bs)) == Some(bs)
  {
    if bs != [] {
      var h := HexOfBytes(bs);
      assert h[2..] == HexOfBytes(bs[1..]);
      HexRoundTrip(bs[1..]);
      assert bs == [bs[0]] + bs[1..];
    }
  }

  // ---------------------------------------------------------------------
  // Decimal numbers (utls::FormatTo of an unsigned integer)

  function DigitChar(d: nat): (c: char)
    requires d < 10
    ensures '0' <= c <= '9' && c as int - '0' as int == d
  {
    ('0' as int + d) as char
  }

  predicate AllDigits(s: string)
  {
    forall i :: 0 <= i < |s| ==> '0' <= s[i] <= '9'
  }

  /** The shortest decimal spelling of `n`. */
  function Decimal(n: nat): (r: string)
    ensures |r| >= 1 && AllDigits(r)
    ensures r[0] == '0' ==> n == 0
  {
    if n < 10 then [DigitChar(n)] else Decimal(n / 10) + [DigitChar(n % 10)]
  }

  function DecimalValue(s: string): nat
    requires AllDigits(s)
  {
    if s == [] then 0 else DecimalValue(s[..|s| - 1]) * 10 + (s[|s| - 1] as int - '0' as int)
  }

  lemma {:induction false} DecimalRoundTrip(n: nat)
    ensures DecimalValue(Decimal(n)) == n
  {
    if n >= 10 {
      var d := Decimal(n);
      assert d[..|d| - 1] == Decimal(n / 10);
      DecimalRoundTrip(n / 10);
    }
  }

  // ---------------------------------------------------------------------
  // UTF-16BE (utls::WriteUtf16BETo)

  /** The UTF-16BE bytes of a code point: one unit below U+10000, else a surrogate pair. */
  function Utf16BE(cp: CodePoint): (r: seq<byte>)
    ensures |r| == if cp < 0x10000 then 2 else 4
  {
    if cp < 0x10000 then BigEndianBytes(cp, 2)
    else
      var v := cp - 0x10000;
      BigEndianBytes(0xD800 + v / 0x400, 2) + BigEndianBytes(0xDC00 + v % 0x400, 2)
  }

  function Utf16BEDecode(bs: seq<byte>): Option<CodePoint>
  {
    if |bs| == 2 then
      BigEndianBound(bs);
      Some(BigEndian(bs))
    else if |bs| == 4 then
      var hi, lo := BigEndian(bs[..2]), BigEndian(bs[2..]);
      if 0xD800 <= hi < 0xDC00 && 0xDC00 <= lo < 0xE000
      then Some(0x10000 + (hi - 0xD800) * 0x400 + (lo - 0xDC00))
      else None
    else None
  }

  lemma Utf16RoundTrip(cp: CodePoint)
    ensures Utf16BEDecode(Utf16BE(cp)) == Some(cp)
  {
    var r := Utf16BE(cp);
    if cp < 0x10000 {
      BigEndianRoundTrip(cp, 2);
    } else {
      var v := cp - 0x10000;
      var hi, lo := 0xD800 + v / 0x400, 0xDC00 + v % 0x400;
      assert r[..2] == BigEndianBytes(hi, 2) && r[2..] == BigEndianBytes(lo, 2);
      BigEndianRoundTrip(hi, 2);
      BigEndianRoundTrip(lo, 2);
    }
  }

  // ---------------------------------------------------------------------
  // UTF-8 (utf8::next)

  /** The sequence length announced by a lead byte; 0 for a byte that cannot lead. */
  function Utf8Length(lead: byte): nat
  {
    if lead < 0x80 then 1
    else if lead / 32 == 0x6 then 2
    else if lead / 16 == 0xE then 3
    else if lead / 8 == 0x1E then 4
    else 0
  }

  predicate IsTrail(b: byte) { b / 64 == 2 }

  /** The number of bytes the shortest UTF-8 form of `cp` takes. */
  function Utf8EncodedLength(cp: CodePoint): nat
  {
    if cp < 0x80 then 1 else if cp < 0x800 then 2 else if cp < 0x10000 then 3 else 4
  }

  /** The six payload bits of the continuation byte at index `k` (0 past the end). */
  function Trail(s: seq<byte>, k: nat): nat
  {
    if k < |s| then s[k] as int % 64 else 0
  }

  /** The code point spelled by the `n` bytes at the front of `s`, lead bits stripped. */
  function Utf8Value(s: seq<byte>, n: nat): nat
    requires 1 <= n <= 4 && n <= |s|
  {
    var b0, b1, b2, b3 := s[0] as int, Trail(s, 1), Trail(s, 2), Trail(s, 3);
    if n == 1 then b0
    else if n == 2 then (b0 % 32) * 64 + b1
    else if n == 3 then ((b0 % 16) * 64 + b1) * 64 + b2
    else (((b0 % 8) * 64 + b1) * 64 + b2) * 64 + b3
  }

  /**
   * Decodes the UTF-8 sequence at the front of `s`, giving the code point
   * and the number of bytes it took. Fails, as utf8::next throws, on an
   * empty input, a byte that cannot lead, a truncated sequence, a byte
   * that is not a continuation byte, a surrogate or a value above U+10FFFF,
   * and an overlong form.
   */
  function Utf8Decode(s: seq<byte>): Result<(CodePoint, nat)>
  {
    if s == [] then Err(InvalidUtf8)
    else
      var n := Utf8Length(s[0]);
      if n == 0 || |s| < n then Err(InvalidUtf8)
      else if exists k :: 1 <= k < n && !IsTrail(s[k]) then Err(InvalidUtf8)
      else
        var v := Utf8Value(s, n);
        if v > 0x10FFFF || IsSurrogate(v) then Err(InvalidUtf8)
        else if n != Utf8EncodedLength(v) then Err(InvalidUtf8)
        else Ok((v, n))
  }

  /** The shortest UTF-8 form of a code point. */
  function Utf8Encode(cp: CodePoint): (r: seq<byte>)
    ensures |r| == Utf8EncodedLength(cp)
  {
    var q1 := cp / 64;
    var q2 := q1 / 64;
    var q3 := q2 / 64;
    if cp < 0x80 then [cp]
    else if cp < 0x800 then [0xC0 + q1, 0x80 + cp % 64]
    else if cp < 0x10000 then [0xE0 + q2, 0x80 + q1 % 64, 0x80 + cp % 64]
    else [0xF0 + q3, 0x80 + q2 % 64, 0x80 + q1 % 64, 0x80 + cp % 64]
  }

  /** The lead byte of a multi-byte encoding announces its length and its trail bytes are continuation bytes. */
  lemma Utf8EncodeShape(cp: CodePoint, rest: seq<byte>)
    ensures Utf8Length((Utf8Encode(cp) + rest)[0]) == Utf8EncodedLength(cp)
    ensures forall k :: 1 <= k < Utf8EncodedLength(cp) ==> IsTrail((Utf8Encode(cp) + rest)[k])
  {
  }

  /** A continuation byte carries its six payload bits unchanged. */
  lemma TrailPayload(x: nat)
    requires x < 64
    ensures (0x80 + x) % 64 == x
  {
  }

  /** A two-byte encoding reads back as its code point. */
  lemma Utf8ValueTwo(cp: CodePoint, s: seq<byte>)
    requires 0x80 <= cp < 0x800 && |s| >= 2
    requires s[0] as int == 0xC0 + cp / 64 && s[1] as int == 0x80 + cp % 64
    ensures Utf8Value(s, 2) == cp
  {
    TrailPayload(cp % 64);
  }

  /** A three-byte encoding reads back as its code point. */
  lemma Utf8ValueThree(cp: CodePoint, s: seq<byte>)
    requires 0x800 <= cp < 0x10000 && |s| >= 3
    requires s[0] as int == 0xE0 + cp / 64 / 64
    requires s[1] as int == 0x80 + cp / 64 % 64 && s[2] as int == 0x80 + cp % 64
    ensures Utf8Value(s, 3) == cp
  {
    var q1 := cp / 64;
    TrailPayload(cp % 64);
    TrailPayload(q1 % 64);
    assert (q1 / 64) * 64 + q1 % 64 == q1;
  }

  /** A four-byte encoding reads back as its code point. */
  lemma Utf8ValueFour(cp: CodePoint, s: seq<byte>)
    requires 0x10000 <= cp && |s| >= 4
    requires s[0] as int == 0xF0 + cp / 64 / 64 / 64
    requires s[1] as int == 0x80 + cp / 64 / 64 % 64
    requires s[2] as int == 0x80 + cp / 64 % 64 && s[3] as int == 0x80 + cp % 64
    ensures Utf8Value(s, 4) == cp
  {
    var q1 := cp / 64;
    var q2 := q1 / 64;
    TrailPayload(cp % 64);
    TrailPayload(q1 % 64);
    TrailPayload(q2 % 64);
    assert (q2 / 64) * 64 + q2 % 64 == q2;
    assert q2 * 64 + q1 % 64 == q1;
  }

  /** Every scalar value's encoding decodes back to it, whatever follows it. */
  lemma Utf8DecodeEncode(cp: CodePoint, rest: seq<byte>)
    requires !IsSurrogate(cp)
    ensures Utf8Decode(Utf8Encode(cp) + rest) == Ok((cp, Utf8EncodedLength(cp)))
  {
    Utf8EncodeShape(cp, rest);
    var s := Utf8Encode(cp) + rest;
    if 0x80 <= cp < 0x800 {
      Utf8ValueTwo(cp, s);
    } else if 0x800 <= cp < 0x10000 {
      Utf8ValueThree(cp, s);
    } else if 0x10000 <= cp {
      Utf8ValueFour(cp, s);
    }
  }

  /** A decoded two-byte sequence is the encoding of its value. */
  lemma Utf8EncodeTwo(s: seq<byte>)
    requires |s| >= 2 && s[0] / 32 == 0x6 && IsTrail(s[1])
    requires Utf8EncodedLength(Utf8Value(s, 2)) == 2
    ensures Utf8Encode(Utf8Value(s, 2)) == s[..2]
  {
    var cp := Utf8Value(s, 2);
    assert cp / 64 == s[0] as int % 32;
    assert cp % 64 == s[1] as int % 64;
  }

  /** A decoded three-byte sequence is the encoding of its value. */
  lemma Utf8EncodeThree(s: seq<byte>)
    requires |s| >= 3 && s[0] / 16 == 0xE && IsTrail(s[1]) && IsTrail(s[2])
    requires Utf8EncodedLength(Utf8Value(s, 3)) == 3
    ensures Utf8Encode(Utf8Value(s, 3)) == s[..3]
  {
    var cp := Utf8Value(s, 3);
    var q1 := (s[0] as int % 16) * 64 + s[1] as int % 64;
    assert cp == q1 * 64 + s[2] as int % 64;
    assert cp / 64 == q1 && cp % 64 == s[2] as int % 64;
    assert q1 / 64 == s[0] as int % 16 && q1 % 64 == s[1] as int % 64;
  }

  /** A decoded four-byte sequence is the encoding of its value. */
  lemma Utf8EncodeFour(s: seq<byte>)
    requires |s| >= 4 && s[0] / 8 == 0x1E && IsTrail(s[1]) && IsTrail(s[2]) && IsTrail(s[3])
    requires Utf8Value(s, 4) <= 0x10FFFF && Utf8EncodedLength(Utf8Value(s, 4)) == 4
    ensures Utf8Encode(Utf8Value(s, 4)) == s[..4]
  {
    var cp := Utf8Value(s, 4);
    var q2 := (s[0] as int % 8) * 64 + s[1] as int % 64;
    var q1 := q2 * 64 + s[2] as int % 64;
    assert cp == q1 * 64 + s[3] as int % 64;
    assert cp / 64 == q1 && cp % 64 == s[3] as int % 64;
    assert q1 / 64 == q2 && q1 % 64 == s[2] as int % 64;
    assert q2 / 64 == s[0] as int % 8 && q2 % 64 == s[1] as int % 64;
  }

  /** Whatever decodes is exactly the encoding of what it decodes to. */
  lemma Utf8EncodeDecode(s: seq<byte>)
    requires Utf8Decode(s).Ok?
    ensures Utf8Decode(s).value.1 <= |s|
    ensures s[..Utf8Decode(s).value.1] == Utf8Encode(Utf8Decode(s).value.0)
  {
    var n := Utf8Length(s[0]);
    assert forall k :: 1 <= k < n ==> IsTrail(s[k]);
    if n == 2 {
      assert IsTrail(s[1]);
      Utf8EncodeTwo(s);
    } else if n == 3 {
      assert IsTrail(s[1]) && IsTrail(s[2]);
      Utf8EncodeThree(s);
    } else if n == 4 {
      assert IsTrail(s[1]) && IsTrail(s[2]) && IsTrail(s[3]);
      Utf8EncodeFour(s);
    }
  }

  /** Concatenation regroups; stated once so that callers need not prove it by extensionality. */
  lemma AppendAssoc(a: string, b: string, c: string)
    ensures a + b + c == a + (b + c)
  {
  }

  // ---------------------------------------------------------------------
  // Space-separated lists

  predicate NoSpace(p: string)
  {
    forall j :: 0 <= j < |p| ==> p[j] != ' '
  }

  /** The pieces, separated by single spaces. */
  function JoinSpaced(pieces: seq<string>): string
  {
    if |pieces| == 0 then ""
    else if |pieces| == 1 then pieces[0]
    else JoinSpaced(pieces[..|pieces| - 1]) + " " + pieces[|pieces| - 1]
  }

  /** The index of the last space in `s`, or -1 when there is none. */
  function LastSpace(s: string): (k: int)
    ensures -1 <= k < |s|
    ensures k >= 0 ==> s[k] == ' ' && NoSpace(s[k + 1..])
    ensures k == -1 ==> NoSpace(s)
  {
    if s == [] then -1
    else if s[|s| - 1] == ' ' then |s| - 1
    else
      var k := LastSpace(s[..|s| - 1]);
      assert k >= 0 ==> s[k + 1..] == s[..|s| - 1][k + 1..] + [s[|s| - 1]];
      k
  }

  /** Cuts `s` at its spaces. */
  function SplitSpaced(s: string): seq<string>
    decreases |s|
  {
    if s == [] then []
    else
      var k := LastSpace(s);
      if k < 0 then [s] else SplitSpaced(s[..k]) + [s[k + 1..]]
  }

  lemma {:induction false} LastSpaceOfJoin(a: string, b: string)
    requires NoSpace(b)
    ensures LastSpace(a + " " + b) == |a|
    decreases |b|
  {
    var s := a + " " + b;
    if b != [] {
      assert s[..|s| - 1] == a + " " + b[..|b| - 1];
      LastSpaceOfJoin(a, b[..|b| - 1]);
    }
  }

  lemma {:induction false} JoinSpacedNonEmpty(pieces: seq<string>)
    requires |pieces| >= 1 && |pieces[0]| > 0
    ensures |JoinSpaced(pieces)| > 0
  {
    if |pieces| > 1 {
      JoinSpacedNonEmpty(pieces[..|pieces| - 1]);
    }
  }

  /** A space and a space-free piece after `a` split off as that one piece. */
  lemma SplitSnoc(a: string, b: string)
    requires |b| > 0 && NoSpace(b)
    ensures SplitSpaced(a + " " + b) == SplitSpaced(a) + [b]
  {
    var s := a + " " + b;
    LastSpaceOfJoin(a, b);
    assert s[..|a|] == a && s[|a| + 1..] == b;
  }

  /** Pieces that can be joined with spaces and split apart again: non-empty and space-free. */
  predicate SeparablePieces(pieces: seq<string>)
  {
    forall i :: 0 <= i < |pieces| ==> |pieces[i]| > 0 && NoSpace(pieces[i])
  }

  /** A non-empty sequence is its prefix followed by its last element. */
  lemma InitAndLast<T>(s: seq<T>)
    requires |s| > 0
    ensures s == s[..|s| - 1] + [s[|s| - 1]]
  {
  }

  /** A single non-empty, space-free piece splits as itself. */
  lemma SplitOne(p: string)
    requires |p| > 0 && NoSpace(p)
    ensures SplitSpaced(p) == [p]
  {
    assert LastSpace(p) == -1;
  }

  /** A list splits back when the list without its last piece does and the last piece is separable. */
  lemma SplitJoinStep(pieces: seq<string>)
    requires |pieces| > 1
    requires SplitSpaced(JoinSpaced(pieces[..|pieces| - 1])) == pieces[..|pieces| - 1]
    requires |pieces[|pieces| - 1]| > 0 && NoSpace(pieces[|pieces| - 1])
    ensures SplitSpaced(JoinSpaced(pieces)) == pieces
  {
    var init, last := pieces[..|pieces| - 1], pieces[|pieces| - 1];
    SplitSnoc(JoinSpaced(init), last);
    InitAndLast(pieces);
  }

  /** The pieces before the last are separable too, and so is the last. */
  lemma SeparableInit(pieces: seq<string>)
    requires |pieces| > 0 && SeparablePieces(pieces)
    ensures SeparablePieces(pieces[..|pieces| - 1])
    ensures |pieces[|pieces| - 1]| > 0 && NoSpace(pieces[|pieces| - 1])
  {
    var init := pieces[..|pieces| - 1];
    assert forall i :: 0 <= i < |init| ==> init[i] == pieces[i];
  }

  /** Splitting a space-joined list of non-empty, space-free pieces gives the pieces back. */
  lemma {:induction false} SplitJoin(pieces: seq<string>)
    requires SeparablePieces(pieces)
    ensures SplitSpaced(JoinSpaced(pieces)) == pieces
  {
    if |pieces| == 1 {
      SplitOne(pieces[0]);
    } else if |pieces| > 1 {
      SeparableInit(pieces);
      SplitJoin(pieces[..|pieces| - 1]);
      SplitJoinStep(pieces);
    }
  }

  /** Text made only of hexadecimal digits. */
  predicate IsHexText(t: string)
  {
    forall j :: 0 <= j < |t| ==> HexDigitValue(t[j]).Some?
  }

  lemma {:induction false} HexOfBytesIsHex(bs: seq<byte>)
    ensures IsHexText(HexOfBytes(bs))
  {
    if bs != [] {
      HexOfBytesIsHex(bs[1..]);
      var h := HexOfBytes(bs);
      assert h[2..] == HexOfBytes(bs[1..]);
      assert HexDigitValue(h[0]).Some? && HexDigitValue(h[1]).Some?;
      forall j | 2 <= j < |h| ensures HexDigitValue(h[j]).Some? {
        assert h[j] == h[2..][j - 2];
      }
    }
  }

  lemma HexHasNoSpace(bs: seq<byte>)
    ensures NoSpace(HexOfBytes(bs))
  {
    HexOfBytesIsHex(bs);
  }
}
