/**
 * PdfBuiltInEncoding (src/podofo/main/PdfEncodingMap.cpp): a one-byte
 * encoding backed by a fixed table of 256 code points, with a reverse
 * table from code point to code that is filled on first use.
 */
module BuiltInEncoding {
  import opened Common
  import opened Text
  import opened Encoding

  /** GetToUnicodeTable: the code point of each of the 256 codes (0 where the code is unused). */
  type ToUnicodeTable = t: seq<CodePoint> | |t| == 256 witness seq(256, _ => 0)

  /** The limits every built-in encoding is constructed with: one byte, codes 0 to 0xFF. */
  const BuiltInLimits := Limits(1, 1, CharCodeOf(0), CharCodeOf(0xFF))

  /**
   * The code tryGetCharCode finds for a code point: the index of its last
   * occurrence in the table (the reverse table is filled in index order, so a
   * later code overwrites an earlier one), as a one-byte code.
   */
  function CodeOfCodePoint(table: ToUnicodeTable, codePoint: CodePoint): Option<CharCode>
  {
    LastIndexMapSpec(table);
    var index := LastIndexMap(table);
    if codePoint in index then Some(CharCode(index[codePoint], 1)) else None
  }

  /** tryGetCodePoints: the one code point of a code below 256, nothing for larger codes. */
  function TableCodePoints(table: ToUnicodeTable, codeUnit: CharCode): Option<seq<CodePoint>>
  {
    if codeUnit.code >= 256 then None else Some([table[codeUnit.code]])
  }

  /**
   * A code point has a code exactly when it is in the table; the code is one
   * byte wide and is the last index holding the code point.
   */
  lemma CodeOfCodePointSpec(table: ToUnicodeTable, codePoint: CodePoint)
    ensures CodeOfCodePoint(table, codePoint).Some? <==> codePoint in table
    ensures CodeOfCodePoint(table, codePoint).Some? ==>
      var c := CodeOfCodePoint(table, codePoint).value;
      c.codeSpaceSize == 1 && c.code < 256 && table[c.code] == codePoint
      && forall j :: c.code < j < 256 ==> table[j] != codePoint
  {
    LastIndexMapSpec(table);
  }

  /** Encoding a code point and decoding the code gives the code point back. */
  lemma EncodeDecode(table: ToUnicodeTable, codePoint: CodePoint)
    requires codePoint in table
    ensures CodeOfCodePoint(table, codePoint).Some?
    ensures TableCodePoints(table, CodeOfCodePoint(table, codePoint).value) == Some([codePoint])
  {
    CodeOfCodePointSpec(table, codePoint);
  }

  /**
   * Decoding a code and encoding its code point gives a code at or after it:
   * the same code exactly when no later code has the same code point.
   */
  lemma DecodeEncode(table: ToUnicodeTable, code: uint32)
    requires code < 256
    ensures TableCodePoints(table, CharCode(code, 1)) == Some([table[code]])
    ensures CodeOfCodePoint(table, table[code]).Some?
    ensures CodeOfCodePoint(table, table[code]).value.code >= code
    ensures CodeOfCodePoint(table, table[code]) == Some(CharCode(code, 1))
      <==> forall j :: code < j < 256 ==> table[j] != table[code]
  {
    CodeOfCodePointSpec(table, table[code]);
  }

  /** The limits of a built-in encoding are those of a one-byte map. */
  lemma BuiltInLimitsAreOneByte()
    ensures OneByteLimits(BuiltInLimits) && ValidLimits(BuiltInLimits)
    ensures BuiltInLimits.firstChar == CharCode(0, 1) && BuiltInLimits.lastChar == CharCode(0xFF, 1)
  {
    assert Pow256(1) == 256;
  }

  /**
   * A built-in encoding seen through the PdfEncodingMap interface: a simple
   * map without ligatures or writing mode, whose lookups are the table's.
   * The ligature and UTF-8 scanning lookups raise NotImplemented in the
   * source; they are never reached for a map without ligature support.
   */
  function AsEncodingMap(table: ToUnicodeTable): (m: EncodingMap)
    ensures m.mapType == Simple && !m.hasLigatures && m.limits == BuiltInLimits
  {
    EncodingMap(Simple, BuiltInLimits, false, -1,
      (c: CharCode) => TableCodePoints(table, c),
      (cp: CodePoint) => CodeOfCodePoint(table, cp),
      (_: seq<CodePoint>) => None,
      (_: seq<byte>, _: nat) => None)
  }

  /**
   * Every code of a built-in encoding has a code point, so its bfrange array
   * lists all 256 entries, each at its own code, and every span has a first
   * element for the CID writer.
   */
  lemma {:induction false} BuiltInArrayIsComplete(table: ToUnicodeTable, hi: nat)
    requires hi <= 256
    ensures NonEmptySpans(AsEncodingMap(table))
    ensures UnicodeArrayEntries(AsEncodingMap(table), 0, hi) == seq(hi, i requires 0 <= i < hi => [table[i]])
    decreases hi
  {
    var m := AsEncodingMap(table);
    if hi > 0 {
      BuiltInArrayIsComplete(table, hi - 1);
      assert CharCodeOf(hi - 1).code == hi - 1;
    }
  }

  /** The code table entry that CreateUnicodeToGIDMap copies for code `i` to code point `cp`. */
  ghost predicate Contributes(table: ToUnicodeTable, codeToGid: map<uint32, uint32>, i: int, cp: int)
  {
    0 <= i < 256 && table[i] == cp && cp != 0 && i in codeToGid
  }

  /** Code `i` is the last code below `n` that contributes to `cp`. */
  ghost predicate LastContributor(table: ToUnicodeTable, codeToGid: map<uint32, uint32>, n: nat, i: int, cp: int)
  {
    i < n && Contributes(table, codeToGid, i, cp)
    && forall j :: i < j < n ==> !Contributes(table, codeToGid, j, cp)
  }

  /**
   * CreateUnicodeToGIDMap after the codes 0 .. n-1: each code whose code
   * point is not 0 and whose GID is in `codeToGid` sets that code point's
   * entry in `unicodeMap`, later codes overwriting earlier ones.
   */
  function UnicodeToGid(table: ToUnicodeTable, codeToGid: map<uint32, uint32>, unicodeMap: map<uint32, uint32>, n: nat): map<uint32, uint32>
    requires n <= 256
  {
    if n == 0 then unicodeMap
    else
      var prev := UnicodeToGid(table, codeToGid, unicodeMap, n - 1);
      var cp := table[n - 1];
      if cp == 0 || (n - 1) !in codeToGid then prev else prev[cp := codeToGid[n - 1]]
  }

  /**
   * The keys CreateUnicodeToGIDMap leaves in the map: those it had, plus
   * every code point with a contributing code.
   */
  lemma {:induction false} UnicodeToGidKeys(table: ToUnicodeTable, codeToGid: map<uint32, uint32>, unicodeMap: map<uint32, uint32>, n: nat)
    requires n <= 256
    ensures forall cp: uint32 :: cp in UnicodeToGid(table, codeToGid, unicodeMap, n) <==>
      cp in unicodeMap || exists i :: 0 <= i < n && Contributes(table, codeToGid, i, cp)
    decreases n
  {
    if n > 0 {
      UnicodeToGidKeys(table, codeToGid, unicodeMap, n - 1);
      var prev := UnicodeToGid(table, codeToGid, unicodeMap, n - 1);
      var r := UnicodeToGid(table, codeToGid, unicodeMap, n);
      forall cp: uint32 | cp in r
        ensures cp in unicodeMap || exists i :: 0 <= i < n && Contributes(table, codeToGid, i, cp)
      {
        if cp !in prev {
          assert Contributes(table, codeToGid, n - 1, cp);
        }
      }
    }
  }

  /** A code point with a contributing code gets the GID of the last such code. */
  lemma {:induction false} UnicodeToGidLastWins(table: ToUnicodeTable, codeToGid: map<uint32, uint32>, unicodeMap: map<uint32, uint32>, n: nat)
    requires n <= 256
    ensures forall cp: uint32, i :: LastContributor(table, codeToGid, n, i, cp) ==>
      cp in UnicodeToGid(table, codeToGid, unicodeMap, n) && UnicodeToGid(table, codeToGid, unicodeMap, n)[cp] == codeToGid[i]
    decreases n
  {
    if n > 0 {
      UnicodeToGidLastWins(table, codeToGid, unicodeMap, n - 1);
      forall cp: uint32, i | LastContributor(table, codeToGid, n, i, cp)
        ensures cp in UnicodeToGid(table, codeToGid, unicodeMap, n)
        ensures UnicodeToGid(table, codeToGid, unicodeMap, n)[cp] == codeToGid[i]
      {
        if i < n - 1 {
          assert LastContributor(table, codeToGid, n - 1, i, cp);
          assert !Contributes(table, codeToGid, n - 1, cp);
        }
      }
    }
  }

  /** A code point without a contributing code keeps the GID it had. */
  lemma {:induction false} UnicodeToGidKeepsOthers(table: ToUnicodeTable, codeToGid: map<uint32, uint32>, unicodeMap: map<uint32, uint32>, n: nat)
    requires n <= 256
    ensures forall cp: uint32 :: cp in unicodeMap && (forall i :: 0 <= i < n ==> !Contributes(table, codeToGid, i, cp)) ==>
      cp in UnicodeToGid(table, codeToGid, unicodeMap, n) && UnicodeToGid(table, codeToGid, unicodeMap, n)[cp] == unicodeMap[cp]
    decreases n
  {
    if n > 0 {
      UnicodeToGidKeepsOthers(table, codeToGid, unicodeMap, n - 1);
      forall cp: uint32 | cp in unicodeMap && (forall i :: 0 <= i < n ==> !Contributes(table, codeToGid, i, cp))
        ensures cp in UnicodeToGid(table, codeToGid, unicodeMap, n)
        ensures UnicodeToGid(table, codeToGid, unicodeMap, n)[cp] == unicodeMap[cp]
      {
        assert !Contributes(table, codeToGid, n - 1, cp);
      }
    }
  }

  /**
   * A PdfBuiltInEncoding: its name, its fixed table, and the reverse table
   * from code point to code, which stays empty until first needed.
   */
  class BuiltInEncodingMap {
    const name: string
    const toUnicode: ToUnicodeTable
    var encodingTable: map<CodePoint, nat>

    /** The reverse table is either not filled yet or complete. */
    ghost predicate Valid()
      reads this
    {
      encodingTable == map[] || encodingTable == LastIndexMap(toUnicode)
    }

    /** The constructor: the table is given by the concrete encoding; the reverse table starts empty. */
    constructor(name: string, toUnicode: ToUnicodeTable)
      ensures Valid() && this.name == name && this.toUnicode == toUnicode && encodingTable == map[]
    {
      this.name := name;
      this.toUnicode := toUnicode;
      encodingTable := map[];
    }

    /**
     * initEncodingTable: does nothing when the reverse table is filled,
     * otherwise maps each table entry to its code, in code order.
     */
    method InitEncodingTable()
      requires Valid()
      modifies this
      ensures Valid() && encodingTable == LastIndexMap(toUnicode)
    {
      if encodingTable != map[] {
        return;
      }
      var i := 0;
      while i < 256
        invariant 0 <= i <= 256
        invariant encodingTable == LastIndexMap(toUnicode[..i])
      {
        assert toUnicode[..i + 1][..i] == toUnicode[..i];
        encodingTable := encodingTable[toUnicode[i] := i];
        i := i + 1;
      }
      assert toUnicode[..256] == toUnicode;
    }

    /**
     * tryGetCharCode: fills the reverse table if needed, then returns the
     * one-byte code of the code point, or the empty code when it has none.
     */
    method TryGetCharCode(codePoint: CodePoint) returns (ok: bool, codeUnit: CharCode)
      requires Valid()
      modifies this
      ensures Valid() && encodingTable == LastIndexMap(toUnicode)
      ensures ok == CodeOfCodePoint(toUnicode, codePoint).Some?
      ensures codeUnit == (if ok then CodeOfCodePoint(toUnicode, codePoint).value else NoCode)
    {
      InitEncodingTable();
      if codePoint !in encodingTable {
        ok, codeUnit := false, NoCode;
        return;
      }
      LastIndexMapSpec(toUnicode);
      ok, codeUnit := true, CharCode(encodingTable[codePoint], 1);
    }

    /**
     * CreateUnicodeToGIDMap: for each code 0 .. 255 whose code point is not
     * 0 and which has a GID in `codeToGid`, sets the code point's GID in
     * `unicodeMap`; returns the updated map.
     */
    method CreateUnicodeToGidMap(codeToGid: map<uint32, uint32>, unicodeMap: map<uint32, uint32>) returns (result: map<uint32, uint32>)
      ensures result == UnicodeToGid(toUnicode, codeToGid, unicodeMap, 256)
    {
      result := unicodeMap;
      for i := 0 to 256
        invariant result == UnicodeToGid(toUnicode, codeToGid, unicodeMap, i)
      {
        var unicodeCp := toUnicode[i];
        if unicodeCp == 0 {
          continue;
        }
        if i !in codeToGid {
          continue;
        }
        result := result[unicodeCp := codeToGid[i]];
      }
    }
  }
}
