/**
 * Types shared by every part of the model: bytes, the machine integer
 * ranges the C++ code works with, the errors it raises, and two sequence
 * helpers (removal at an index and the "last index of each element" map)
 * that both the annotation collection and the built-in encoding table use.
 */
module Common {

  /** One octet of a byte buffer (a C++ `char` read as unsigned). */
  type byte = x: int | 0 <= x < 256

  const UINT32_LIMIT: int := 0x1_0000_0000
  const SIZE_LIMIT: int := 0x1_0000_0000_0000_0000

  /** `unsigned` (32 bits). */
  type uint32 = x: int | 0 <= x < UINT32_LIMIT
  /** `uint16_t`. */
  type uint16 = x: int | 0 <= x < 0x1_0000
  /** `size_t` (64 bits). */
  type size_t = x: int | 0 <= x < SIZE_LIMIT
  /** `ssize_t` (64 bits, two's complement). */
  type ssize_t = x: int | -0x8000_0000_0000_0000 <= x < 0x8000_0000_0000_0000

  /**
   * The errors the modelled code raises. The first four are PdfErrorCode
   * values; InvalidUtf8 stands for the exceptions of the UTF-8 decoder and
   * KeyNotFound for the std::out_of_range of unordered_map::at.
   */
  datatype Error = IOError | ValueOutOfRange | InvalidHandle | InvalidEnumValue | InvalidUtf8 | KeyNotFound

  datatype Option<+T> = None | Some(value: T)

  /** The value of an operation that either returns or raises. */
  datatype Result<+T> = Ok(value: T) | Err(error: Error)

  /** An operation that returns nothing or raises. */
  datatype Outcome = Pass | Fail(error: Error)

  /** The sequence `s` without its element at index `i` (vector::erase, PdfArray::RemoveAt). */
  function RemoveAt<T>(s: seq<T>, i: nat): (r: seq<T>)
    requires i < |s|
    ensures |r| == |s| - 1
    ensures forall k :: 0 <= k < i ==> r[k] == s[k]
    ensures forall k :: i <= k < |r| ==> r[k] == s[k + 1]
  {
    s[..i] + s[i + 1..]
  }

  /**
   * Maps every element of `s` to the index of its LAST occurrence: the
   * result of walking `s` from the front and assigning `m[s[i]] := i`,
   * where a later assignment overwrites an earlier one.
   */
  function LastIndexMap<T(==)>(s: seq<T>): map<T, nat>
  {
    if s == [] then map[] else LastIndexMap(s[..|s| - 1])[s[|s| - 1] := |s| - 1]
  }

  /** What LastIndexMap holds: exactly the elements of `s`, each at its last index. */
  lemma {:induction false} LastIndexMapSpec<T>(s: seq<T>)
    ensures forall x :: x in LastIndexMap(s) <==> x in s
    ensures forall x :: x in LastIndexMap(s) ==> LastIndexMap(s)[x] < |s| && s[LastIndexMap(s)[x]] == x
    ensures forall x, j :: x in LastIndexMap(s) && LastIndexMap(s)[x] < j < |s| ==> s[j] != x
  {
    if s != [] {
      var p := s[..|s| - 1];
      LastIndexMapSpec(p);
      forall x ensures x in LastIndexMap(s) <==> x in s {
        assert x in s <==> x in p || x == s[|s| - 1] by {
          assert s == p + [s[|s| - 1]];
        }
      }
    }
  }
}
