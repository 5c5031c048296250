/**
 * The seekable in-memory stream devices (src/podofo/auxiliary/StreamDevice.cpp):
 * the shared seek calculator, the null device that only counts, the span
 * device that reads and overwrites a fixed-length buffer in place, and the
 * table that turns a file mode and an access into an fopen mode string.
 */
module StreamDevice {
  import opened Common

  datatype SeekDirection = Begin | Current | End

  /** `a - b` on size_t, which wraps modulo 2^64. */
  function SizeSub(a: size_t, b: size_t): size_t
  {
    (a - b) % SIZE_LIMIT
  }

  /** `a + (size_t)b` on size_t, which wraps modulo 2^64. */
  function SizeAdd(a: size_t, b: int): size_t
  {
    (a + b) % SIZE_LIMIT
  }

  /** Where a seek lands, in unbounded integers. */
  function SeekTarget(curpos: size_t, devlen: size_t, offset: ssize_t, direction: SeekDirection): int
  {
    match direction
    case Begin => offset
    case Current => curpos + offset
    case End => devlen + offset
  }

  /**
   * The seek the device promises: a backwards offset from the start or a
   * forward offset from the end is an IOError; otherwise the seek lands on
   * its target when that lies in [0, devlen], and is out of range if not.
   */
  function SeekReference(curpos: size_t, devlen: size_t, offset: ssize_t, direction: SeekDirection): Result<size_t>
  {
    if (direction == Begin && offset < 0) || (direction == End && offset > 0) then Err(IOError)
    else
      var t := SeekTarget(curpos, devlen, offset, direction);
      if 0 <= t <= devlen then Ok(t) else Err(ValueOutOfRange)
  }

  /**
   * StreamDevice::SeekPosition: the new cursor for a seek of `offset`
   * from `direction`, on a device of length `devlen` whose cursor is at
   * `curpos`. The size_t arithmetic is written out, wrap-around included.
   */
  function SeekPosition(curpos: size_t, devlen: size_t, offset: ssize_t, direction: SeekDirection): (r: Result<size_t>)
    ensures direction == Current && offset == 0 ==> r == Ok(curpos)
    ensures curpos <= devlen ==> r == SeekReference(curpos, devlen, offset, direction)
    ensures curpos <= devlen && r.Ok? ==> r.value <= devlen
  {
    match direction
    case Begin =>
      if offset < 0 then Err(IOError)
      else if offset > devlen then Err(ValueOutOfRange)
      else Ok(offset)
    case Current =>
      if offset == 0 then Ok(curpos)
      else if offset > 0 && offset > SizeSub(devlen, curpos) then Err(ValueOutOfRange)
      else if offset < 0 && -(offset as int) > curpos then Err(ValueOutOfRange)
      else Ok(SizeAdd(curpos, offset))
    case End =>
      if offset > 0 then Err(IOError)
      else if -(offset as int) > devlen then Err(ValueOutOfRange)
      else Ok(devlen + offset)
  }

  /** A device that stores nothing and only tracks a length and a cursor. */
  class NullStreamDevice {
    var length: size_t
    var position: size_t

    ghost predicate Valid()
      reads this
    {
      position <= length
    }

    constructor ()
      ensures Valid() && length == 0 && position == 0
    {
      length, position := 0, 0;
    }

    function Eof(): bool
      reads this
    {
      position == length
    }

    /** Moves the cursor by `size` (size_t addition) and grows the length to reach it. */
    method Write(size: size_t)
      requires Valid()
      modifies this
      ensures Valid()
      ensures position == SizeAdd(old(position), size)
      ensures length == if position > old(length) then position else old(length)
      ensures old(position) + size < SIZE_LIMIT ==> position == old(position) + size && length >= old(length)
    {
      position := SizeAdd(position, size);
      if position > length {
        length := position;
      }
    }

    /** Moves the cursor towards the end by at most `size` and returns the distance moved. */
    method Read(size: size_t) returns (count: size_t, eof: bool)
      requires Valid()
      modifies this
      ensures Valid() && length == old(length)
      ensures eof == (position == length)
      ensures old(position) + size < SIZE_LIMIT ==>
        position == (if old(position) + size < length then old(position) + size else length) &&
        count == position - old(position)
    ensures old(position) + size >= SIZE_LIMIT ==>
      position == old(position) + size - SIZE_LIMIT && count == size
    {
      var prevpos := position;
      var target := SizeAdd(position, size);
      position := if length < target then length else target;
      eof := position == length;
      count := SizeSub(position, prevpos);
    }

    /** Yields the character 0 and reports failure, whether or not the cursor moves. */
    method ReadChar() returns (ok: bool, ch: byte)
      requires Valid()
      modifies this
      ensures Valid() && length == old(length)
      ensures !ok && ch == 0
      ensures position == if old(position) == length then old(position) else old(position) + 1
    {
      ch := 0;
      ok := false;
      if position == length {
        return;
      }
      position := position + 1;
    }

    method Peek() returns (ok: bool, ch: byte)
      ensures ok == (position != length) && ch == 0
    {
      ch := 0;
      ok := length != position;
    }

    method Seek(offset: ssize_t, direction: SeekDirection) returns (r: Outcome)
      requires Valid()
      modifies this
      ensures Valid() && length == old(length)
      ensures SeekPosition(old(position), length, offset, direction).Ok? ==>
        (r == Pass && position == SeekPosition(old(position), length, offset, direction).value)
      ensures SeekPosition(old(position), length, offset, direction).Err? ==>
        (r == Fail(SeekPosition(old(position), length, offset, direction).error) && position == old(position))
    {
      var p := SeekPosition(position, length, offset, direction);
      if p.Err? {
        return Fail(p.error);
      }
      position := p.value;
      r := Pass;
    }
  }

  /** Overwriting one more byte extends the written part of the buffer by that byte. */
  lemma OverwriteStep<T>(current: seq<T>, before: seq<T>, data: seq<T>, pos: nat, i: nat)
    requires i < |data| && pos + |data| <= |before|
    requires current == before[..pos] + data[..i] + before[pos + i..]
    ensures current[pos + i := data[i]] == before[..pos] + data[..i + 1] + before[pos + i + 1..]
  {
    var next := before[..pos] + data[..i + 1] + before[pos + i + 1..];
    assert |current[pos + i := data[i]]| == |next|;
    forall k | 0 <= k < |next| ensures current[pos + i := data[i]][k] == next[k] {
      if k < pos + i {
      } else if k > pos + i {
      }
    }
  }

  /** The memcpy of writeBuffer: copies `data` into `buffer` from index `pos` on. */
  method Overwrite(buffer: array<byte>, pos: nat, data: seq<byte>)
    requires pos + |data| <= buffer.Length
    modifies buffer
    ensures buffer[..] == old(buffer[..pos]) + data + old(buffer[pos + |data|..])
  {
    ghost var before := buffer[..];
    var i := 0;
    while i < |data|
      invariant 0 <= i <= |data|
      invariant buffer[..] == before[..pos] + data[..i] + before[pos + i..]
    {
      OverwriteStep(buffer[..], before, data, pos, i);
      buffer[pos + i] := data[i];
      i := i + 1;
    }
    assert data[..i] == data;
  }

  /** A device over a caller-owned buffer whose length never changes. */
  class SpanStreamDevice {
    const buffer: array<byte>
    var position: size_t

    ghost predicate Valid()
      reads this
    {
      buffer.Length < SIZE_LIMIT && position <= buffer.Length
    }

    constructor (buffer: array<byte>)
      requires buffer.Length < SIZE_LIMIT
      ensures Valid() && this.buffer == buffer && position == 0
    {
      this.buffer := buffer;
      position := 0;
    }

    function Length(): size_t
      reads this
      requires Valid()
    {
      buffer.Length
    }

    function Eof(): bool
      reads this
      requires Valid()
    {
      position == Length()
    }

    /**
     * Overwrites the bytes under the cursor with `data` and moves past
     * them; a write that would run past the end raises ValueOutOfRange and
     * changes nothing. The buffer never grows.
     */
    method Write(data: seq<byte>) returns (r: Outcome)
      requires Valid()
      requires position + |data| < SIZE_LIMIT  // the data exists in memory beside the buffer
      modifies this, buffer
      ensures Valid()
      ensures old(position) + |data| > buffer.Length ==>
        r == Fail(ValueOutOfRange) && position == old(position) && buffer[..] == old(buffer[..])
      ensures old(position) + |data| <= buffer.Length ==>
        r == Pass && position == old(position) + |data| &&
        buffer[..] == old(buffer[..position]) + data + old(buffer[position + |data|..])
    {
      if position + |data| > buffer.Length {
        return Fail(ValueOutOfRange);
      }
      Overwrite(buffer, position, data);
      position := position + |data|;
      r := Pass;
    }

    /** Copies out at most `size` bytes from the cursor on and moves past them. */
    method Read(size: size_t) returns (data: seq<byte>, eof: bool)
      requires Valid()
      modifies this
      ensures Valid()
      ensures |data| == if size < buffer.Length - old(position) then size else buffer.Length - old(position)
      ensures data == buffer[old(position)..old(position) + |data|]
      ensures position == old(position) + |data|
      ensures eof == (position == buffer.Length)
    {
      var readCount := if size < buffer.Length - position then size else buffer.Length - position;
      data := buffer[position..position + readCount];
      position := position + readCount;
      eof := position == buffer.Length;
    }

    method ReadChar() returns (ok: bool, ch: byte)
      requires Valid()
      modifies this
      ensures Valid()
      ensures ok == (old(position) < buffer.Length)
      ensures ok ==> ch == buffer[old(position)] && position == old(position) + 1
      ensures !ok ==> ch == 0 && position == old(position)
    {
      if position == buffer.Length {
        return false, 0;
      }
      ch := buffer[position];
      position := position + 1;
      ok := true;
    }

    method Peek() returns (ok: bool, ch: byte)
      requires Valid()
      ensures ok == (position < buffer.Length)
      ensures ok ==> ch == buffer[position]
      ensures !ok ==> ch == 0
    {
      if position == buffer.Length {
        return false, 0;
      }
      ch := buffer[position];
      ok := true;
    }

    method Seek(offset: ssize_t, direction: SeekDirection) returns (r: Outcome)
      requires Valid()
      modifies this
      ensures Valid()
      ensures SeekPosition(old(position), buffer.Length, offset, direction).Ok? ==>
        (r == Pass && position == SeekPosition(old(position), buffer.Length, offset, direction).value)
      ensures SeekPosition(old(position), buffer.Length, offset, direction).Err? ==>
        r == Fail(SeekPosition(old(position), buffer.Length, offset, direction).error) && position == old(position)
    {
      var p := SeekPosition(position, buffer.Length, offset, direction);
      if p.Err? {
        return Fail(p.error);
      }
      position := p.value;
      r := Pass;
    }
  }

  // -----------------------------------------------------------------------
  // createFile: file mode and access to an fopen mode string

  datatype FileMode = CreateNew | Create | Open | OpenOrCreate | Truncate | Append

  datatype DeviceAccess = Read | Write | ReadWrite {
    predicate CanRead() { this != Write }
    predicate CanWrite() { this != Read }
  }

  /** What the C library does with an fopen mode: "r", "w" or "a", optionally followed by "+". */
  predicate FopenReads(m: string) { |m| > 0 && (m[0] == 'r' || m[|m| - 1] == '+') }
  predicate FopenWrites(m: string) { |m| > 0 && (m[0] == 'w' || m[0] == 'a' || m[|m| - 1] == '+') }
  predicate FopenTruncates(m: string) { |m| > 0 && m[0] == 'w' }
  predicate FopenCreates(m: string) { |m| > 0 && (m[0] == 'w' || m[0] == 'a') }
  /** Every write goes to the end of the file, whatever the position. */
  predicate FopenAppends(m: string) { |m| > 0 && m[0] == 'a' }

  /**
   * The fopen mode createFile chooses, or the error it raises before
   * opening. `fileExists` is whether a file is already at the path.
   */
  function CreateFileMode(mode: FileMode, access: DeviceAccess, fileExists: bool): (r: Result<string>)
    ensures r.Ok? ==> FopenReads(r.value) == access.CanRead() && FopenWrites(r.value) == access.CanWrite()
    ensures r.Err? ==> r.error == IOError
    ensures r.Ok? ==> r.value in {"r", "r+", "w", "w+", "a", "a+"}
    ensures r.Ok? ==> (FopenAppends(r.value) <==> mode == Append)
    ensures access == Read ==> (r.Ok? <==> mode == Open)
    ensures mode == CreateNew ==> (r.Ok? <==> access != Read && !fileExists)
    ensures mode == Truncate ==> (r.Ok? <==> access != Read && fileExists)
    ensures mode == Open ==> (r.Ok? <==> access == Read || fileExists)
    ensures mode == OpenOrCreate && access == ReadWrite ==> r == Ok(if fileExists then "r+" else "w+")
    ensures mode == Append && access != Read ==> r == Ok(if access == Write then "a" else "a+")
  {
    match mode
    case CreateNew =>
      if access == Read then Err(IOError)
      else if fileExists then Err(IOError)
      else if access == Write then Ok("w") else Ok("w+")
    case Create =>
      if access == Read then Err(IOError)
      else if access == Write then Ok("w") else Ok("w+")
    case Open =>
      if access.CanWrite() && !fileExists then Err(IOError)
      else if access == Read then Ok("r")
      else if access == Write then Ok("w")
      else Ok("r+")
    case OpenOrCreate =>
      if access == Read then Err(IOError)
      else if access == Write then Ok("w")
      else Ok(if fileExists then "r+" else "w+")
    case Truncate =>
      if access == Read then Err(IOError)
      else if !fileExists then Err(IOError)
      else if access == Write then Ok("w") else Ok("w+")
    case Append =>
      if access == Read then Err(IOError)
      else if access == Write then Ok("a") else Ok("a+")
  }

  /**
   * On an existing file, the chosen mode discards its content exactly for
   * Create and Truncate, and for a write-only Open or OpenOrCreate (the C
   * library has no write-only mode that keeps the content).
   */
  lemma CreateFileTruncation(mode: FileMode, access: DeviceAccess)
    requires CreateFileMode(mode, access, true).Ok?
    ensures FopenTruncates(CreateFileMode(mode, access, true).value) <==>
      mode == Create || mode == Truncate || ((mode == Open || mode == OpenOrCreate) && access == Write)
  {
  }

  /**
   * On a missing file, every accepted mode creates it, except a read-only
   * Open, whose fopen then fails.
   */
  lemma CreateFileOnMissing(mode: FileMode, access: DeviceAccess)
    requires CreateFileMode(mode, access, false).Ok?
    ensures FopenCreates(CreateFileMode(mode, access, false).value) <==> !(mode == Open && access == Read)
  {
  }
}
