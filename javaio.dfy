/**
 * Byte-sequence models of the java.io objects the content provider touches:
 * a file on disk, an input stream as the bytes it has yet to deliver, and a file
 * input stream that reads the file's current contents from a position.
 *
 * Reads follow the java.io.InputStream contract: a read into a non-empty
 * buffer returns -1 at end of stream and otherwise at least one and at most
 * the requested number of bytes; how many is up to the stream, so the model
 * chooses nondeterministically.
 */
module JavaIo {

  /** A Java `byte`: signed, eight bits. */
  newtype Byte = b: int | -128 <= b < 128

  datatype Option<T> = None | Some(value: T)

  /**
   * The file system entry a `java.io.File` names: it may be missing; when it
   * exists it holds a byte sequence.
   */
  class File {
    var present: bool
    var data: seq<Byte>

    /** A file that exists and holds `data`. */
    constructor Existing(data: seq<Byte>)
      ensures present && this.data == data
    {
      present := true;
      this.data := data;
    }

    /** A path with no file behind it. */
    constructor Missing()
      ensures !present && data == []
    {
      present := false;
      data := [];
    }

    /** `File.length()`: the size in bytes, 0 for a missing file. */
    function Length(): nat
      reads this
    {
      if present then |data| else 0
    }

    /** `new FileOutputStream(file)`: creates the file if needed and truncates it. */
    method OpenOutput()
      modifies this
      ensures present && data == []
    {
      present := true;
      data := [];
    }

    /** `out.write(b, 0, len)` on an output stream opened on this file: appends. */
    method Write(b: array<Byte>, len: nat)
      requires len <= b.Length
      modifies this
      ensures present == old(present)
      ensures data == old(data) + b[..len]
    {
      data := data + b[..len];
    }
  }

  /** An open `java.io.InputStream`, seen as the bytes it has still to deliver. */
  class InputStream {
    var remaining: seq<Byte>
    var closed: bool

    constructor (content: seq<Byte>)
      ensures remaining == content && !closed
    {
      remaining := content;
      closed := false;
    }

    /** `read(b)`: fills a prefix of `b` with the next bytes, or reports end of stream. */
    method Read(b: array<Byte>) returns (n: int)
      modifies this, b
      ensures closed == old(closed)
      ensures b.Length == 0 ==> n == 0 && remaining == old(remaining)
      ensures b.Length > 0 && old(remaining) == [] ==> n == -1 && remaining == []
      ensures b.Length > 0 && old(remaining) != [] ==>
        1 <= n <= b.Length && old(remaining) == b[..n] + remaining
    {
      if b.Length == 0 {
        return 0;
      }
      if remaining == [] {
        return -1;
      }
      var k: nat :| 1 <= k <= b.Length && k <= |remaining|;
      forall i | 0 <= i < k {
        b[i] := remaining[i];
      }
      assert remaining == remaining[..k] + remaining[k..];
      remaining := remaining[k..];
      n := k;
    }

    /** `close()`. A later read sees what was left, as for an in-memory stream. */
    method Close()
      modifies this
      ensures closed && remaining == old(remaining)
    {
      closed := true;
    }
  }

  /**
   * A `java.io.FileInputStream`: a read position over the file's contents as
   * they are at the time of each read (so it sees a truncation of the file).
   */
  class FileInputStream {
    const file: File
    var pos: nat

    /** The constructor throws FileNotFoundException for a missing file; callers check first. */
    constructor (file: File)
      requires file.present
      ensures this.file == file && pos == 0
    {
      this.file := file;
      pos := 0;
    }

    /** `read(b, off, len)`. */
    method Read(b: array<Byte>, off: nat, len: nat) returns (n: int)
      requires off + len <= b.Length
      modifies this, b
      ensures len == 0 ==> n == 0 && pos == old(pos)
      ensures len > 0 && old(pos) >= |file.data| ==> n == -1 && pos == old(pos)
      ensures len > 0 && old(pos) < |file.data| ==>
        1 <= n <= len && pos == old(pos) + n <= |file.data| &&
        b[off..off + n] == file.data[old(pos)..pos]
    {
      if len == 0 {
        return 0;
      }
      if pos >= |file.data| {
        return -1;
      }
      var k: nat :| 1 <= k <= len && k <= |file.data| - pos;
      forall i | 0 <= i < k {
        b[off + i] := file.data[pos + i];
      }
      pos := pos + k;
      n := k;
    }
  }
}
