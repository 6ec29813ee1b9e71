/**
 * The JCROM content provider: binary content held as a byte array, a file,
 * an open stream (with an optional known length) or a repository Binary,
 * behind one interface that reports the kind, the length, whether the
 * content already lives in the repository, and copies it to a file.
 */
module DataProvider {
  import opened JavaIo
  import opened Jcr
  import opened Chunks

  /** The kinds a provider reports (the `TYPE` enumeration of JcrDataProvider). */
  datatype Type = BYTES | FILE | STREAM

  /** Which constructor built a provider; recorded for the specification only. */
  datatype Origin = FromBytes | FromFile | FromStream | FromBinary

  /** How a copy to a file can fail in the model. */
  datatype WriteError =
    | FileNotFound  // the source file is missing when it is opened for reading
    | NullStream    // the stream to copy is null: a Binary whose stream could not be opened

  datatype Outcome = Pass | Fail(error: WriteError)

  /** Buffer size of the stream copy loop. */
  const STREAM_BUFFER_SIZE: nat := 1024

  /** Buffer size of the file copy loop. */
  const FILE_BUFFER_SIZE: nat := 32768

  /**
   * `System.arraycopy(src, 0, dst, 0, length)`, element by element. Also
   * correct when `src` and `dst` are the same array.
   */
  method ArrayCopy(src: array<Byte>, dst: array<Byte>, length: nat)
    requires length <= src.Length && length <= dst.Length
    modifies dst
    ensures dst[..length] == old(src[..length])
    ensures dst[length..] == old(dst[length..])
  {
    var i := 0;
    while i < length
      invariant 0 <= i <= length
      invariant dst[..i] == old(src[..i])
      invariant forall k :: i <= k < dst.Length ==> dst[k] == old(dst[k])
      invariant src != dst ==> src[..] == old(src[..])
    {
      dst[i] := src[i];
      i := i + 1;
    }
  }

  class JcrDataProviderImpl {
    const kind: Type
    const bytes: array?<Byte>
    const file: File?
    const inputStream: InputStream?
    const binary: Binary?
    const contentLength: int
    ghost const origin: Origin

    /** Each constructor fills the fields of its own form and leaves the others null. */
    ghost predicate Valid()
    {
      match origin
      case FromBytes =>
        kind == BYTES && bytes != null && file == null && inputStream == null && binary == null &&
        contentLength == bytes.Length
      case FromFile =>
        kind == FILE && bytes == null && file != null && inputStream == null && binary == null
      case FromStream =>
        kind == STREAM && bytes == null && file == null && inputStream != null && binary == null
      case FromBinary =>
        kind == STREAM && bytes == null && file == null && inputStream == null && binary != null &&
        contentLength == -1
    }

    /** Holds a private copy of the caller's array. */
    constructor OfBytes(src: array<Byte>)
      ensures Valid() && origin == FromBytes
      ensures fresh(bytes) && bytes[..] == src[..]
      ensures contentLength == src.Length
    {
      var copy := new Byte[src.Length];
      ArrayCopy(src, copy, src.Length);
      kind := BYTES;
      bytes := copy;
      file := null;
      inputStream := null;
      binary := null;
      contentLength := src.Length;
      origin := FromBytes;
    }

    /** Holds the file; its length is read once, here. */
    constructor OfFile(f: File)
      ensures Valid() && origin == FromFile
      ensures file == f && contentLength == f.Length()
    {
      kind := FILE;
      file := f;
      bytes := null;
      inputStream := null;
      binary := null;
      contentLength := f.Length();
      origin := FromFile;
    }

    /** A stream of unknown length. */
    constructor OfStream(s: InputStream)
      ensures Valid() && origin == FromStream
      ensures inputStream == s && contentLength == -1
    {
      kind := STREAM;
      inputStream := s;
      bytes := null;
      file := null;
      binary := null;
      contentLength := -1;
      origin := FromStream;
    }

    /** A stream whose length the caller supplies. */
    constructor OfStreamWithLength(s: InputStream, length: int)
      ensures Valid() && origin == FromStream
      ensures inputStream == s && contentLength == length
    {
      kind := STREAM;
      inputStream := s;
      bytes := null;
      file := null;
      binary := null;
      contentLength := length;
      origin := FromStream;
    }

    /** A repository Binary: reported as a stream, and as already persisted. */
    constructor OfBinary(b: Binary)
      ensures Valid() && origin == FromBinary
      ensures binary == b && kind == STREAM
    {
      kind := STREAM;
      binary := b;
      bytes := null;
      file := null;
      inputStream := null;
      contentLength := -1;
      origin := FromBinary;
    }

    function IsBytes(): (r: bool)
      requires Valid()
      ensures r <==> origin == FromBytes
    {
      kind == BYTES
    }

    function IsFile(): (r: bool)
      requires Valid()
      ensures r <==> origin == FromFile
    {
      kind == FILE
    }

    /** True for a stream, and for a Binary too. */
    function IsStream(): (r: bool)
      requires Valid()
      ensures r <==> origin == FromStream || origin == FromBinary
    {
      kind == STREAM
    }

    function GetType(): (t: Type)
      requires Valid()
      ensures t == BYTES <==> origin == FromBytes
      ensures t == FILE <==> origin == FromFile
      ensures t == STREAM <==> origin == FromStream || origin == FromBinary
    {
      kind
    }

    /** The three kind tests never agree and never all fail. */
    lemma ExactlyOneKind()
      requires Valid()
      ensures IsBytes() || IsFile() || IsStream()
      ensures !(IsBytes() && IsFile()) && !(IsBytes() && IsStream()) && !(IsFile() && IsStream())
    {
    }

    /** The private copy, or null unless built from bytes. */
    function GetBytes(): (r: array?<Byte>)
      requires Valid()
      ensures r != null <==> IsBytes()
      ensures r != null ==> r.Length == contentLength
    {
      bytes
    }

    /** The file, or null unless built from a file. */
    function GetFile(): (r: File?)
      requires Valid()
      ensures r != null <==> IsFile()
    {
      file
    }

    /** Whether the content already lives in the repository: only a Binary does. */
    function IsPersisted(): (r: bool)
      requires Valid()
      ensures r <==> origin == FromBinary
      ensures r ==> IsStream() && GetBytes() == null && GetFile() == null
    {
      binary != null
    }

    /**
     * The stream to read: a new one from the Binary on each call, otherwise
     * the stored stream (null unless built from a stream). When the Binary
     * cannot open a stream the stored field is returned, which is null there.
     */
    method GetInputStream() returns (r: InputStream?)
      requires Valid()
      ensures binary == null ==> r == inputStream
      ensures origin == FromStream ==> r != null
      ensures binary != null ==>
        r == null || (fresh(r) && r.remaining == binary.content && !r.closed)
    {
      r := inputStream;
      if binary != null {
        var s := binary.GetStream();
        if s.Some? {
          r := s.value;
        }
      }
    }

    /**
     * The stored length; for a Binary its size, or -1 when the repository
     * cannot report it.
     */
    method GetContentLength() returns (size: int)
      requires Valid()
      ensures binary == null ==> size == contentLength
      ensures origin == FromBytes ==> size == GetBytes().Length
      ensures origin == FromBinary ==> size == -1 || size == |binary.content|
    {
      size := contentLength;
      if binary != null {
        var s := binary.GetSize();
        if s.Some? {
          size := s.value;
        }
      }
    }

    /**
     * Copies the content into `dest`, dispatching on the kind. The byte and
     * stream forms always leave `dest` holding the content; the file form
     * fails when the file is missing, and leaves `dest` empty when `dest` is
     * the provider's own file (it is truncated before it is read); the Binary
     * form leaves `dest` empty and fails when no stream can be opened.
     */
    method WriteToFile(dest: File) returns (res: Outcome)
      requires Valid()
      modifies dest, inputStream
      ensures origin == FromBytes ==> res == Pass && dest.present && dest.data == bytes[..]
      ensures origin == FromFile && !old(file.present) ==>
        res == Fail(FileNotFound) && dest.present == old(dest.present) && dest.data == old(dest.data)
      ensures origin == FromFile && old(file.present) ==>
        res == Pass && dest.present && dest.data == (if file == dest then [] else old(file.data))
      ensures origin == FromStream ==>
        res == Pass && dest.present && dest.data == old(inputStream.remaining) &&
        inputStream.remaining == [] && inputStream.closed
      ensures origin == FromBinary ==>
        dest.present &&
        ((res == Pass && dest.data == binary.content) || (res == Fail(NullStream) && dest.data == []))
    {
      res := Pass;
      if GetType() == BYTES {
        WriteBytes(GetBytes(), dest);
      } else if GetType() == STREAM {
        var s := GetInputStream();
        ghost var chunks;
        res, chunks := WriteStream(s, dest);
      } else if GetType() == FILE {
        ghost var chunks;
        res, chunks := WriteFile(GetFile(), dest);
      }
    }

    /**
     * Copies a stream into `dest` through a 1024-byte buffer, stopping at the
     * first read that returns no bytes, then closes the stream. A null stream
     * fails after `dest` has been opened, and so truncated.
     */
    static method WriteStream(input: InputStream?, dest: File) returns (res: Outcome, ghost chunks: seq<seq<Byte>>)
      modifies input, dest
      ensures dest.present
      ensures input == null ==> res == Fail(NullStream) && dest.data == []
      ensures input != null ==>
        res == Pass && dest.data == old(input.remaining) && input.remaining == [] && input.closed
      ensures dest.data == Concat(chunks) && ChunksWithin(chunks, STREAM_BUFFER_SIZE)
      ensures |chunks| <= |dest.data| <= |chunks| * STREAM_BUFFER_SIZE
    {
      dest.OpenOutput();
      chunks := [];
      if input == null {
        return Fail(NullStream), chunks;
      }
      var buf := new Byte[STREAM_BUFFER_SIZE];
      ghost var all := input.remaining;
      while true
        invariant dest.present
        invariant dest.data == Concat(chunks) && ChunksWithin(chunks, STREAM_BUFFER_SIZE)
        invariant dest.data + input.remaining == all
        decreases |input.remaining|
      {
        var len := input.Read(buf);
        if len <= 0 {
          break;
        }
        ghost var chunk := buf[..len];
        dest.Write(buf, len);
        ConcatAppend(chunks, chunk);
        ChunksWithinAppend(chunks, chunk, STREAM_BUFFER_SIZE);
        chunks := chunks + [chunk];
      }
      input.Close();
      ChunkCountBounds(chunks, STREAM_BUFFER_SIZE);
      res := Pass;
    }

    /** Writes the whole array into `dest` in one call. */
    static method WriteBytes(bytes: array<Byte>, dest: File)
      modifies dest
      ensures dest.present && dest.data == bytes[..]
    {
      dest.OpenOutput();
      dest.Write(bytes, bytes.Length);
    }

    /**
     * Copies `source` into `dest` through a 32768-byte buffer until a read
     * reports end of file; a read of zero bytes writes nothing. `dest` is
     * opened (and truncated) after `source` and before the first read.
     */
    static method WriteFile(source: File, dest: File) returns (res: Outcome, ghost chunks: seq<seq<Byte>>)
      modifies dest
      ensures !old(source.present) ==>
        res == Fail(FileNotFound) && chunks == [] && dest.present == old(dest.present) && dest.data == old(dest.data)
      ensures old(source.present) ==>
        res == Pass && dest.present && dest.data == (if source == dest then [] else old(source.data))
      ensures old(source.present) ==> dest.data == Concat(chunks)
      ensures old(source.present) ==> |chunks| <= |dest.data| <= |chunks| * FILE_BUFFER_SIZE
      ensures ChunksWithin(chunks, FILE_BUFFER_SIZE)
    {
      chunks := [];
      if !source.present {
        return Fail(FileNotFound), chunks;
      }
      var input := new FileInputStream(source);
      dest.OpenOutput();
      var buf := new Byte[FILE_BUFFER_SIZE];
      while true
        invariant input.file == source && dest.present
        invariant dest.data == Concat(chunks) && ChunksWithin(chunks, FILE_BUFFER_SIZE)
        invariant source != dest ==> source.data == old(source.data) && input.pos <= |source.data|
        invariant source != dest ==> dest.data == source.data[..input.pos]
        invariant source == dest ==> dest.data == [] && input.pos == 0
        decreases |source.data| - input.pos
      {
        var doneCnt := input.Read(buf, 0, FILE_BUFFER_SIZE);
        if doneCnt < 0 {
          break;
        }
        if doneCnt != 0 {
          ghost var chunk := buf[..doneCnt];
          dest.Write(buf, doneCnt);
          ConcatAppend(chunks, chunk);
          ChunksWithinAppend(chunks, chunk, FILE_BUFFER_SIZE);
          chunks := chunks + [chunk];
        }
      }
      ChunkCountBounds(chunks, FILE_BUFFER_SIZE);
      res := Pass;
    }
  }

  /** Changing the caller's array after construction does not change the provider's bytes. */
  method CallerMutationIsInvisible(src: array<Byte>, i: nat, v: Byte) returns (p: JcrDataProviderImpl)
    requires i < src.Length
    modifies src
    ensures p.Valid() && p.GetBytes() != null
    ensures p.GetBytes()[..] == old(src[..]) && src[i] == v
  {
    p := new JcrDataProviderImpl.OfBytes(src);
    src[i] := v;
  }

  /**
   * A provider built from a stream can be copied out once: the stream is
   * consumed, so a second copy yields an empty file.
   */
  method StreamFormIsSingleUse(p: JcrDataProviderImpl, first: File, second: File)
    requires p.Valid() && p.origin == FromStream
    modifies p.inputStream, first, second
    ensures first.data == old(p.inputStream.remaining) || first == second
    ensures second.present && second.data == []
  {
    var r1 := p.WriteToFile(first);
    var r2 := p.WriteToFile(second);
  }

  /** A provider built from a Binary reopens it on every copy: each copy that succeeds is complete. */
  method BinaryFormIsReusable(p: JcrDataProviderImpl, first: File, second: File)
    requires p.Valid() && p.origin == FromBinary
    modifies first, second
    ensures first.present && second.present
    ensures first.data == p.binary.content || first.data == []
    ensures second.data == p.binary.content || second.data == []
  {
    var r1 := p.WriteToFile(first);
    var r2 := p.WriteToFile(second);
  }
}
