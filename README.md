# JCROM content provider, modelled in Dafny

JCROM maps Java object graphs onto nodes of a JCR content repository. Binary
properties of mapped objects go through a content provider,
`JcrDataProviderImpl`. It wraps content given in one of four forms: a byte
array, a file, an open input stream with an optional length, or a repository
`Binary`. Through one interface it reports which kind it holds, the content
length, whether the content is already stored in the repository, and it
copies the content to a destination file.

The model has four modules:

- `JavaIo` (javaio.dfy) models the java.io objects the provider touches, as
  byte sequences:
  - a `File` that may be missing or holds bytes;
  - an `InputStream`, seen as the bytes it has still to deliver;
  - a `FileInputStream`, a read position over a file's current bytes.

  A read into a non-empty buffer returns -1 at the end. Otherwise it returns
  from one byte up to the buffer size; the exact number is chosen
  nondeterministically, as `java.io.InputStream` allows.
- `Jcr` (jcr.dfy) models `javax.jcr.Binary`: fixed content that can be reopened.
  `getSize` and `getStream` may fail on any call, a nondeterministic outcome.
- `Chunks` (chunks.dfy) holds the output of a chunked copy loop as the
  concatenation of the chunks it wrote, with lemmas about that concatenation.
- `DataProvider` (data_provider.dfy) models the provider itself:
  - class `JcrDataProviderImpl` with the source's `final` fields as `const`
    fields, its five constructors and its getters;
  - `writeToFile` and the three static `write` copy routines as methods; the
    stream copy and the file copy are chunked loops, and the byte-array write
    is a single write, as in the source;
  - `System.arraycopy`, as a loop.

A ghost constant `origin` records which constructor built a provider. `Valid()`
ties it to the stored kind tag and to which fields are null. A provider built
from a `Binary` is tagged `STREAM`, the same tag as a stream. Only the non-null
`binary` field tells the two apart.

When a `Binary` cannot open its stream, `getInputStream` returns the stored
`inputStream` field instead (src/main/java/org/jcrom/JcrDataProviderImpl.java:130-136).
That field is null in the Binary form. So `writeToFile` passes null to the
stream copy. The copy truncates the destination (lines 156-160) and then
throws a `NullPointerException` at `in.read` (line 165). The `finally` block's
`in.close()` (line 169) throws a second one, and that is the exception that
escapes. So `out.close()` (line 170) never runs and the destination's output
stream stays open. The model keeps only the failure and the truncated
destination: `GetInputStream` may return null there, and `WriteToFile` then
leaves the destination empty and fails with `NullStream`. The second exception
and the unclosed output stream are not modelled.

## Model

| member | source | states |
|---|---|---|
| `DataProvider.ArrayCopy` | src/main/java/org/jcrom/JcrDataProviderImpl.java:56-57 | the first `length` elements of the destination equal the source's original elements, even when the two arrays are the same; the rest of the destination is untouched |
| `DataProvider.JcrDataProviderImpl.OfBytes` | src/main/java/org/jcrom/JcrDataProviderImpl.java:54-62 | the provider holds a freshly allocated array equal to the caller's; kind BYTES; file, stream and binary null; content length is the array length |
| `DataProvider.JcrDataProviderImpl.OfFile` | src/main/java/org/jcrom/JcrDataProviderImpl.java:64-71 | kind FILE, holds that file, other fields null; content length is the file's length at construction (0 if it is missing) |
| `DataProvider.JcrDataProviderImpl.OfStream` | src/main/java/org/jcrom/JcrDataProviderImpl.java:73-75 | kind STREAM, holds that stream, other fields null; content length -1 |
| `DataProvider.JcrDataProviderImpl.OfStreamWithLength` | src/main/java/org/jcrom/JcrDataProviderImpl.java:77-84 | kind STREAM, holds that stream, other fields null; content length is the supplied length |
| `DataProvider.JcrDataProviderImpl.OfBinary` | src/main/java/org/jcrom/JcrDataProviderImpl.java:94-101 | kind STREAM (not a fourth tag), holds the binary, the other fields null; stored length -1 |
| `DataProvider.JcrDataProviderImpl.IsBytes` | src/main/java/org/jcrom/JcrDataProviderImpl.java:103-106 | true exactly for a provider built from a byte array |
| `DataProvider.JcrDataProviderImpl.IsFile` | src/main/java/org/jcrom/JcrDataProviderImpl.java:108-111 | true exactly for a provider built from a file |
| `DataProvider.JcrDataProviderImpl.IsStream` | src/main/java/org/jcrom/JcrDataProviderImpl.java:113-116 | true exactly for a provider built from a stream or from a Binary |
| `DataProvider.JcrDataProviderImpl.GetType` | src/main/java/org/jcrom/JcrDataProviderImpl.java:139-142 | BYTES, FILE or STREAM according to the constructor used, with a Binary reported as STREAM |
| `DataProvider.JcrDataProviderImpl.ExactlyOneKind` | src/main/java/org/jcrom/JcrDataProviderImpl.java:103-116 | exactly one of the three kind tests is true |
| `DataProvider.JcrDataProviderImpl.GetBytes` | src/main/java/org/jcrom/JcrDataProviderImpl.java:118-121 | non-null exactly when built from bytes, and then as long as the content length |
| `DataProvider.JcrDataProviderImpl.GetFile` | src/main/java/org/jcrom/JcrDataProviderImpl.java:123-126 | non-null exactly when built from a file |
| `DataProvider.JcrDataProviderImpl.IsPersisted` | src/main/java/org/jcrom/JcrDataProviderImpl.java:222-225 | true exactly when built from a Binary; such a provider is a stream with no bytes and no file |
| `DataProvider.JcrDataProviderImpl.GetInputStream` | src/main/java/org/jcrom/JcrDataProviderImpl.java:128-137 | without a Binary, the stored stream (non-null for the stream form); with one, either a fresh stream over the binary's content or, when opening fails, the stored field, which is null |
| `DataProvider.JcrDataProviderImpl.GetContentLength` | src/main/java/org/jcrom/JcrDataProviderImpl.java:211-220 | without a Binary, the stored length (the array length for bytes); with one, the binary's size, or -1 when the size query fails |
| `DataProvider.JcrDataProviderImpl.WriteToFile` | src/main/java/org/jcrom/JcrDataProviderImpl.java:144-153 | dispatches on the kind. Bytes: the destination holds the array. Stream: it holds the bytes the stream had left, and the stream ends consumed and closed. File: it holds the file's bytes, it is left untouched with FileNotFound when the file is missing, and it is emptied when it is the provider's own file. Binary: it holds the content, or is empty with NullStream when no stream opens |
| `DataProvider.JcrDataProviderImpl.WriteStream` | src/main/java/org/jcrom/JcrDataProviderImpl.java:155-172 | the destination holds exactly the bytes the stream had left, as the concatenation of the chunks written, each 1 to 1024 bytes, so n bytes take between n/1024 and n writes; the stream is closed; a null stream fails after the destination is truncated |
| `DataProvider.JcrDataProviderImpl.WriteBytes` | src/main/java/org/jcrom/JcrDataProviderImpl.java:174-186 | the destination exists and holds exactly the array's bytes |
| `DataProvider.JcrDataProviderImpl.WriteFile` | src/main/java/org/jcrom/JcrDataProviderImpl.java:188-209 | a missing source fails with FileNotFound and leaves the destination unchanged; otherwise the destination holds the source's original bytes, or nothing when source and destination are the same file, and is exactly the concatenation of the chunks written, each 1 to 32768 bytes, so n bytes take between n/32768 and n writes |
| `Chunks.ConcatAppend` | src/main/java/org/jcrom/JcrDataProviderImpl.java:165-167 | writing one more chunk extends the copied output by exactly that chunk |
| `Chunks.ChunkCountBounds` | src/main/java/org/jcrom/JcrDataProviderImpl.java:193-203 | k non-empty chunks of at most `max` bytes make between k and k * max bytes of output; it gives the write-count bounds of `WriteStream` and `WriteFile` |
| `DataProvider.CallerMutationIsInvisible` | src/main/java/org/jcrom/JcrDataProviderImpl.java:54-62 | changing the caller's array after construction leaves `GetBytes()` equal to the array as it was |
| `DataProvider.StreamFormIsSingleUse` | src/main/java/org/jcrom/JcrDataProviderImpl.java:129-132 | a stream-built provider copied twice leaves the second destination empty, because the stored stream is consumed by the first copy |
| `DataProvider.BinaryFormIsReusable` | src/main/java/org/jcrom/JcrDataProviderImpl.java:86-101 | a Binary-built provider reopens the binary on every copy, so each copy holds the full content or, on failure, nothing, also when both copies go to the same file |

## Left out

- WriteStream: a stream that reads the destination file itself (a `FileInputStream` on `destination`) is not modelled; the model's streams are byte sequences with no link to any file. In Java the destination is truncated (line 160) before the first read (line 165), so nothing is copied and the destination ends empty, whereas the contract promises the stream's remaining bytes.
- WriteToFile: for the same reason, a provider built from a stream that reads the destination file is not covered; the stream-form contract assumes the stream does not read `dest`. Only the file form models copying onto its own source.
- Null constructor arguments: the constructors take non-null values. In Java, a null byte array or file throws a `NullPointerException`. A null stream or binary is accepted silently, and the model has no such provider.
- I/O failures other than a missing source file are not modelled: a destination that cannot be opened, disk full, read errors. `createNewFile`, `flush` and the closing of file handles are also left out. A partially written destination is therefore never produced.
- Closing is tracked only as the `closed` flag of the provider's stream. Reading a closed stream is modelled as an in-memory stream behaves: it returns what was left. Streams that throw after `close` are not modelled.
- `Thread.yield()` on a zero-length read (line 199) is not modelled. Under the java.io read contract a read into a non-empty buffer never returns 0, so that branch writes nothing and is unreachable.
- Logging of repository failures (lines 134 and 217) and `serialVersionUID` (line 43) are left out.
- Java `long` and `int` bounds are not modelled; lengths are unbounded integers.
- The object-to-node mapper, the reference resolver, the DAO layer and the repository (src/test/java/org/jcrom/jackrabbit/TestJcrReference.java, src/test/java/org/jcrom/ChildDAO2.java) are not part of this model. Those files only exercise the mapper and the store's referential integrity through a live session.
- The test entity src/test/java/org/jcrom/entities/Square.java is not part of this model. Its only logic is a floating-point equality check.
