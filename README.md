# parquet-io: the stream adapter and the footer locator

This project models the two parts of parquet-io that hold logic. The rest of the repository is plumbing around the Apache Parquet reader library.

- `SeekableInputStreamBuilder` is a random-access adapter over a forward-only `InputStream`. It keeps a cursor `pos` and a size `count`. Before each read it rewinds the source with `reset()` and then `skip(pos)`. The model takes the source to be marked at its first byte and fully available, as a `ByteArrayInputStream` is. Such a source is the immutable byte sequence `data`, with `count == |data|`. The adapter is a class (`SeekableStream.SeekableInputStreamBuilder`) whose methods update `pos` and the caller's arrays and buffers in place.
- The private `readFooter(converter, fileLen, filePath, f, filter)` of `ParquetStreamReader` finds the footer of a Parquet file. The file ends with the footer, then its length as a little-endian 32-bit int, then the magic number `PAR1`. The method checks that trailer and leaves the stream at the footer's start. `ParquetFooter.ReadFooter` models it as a method over the adapter. `ParquetFooter.LocateFooter` is the pure function that states what it returns. Both end where the metadata decoder would be called.

The adapter's quirks are kept as written:
- `seek(count)` is refused.
- `read()` moves the cursor even at the end of the data, so `pos` can pass `count`.
- `read(b, off, len)` moves the cursor by `len`, whatever count it returns, so it too can move `pos` past `count`.
- `read(ByteBuffer)` returns -1 and leaves the cursor alone at the end.
- Every read rewinds the source and skips to `pos` again. Under the assumption above this is the same as reading from the immutable `data` at `pos`.

`SeekableStream.ByteBuffer` stands in for `java.nio.ByteBuffer`, receiving the `buf.put` calls of `read(ByteBuffer)`. It is a heap buffer with a position whose only limit is its capacity `hb.Length`; `Put` stores one byte at the position and advances it.

`readIntLittleEndian` belongs to the Parquet library's `BytesUtils`, which is not part of this model. `ParquetFooter.ReadIntLittleEndian` models it as four single-byte reads. It throws an EOF error if any read returns -1; otherwise it returns `ch1 | ch2 << 8 | ch3 << 16 | ch4 << 24` as a signed 32-bit int (`Bytes.LeInt32`).

Files:
- `results.dfy` holds the `Result` and `Outcome` types that stand for exceptions.
- `bytes.dfy` holds bytes, Java integer ranges and the little-endian codec.
- `seekable_input_stream_builder.dfy` holds the adapter.
- `parquet_stream_reader.dfy` holds the footer locator.

## Model

| member | source | states |
|---|---|---|
| `SeekableStream.SeekableInputStreamBuilder.constructor` | src/main/java/parquet/io/SeekableInputStreamBuilder.java:20-25 | after wrapping, `pos == 0` and `count` is the number of bytes the source holds |
| `SeekableStream.SeekableInputStreamBuilder.GetPos` | src/main/java/parquet/io/SeekableInputStreamBuilder.java:27-30 | returns the cursor and changes nothing |
| `SeekableStream.SeekableInputStreamBuilder.Seek` | src/main/java/parquet/io/SeekableInputStreamBuilder.java:32-36 | succeeds iff `0 <= newPos < count` and then sets `pos == newPos`; otherwise fails with the position and leaves `pos` unchanged, so `seek(count)` fails |
| `SeekableStream.SeekableInputStreamBuilder.ReadFullyArray` | src/main/java/parquet/io/SeekableInputStreamBuilder.java:38-41 | succeeds iff `pos + bytes.length <= count`; then the whole array equals `data[pos..pos + bytes.length)` and `pos` moves on by the array's length; on EOF nothing changes |
| `SeekableStream.SeekableInputStreamBuilder.ReadFully` | src/main/java/parquet/io/SeekableInputStreamBuilder.java:43-55 | fails with "array out of bound" if `start + len > bytes.length`, else with EOF if `pos + len > count`, changing nothing; with `len > 0` and a negative `start` the first store fails with an index error, changing nothing; on success `bytes[start..start+len) == data[pos..pos+len)`, the rest of the array is untouched and `pos` moves on by `len` |
| `SeekableStream.SeekableInputStreamBuilder.ReadBuffer` | src/main/java/parquet/io/SeekableInputStreamBuilder.java:57-72 | at or past the end returns -1 and changes nothing; otherwise appends `data[pos..count)` at the buffer's position, sets `pos == count` and returns `count - old pos`, at least 1 |
| `SeekableStream.SeekableInputStreamBuilder.ReadFullyBuffer` | src/main/java/parquet/io/SeekableInputStreamBuilder.java:74-77 | has the same effect on the cursor and the buffer as `ReadBuffer` |
| `SeekableStream.SeekableInputStreamBuilder.Read` | src/main/java/parquet/io/SeekableInputStreamBuilder.java:79-86 | returns `data[pos]` in 0..255 when `pos < count` and -1 otherwise; `pos` moves on by one in both cases |
| `SeekableStream.SeekableInputStreamBuilder.ReadRange` | src/main/java/parquet/io/SeekableInputStreamBuilder.java:88-95 | bad `off`/`len` fail and change nothing; otherwise returns -1 at the end, or copies and returns `min(len, count - pos)` bytes; `pos` moves on by exactly `len` either way |
| `Bytes.LeInt32` | src/main/java/parquet/io/ParquetStreamReader.java:45 | the four bytes read little-endian as a Java `int`: always in the 32-bit range, negative exactly when the top byte has its high bit set |
| `Bytes.DecodeEncode` | src/main/java/parquet/io/ParquetStreamReader.java:45 | decoding the little-endian encoding of any 32-bit int gives that int back |
| `Bytes.EncodeDecode` | src/main/java/parquet/io/ParquetStreamReader.java:45 | encoding the decoded value of any four bytes gives those bytes back |
| `ParquetFooter.ReadIntLittleEndian` | src/main/java/parquet/io/ParquetStreamReader.java:116 | reads four bytes from the cursor; returns their signed little-endian value if all four lie before `count`, else fails with EOF; `pos` moves on by 4 |
| `ParquetFooter.LocateFooter` | src/main/java/parquet/io/ParquetStreamReader.java:106-129 | `fileLen < 12` fails as too small; any success lies within the layout: the footer starts at or after the leading magic, is non-empty, ends at the length field, the file ends in `PAR1`, and the length is the decoded field |
| `ParquetFooter.ArraysEquals` | src/main/java/parquet/io/ParquetStreamReader.java:119 | `Arrays.equals(MAGIC, magic)`: true exactly when the bytes read equal the magic, length and contents |
| `ParquetFooter.FoundFooterIsLaidOut` | src/main/java/parquet/io/ParquetStreamReader.java:112-127 | the converse of `RoundTrip`: whenever a footer is found, the first `fileLen` bytes are four unchecked bytes, a body, the footer, its length as encoded little-endian, and `PAR1` |
| `ParquetFooter.FooterLengthIndex` | src/main/java/parquet/io/ParquetStreamReader.java:112 | the length field and the trailing magic take up the last 8 bytes of the file; the field starts at or after offset 4 exactly when the file has at least 12 bytes |
| `ParquetFooter.FooterIndex` | src/main/java/parquet/io/ParquetStreamReader.java:122 | the footer ends where its length field starts, and starts before the field exactly when the length is positive |
| `ParquetFooter.FooterIndexInFile` | src/main/java/parquet/io/ParquetStreamReader.java:124 | holds exactly when the footer is non-empty and fits between the leading magic and the length field |
| `ParquetFooter.ReadFooter` | src/main/java/parquet/io/ParquetStreamReader.java:106-129 | returns exactly what `LocateFooter` gives for the stream's data; on success the stream is at the footer start; a too-small file is refused before any seek or read |
| `ParquetFooter.LocateFooterSucceeds` | src/main/java/parquet/io/ParquetStreamReader.java:108-126 | the footer is found iff `12 <= fileLen <= count`, the last four bytes are `PAR1` and the length field holds `0 < footerLength <= fileLen - 12` |
| `ParquetFooter.BadMagicRejected` | src/main/java/parquet/io/ParquetStreamReader.java:117-121 | a trailer not ending in `PAR1` fails as not a Parquet file, with the expected and found bytes |
| `ParquetFooter.BadLengthRejected` | src/main/java/parquet/io/ParquetStreamReader.java:122-126 | with the magic in place, a zero, negative or oversized footer length fails as a corrupted file |
| `ParquetFooter.RoundTrip` | src/main/java/parquet/io/ParquetStreamReader.java:106-129 | for `PAR1 ++ body ++ footer ++ le32(n) ++ PAR1`, where `n` is the footer's non-zero size, the located start is 4 plus the body's size and the length is `n` |
| `ParquetFooter.WorkedExample` | src/main/java/parquet/io/ParquetStreamReader.java:112-127 | a 162-byte file with a 100-byte body and a 50-byte footer has its length field at 154 and its footer at 104 |

## Left out

- `converter.readParquetMetadata(f, filter)` and the building of `ParquetMetadataConverter` are left out. They form the external metadata decoder. `ReadFooter` returns the footer span at the point where the decoder would be called.
- The public `readFooter(InputStream, …)` and `readFooter(InputFile, …)` wrappers are left out. They only open and close streams.
- The `ParquetStreamReader` constructor and its fields are left out. They fill a map from schema objects of the Parquet library.
- `LOG.debug` calls are left out. Logging has no effect on the results.
- `SeekableInputStreamBuilder.close()` and the unused `mark` field are left out. `close()` only releases the source.
- The source's `reset`, `skip` and `available` are left out. The source is a fully available stream marked at offset 0, modelled as the immutable `data`.
- `FileFromStream` and `StreamInputFile` are left out. They are thin `InputFile` wrappers with no logic of their own.
- ReadFully: a `start + len` that overflows a Java `int` is not modelled in either direction; the sum is required to fit. A sum above `INT32_MAX` would wrap negative, pass the first check and could copy part of the array before an `ArrayIndexOutOfBoundsException`. A sum below `INT32_MIN` would wrap to a large positive value and be refused as "array out of bound".
- ReadBuffer: `ByteBuffer` overflow is library behaviour; the buffer is required to have room for the bytes appended.
- ReadFullyBuffer: the same room is required as for `ReadBuffer`.
- ReadRange: the bulk copy follows `ByteArrayInputStream.read(byte[], int, int)`. A `null` array cannot be expressed, so its `NullPointerException` is not modelled.
- Read: the cursor is an unbounded natural. The 64-bit wrap of the Java `long`, which would take about 2^63 calls, is not modelled.
- Single-threaded use is assumed, as in the source; the adapter has no synchronisation.
