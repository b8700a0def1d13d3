/**
 * Locating the footer of a Parquet file read through the stream adapter.
 *
 * A Parquet file ends with its serialized metadata (the footer), the length of
 * the footer as a 4-byte little-endian integer, and the 4-byte magic number
 * "PAR1", which also opens the file:
 *
 *   PAR1 | body | footer | footer length (LE int32) | PAR1
 *
 * `ReadFooter` checks that layout from the end and leaves the stream at the start
 * of the footer, where the metadata decoder takes over. `LocateFooter` says, as a
 * function of the file length and the bytes of the source, what it returns.
 */
module ParquetFooter {
  import opened Bytes
  import opened Results
  import opened SeekableStream

  /** "PAR1" in ASCII. */
  const MAGIC: seq<byte> := [0x50, 0x41, 0x52, 0x31]

  /** Width of the footer length field. */
  const FOOTER_LENGTH_SIZE: int := 4

  /** Magic, footer length field and magic again: the least a Parquet file can hold. */
  const MIN_FILE_LENGTH: int := |MAGIC| + FOOTER_LENGTH_SIZE + |MAGIC|

  /** Where the footer lies: the stream is left at `start` for the decoder. */
  datatype FooterSpan = FooterSpan(start: int, length: int, fileLen: int)

  /** Why the footer could not be located. */
  datatype FooterError =
    | Io(cause: IoError)              // thrown by the stream adapter
    | LengthFieldEof                  // EOFException of readIntLittleEndian
    | TooSmall(path: string)          // "is not a Parquet file (too small)"
    | BadMagic(path: string, expected: seq<byte>, found: seq<byte>)  // "expected magic number at tail"
    | FooterIndexOutOfFile            // "corrupted file: the footer index is not within the file"

  /** Offset of the footer length field in a file of `fileLen` bytes. */
  function FooterLengthIndex(fileLen: int): (r: int)
    ensures r + FOOTER_LENGTH_SIZE + |MAGIC| == fileLen  // the field and the trailing magic end the file
    ensures fileLen >= MIN_FILE_LENGTH <==> r >= |MAGIC|  // room for the leading magic before it
  {
    fileLen - FOOTER_LENGTH_SIZE - |MAGIC|
  }

  /** Offset of the footer, which ends where its length field begins. */
  function FooterIndex(footerLengthIndex: int, footerLength: int): (r: int)
    ensures r + footerLength == footerLengthIndex
    ensures r < footerLengthIndex <==> footerLength > 0
  {
    footerLengthIndex - footerLength
  }

  /** The footer must start after the leading magic and before its length field. */
  predicate FooterIndexInFile(footerIndex: int, footerLengthIndex: int): (b: bool)
    ensures b <==> 0 < footerLengthIndex - footerIndex <= footerLengthIndex - |MAGIC|  // a non-empty footer that fits
  {
    |MAGIC| <= footerIndex < footerLengthIndex
  }

  /** A footer span that fits the layout: a non-empty footer between the leading magic and the length field. */
  predicate ValidSpan(s: FooterSpan)
  {
    && |MAGIC| <= s.start
    && 0 < s.length
    && s.start + s.length == FooterLengthIndex(s.fileLen)
  }

  /**
   * What `ReadFooter` returns for a file said to be `fileLen` bytes long whose
   * stream holds `data`, one check after another in the order the method makes them.
   */
  function LocateFooter(fileLen: int, path: string, data: seq<byte>): (r: Result<FooterSpan, FooterError>)
    ensures fileLen < MIN_FILE_LENGTH ==> r == Err(TooSmall(path))
    ensures r.Ok? ==> ValidSpan(r.value) && r.value.fileLen == fileLen
    ensures r.Ok? ==> fileLen <= |data| && data[fileLen - |MAGIC|..fileLen] == MAGIC
    ensures r.Ok? ==> r.value.length == LeInt32(data[fileLen - |MAGIC| - FOOTER_LENGTH_SIZE..fileLen - |MAGIC|])
  {
    if fileLen < MIN_FILE_LENGTH then Err(TooSmall(path))
    else
      var lengthIndex := FooterLengthIndex(fileLen);
      if lengthIndex >= |data| then Err(Io(IncorrectSeekPosition(lengthIndex)))
      else if lengthIndex + FOOTER_LENGTH_SIZE > |data| then Err(LengthFieldEof)
      else if lengthIndex + FOOTER_LENGTH_SIZE + |MAGIC| > |data| then
        Err(Io(EndOfFile(|data|, lengthIndex + FOOTER_LENGTH_SIZE, |MAGIC|)))
      else
        var footerLength := LeInt32(data[lengthIndex..lengthIndex + FOOTER_LENGTH_SIZE]);
        var magic := data[lengthIndex + FOOTER_LENGTH_SIZE..lengthIndex + FOOTER_LENGTH_SIZE + |MAGIC|];
        if magic != MAGIC then Err(BadMagic(path, MAGIC, magic))
        else
          var footerIndex := FooterIndex(lengthIndex, footerLength);
          if !FooterIndexInFile(footerIndex, lengthIndex) then Err(FooterIndexOutOfFile)
          else Ok(FooterSpan(footerIndex, footerLength, fileLen))
  }

  /**
   * `java.util.Arrays.equals` on byte arrays: equal lengths, then equal bytes
   * position by position, stopping at the first difference.
   */
  method ArraysEquals(expected: seq<byte>, actual: array<byte>) returns (eq: bool)
    ensures eq <==> actual[..] == expected
  {
    if actual.Length != |expected| {
      return false;
    }
    var i := 0;
    while i < |expected|
      invariant 0 <= i <= |expected|
      invariant actual[..i] == expected[..i]
    {
      if actual[i] != expected[i] {
        return false;
      }
      i := i + 1;
    }
    assert actual[..] == actual[..i];
    return true;
  }

  /**
   * Parquet's `readIntLittleEndian` on the adapter: four single-byte reads, an
   * EOFException if any of them hit the end, else the signed little-endian value.
   */
  method ReadIntLittleEndian(f: SeekableInputStreamBuilder) returns (r: Result<int, FooterError>)
    requires f.Valid()
    modifies f`pos
    ensures f.Valid()
    ensures f.pos == old(f.pos) + 4
    ensures r == if old(f.pos) + 4 <= f.count then Ok(LeInt32(f.data[old(f.pos)..old(f.pos) + 4])) else Err(LengthFieldEof)
  {
    var ch1 := f.Read();
    var ch2 := f.Read();
    var ch3 := f.Read();
    var ch4 := f.Read();
    if ch1 < 0 || ch2 < 0 || ch3 < 0 || ch4 < 0 {
      return Err(LengthFieldEof);
    }
    r := Ok(LeInt32([ch1 as byte, ch2 as byte, ch3 as byte, ch4 as byte]));
  }

  /**
   * Checks the trailer of a file of `fileLen` bytes read through `f` and, on
   * success, leaves `f` at the start of the footer, which is where the metadata
   * decoder would be handed the stream. Every failure returns before that point.
   */
  method ReadFooter(fileLen: int, filePath: string, f: SeekableInputStreamBuilder) returns (r: Result<FooterSpan, FooterError>)
    requires f.Valid() && IsInt64(fileLen)
    modifies f`pos
    ensures f.Valid()
    ensures r == LocateFooter(fileLen, filePath, f.data)
    ensures r.Ok? ==> f.pos == r.value.start
    ensures fileLen < MIN_FILE_LENGTH ==> f.pos == old(f.pos)
  {
    if fileLen < MIN_FILE_LENGTH {
      return Err(TooSmall(filePath));
    }
    var footerLengthIndex := FooterLengthIndex(fileLen);
    var s := f.Seek(footerLengthIndex);
    if s.Fail? {
      return Err(Io(s.error));
    }
    var read := ReadIntLittleEndian(f);
    if read.Err? {
      return Err(read.error);
    }
    var footerLength := read.value;
    var magic := new byte[|MAGIC|](_ => 0);
    s := f.ReadFullyArray(magic);
    if s.Fail? {
      return Err(Io(s.error));
    }
    var same := ArraysEquals(MAGIC, magic);
    if !same {
      return Err(BadMagic(filePath, MAGIC, magic[..]));
    }
    var footerIndex := FooterIndex(footerLengthIndex, footerLength);
    // The seek above put footerLengthIndex below count, an int, so the long subtraction cannot wrap.
    assert IsInt64(footerIndex);
    if !FooterIndexInFile(footerIndex, footerLengthIndex) {
      return Err(FooterIndexOutOfFile);
    }
    // The footer lies before the length field, to which the first seek succeeded.
    s := f.Seek(footerIndex);
    assert s.Pass?;
    r := Ok(FooterSpan(footerIndex, footerLength, fileLen));
  }

  /** A file laid out as the format prescribes, around a given body and footer. */
  function ParquetFile(body: seq<byte>, footer: seq<byte>): (file: seq<byte>)
    requires |footer| <= INT32_MAX
    ensures |file| == |body| + |footer| + MIN_FILE_LENGTH
  {
    MAGIC + body + footer + Le32(|footer|) + MAGIC
  }

  /** The footer of a well-formed file is found right after the leading magic and the body. */
  lemma RoundTrip(path: string, body: seq<byte>, footer: seq<byte>)
    requires 0 < |footer| <= INT32_MAX
    ensures LocateFooter(|ParquetFile(body, footer)|, path, ParquetFile(body, footer))
      == Ok(FooterSpan(|MAGIC| + |body|, |footer|, |ParquetFile(body, footer)|))
  {
    var file := ParquetFile(body, footer);
    var lengthIndex := FooterLengthIndex(|file|);
    assert lengthIndex == |MAGIC| + |body| + |footer|;
    assert file[lengthIndex..lengthIndex + FOOTER_LENGTH_SIZE] == Le32(|footer|);
    assert file[lengthIndex + FOOTER_LENGTH_SIZE..|file|] == MAGIC;
    DecodeEncode(|footer|);
  }

  /**
   * The converse of `RoundTrip`: whenever a footer is found, the first `fileLen`
   * bytes are some leading four bytes, a body, the footer, its length as encoded
   * by `Le32`, and the magic. The leading four bytes are never looked at.
   */
  lemma FoundFooterIsLaidOut(fileLen: int, path: string, data: seq<byte>)
    requires LocateFooter(fileLen, path, data).Ok?
    ensures var span := LocateFooter(fileLen, path, data).value;
      data[..fileLen] == data[..|MAGIC|] + data[|MAGIC|..span.start] + data[span.start..span.start + span.length]
        + Le32(span.length) + MAGIC
  {
    var span := LocateFooter(fileLen, path, data).value;
    var lengthIndex := FooterLengthIndex(fileLen);
    var field := data[lengthIndex..lengthIndex + FOOTER_LENGTH_SIZE];
    EncodeDecode(field);
    assert data[..fileLen] == data[..|MAGIC|] + data[|MAGIC|..span.start] + data[span.start..lengthIndex]
      + field + data[lengthIndex + FOOTER_LENGTH_SIZE..fileLen];
  }

  /** Success in terms of the bytes alone: the file is long enough, the stream holds all of it,
      it ends in the magic, and the length field holds a positive length that fits. */
  lemma LocateFooterSucceeds(fileLen: int, path: string, data: seq<byte>)
    ensures LocateFooter(fileLen, path, data).Ok? <==>
      && MIN_FILE_LENGTH <= fileLen <= |data|
      && data[fileLen - |MAGIC|..fileLen] == MAGIC
      && 0 < LeInt32(data[fileLen - |MAGIC| - FOOTER_LENGTH_SIZE..fileLen - |MAGIC|]) <= fileLen - MIN_FILE_LENGTH
  {
  }

  /** A trailer without the magic is refused as not a Parquet file, with the bytes found. */
  lemma BadMagicRejected(fileLen: int, path: string, data: seq<byte>)
    requires MIN_FILE_LENGTH <= fileLen <= |data|
    requires data[fileLen - |MAGIC|..fileLen] != MAGIC
    ensures LocateFooter(fileLen, path, data) == Err(BadMagic(path, MAGIC, data[fileLen - |MAGIC|..fileLen]))
  {
  }

  /** A length field holding zero, a negative number or more than the file has room for is refused as corrupted. */
  lemma BadLengthRejected(fileLen: int, path: string, data: seq<byte>)
    requires MIN_FILE_LENGTH <= fileLen <= |data|
    requires data[fileLen - |MAGIC|..fileLen] == MAGIC
    requires var footerLength := LeInt32(data[fileLen - |MAGIC| - FOOTER_LENGTH_SIZE..fileLen - |MAGIC|]);
      footerLength <= 0 || footerLength > fileLen - MIN_FILE_LENGTH
    ensures LocateFooter(fileLen, path, data) == Err(FooterIndexOutOfFile)
  {
  }

  /** 162 bytes: magic, a 100-byte body, a 50-byte footer, its length, magic. */
  lemma WorkedExample(path: string)
    ensures var file := ParquetFile(seq(100, _ => 0x58), seq(50, _ => 0x46));
      && |file| == 162
      && FooterLengthIndex(|file|) == 154
      && LocateFooter(|file|, path, file) == Ok(FooterSpan(104, 50, 162))
  {
    RoundTrip(path, seq(100, _ => 0x58), seq(50, _ => 0x46));
  }
}
