/** The streaming VE.Direct text-frame extractor of `victronParser.js`.

    A VE.Direct device sends blocks of `LABEL<tab>VALUE` lines closed by a
    trailer line `Checksum<tab>X`, where the byte X makes the sum of all the
    bytes of the block 0 modulo 256. The parser keeps the bytes received so
    far, cuts off every complete block it can find, and returns the fields of
    those whose checksum is right. */
module Parser {
  import opened NodeBuffer

  /** The label that opens the trailer line. */
  const CHECKSUM_LABEL: seq<Byte> := AsciiEncode("Checksum\t")
  /** The protocol's line terminator, CR LF. */
  const FRAME_SEPARATOR: seq<Byte> := AsciiEncode("\r\n")
  /** Bytes still held after a call beyond this many are thrown away. */
  const MAX_BUFFER_LENGTH: nat := 10240

  /** One decoded frame: field label to field value. */
  type Record = map<string, string>

  /** Neither the label nor the separator contains a CR or an LF byte. */
  lemma MarkerBytes()
    ensures |CHECKSUM_LABEL| == 9 && |FRAME_SEPARATOR| == 2
    ensures FRAME_SEPARATOR == [13, 10]
    ensures forall k :: 0 <= k < 9 ==> CHECKSUM_LABEL[k] != 13 && CHECKSUM_LABEL[k] != 10
  {
    assert CHECKSUM_LABEL == [67, 104, 101, 99, 107, 115, 117, 109, 9];
  }

  // ---------------------------------------------------------------------------
  // The checksum (calculateChecksum)

  /** The plain sum of the bytes. */
  function Sum(buf: seq<Byte>): nat
  {
    if buf == [] then 0 else Sum(buf[..|buf| - 1]) + buf[|buf| - 1]
  }

  /** The frame checksum: the byte sum reduced to 8 bits. A frame is intact
      when it is 0. */
  function Checksum(buf: seq<Byte>): Byte
  {
    Sum(buf) % 256
  }

  /** Reducing to 8 bits before or after an addition gives the same byte. */
  lemma ModAdd(x: nat, y: nat)
    ensures (x + y) % 256 == (x % 256 + y % 256) % 256
  {
    assert x == 256 * (x / 256) + x % 256;
    assert y == 256 * (y / 256) + y % 256;
    assert x + y == 256 * (x / 256 + y / 256) + (x % 256 + y % 256);
  }

  /** Adding one more byte to the 8-bit running sum. */
  lemma ChecksumStep(buf: seq<Byte>, i: nat)
    requires i < |buf|
    ensures Checksum(buf[..i + 1]) == (Checksum(buf[..i]) + buf[i]) % 256
  {
    assert buf[..i + 1][..i] == buf[..i];
    ModAdd(Sum(buf[..i]), buf[i]);
  }

  // ---------------------------------------------------------------------------
  // The decoder (parseVEDirectFrame)

  /** Lines the decoder passes over: empty lines, the trailer line and the
      asynchronous hex-protocol messages that start with ':'. */
  predicate Skipped(line: string)
  {
    line == "" || "Checksum" <= line || ":" <= line
  }

  /** The key and value of a field line: the line is split on tabs, the first
      piece is the key and the other pieces, joined again with tabs, the value. */
  function FieldOf(line: string): (string, string)
  {
    var parts := Split(line, "\t");
    (parts[0], Join(parts[1..], "\t"))
  }

  /** What one line does to the record being built. */
  function ApplyLine(frame: Record, line: string): Record
  {
    if Skipped(line) then frame
    else
      var (key, value) := FieldOf(line);
      if key == "" then frame else frame[key := value]
  }

  /** The record built from the lines, taken in order. */
  function DecodeLines(lines: seq<string>): Record
  {
    if lines == [] then map[]
    else ApplyLine(DecodeLines(lines[..|lines| - 1]), lines[|lines| - 1])
  }

  /** A key the decoder can produce: non-empty, without a tab, and not the
      start of a skipped line. */
  predicate FieldKey(key: string)
  {
    key != "" && '\t' !in key && !("Checksum" <= key) && !(":" <= key)
  }

  /** The key of a line that is not skipped is such a key, when non-empty. */
  lemma LineKey(line: string)
    requires !Skipped(line) && FieldOf(line).0 != ""
    ensures FieldKey(FieldOf(line).0)
  {
    var key := FieldOf(line).0;
    SplitFirst(line, "\t");
    forall m | 0 <= m < |key|
      ensures key[m] != '\t'
    {
      assert key[m..m + 1] == [key[m]];
      assert !MatchesAt(key, "\t", m);
    }
    if |key| >= 8 {
      assert key[..8] == line[..8];
    }
    assert key[..1] == line[..1];
  }

  /** Every key of a decoded record is such a key. */
  lemma {:induction false} DecodedKeys(lines: seq<string>)
    ensures forall k :: k in DecodeLines(lines) ==> FieldKey(k)
    decreases |lines|
  {
    if lines != [] {
      var line := lines[|lines| - 1];
      DecodedKeys(lines[..|lines| - 1]);
      if !Skipped(line) && FieldOf(line).0 != "" {
        LineKey(line);
      }
    }
  }

  /** The record a frame decodes to: its text split into CRLF lines. Its keys
      are never empty, never hold a tab, and never start a skipped line. */
  function DecodeFrame(buf: seq<Byte>): (r: Record)
    ensures forall k :: k in r ==> FieldKey(k)
  {
    var lines := Split(AsciiDecode(buf), "\r\n");
    DecodedKeys(lines);
    DecodeLines(lines)
  }

  // ---------------------------------------------------------------------------
  // The extraction loop (processData)

  /** A trailer label at `p` followed, at or after `p`, by a CRLF that ends
      just before offset `end`. */
  ghost predicate TrailerAt(buf: seq<Byte>, p: int, end: int)
  {
    0 <= p <= end - 2 && MatchesAt(buf, CHECKSUM_LABEL, p) && MatchesAt(buf, FRAME_SEPARATOR, end - 2)
  }

  /** The end of the first candidate frame: just past the first CRLF at or
      after the first trailer label; None while there is no such CRLF. Every
      candidate frame is at least 11 bytes long (label and CRLF). */
  function NextFrameEnd(buf: seq<Byte>): (frameEnd: Option<nat>)
    ensures frameEnd.Some? ==>
      |CHECKSUM_LABEL| + |FRAME_SEPARATOR| <= frameEnd.value <= |buf|
  {
    MarkerBytes();
    var checksumPos := IndexOf(buf, CHECKSUM_LABEL, 0);
    if checksumPos == -1 then None
    else
      var frameEnd := IndexOf(buf, FRAME_SEPARATOR, checksumPos) + |FRAME_SEPARATOR|;
      if frameEnd <= |FRAME_SEPARATOR| then None
      else
        assert buf[frameEnd - 2] == 13;
        assert forall k :: checksumPos <= k < checksumPos + 9 ==> buf[k] == CHECKSUM_LABEL[k - checksumPos];
        Some(frameEnd)
  }

  /** What a call leaves behind and what it returns. */
  datatype Extraction = Extraction(rest: seq<Byte>, records: seq<Record>)

  /** The records a candidate frame contributes: its decoding, when the
      checksum is 0 and the decoding has at least one field. */
  function Accept(frame: seq<Byte>): (r: seq<Record>)
    ensures |r| <= 1
    ensures r != [] <==> Checksum(frame) == 0 && |DecodeFrame(frame)| > 0
    ensures forall rec :: rec in r ==> rec == DecodeFrame(frame)
  {
    var parsed := DecodeFrame(frame);
    if Checksum(frame) == 0 && |parsed| > 0 then [parsed] else []
  }

  /** The extraction loop on a buffer: cut candidate frames off the front until
      none is complete; the bytes that remain are a suffix of the buffer that
      holds no complete trailer, and every record returned has a field. */
  function Extract(buf: seq<Byte>): (x: Extraction)
    ensures IsSuffix(x.rest, buf)
    ensures NextFrameEnd(x.rest).None?
    ensures forall r :: r in x.records ==> |r| > 0
    decreases |buf|
  {
    match NextFrameEnd(buf)
    case None => Extraction(buf, [])
    case Some(frameEnd) =>
      var tail := buf[frameEnd..];
      var next := Extract(tail);
      assert tail[|tail| - |next.rest|..] == buf[|buf| - |next.rest|..];
      var accepted := Accept(buf[..frameEnd]);
      assert forall r :: r in accepted ==> |r| > 0;
      Extraction(next.rest, accepted + next.records)
  }

  /** One call of processData on the retained bytes `buffer` and a chunk
      `data`: the extraction loop on their concatenation, then the reset of a
      retained tail longer than MAX_BUFFER_LENGTH. */
  function Process(buffer: seq<Byte>, data: seq<Byte>): (x: Extraction)
    ensures |x.rest| <= MAX_BUFFER_LENGTH
    ensures x.rest == [] || IsSuffix(x.rest, buffer + data)
  {
    var y := Extract(buffer + data);
    Extraction(if |y.rest| > MAX_BUFFER_LENGTH then [] else y.rest, y.records)
  }

  /** One turn of the extraction loop: the loop's own search finds the end
      NextFrameEnd names, and cutting there keeps the loop's account of what
      the whole buffer extracts to. */
  lemma CutFrame(whole: seq<Byte>, buf: seq<Byte>, done: seq<Record>, checksumPos: int, frameEnd: int)
    requires Extract(whole) == Extraction(Extract(buf).rest, done + Extract(buf).records)
    requires checksumPos == IndexOf(buf, CHECKSUM_LABEL, 0) != -1
    requires frameEnd == IndexOf(buf, FRAME_SEPARATOR, checksumPos) + |FRAME_SEPARATOR| > |FRAME_SEPARATOR|
    ensures frameEnd <= |buf|
    ensures Extract(whole) ==
      Extraction(Extract(buf[frameEnd..]).rest, (done + Accept(buf[..frameEnd])) + Extract(buf[frameEnd..]).records)
  {
    assert NextFrameEnd(buf) == Some(frameEnd);
    var next := Extract(buf[frameEnd..]);
    assert Extract(buf) == Extraction(next.rest, Accept(buf[..frameEnd]) + next.records);
    AppendAssoc(done, Accept(buf[..frameEnd]), next.records);
  }

  // ---------------------------------------------------------------------------
  // The parser object

  class VictronParser {
    /** Bytes received but not yet resolved into a frame. */
    var buffer: seq<Byte>

    /** The buffer never stays longer than the safety bound between calls. */
    ghost predicate Valid()
      reads this
    {
      |buffer| <= MAX_BUFFER_LENGTH
    }

    constructor ()
      ensures Valid() && buffer == []
    {
      buffer := [];
    }

    /** Append a chunk, cut off and check every complete frame, and return the
        decoded records in stream order. */
    method ProcessData(data: seq<Byte>) returns (parsedFrames: seq<Record>)
      modifies this
      ensures Valid()
      ensures Extraction(buffer, parsedFrames) == Process(old(buffer), data)
    {
      buffer := buffer + data;
      parsedFrames := [];
      ghost var whole := buffer;
      MarkerBytes();
      while true
        invariant Extract(whole) == Extraction(Extract(buffer).rest, parsedFrames + Extract(buffer).records)
        decreases |buffer|
      {
        var checksumPos := IndexOf(buffer, CHECKSUM_LABEL, 0);
        if checksumPos == -1 {
          assert NextFrameEnd(buffer).None?;
          break;
        }
        var frameEnd := IndexOf(buffer, FRAME_SEPARATOR, checksumPos) + |FRAME_SEPARATOR|;
        if frameEnd <= |FRAME_SEPARATOR| {
          assert NextFrameEnd(buffer).None?;
          break;
        }
        var frame := buffer[..frameEnd];
        CutFrame(whole, buffer, parsedFrames, checksumPos, frameEnd);
        ghost var done := parsedFrames;
        buffer := buffer[frameEnd..];
        var checksum := CalculateChecksum(frame);
        if checksum == 0 {
          var parsed := ParseVEDirectFrame(frame);
          if |parsed| > 0 {
            parsedFrames := parsedFrames + [parsed];
          }
        }
        assert parsedFrames == done + Accept(frame);
      }
      if |buffer| > MAX_BUFFER_LENGTH {
        buffer := [];
      }
    }

    /** The 8-bit rolling sum of the bytes (`& 0xff` on a non-negative
        number is `% 256`). */
    method CalculateChecksum(buf: seq<Byte>) returns (checksum: int)
      ensures checksum == Sum(buf) % 256
    {
      checksum := 0;
      for i := 0 to |buf|
        invariant checksum == Checksum(buf[..i])
      {
        ChecksumStep(buf, i);
        checksum := (checksum + buf[i]) % 256;
      }
      assert buf[..|buf|] == buf;
    }

    /** Split the frame's text into CRLF lines and fill a record from the
        field lines. */
    method ParseVEDirectFrame(buf: seq<Byte>) returns (frame: Record)
      ensures frame == DecodeFrame(buf)
    {
      frame := map[];
      var lines := Split(AsciiDecode(buf), "\r\n");
      for i := 0 to |lines|
        invariant frame == DecodeLines(lines[..i])
      {
        assert lines[..i + 1][..i] == lines[..i];
        var line := lines[i];
        if line == "" || "Checksum" <= line || ":" <= line {
          continue;
        }
        var parts := Split(line, "\t");
        var key := parts[0];
        if key != "" {
          frame := frame[key := Join(parts[1..], "\t")];
        }
      }
      assert lines[..|lines|] == lines;
    }
  }
}
