/** The frame encoder of `tests/victronParser.test.js`: it turns an object of
    VE.Direct fields into `KEY<tab>VALUE` lines and the lines into a complete
    frame whose checksum byte makes the frame's byte sum 0 modulo 256. */
module FrameEncoder {
  import opened NodeBuffer
  import opened Parser
  import opened ParserProperties

  /** A JavaScript object as the test builds it: its own keys, in key order,
      each with its value. */
  type Object = seq<(string, string)>

  /** The object read as a record: every key with its value (when a key
      appeared twice, the later assignment would win). */
  function ToRecord(obj: Object): Record
  {
    if obj == [] then map[]
    else ToRecord(obj[..|obj| - 1])[obj[|obj| - 1].0 := obj[|obj| - 1].1]
  }

  /** The record holds exactly the object's keys. */
  lemma {:induction false} ToRecordKeys(obj: Object)
    ensures forall key :: key in ToRecord(obj) <==> exists i :: 0 <= i < |obj| && obj[i].0 == key
    decreases |obj|
  {
    if obj != [] {
      var n := |obj| - 1;
      var init := obj[..n];
      ToRecordKeys(init);
      var last := obj[n];
      assert ToRecord(obj) == ToRecord(init)[last.0 := last.1];
      forall key | key in ToRecord(obj)
        ensures exists i :: 0 <= i < |obj| && obj[i].0 == key
      {
        if key != last.0 {
          assert key in ToRecord(init);
          var i :| 0 <= i < n && init[i].0 == key;
          assert obj[i].0 == key;
        }
      }
      forall i | 0 <= i < n
        ensures obj[i].0 in ToRecord(obj)
      {
        assert init[i] == obj[i];
      }
    }
  }

  /** A key maps to the value of its last occurrence (to its only one when
      keys are distinct). */
  lemma {:induction false} ToRecordValue(obj: Object, i: nat)
    requires i < |obj|
    requires forall j :: i < j < |obj| ==> obj[j].0 != obj[i].0
    ensures obj[i].0 in ToRecord(obj) && ToRecord(obj)[obj[i].0] == obj[i].1
    decreases |obj|
  {
    var n := |obj| - 1;
    var init := obj[..n];
    if i < n {
      assert init[i] == obj[i];
      assert forall j :: i < j < n ==> init[j] == obj[j];
      ToRecordValue(init, i);
      assert obj[n].0 != obj[i].0;
    }
  }

  /** One field line `KEY<tab>VALUE`. */
  function FormatLine(key: string, value: string): string
  {
    key + "\t" + value
  }

  /** The field lines of an object, one per key, in key order. */
  function FormatLines(obj: Object): seq<string>
  {
    seq(|obj|, i requires 0 <= i < |obj| => FormatLine(obj[i].0, obj[i].1))
  }

  /** formatVEDirectObjectToLines: exactly one `KEY<tab>VALUE` line per own
      key of the object, in the object's key order. */
  method FormatVEDirectObjectToLines(dataObject: Object) returns (frameLines: seq<string>)
    ensures |frameLines| == |dataObject|
    ensures forall i :: 0 <= i < |dataObject| ==>
      frameLines[i] == dataObject[i].0 + "\t" + dataObject[i].1
  {
    frameLines := [];
    for i := 0 to |dataObject|
      invariant |frameLines| == i
      invariant forall j :: 0 <= j < i ==> frameLines[j] == dataObject[j].0 + "\t" + dataObject[j].1
    {
      var (key, value) := dataObject[i];
      frameLines := frameLines + [key + "\t" + value];
    }
  }

  /** The data part of a frame: the lines joined with CRLF and closed by one. */
  function DataLines(lines: seq<string>): string
  {
    Join(lines, "\r\n") + "\r\n"
  }

  /** The checksum byte: 256 minus the 8-bit sum of every other byte of the
      frame, reduced to 8 bits; added to that sum it gives a multiple of 256. */
  function ChecksumByte(lines: seq<string>): (b: Byte)
    ensures (Checksum(AsciiEncode(DataLines(lines) + "Checksum\t" + "\r\n")) + b) % 256 == 0
  {
    (256 - Checksum(AsciiEncode(DataLines(lines) + "Checksum\t" + "\r\n"))) % 256
  }

  /** The frame createVEDirectFrameBufferFromLines builds: the data lines, the
      label `Checksum<tab>`, the checksum byte, and CRLF. Every such frame
      passes the parser's checksum test. */
  function EncodeFrame(lines: seq<string>): (frame: seq<Byte>)
    ensures Checksum(frame) == 0
  {
    var data := DataLines(lines);
    EncodeAppend(data, "Checksum\t");
    EncodeAppend(data + "Checksum\t", "\r\n");
    ClosingByte(AsciiEncode(data) + AsciiEncode("Checksum\t"), AsciiEncode("\r\n"));
    AsciiEncode(data) + AsciiEncode("Checksum\t") + [ChecksumByte(lines)] + AsciiEncode("\r\n")
  }

  /** createVEDirectFrameBufferFromLines: sums the bytes of the frame without
      its checksum byte, then lays out data lines, label, checksum byte and
      CRLF. */
  method CreateVEDirectFrameBufferFromLines(lines: seq<string>) returns (frame: seq<Byte>)
    ensures frame == EncodeFrame(lines)
    ensures Checksum(frame) == 0
  {
    var dataLinesString := Join(lines, "\r\n") + "\r\n";
    var checksumPrefixString := "Checksum\t";
    var finalCRLFString := "\r\n";
    var bufferToSum := AsciiEncode(dataLinesString + checksumPrefixString + finalCRLFString);
    var currentSum: int := 0;
    for i := 0 to |bufferToSum|
      invariant currentSum == Checksum(bufferToSum[..i])
    {
      ChecksumStep(bufferToSum, i);
      currentSum := (currentSum + bufferToSum[i]) % 256;
    }
    assert bufferToSum[..|bufferToSum|] == bufferToSum;
    var checksumByteValue := (256 - currentSum) % 256;
    assert checksumByteValue == ChecksumByte(lines);
    frame := AsciiEncode(dataLinesString) + AsciiEncode(checksumPrefixString) +
      [checksumByteValue] + AsciiEncode(finalCRLFString);
  }

  /** The byte that, put between `pre` and `post`, makes the checksum 0. */
  lemma ClosingByte(pre: seq<Byte>, post: seq<Byte>)
    ensures Checksum(pre + [(256 - Checksum(pre + post)) % 256] + post) == 0
  {
    var b: Byte := (256 - Checksum(pre + post)) % 256;
    SumAppend(pre, post);
    SumAppend(pre, [b]);
    SumAppend(pre + [b], post);
    assert Sum([b]) == b by {
      assert [b][..0] == [];
    }
    Complement(Sum(pre) + Sum(post));
  }

  /** Adding 256 minus the 8-bit reduction of a sum, itself reduced, makes the
      sum a multiple of 256. */
  lemma Complement(x: nat)
    ensures (x + (256 - x % 256) % 256) % 256 == 0
  {
    var r := x % 256;
    assert x == 256 * (x / 256) + r;
    if r == 0 {
      assert x + (256 - r) % 256 == 256 * (x / 256);
    } else {
      assert x + (256 - r) % 256 == 256 * (x / 256 + 1);
    }
  }
}
