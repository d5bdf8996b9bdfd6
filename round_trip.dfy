/** Encoding then parsing: the round trip the test of `victronParser.js`
    asserts, and what follows from it for batches of frames, fragmented
    frames, corrupted frames and line noise. */
module RoundTrip {
  import opened NodeBuffer
  import opened Parser
  import opened ParserProperties
  import opened FrameEncoder

  /** A field the parser reads back unchanged: a non-empty ASCII key without
      tab that does not look like a trailer or a hex message, an ASCII value,
      and a line holding neither CRLF nor the trailer label. */
  ghost predicate WellFormedField(key: string, value: string)
  {
    && key != "" && '\t' !in key
    && !("Checksum" <= key) && !(":" <= key)
    && IsAscii(key) && IsAscii(value)
    && Absent(FormatLine(key, value), "\r\n")
    && Absent(FormatLine(key, value), "Checksum\t")
  }

  ghost predicate WellFormedObject(obj: Object)
  {
    forall i :: 0 <= i < |obj| ==> WellFormedField(obj[i].0, obj[i].1)
  }

  // ---------------------------------------------------------------------------
  // Decoding the text of a frame

  /** A line that starts with a non-empty key without tab and not starting
      with "Checksum" or ":", then a tab, is a field line. */
  lemma FieldLineNotSkipped(key: string, value: string)
    requires key != "" && '\t' !in key && !("Checksum" <= key) && !(":" <= key)
    ensures !Skipped(FormatLine(key, value))
  {
    var line := FormatLine(key, value);
    var n := |key|;
    assert line[..n] == key && line[n] == '\t';
    if n >= 8 {
      assert line[..8] == key[..8];
    } else if |line| >= 8 {
      assert line[..8][n] == '\t' != "Checksum"[n];
    }
    assert line[..1] == key[..1];
  }

  /** The line `key<tab>value` splits into that key and that value when the
      key holds no tab. */
  lemma FieldLineSplits(key: string, value: string)
    requires '\t' !in key
    ensures FieldOf(FormatLine(key, value)) == (key, value)
  {
    var line := FormatLine(key, value);
    var n := |key|;
    assert line[n] == '\t' && line[..n] == key && line[n + 1..] == value;
    FieldOfFirstTab(line);
  }

  /** A well-formed field line is a field line, and it decodes to its key and value. */
  lemma FieldLineDecodes(key: string, value: string)
    requires WellFormedField(key, value)
    ensures !Skipped(FormatLine(key, value))
    ensures FieldOf(FormatLine(key, value)) == (key, value)
  {
    FieldLineNotSkipped(key, value);
    FieldLineSplits(key, value);
  }

  /** The field lines of an object decode to the object's record. */
  lemma {:induction false} FieldLinesDecode(obj: Object)
    requires WellFormedObject(obj)
    ensures DecodeLines(FormatLines(obj)) == ToRecord(obj)
    decreases |obj|
  {
    if obj != [] {
      var n := |obj| - 1;
      assert FormatLines(obj)[..n] == FormatLines(obj[..n]);
      FieldLinesDecode(obj[..n]);
      FieldLineDecodes(obj[n].0, obj[n].1);
    }
  }

  /** In a text that continues `a` with a CRLF, the first CRLF is that one
      when `a` holds none. */
  lemma FirstLineBreak(a: string, t: string)
    requires Absent(a, "\r\n")
    ensures IndexOf(a + "\r\n" + t, "\r\n", 0) == |a|
  {
    var s := a + "\r\n" + t;
    assert s[|a|..|a| + 2] == "\r\n";
    assert MatchesAt(s, "\r\n", |a|);
    forall i | 0 <= i < |a|
      ensures !MatchesAt(s, "\r\n", i)
    {
      if i + 2 <= |a| {
        assert s[i..i + 2] == a[i..i + 2];
        assert !MatchesAt(a, "\r\n", i);
      } else {
        assert s[i..i + 2][1] == s[|a|] == '\r';
      }
    }
  }

  /** Splitting data lines followed by more text gives the lines (one empty
      line when there are none) and then the pieces of that text. */
  lemma {:induction false} SplitDataLines(lines: seq<string>, t: string)
    requires forall i :: 0 <= i < |lines| ==> Absent(lines[i], "\r\n")
    ensures Split(DataLines(lines) + t, "\r\n") == (if lines == [] then [""] else lines) + Split(t, "\r\n")
    decreases |lines|
  {
    if lines == [] {
      assert Absent("", "\r\n");
      assert DataLines(lines) + t == "" + "\r\n" + t;
      SplitLeadingLine("", t);
    } else if |lines| == 1 {
      assert DataLines(lines) + t == lines[0] + "\r\n" + t;
      SplitLeadingLine(lines[0], t);
      assert lines == [lines[0]];
    } else {
      var rest := lines[1..];
      var u := DataLines(rest) + t;
      assert lines == [lines[0]] + rest;
      DataLinesCons(lines[0], rest);
      assert DataLines(lines) + t == lines[0] + "\r\n" + u;
      SplitLeadingLine(lines[0], u);
      SplitDataLines(rest, t);
      AppendAssoc([lines[0]], rest, Split(t, "\r\n"));
    }
  }

  /** A line without CRLF, its CRLF and more text split into the line and
      the pieces of the text. */
  lemma SplitLeadingLine(a: string, u: string)
    requires Absent(a, "\r\n")
    ensures Split(a + "\r\n" + u, "\r\n") == [a] + Split(u, "\r\n")
  {
    FirstLineBreak(a, u);
    SplitAtFirst(a, "\r\n", u);
  }

  /** A data line in front of more data lines is followed by its CRLF. */
  lemma DataLinesCons(first: string, rest: seq<string>)
    requires rest != []
    ensures DataLines([first] + rest) == first + "\r\n" + DataLines(rest)
  {
    JoinCons(first, rest, "\r\n");
  }

  /** The text of an encoded frame. */
  lemma FrameText(lines: seq<string>)
    requires forall i :: 0 <= i < |lines| ==> IsAscii(lines[i])
    ensures AsciiDecode(EncodeFrame(lines)) ==
      DataLines(lines) + "Checksum\t" + [(ChecksumByte(lines) % 128) as char] + "\r\n"
  {
    var data := DataLines(lines);
    AsciiDataLines(lines);
    var b := ChecksumByte(lines);
    DecodeAppend(AsciiEncode(data) + AsciiEncode("Checksum\t") + [b], AsciiEncode("\r\n"));
    DecodeAppend(AsciiEncode(data) + AsciiEncode("Checksum\t"), [b]);
    DecodeAppend(AsciiEncode(data), AsciiEncode("Checksum\t"));
    DecodeEncode(data);
    DecodeEncode("Checksum\t");
    DecodeEncode("\r\n");
  }

  lemma {:induction false} AsciiDataLines(lines: seq<string>)
    requires forall i :: 0 <= i < |lines| ==> IsAscii(lines[i])
    ensures IsAscii(DataLines(lines))
    decreases |lines|
  {
    if |lines| > 1 {
      AsciiDataLines(lines[1..]);
      assert DataLines(lines) == lines[0] + "\r\n" + DataLines(lines[1..]);
    }
  }

  /** The trailer line of an encoded frame and the empty piece after its CRLF. */
  lemma TrailerText(c: char)
    ensures Split("Checksum\t" + [c] + "\r\n", "\r\n") == ["Checksum\t" + [c], ""]
  {
    var a := "Checksum\t" + [c];
    forall i | 0 <= i
      ensures !MatchesAt(a, "\r\n", i)
    {
      if 0 <= i && i + 2 <= |a| {
        assert a[i..i + 2][0] == a[i];
        assert a[i..i + 2][1] == a[i + 1];
      }
    }
    FirstLineBreak(a, "");
    SplitAtFirst(a, "\r\n", "");
    assert a + "\r\n" + "" == "Checksum\t" + [c] + "\r\n";
    assert Split("", "\r\n") == [""];
  }

  /** The lines of an encoded frame: its data lines (one empty line when
      there are none), the trailer line, and the empty piece after the last CRLF. */
  lemma FrameLines(lines: seq<string>, c: char)
    requires forall i :: 0 <= i < |lines| ==> Absent(lines[i], "\r\n")
    ensures Split(DataLines(lines) + "Checksum\t" + [c] + "\r\n", "\r\n") ==
      (if lines == [] then [""] else lines) + ["Checksum\t" + [c], ""]
  {
    var trailer := "Checksum\t" + [c];
    assert DataLines(lines) + "Checksum\t" + [c] + "\r\n" == DataLines(lines) + (trailer + "\r\n");
    SplitDataLines(lines, trailer + "\r\n");
    TrailerText(c);
  }

  /** The trailer line and the empty piece after it leave the record as it is. */
  lemma TrailerLinesIgnored(head: seq<string>, c: char)
    ensures DecodeLines(head + ["Checksum\t" + [c], ""]) == DecodeLines(head)
  {
    var trailer := "Checksum\t" + [c];
    var pieces := head + [trailer, ""];
    assert pieces[..|pieces| - 1] == head + [trailer];
    assert (head + [trailer])[..|head|] == head;
    assert trailer[..8] == "Checksum";
  }

  /** An encoded frame decodes to the record of the object it encodes. */
  lemma EncodedFrameDecodes(obj: Object)
    requires WellFormedObject(obj)
    ensures DecodeFrame(EncodeFrame(FormatLines(obj))) == ToRecord(obj)
  {
    var lines := FormatLines(obj);
    forall i | 0 <= i < |lines|
      ensures IsAscii(lines[i]) && Absent(lines[i], "\r\n")
    {
      assert lines[i] == FormatLine(obj[i].0, obj[i].1);
    }
    var c := (ChecksumByte(lines) % 128) as char;
    FrameText(lines);
    FrameLines(lines, c);
    var head := if lines == [] then [""] else lines;
    TrailerLinesIgnored(head, c);
    if lines != [] {
      FieldLinesDecode(obj);
    } else {
      assert head[..0] == [];
    }
  }

  // ---------------------------------------------------------------------------
  // Locating an encoded frame

  /** The data lines of a frame hold no trailer label. */
  lemma {:induction false} DataLinesLabelFree(lines: seq<string>)
    requires forall i :: 0 <= i < |lines| ==> Absent(lines[i], "Checksum\t")
    ensures Absent(DataLines(lines), "Checksum\t")
    decreases |lines|
  {
    assert Absent("\r\n", "Checksum\t");
    if |lines| == 1 {
      AbsentConcat(lines[0], "\r\n", "Checksum\t");
    } else if |lines| > 1 {
      DataLinesLabelFree(lines[1..]);
      AbsentConcat(lines[0], "\r\n", "Checksum\t");
      AbsentConcat(lines[0] + "\r\n", DataLines(lines[1..]), "Checksum\t");
      assert DataLines(lines) == lines[0] + "\r\n" + DataLines(lines[1..]);
    }
  }

  /** No trailer label starts inside ASCII text that holds none and ends
      with a line feed, whatever bytes follow it. */
  lemma LabelNotInText(text: string, after: seq<Byte>)
    requires IsAscii(text) && Absent(text, "Checksum\t")
    requires text != [] && text[|text| - 1] == '\n'
    ensures forall p :: 0 <= p < |text| ==> !MatchesAt(AsciiEncode(text) + after, CHECKSUM_LABEL, p)
  {
    var data := AsciiEncode(text);
    var s := data + after;
    var n := |data|;
    MarkerBytes();
    forall p | 0 <= p < n
      ensures !MatchesAt(s, CHECKSUM_LABEL, p)
    {
      if p + 9 <= n {
        assert s[p..p + 9] == data[p..p + 9];
        EncodedMatch(text, "Checksum\t", p);
        assert !MatchesAt(text, "Checksum\t", p);
      } else if p + 9 <= |s| {
        assert s[p..p + 9][n - 1 - p] == s[n - 1] == 10;
      }
    }
  }

  /** In label-free ASCII text ending with a line feed, followed by a trailer
      line, the only trailer ends at the very end. */
  lemma OnlyTrailerAtEnd(text: string, b: Byte)
    requires IsAscii(text) && Absent(text, "Checksum\t")
    requires text != [] && text[|text| - 1] == '\n'
    ensures var frame := AsciiEncode(text) + CHECKSUM_LABEL + [b] + FRAME_SEPARATOR;
      TrailerAt(frame, |frame| - 12, |frame|) &&
      forall p, end :: TrailerAt(frame, p, end) ==> end == |frame|
  {
    var data := AsciiEncode(text);
    var frame := data + CHECKSUM_LABEL + [b] + FRAME_SEPARATOR;
    var n := |data|;
    MarkerBytes();
    assert frame[n..n + 9] == CHECKSUM_LABEL;
    assert frame[n + 10..n + 12] == FRAME_SEPARATOR;
    assert TrailerAt(frame, n, n + 12);
    LabelNotInText(text, CHECKSUM_LABEL + [b] + FRAME_SEPARATOR);
    assert frame == data + (CHECKSUM_LABEL + [b] + FRAME_SEPARATOR);
    forall p, end | TrailerAt(frame, p, end)
      ensures end == |frame|
    {
      TrailerSpan(frame, p, end);
      assert frame[end - 2..end][0] == frame[end - 2] == 13;
      assert frame[end - 2..end][1] == frame[end - 1] == 10;
    }
  }

  /** The only trailer of an encoded frame is its own: label after the data
      lines, CRLF at the very end. */
  lemma EncodedTrailer(obj: Object)
    requires WellFormedObject(obj)
    ensures var frame := EncodeFrame(FormatLines(obj));
      TrailerAt(frame, |frame| - 12, |frame|) &&
      forall p, end :: TrailerAt(frame, p, end) ==> end == |frame|
  {
    var lines := FormatLines(obj);
    forall i | 0 <= i < |lines|
      ensures IsAscii(lines[i]) && Absent(lines[i], "Checksum\t")
    {
      assert lines[i] == obj[i].0 + "\t" + obj[i].1;
    }
    var text := DataLines(lines);
    AsciiDataLines(lines);
    DataLinesLabelFree(lines);
    assert text[|text| - 1] == '\n';
    OnlyTrailerAtEnd(text, ChecksumByte(lines));
  }

  /** The extraction loop takes an encoded frame whole and leaves nothing. */
  lemma ExtractEncoded(obj: Object)
    requires WellFormedObject(obj)
    ensures Extract(EncodeFrame(FormatLines(obj))) ==
      Extraction([], if obj == [] then [] else [ToRecord(obj)])
  {
    var frame := EncodeFrame(FormatLines(obj));
    EncodedFrameEnd(obj);
    WholeFrame(frame);
    EncodedFrameDecodes(obj);
    if obj != [] {
      assert obj[|obj| - 1].0 in ToRecord(obj);
    }
  }

  /** An encoded frame is exactly one candidate frame. */
  lemma EncodedFrameEnd(obj: Object)
    requires WellFormedObject(obj)
    ensures NextFrameEnd(EncodeFrame(FormatLines(obj))) == Some(|EncodeFrame(FormatLines(obj))|)
  {
    EncodedTrailer(obj);
    FrameEndIsFirstTrailer(EncodeFrame(FormatLines(obj)));
  }


  // ---------------------------------------------------------------------------
  // What the test asserts, and what follows

  /** Round trip: a fresh parser fed one encoded frame returns exactly the
      record of the encoded object and keeps nothing back; an object with no
      fields gives a frame that yields no record. */
  lemma RoundTrip(obj: Object)
    requires WellFormedObject(obj)
    ensures Process([], EncodeFrame(FormatLines(obj))) ==
      Extraction([], if obj == [] then [] else [ToRecord(obj)])
  {
    ExtractEncoded(obj);
    assert [] + EncodeFrame(FormatLines(obj)) == EncodeFrame(FormatLines(obj));
  }

  /** The test loop of the test file: a new parser, the object (whose keys,
      being an object's own keys, are distinct) formatted and encoded, one
      call; exactly one record comes back, with exactly the object's keys,
      each mapped to the object's value. */
  method ProcessesIndividualValidFrame(frameObject: Object) returns (parsedResults: seq<Record>)
    requires frameObject != [] && GeneratedObject(frameObject)
    requires forall i, j :: 0 <= i < j < |frameObject| ==> frameObject[i].0 != frameObject[j].0
    ensures parsedResults == [ToRecord(frameObject)]
    ensures forall key :: key in parsedResults[0] <==> exists i :: 0 <= i < |frameObject| && frameObject[i].0 == key
    ensures forall i :: 0 <= i < |frameObject| ==>
      frameObject[i].0 in parsedResults[0] && parsedResults[0][frameObject[i].0] == frameObject[i].1
  {
    ToRecordKeys(frameObject);
    forall i | 0 <= i < |frameObject|
      ensures frameObject[i].0 in ToRecord(frameObject)
      ensures ToRecord(frameObject)[frameObject[i].0] == frameObject[i].1
    {
      ToRecordValue(frameObject, i);
    }
    GeneratedObjectWellFormed(frameObject);
    var parser := new VictronParser();
    var frameLines := FormatVEDirectObjectToLines(frameObject);
    assert frameLines == FormatLines(frameObject);
    var buffer := CreateVEDirectFrameBufferFromLines(frameLines);
    parsedResults := parser.ProcessData(buffer);
    RoundTrip(frameObject);
  }

  /** The frames of several objects laid end to end. */
  ghost function EncodeAll(objs: seq<Object>): seq<Byte>
  {
    if objs == [] then [] else EncodeFrame(FormatLines(objs[0])) + EncodeAll(objs[1..])
  }

  /** The records of several objects, one per object, in order. */
  ghost function RecordsOf(objs: seq<Object>): seq<Record>
  {
    seq(|objs|, i requires 0 <= i < |objs| => ToRecord(objs[i]))
  }

  /** Several frames in one chunk yield one record each, in stream order,
      and leave nothing behind. */
  lemma {:induction false} FramesInOneChunk(objs: seq<Object>)
    requires forall i :: 0 <= i < |objs| ==> objs[i] != [] && WellFormedObject(objs[i])
    ensures Extract(EncodeAll(objs)) == Extraction([], RecordsOf(objs))
    decreases |objs|
  {
    if objs == [] {
      FrameEndIsFirstTrailer([]);
    } else {
      FramesInOneChunk(objs[1..]);
      FrameThenMore(objs[0], EncodeAll(objs[1..]), RecordsOf(objs[1..]));
      RecordsOfCons(objs);
    }
  }

  lemma RecordsOfCons(objs: seq<Object>)
    requires objs != []
    ensures RecordsOf(objs) == [ToRecord(objs[0])] + RecordsOf(objs[1..])
  {
  }

  /** An encoded frame followed by bytes that extract completely. */
  lemma FrameThenMore(obj: Object, more: seq<Byte>, records: seq<Record>)
    requires obj != [] && WellFormedObject(obj)
    requires Extract(more) == Extraction([], records)
    ensures Extract(EncodeFrame(FormatLines(obj)) + more) == Extraction([], [ToRecord(obj)] + records)
  {
    ExtractEncoded(obj);
    ExtractAfterComplete(EncodeFrame(FormatLines(obj)), more);
  }

  /** Every trailer of the bytes ends at their very end. */
  ghost predicate TrailerOnlyAtEnd(frame: seq<Byte>)
  {
    forall p, end :: TrailerAt(frame, p, end) ==> end == |frame|
  }

  /** No proper prefix of a frame whose only trailer ends at its end holds a
      complete frame: such bytes stay in the buffer and yield nothing. */
  lemma PrefixIncomplete(frame: seq<Byte>, k: nat)
    requires TrailerOnlyAtEnd(frame) && k < |frame|
    ensures Extract(frame[..k]) == Extraction(frame[..k], [])
  {
    var prefix := frame[..k];
    forall p, end ensures !TrailerAt(prefix, p, end) {
      if end <= k {
        assert frame == prefix + frame[k..];
        TrailerWithin(prefix, frame[k..], p, end);
      }
    }
    IncompleteTrailerRetained(prefix);
  }

  lemma {:induction false} FlattenSplit(chunks: seq<seq<Byte>>, k: nat)
    requires k <= |chunks|
    ensures Flatten(chunks) == Flatten(chunks[..k]) + Flatten(chunks[k..])
    decreases k
  {
    if k > 0 {
      FlattenSplit(chunks[1..], k - 1);
      assert chunks[1..][..k - 1] == chunks[..k][1..];
      assert chunks[1..][k - 1..] == chunks[k..];
      assert chunks[..k][0] == chunks[0];
    } else {
      assert chunks[..0] == [] && chunks[0..] == chunks;
    }
  }

  /** Chunks that together fit in the buffer never make a call reset it. */
  lemma ShortFeedNoReset(chunks: seq<seq<Byte>>)
    requires |Flatten(chunks)| <= MAX_BUFFER_LENGTH
    ensures NoEarlyReset([], chunks)
  {
    forall k | 0 < k < |chunks|
      ensures |Extract([] + Flatten(chunks[..k])).rest| <= MAX_BUFFER_LENGTH
    {
      FlattenSplit(chunks, k);
      assert [] + Flatten(chunks[..k]) == Flatten(chunks[..k]);
    }
  }

  /** The first k chunks of a fragmented frame: a prefix of the frame,
      processed as one piece. */
  lemma FeedPrefix(chunks: seq<seq<Byte>>, k: nat)
    requires 0 < k <= |chunks|
    requires |Flatten(chunks)| <= MAX_BUFFER_LENGTH
    ensures Flatten(chunks[..k]) <= Flatten(chunks)
    ensures FeedAll([], chunks[..k]) == Process([], Flatten(chunks[..k]))
  {
    FlattenSplit(chunks, k);
    ShortFeedNoReset(chunks[..k]);
    ChunkingInvariance([], chunks[..k]);
  }

  /** While the fragments delivered so far do not make up the whole frame,
      the calls return nothing. */
  lemma FragmentsBeforeEnd(chunks: seq<seq<Byte>>, k: nat)
    requires TrailerOnlyAtEnd(Flatten(chunks))
    requires |Flatten(chunks)| <= MAX_BUFFER_LENGTH
    requires 0 < k <= |chunks| && |Flatten(chunks[..k])| < |Flatten(chunks)|
    ensures FeedAll([], chunks[..k]).records == []
  {
    FeedPrefix(chunks, k);
    SilentPrefix(Flatten(chunks), Flatten(chunks[..k]));
  }

  /** A fresh parser given a proper prefix of such a frame returns nothing. */
  lemma SilentPrefix(whole: seq<Byte>, prefix: seq<Byte>)
    requires TrailerOnlyAtEnd(whole) && prefix <= whole && |prefix| < |whole|
    ensures Process([], prefix).records == []
  {
    assert prefix == whole[..|prefix|];
    PrefixIncomplete(whole, |prefix|);
    assert [] + prefix == prefix;
  }

  /** A frame whose only trailer ends at its end, delivered in fragments:
      the whole delivery returns what the frame in one piece returns, and
      every call before the last fragment returns nothing. */
  lemma FragmentedDelivery(chunks: seq<seq<Byte>>, records: seq<Record>)
    requires TrailerOnlyAtEnd(Flatten(chunks)) && Flatten(chunks) != []
    requires |Flatten(chunks)| <= MAX_BUFFER_LENGTH
    requires Process([], Flatten(chunks)) == Extraction([], records)
    ensures FeedAll([], chunks) == Extraction([], records)
    ensures forall k :: 0 < k <= |chunks| && |Flatten(chunks[..k])| < |Flatten(chunks)| ==>
      FeedAll([], chunks[..k]).records == []
  {
    assert chunks != [];
    FeedPrefix(chunks, |chunks|);
    assert chunks[..|chunks|] == chunks;
    forall k | 0 < k <= |chunks| && |Flatten(chunks[..k])| < |Flatten(chunks)|
      ensures FeedAll([], chunks[..k]).records == []
    {
      FragmentsBeforeEnd(chunks, k);
    }
  }

  /** An encoded frame delivered in any number of fragments gives the same
      single record as in one piece, and no call returns anything while the
      frame is still incomplete. */
  lemma FragmentedFrame(obj: Object, chunks: seq<seq<Byte>>)
    requires obj != [] && WellFormedObject(obj)
    requires Flatten(chunks) == EncodeFrame(FormatLines(obj))
    requires |Flatten(chunks)| <= MAX_BUFFER_LENGTH
    ensures FeedAll([], chunks) == Extraction([], [ToRecord(obj)])
    ensures forall k :: 0 < k <= |chunks| && |Flatten(chunks[..k])| < |Flatten(chunks)| ==>
      FeedAll([], chunks[..k]).records == []
  {
    EncodedTrailer(obj);
    RoundTrip(obj);
    FragmentedDelivery(chunks, [ToRecord(obj)]);
  }

  /** An intact frame spoiled by one changed byte, but still delimited as
      before, is cut off whole and yields no record. */
  lemma SpoiledFrameDropped(frame: seq<Byte>, i: nat, x: Byte)
    requires Checksum(frame) == 0 && i < |frame| && x != frame[i]
    requires NextFrameEnd(frame[i := x]) == Some(|frame|)
    ensures Extract(frame[i := x]) == Extraction([], [])
  {
    SingleByteChangeDetected(frame, frame[i := x], i);
    RejectedWholeFrame(frame[i := x]);
  }


  /** A good frame after a spoiled one is still read. */
  lemma CorruptFrameSkipped(bad: Object, i: nat, x: Byte, good: Object)
    requires i < |EncodeFrame(FormatLines(bad))| && x != EncodeFrame(FormatLines(bad))[i]
    requires var spoiled := EncodeFrame(FormatLines(bad))[i := x];
      NextFrameEnd(spoiled) == Some(|spoiled|)
    requires good != [] && WellFormedObject(good)
    ensures Extract(EncodeFrame(FormatLines(bad))[i := x] + EncodeFrame(FormatLines(good))) ==
      Extraction([], [ToRecord(good)])
  {
    SpoiledFrameDropped(EncodeFrame(FormatLines(bad)), i, x);
    ExtractAfterComplete(EncodeFrame(FormatLines(bad))[i := x], EncodeFrame(FormatLines(good)));
    ExtractEncoded(good);
  }

  /** When the corruption hits the spoiled frame's trailer label, the
      spoiled text and the next frame form one candidate frame: the label the
      loop finds first is the good frame's, the combined checksum is the
      spoiled text's, and the good frame is lost with the spoiled one. */
  lemma LostLabelSwallowsNext(spoiled: string, good: Object)
    requires IsAscii(spoiled) && Absent(spoiled, "Checksum\t")
    requires spoiled != [] && spoiled[|spoiled| - 1] == '\n'
    requires Checksum(AsciiEncode(spoiled)) != 0
    requires WellFormedObject(good)
    ensures Extract(AsciiEncode(spoiled) + EncodeFrame(FormatLines(good))) == Extraction([], [])
  {
    MergedFrameEnd(spoiled, good);
    PrefixedFrameRejected(AsciiEncode(spoiled), EncodeFrame(FormatLines(good)));
  }

  /** Label-free text ending in a line feed, followed by an encoded frame, is
      one candidate frame. */
  lemma MergedFrameEnd(spoiled: string, good: Object)
    requires IsAscii(spoiled) && Absent(spoiled, "Checksum\t")
    requires spoiled != [] && spoiled[|spoiled| - 1] == '\n'
    requires WellFormedObject(good)
    ensures var whole := AsciiEncode(spoiled) + EncodeFrame(FormatLines(good));
      NextFrameEnd(whole) == Some(|whole|)
  {
    var lines := FormatLines(good);
    var data := DataLines(lines);
    LabelFreeBeforeData(spoiled, good);
    var text := spoiled + data;
    var b := ChecksumByte(lines);
    OnlyTrailerAtEnd(text, b);
    EncodeAppend(spoiled, data);
    var whole := AsciiEncode(spoiled) + EncodeFrame(lines);
    assert whole == AsciiEncode(text) + CHECKSUM_LABEL + [b] + FRAME_SEPARATOR;
    FrameEndIsFirstTrailer(whole);
  }

  /** Label-free text ending in a line feed, followed by the data lines of a
      well-formed object, is label-free ASCII text ending in a line feed. */
  lemma LabelFreeBeforeData(spoiled: string, good: Object)
    requires IsAscii(spoiled) && Absent(spoiled, "Checksum\t")
    requires spoiled != [] && spoiled[|spoiled| - 1] == '\n'
    requires WellFormedObject(good)
    ensures var text := spoiled + DataLines(FormatLines(good));
      IsAscii(text) && Absent(text, "Checksum\t") && text[|text| - 1] == '\n'
  {
    var lines := FormatLines(good);
    forall i | 0 <= i < |lines|
      ensures IsAscii(lines[i]) && Absent(lines[i], "Checksum\t")
    {
      assert lines[i] == good[i].0 + "\t" + good[i].1;
    }
    var data := DataLines(lines);
    AsciiDataLines(lines);
    DataLinesLabelFree(lines);
    assert '\n' !in "Checksum\t";
    AbsentConcat(spoiled, data, "Checksum\t");
  }

  /** Bytes with a nonzero checksum in front of an intact frame, the two
      making one candidate frame, are dropped with it. */
  lemma PrefixedFrameRejected(pre: seq<Byte>, frame: seq<Byte>)
    requires NextFrameEnd(pre + frame) == Some(|pre + frame|)
    requires Checksum(pre) != 0 && Checksum(frame) == 0
    ensures Extract(pre + frame) == Extraction([], [])
  {
    PrefixedChecksum(pre, frame);
    RejectedWholeFrame(pre + frame);
  }

  /** An intact frame adds nothing to the checksum of the bytes before it. */
  lemma PrefixedChecksum(pre: seq<Byte>, frame: seq<Byte>)
    requires Checksum(frame) == 0
    ensures Checksum(pre + frame) == Checksum(pre)
  {
    ChecksumAppend(pre, frame);
  }

  /** After more than MAX_BUFFER_LENGTH bytes of noise without a trailer
      label the parser is empty again, and the next frame is read. */
  lemma NoiseThenFrame(buffer: seq<Byte>, noise: seq<Byte>, obj: Object)
    requires Absent(buffer + noise, CHECKSUM_LABEL)
    requires |buffer + noise| > MAX_BUFFER_LENGTH
    requires obj != [] && WellFormedObject(obj)
    ensures Process(buffer, noise) == Extraction([], [])
    ensures Process(Process(buffer, noise).rest, EncodeFrame(FormatLines(obj))) ==
      Extraction([], [ToRecord(obj)])
  {
    OverflowReset(buffer, noise);
    RoundTrip(obj);
  }

  /** A frame followed, in the same call, by more than MAX_BUFFER_LENGTH
      bytes without a trailer label: the frame's record is returned and the
      buffer is emptied all the same. */
  lemma FrameThenOverflow(obj: Object, noise: seq<Byte>)
    requires obj != [] && WellFormedObject(obj)
    requires Absent(noise, CHECKSUM_LABEL) && |noise| > MAX_BUFFER_LENGTH
    ensures Process([], EncodeFrame(FormatLines(obj)) + noise) == Extraction([], [ToRecord(obj)])
  {
    ExtractEncoded(obj);
    CompleteThenOverflow(EncodeFrame(FormatLines(obj)), noise, [ToRecord(obj)]);
  }

  /** Bytes that extract completely, then label-free overflow. */
  lemma CompleteThenOverflow(x: seq<Byte>, noise: seq<Byte>, records: seq<Record>)
    requires Extract(x) == Extraction([], records)
    requires Absent(noise, CHECKSUM_LABEL) && |noise| > MAX_BUFFER_LENGTH
    ensures Process([], x + noise) == Extraction([], records)
  {
    LabelFreeRetained(noise);
    ExtractAfterComplete(x, noise);
    assert [] + (x + noise) == x + noise;
    assert records + [] == records;
  }

  /** Bytes without a trailer label stay in the buffer whole. */
  lemma LabelFreeRetained(noise: seq<Byte>)
    requires Absent(noise, CHECKSUM_LABEL)
    ensures Extract(noise) == Extraction(noise, [])
  {
    forall p, end ensures !TrailerAt(noise, p, end) {
    }
    IncompleteTrailerRetained(noise);
  }

  /** Why a field line must not hold the trailer label anywhere: with the
      key "AChecksum" the label inside the data line ends the first candidate
      frame early, both halves fail the checksum, and nothing is returned. */
  lemma KeyHoldingLabel(key: string)
    requires key == "AChecksum"
    ensures Process([], EncodeFrame([FormatLine(key, "1")])).records == []
  {
    var lines := [FormatLine(key, "1")];
    var t := AsciiEncode(DataLines(lines));
    assert EncodeFrame(lines) == t + (CHECKSUM_LABEL + [ChecksumByte(lines)] + FRAME_SEPARATOR);
    assert DataLines(lines) == "AChecksum\t1\r\n";
    LabelKeyLineBytes();
    EarlyCandidate(t);
    SplitFrameRejected(t, ChecksumByte(lines));
  }

  /** An intact frame cut in two by an early trailer label, the first piece
      failing the checksum: the second piece fails it too, and nothing is
      returned. */
  lemma SplitFrameRejected(t: seq<Byte>, b: Byte)
    requires Checksum(t + (CHECKSUM_LABEL + [b] + FRAME_SEPARATOR)) == 0
    requires Checksum(t) != 0 && Extract(t) == Extraction([], [])
    ensures Process([], t + (CHECKSUM_LABEL + [b] + FRAME_SEPARATOR)).records == []
  {
    var u := CHECKSUM_LABEL + [b] + FRAME_SEPARATOR;
    ChecksumAppend(t, u);
    NonzeroComplement(Checksum(t), Checksum(u));
    TrailerLineOnly(b);
    BothPiecesRejected(t, u);
  }

  /** Two bytes adding up to 0 modulo 256: when one is not 0, neither is the other. */
  lemma NonzeroComplement(x: Byte, y: Byte)
    requires (x + y) % 256 == 0 && x != 0
    ensures y != 0
  {
  }

  lemma BothPiecesRejected(t: seq<Byte>, u: seq<Byte>)
    requires Extract(t) == Extraction([], []) && Extract(u) == Extraction([], [])
    ensures Process([], t + u).records == []
  {
    ExtractAfterComplete(t, u);
    FreshProcess(t + u);
  }

  /** The data line "AChecksum<tab>1" with its CRLF is a whole candidate frame
      with byte sum 965, so it is dropped. */
  lemma EarlyCandidate(t: seq<Byte>)
    requires t == [65, 67, 104, 101, 99, 107, 115, 117, 109, 9, 49, 13, 10]
    ensures Checksum(t) == 197
    ensures Extract(t) == Extraction([], [])
  {
    MarkerBytes();
    assert t[1..10] == CHECKSUM_LABEL && t[11..13] == FRAME_SEPARATOR;
    assert TrailerAt(t, 1, 13);
    FrameEndIsFirstTrailer(t);
    var e := NextFrameEnd(t).value;
    var p :| TrailerAt(t, p, e);
    assert t[e - 2] == 13;
    assert e == 13;
    SumOfLabelKeyLine(t);
    RejectedWholeFrame(t);
  }

  lemma LabelKeyLineBytes()
    ensures AsciiEncode("AChecksum\t1\r\n") == [65, 67, 104, 101, 99, 107, 115, 117, 109, 9, 49, 13, 10]
  {
  }

  /** The byte sum of "AChecksum<tab>1" and CRLF, added up byte by byte. */
  lemma SumOfLabelKeyLine(t: seq<Byte>)
    requires t == [65, 67, 104, 101, 99, 107, 115, 117, 109, 9, 49, 13, 10]
    ensures Sum(t) == 965
  {
    SumOfWord();
    SumOfTail();
    assert t == [65, 67, 104, 101, 99, 107, 115] + [117, 109, 9, 49, 13, 10];
    SumAppend([65, 67, 104, 101, 99, 107, 115], [117, 109, 9, 49, 13, 10]);
  }

  lemma SumOfWord()
    ensures Sum([65, 67, 104, 101, 99, 107, 115]) == 658
  {
    var a0: seq<Byte> := [];
    var a1 := a0 + [65];
    SumSnoc(a0, 65);
    var a2 := a1 + [67];
    SumSnoc(a1, 67);
    var a3 := a2 + [104];
    SumSnoc(a2, 104);
    var a4 := a3 + [101];
    SumSnoc(a3, 101);
    var a5 := a4 + [99];
    SumSnoc(a4, 99);
    var a6 := a5 + [107];
    SumSnoc(a5, 107);
    var a7 := a6 + [115];
    SumSnoc(a6, 115);
    assert a7 == [65, 67, 104, 101, 99, 107, 115];
  }

  lemma SumOfTail()
    ensures Sum([117, 109, 9, 49, 13, 10]) == 307
  {
    var b0: seq<Byte> := [];
    var b1 := b0 + [117];
    SumSnoc(b0, 117);
    var b2 := b1 + [109];
    SumSnoc(b1, 109);
    var b3 := b2 + [9];
    SumSnoc(b2, 9);
    var b4 := b3 + [49];
    SumSnoc(b3, 49);
    var b5 := b4 + [13];
    SumSnoc(b4, 13);
    var b6 := b5 + [10];
    SumSnoc(b5, 10);
    assert b6 == [117, 109, 9, 49, 13, 10];
  }

  lemma SumSnoc(s: seq<Byte>, x: Byte)
    ensures Sum(s + [x]) == Sum(s) + x
  {
    assert (s + [x])[..|s|] == s;
  }


  /** A trailer line whose checksum is not 0 is a whole candidate frame and is dropped. */
  lemma TrailerLineOnly(b: Byte)
    requires Checksum(CHECKSUM_LABEL + [b] + FRAME_SEPARATOR) != 0
    ensures Extract(CHECKSUM_LABEL + [b] + FRAME_SEPARATOR) == Extraction([], [])
  {
    TrailerLineEnd(b);
    RejectedWholeFrame(CHECKSUM_LABEL + [b] + FRAME_SEPARATOR);
  }

  /** A lone trailer line is one candidate frame. */
  lemma TrailerLineEnd(b: Byte)
    ensures NextFrameEnd(CHECKSUM_LABEL + [b] + FRAME_SEPARATOR) == Some(12)
  {
    var u := CHECKSUM_LABEL + [b] + FRAME_SEPARATOR;
    MarkerBytes();
    assert u[..9] == CHECKSUM_LABEL && u[10..] == FRAME_SEPARATOR;
    assert TrailerAt(u, 0, 12);
    FrameEndIsFirstTrailer(u);
    var e := NextFrameEnd(u).value;
    var p :| TrailerAt(u, p, e);
    TrailerSpan(u, p, e);
    assert u[e - 2..e][1] == u[e - 1];
    assert u[10] == 13;
  }


  // ---------------------------------------------------------------------------
  // The test's generated data

  /** A key as the test generates them: upper-case letters and digits. */
  predicate GeneratedKey(key: string)
  {
    key != [] && forall i :: 0 <= i < |key| ==> 'A' <= key[i] <= 'Z' || '0' <= key[i] <= '9'
  }

  /** A value as the test generates them: letters, digits and '-'. */
  predicate GeneratedValue(value: string)
  {
    forall i :: 0 <= i < |value| ==>
      'A' <= value[i] <= 'Z' || 'a' <= value[i] <= 'z' || '0' <= value[i] <= '9' || value[i] == '-'
  }

  /** A line whose only tab is at `n` and whose text before `n` has no
      lower-case letter holds no trailer label: the label's tab would have
      to sit at `n`, and its lower-case 'h' before it. */
  lemma NoLabelAt(line: string, n: nat, i: int)
    requires n < |line| && line[n] == '\t'
    requires forall k :: 0 <= k < |line| && k != n ==> line[k] != '\t'
    requires forall k :: 0 <= k < n ==> !('a' <= line[k] <= 'z')
    ensures !MatchesAt(line, "Checksum\t", i)
  {
    if 0 <= i && i + 9 <= |line| {
      assert line[i..i + 9][8] == line[i + 8];
      assert line[i..i + 9][1] == line[i + 1];
    }
  }

  /** A line without a carriage return holds no CRLF. */
  lemma NoLineBreakAt(line: string, i: int)
    requires forall k :: 0 <= k < |line| ==> line[k] != '\r'
    ensures !MatchesAt(line, "\r\n", i)
  {
    if 0 <= i && i + 2 <= |line| {
      assert line[i..i + 2][0] == line[i];
    }
  }

  /** Generated fields are read back unchanged. */
  lemma GeneratedFieldWellFormed(key: string, value: string)
    requires GeneratedKey(key) && GeneratedValue(value)
    ensures WellFormedField(key, value)
  {
    var line := FormatLine(key, value);
    var n := |key|;
    assert line[..n] == key && line[n] == '\t' && line[n + 1..] == value;
    forall k | 0 <= k < |line| && k != n
      ensures line[k] != '\t' && line[k] != '\r'
      ensures k < n ==> !('a' <= line[k] <= 'z')
    {
      if k < n {
        assert line[k] == key[k];
      } else {
        assert line[k] == value[k - n - 1];
      }
    }
    forall i | 0 <= i
      ensures !MatchesAt(line, "\r\n", i)
      ensures !MatchesAt(line, "Checksum\t", i)
    {
      NoLineBreakAt(line, i);
      NoLabelAt(line, n, i);
    }
    if |key| >= 8 {
      assert key[..8][1] != "Checksum"[1];
    }
    assert key[..1][0] != ':';
  }

  /** An object as the test generates them: fields with generated keys and values. */
  predicate GeneratedObject(obj: Object)
  {
    forall i :: 0 <= i < |obj| ==> GeneratedKey(obj[i].0) && GeneratedValue(obj[i].1)
  }

  lemma GeneratedObjectWellFormed(obj: Object)
    requires GeneratedObject(obj)
    ensures WellFormedObject(obj)
  {
    forall i | 0 <= i < |obj|
      ensures WellFormedField(obj[i].0, obj[i].1)
    {
      GeneratedFieldWellFormed(obj[i].0, obj[i].1);
    }
  }

  /** A battery frame with voltage and current fields, such as V = 12800 and
      I = -500, is read back as exactly those two fields. */
  lemma BatteryFrame(voltage: string, current: string)
    requires GeneratedValue(voltage) && GeneratedValue(current)
    ensures Process([], EncodeFrame([FormatLine("V", voltage), FormatLine("I", current)])) ==
      Extraction([], [map["V" := voltage, "I" := current]])
  {
    var obj: Object := [("V", voltage), ("I", current)];
    GeneratedFieldWellFormed("V", voltage);
    GeneratedFieldWellFormed("I", current);
    assert FormatLines(obj) == [FormatLine("V", voltage), FormatLine("I", current)];
    RoundTrip(obj);
    assert obj[..1] == [("V", voltage)] && obj[..1][..0] == [];
    assert ToRecord(obj[..1]) == map["V" := voltage];
    assert ToRecord(obj) == map["V" := voltage, "I" := current];
  }
}
