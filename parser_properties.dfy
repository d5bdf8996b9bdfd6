/** What the parser of `victronParser.js` guarantees: the checksum arithmetic,
    the decoding rules, where a candidate frame ends, and that the way the
    stream is cut into chunks does not change what is extracted from it. */
module ParserProperties {
  import opened NodeBuffer
  import opened Parser

  // ---------------------------------------------------------------------------
  // Checksum

  /** The byte sum of a concatenation is the sum of the byte sums. */
  lemma {:induction false} SumAppend(a: seq<Byte>, b: seq<Byte>)
    ensures Sum(a + b) == Sum(a) + Sum(b)
    decreases |b|
  {
    if b != [] {
      var b' := b[..|b| - 1];
      assert (a + b)[..|a + b| - 1] == a + b';
      SumAppend(a, b');
    } else {
      assert a + b == a;
    }
  }

  /** The checksum of a concatenation is the 8-bit sum of the parts' checksums. */
  lemma ChecksumAppend(a: seq<Byte>, b: seq<Byte>)
    ensures Checksum(a + b) == (Checksum(a) + Checksum(b)) % 256
  {
    SumAppend(a, b);
    ModAdd(Sum(a), Sum(b));
  }

  /** Changing any single byte of an intact frame makes its checksum nonzero. */
  lemma SingleByteChangeDetected(s: seq<Byte>, t: seq<Byte>, i: int)
    requires |s| == |t| && 0 <= i < |s|
    requires s[i] != t[i]
    requires forall k :: 0 <= k < |s| && k != i ==> s[k] == t[k]
    requires Checksum(s) == 0
    ensures Checksum(t) != 0
  {
    assert s == s[..i] + [s[i]] + s[i + 1..];
    assert t == s[..i] + [t[i]] + s[i + 1..];
    SumAppend(s[..i] + [s[i]], s[i + 1..]);
    SumAppend(s[..i], [s[i]]);
    SumAppend(s[..i] + [t[i]], s[i + 1..]);
    SumAppend(s[..i], [t[i]]);
    assert Sum([s[i]]) == s[i] && Sum([t[i]]) == t[i];
  }

  // ---------------------------------------------------------------------------
  // Decoding

  /** A field line's key is the text before its first tab and its value all
      the text after that tab, later tabs included; a line without a tab is a
      key with the empty value. */
  lemma FieldOfFirstTab(line: string)
    ensures '\t' !in line ==> FieldOf(line) == (line, "")
    ensures forall t :: 0 <= t < |line| && line[t] == '\t' && '\t' !in line[..t] ==>
      FieldOf(line) == (line[..t], line[t + 1..])
  {
    var i := IndexOf(line, "\t", 0);
    var parts := Split(line, "\t");
    if i == -1 {
      assert parts == [line];
      forall t | 0 <= t < |line| ensures line[t] != '\t' {
        assert !MatchesAt(line, "\t", t);
        assert line[t..t + 1] == [line[t]];
      }
    } else {
      assert line[i..i + 1] == "\t";
      assert line[i] == '\t';
      forall k | 0 <= k < i ensures line[k] != '\t' {
        assert !MatchesAt(line, "\t", k);
        assert line[k..k + 1] == [line[k]];
      }
      assert '\t' in line;
      var rest := Split(line[i + 1..], "\t");
      assert parts == [line[..i]] + rest;
      assert parts[1..] == rest;
      JoinSplit(line[i + 1..], "\t");
      forall t | i < t <= |line|
        ensures '\t' in line[..t]
      {
        assert line[..t][i] == '\t';
      }
    }
  }

  /** A line that sets `key` in the record. */
  ghost predicate Defines(line: string, key: string)
  {
    !Skipped(line) && key != "" && FieldOf(line).0 == key
  }

  /** A key is in the decoded record exactly when some line defines it. */
  lemma {:induction false} DecodeLinesDefined(lines: seq<string>, key: string)
    ensures key in DecodeLines(lines) <==> exists j :: 0 <= j < |lines| && Defines(lines[j], key)
    decreases |lines|
  {
    if lines != [] {
      var n := |lines| - 1;
      var init := lines[..n];
      DecodeLinesDefined(init, key);
      if key in DecodeLines(init) {
        var j :| 0 <= j < n && Defines(init[j], key);
        assert lines[j] == init[j];
      }
      if !Defines(lines[n], key) && key in DecodeLines(lines) {
        assert key in DecodeLines(init);
      }
      forall j | 0 <= j < n && Defines(lines[j], key)
        ensures key in DecodeLines(lines)
      {
        assert init[j] == lines[j];
      }
    }
  }

  /** The value of a key is the value of the last line that defines it. */
  lemma {:induction false} DecodeLinesLastWins(lines: seq<string>, key: string, j: nat)
    requires j < |lines| && Defines(lines[j], key)
    requires forall j' :: j < j' < |lines| ==> !Defines(lines[j'], key)
    ensures key in DecodeLines(lines) && DecodeLines(lines)[key] == FieldOf(lines[j]).1
    decreases |lines|
  {
    var n := |lines| - 1;
    var init := lines[..n];
    if j < n {
      assert init[j] == lines[j];
      assert forall j' :: j < j' < n ==> init[j'] == lines[j'];
      DecodeLinesLastWins(init, key, j);
      assert !Defines(lines[n], key);
    }
  }


  // ---------------------------------------------------------------------------
  // Locating a frame

  /** A CRLF that follows a trailer label starts after the whole label. */
  lemma TrailerSpan(buf: seq<Byte>, p: int, end: int)
    requires TrailerAt(buf, p, end)
    ensures p + |CHECKSUM_LABEL| + |FRAME_SEPARATOR| <= end
  {
    MarkerBytes();
    forall k | p <= k < p + 9
      ensures buf[k] != 13
    {
      assert buf[p..p + 9][k - p] == buf[k];
    }
    assert buf[end - 2..end][0] == buf[end - 2] == 13;
  }

  /** The frame end is the end of the earliest CRLF that comes at or after some
      trailer label; there is none exactly when no label is followed by a CRLF.
      So the guard `frameEnd <= 2` fires only when the CRLF search fails. */
  lemma FrameEndIsFirstTrailer(buf: seq<Byte>)
    ensures NextFrameEnd(buf).None? <==> forall p, end :: !TrailerAt(buf, p, end)
    ensures NextFrameEnd(buf).Some? ==> exists p :: TrailerAt(buf, p, NextFrameEnd(buf).value)
    ensures NextFrameEnd(buf).Some? ==>
      forall p, end :: TrailerAt(buf, p, end) ==> NextFrameEnd(buf).value <= end
  {
    MarkerBytes();
    var c := IndexOf(buf, CHECKSUM_LABEL, 0);
    if c != -1 {
      var f := IndexOf(buf, FRAME_SEPARATOR, c);
      if f != -1 {
        assert TrailerAt(buf, c, f + 2);
        TrailerSpan(buf, c, f + 2);
        assert NextFrameEnd(buf) == Some(f + 2);
      }
    }
  }

  /** Bytes with no label followed by a CRLF stay in the buffer untouched and
      yield nothing. */
  lemma IncompleteTrailerRetained(buf: seq<Byte>)
    requires forall p, end :: !TrailerAt(buf, p, end)
    ensures Extract(buf) == Extraction(buf, [])
  {
    FrameEndIsFirstTrailer(buf);
  }

  /** A trailer that ends within `x` is a trailer of `x + y`, and the converse. */
  lemma TrailerWithin(x: seq<Byte>, y: seq<Byte>, p: int, end: int)
    requires end <= |x|
    ensures TrailerAt(x + y, p, end) <==> TrailerAt(x, p, end)
  {
    MarkerBytes();
    if 0 <= p && p + 11 <= end {
      assert (x + y)[p..p + 9] == x[p..p + 9];
      assert (x + y)[end - 2..end] == x[end - 2..end];
    }
    if TrailerAt(x + y, p, end) {
      TrailerSpan(x + y, p, end);
    }
    if TrailerAt(x, p, end) {
      TrailerSpan(x, p, end);
    }
  }

  /** Appending bytes does not move a frame end already present. */
  lemma FrameEndExtends(x: seq<Byte>, y: seq<Byte>)
    requires NextFrameEnd(x).Some?
    ensures NextFrameEnd(x + y) == NextFrameEnd(x)
  {
    FrameEndIsFirstTrailer(x);
    FrameEndIsFirstTrailer(x + y);
    var e := NextFrameEnd(x).value;
    var p :| TrailerAt(x, p, e);
    TrailerWithin(x, y, p, e);
    var e' := NextFrameEnd(x + y).value;
    var p' :| TrailerAt(x + y, p', e');
    FirstEndsAgree(x, y, p, e, p', e');
  }

  /** The earliest trailer end of `x`, when it exists, is also the earliest
      of `x + y`. */
  lemma FirstEndsAgree(x: seq<Byte>, y: seq<Byte>, p: int, e: int, p': int, e': int)
    requires TrailerAt(x, p, e) && forall q, end :: TrailerAt(x, q, end) ==> e <= end
    requires TrailerAt(x + y, p', e') && forall q, end :: TrailerAt(x + y, q, end) ==> e' <= end
    ensures e == e'
  {
    TrailerSpan(x, p, e);
    TrailerWithin(x, y, p, e);
    assert e' <= e;
    TrailerWithin(x, y, p', e');
  }

  /** Extracting from `x + y` cuts the frames of `x` first and then goes on
      from what `x` leaves over with `y` appended. */
  lemma {:induction false} ExtractAppend(x: seq<Byte>, y: seq<Byte>)
    ensures Extract(x + y) ==
      Extraction(Extract(Extract(x).rest + y).rest, Extract(x).records + Extract(Extract(x).rest + y).records)
    decreases |x|
  {
    match NextFrameEnd(x)
    case None =>
      assert Extract(x) == Extraction(x, []);
    case Some(e) =>
      FrameEndExtends(x, y);
      var s := x + y;
      assert s[..e] == x[..e];
      assert s[e..] == x[e..] + y;
      ExtractAppend(x[e..], y);
      AppendAssoc(Accept(x[..e]), Extract(x[e..]).records, Extract(Extract(x[e..]).rest + y).records);
  }

  /** A buffer that is exactly one candidate frame is consumed whole. */
  lemma WholeFrame(buf: seq<Byte>)
    requires NextFrameEnd(buf) == Some(|buf|)
    ensures Extract(buf) == Extraction([], Accept(buf))
  {
    assert buf[..|buf|] == buf;
    assert buf[|buf|..] == [];
    FrameEndIsFirstTrailer([]);
    assert Extract([]) == Extraction([], []);
  }

  /** A buffer that is one candidate frame with a nonzero checksum is
      consumed whole and yields nothing. */
  lemma RejectedWholeFrame(buf: seq<Byte>)
    requires NextFrameEnd(buf) == Some(|buf|) && Checksum(buf) != 0
    ensures Extract(buf) == Extraction([], [])
  {
    WholeFrame(buf);
  }

  /** Once `x` is used up completely, extracting from `x + y` is extracting
      from `x` and then from `y`. */
  lemma ExtractAfterComplete(x: seq<Byte>, y: seq<Byte>)
    requires Extract(x).rest == []
    ensures Extract(x + y) == Extraction(Extract(y).rest, Extract(x).records + Extract(y).records)
  {
    var left := Extract(x).rest + y;
    assert left == y;
    ExtractAppend(x, y);
    assert Extract(left) == Extract(y);
  }

  // ---------------------------------------------------------------------------
  // Successive calls

  /** The chunks laid end to end. */
  ghost function Flatten(chunks: seq<seq<Byte>>): seq<Byte>
  {
    if chunks == [] then [] else chunks[0] + Flatten(chunks[1..])
  }

  /** A parser holding `buffer` fed the chunks one call at a time: what it
      holds at the end and all the records the calls returned, in order. */
  ghost function FeedAll(buffer: seq<Byte>, chunks: seq<seq<Byte>>): Extraction
    decreases |chunks|
  {
    if chunks == [] then Extraction(buffer, [])
    else
      var first := Process(buffer, chunks[0]);
      var after := FeedAll(first.rest, chunks[1..]);
      Extraction(after.rest, first.records + after.records)
  }

  /** Two calls do what one call with both chunks does, provided the first
      call does not reset the buffer: bytes kept back by a call are completed
      by the next one. */
  lemma TwoCalls(buffer: seq<Byte>, c: seq<Byte>, d: seq<Byte>)
    requires |Extract(buffer + c).rest| <= MAX_BUFFER_LENGTH
    ensures Process(buffer, c + d) ==
      Extraction(Process(Process(buffer, c).rest, d).rest,
                 Process(buffer, c).records + Process(Process(buffer, c).rest, d).records)
  {
    AppendAssoc(buffer, c, d);
    ExtractAppend(buffer + c, d);
  }

  lemma FlattenCons(chunks: seq<seq<Byte>>, k: nat)
    requires 0 < k <= |chunks|
    ensures Flatten(chunks[..k]) == chunks[0] + Flatten(chunks[1..][..k - 1])
  {
    assert chunks[..k][1..] == chunks[1..][..k - 1];
  }

  /** No call before the last one ends with more than MAX_BUFFER_LENGTH
      bytes held back. */
  ghost predicate NoEarlyReset(buffer: seq<Byte>, chunks: seq<seq<Byte>>)
  {
    forall k :: 0 < k < |chunks| ==> |Extract(buffer + Flatten(chunks[..k])).rest| <= MAX_BUFFER_LENGTH
  }

  lemma NoEarlyResetTail(buffer: seq<Byte>, chunks: seq<seq<Byte>>)
    requires |chunks| > 1 && NoEarlyReset(buffer, chunks)
    ensures |Extract(buffer + chunks[0]).rest| <= MAX_BUFFER_LENGTH
    ensures NoEarlyReset(Process(buffer, chunks[0]).rest, chunks[1..])
  {
    var c := chunks[0];
    var cs := chunks[1..];
    FlattenCons(chunks, 1);
    assert cs[..0] == [] && c + [] == c;
    var first := Process(buffer, c);
    forall k | 0 < k < |cs|
      ensures |Extract(first.rest + Flatten(cs[..k])).rest| <= MAX_BUFFER_LENGTH
    {
      FlattenCons(chunks, k + 1);
      assert |Extract(buffer + Flatten(chunks[..k + 1])).rest| <= MAX_BUFFER_LENGTH;
      KeptBytesExtract(buffer, c, Flatten(cs[..k]));
    }
  }

  /** A call on an empty parser is the extraction loop on the chunk alone,
      followed by the overflow reset. */
  lemma FreshProcess(data: seq<Byte>)
    ensures Process([], data) ==
      Extraction(if |Extract(data).rest| > MAX_BUFFER_LENGTH then [] else Extract(data).rest, Extract(data).records)
  {
    assert [] + data == data;
  }

  /** What the bytes kept after `c` leave with `f` appended is what
      `buffer + c + f` leaves. */
  lemma KeptBytesExtract(buffer: seq<Byte>, c: seq<Byte>, f: seq<Byte>)
    requires |Extract(buffer + c).rest| <= MAX_BUFFER_LENGTH
    ensures Extract(Process(buffer, c).rest + f).rest == Extract(buffer + (c + f)).rest
  {
    KeptWithoutReset(buffer, c);
    AppendAssoc(buffer, c, f);
    ExtractRestAppend(buffer + c, f);
  }

  /** A call that does not overflow keeps exactly what the extraction loop
      leaves. */
  lemma KeptWithoutReset(buffer: seq<Byte>, data: seq<Byte>)
    requires |Extract(buffer + data).rest| <= MAX_BUFFER_LENGTH
    ensures Process(buffer, data).rest == Extract(buffer + data).rest
  {
  }

  /** The bytes left after `x + y` are those left after what `x` leaves,
      followed by `y`. */
  lemma ExtractRestAppend(x: seq<Byte>, y: seq<Byte>)
    ensures Extract(x + y).rest == Extract(Extract(x).rest + y).rest
  {
    ExtractAppend(x, y);
  }

  /** As long as no call before the last one resets the buffer, feeding the
      chunks one by one does what one call with all of them does: the records
      do not depend on where the chunk boundaries fall. */
  lemma {:induction false} ChunkingInvariance(buffer: seq<Byte>, chunks: seq<seq<Byte>>)
    requires chunks != []
    requires NoEarlyReset(buffer, chunks)
    ensures FeedAll(buffer, chunks) == Process(buffer, Flatten(chunks))
    decreases |chunks|
  {
    var c := chunks[0];
    var cs := chunks[1..];
    FlattenCons(chunks, |chunks|);
    assert chunks[..|chunks|] == chunks && cs[..|cs|] == cs;
    if cs == [] {
      assert c + Flatten(cs) == c;
    } else {
      NoEarlyResetTail(buffer, chunks);
      ChunkingInvariance(Process(buffer, c).rest, cs);
      TwoCalls(buffer, c, Flatten(cs));
    }
  }

  /** More than MAX_BUFFER_LENGTH bytes without any trailer label are dropped
      at the end of the call, so nothing of them is left to spoil a later frame. */
  lemma OverflowReset(buffer: seq<Byte>, data: seq<Byte>)
    requires Absent(buffer + data, CHECKSUM_LABEL)
    requires |buffer + data| > MAX_BUFFER_LENGTH
    ensures Process(buffer, data) == Extraction([], [])
  {
    forall p, end ensures !TrailerAt(buffer + data, p, end) {
    }
    IncompleteTrailerRetained(buffer + data);
  }
}
