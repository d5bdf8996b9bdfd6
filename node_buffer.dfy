/** Byte buffers and strings as the Node.js runtime hands them to the parser:
    `Buffer.prototype.indexOf`, `String.prototype.split`, `Array.prototype.join`
    and the "ascii" conversions between text and bytes. */
module NodeBuffer {

  /** One octet of a Node.js `Buffer`. */
  type Byte = x: int | 0 <= x < 256

  datatype Option<T> = None | Some(value: T)

  /** `s` holds `pat` starting at offset `i`. */
  predicate MatchesAt<T(==)>(s: seq<T>, pat: seq<T>, i: int)
  {
    0 <= i && i + |pat| <= |s| && s[i..i + |pat|] == pat
  }

  /** `s` ends with `t`. */
  predicate IsSuffix<T(==)>(t: seq<T>, s: seq<T>)
  {
    |t| <= |s| && t == s[|s| - |t|..]
  }

  lemma AppendAssoc<T>(a: seq<T>, b: seq<T>, c: seq<T>)
    ensures a + (b + c) == (a + b) + c
  {
  }

  /** `pat` occurs nowhere in `s`. */
  ghost predicate Absent<T>(s: seq<T>, pat: seq<T>)
  {
    forall i :: !MatchesAt(s, pat, i)
  }

  /** `indexOf(pat, from)` on a Buffer or a string: the first offset at or
      after `from` where `pat` occurs, or -1 when there is none. */
  function IndexOf<T(==)>(s: seq<T>, pat: seq<T>, from: nat): (r: int)
    ensures r == -1 || (from <= r && MatchesAt(s, pat, r))
    ensures forall i :: from <= i && (r == -1 || i < r) ==> !MatchesAt(s, pat, i)
    decreases |s| - from
  {
    if |s| < from + |pat| then -1
    else if s[from..from + |pat|] == pat then from
    else IndexOf(s, pat, from + 1)
  }

  /** `split(sep)` with a non-empty separator: the pieces between the
      occurrences of `sep`, found from the left without overlap. */
  function Split<T(==)>(s: seq<T>, sep: seq<T>): (parts: seq<seq<T>>)
    requires |sep| > 0
    ensures |parts| > 0
    decreases |s|
  {
    var i := IndexOf(s, sep, 0);
    if i == -1 then [s] else [s[..i]] + Split(s[i + |sep|..], sep)
  }

  /** `join(sep)` on an array of strings; the empty array joins to "", any
      other array to text that starts with its first part. */
  function Join<T>(parts: seq<seq<T>>, sep: seq<T>): (r: seq<T>)
    ensures |parts| > 0 ==> parts[0] <= r
  {
    if |parts| == 0 then []
    else if |parts| == 1 then parts[0]
    else parts[0] + sep + Join(parts[1..], sep)
  }

  /** The first piece of a split is where the text starts, and holds no
      separator. */
  lemma SplitFirst<T>(s: seq<T>, sep: seq<T>)
    requires |sep| > 0
    ensures Split(s, sep)[0] <= s && Absent(Split(s, sep)[0], sep)
  {
    var i := IndexOf(s, sep, 0);
    if i != -1 {
      var head := s[..i];
      forall j | 0 <= j
        ensures !MatchesAt(head, sep, j)
      {
        if j + |sep| <= i {
          assert head[j..j + |sep|] == s[j..j + |sep|];
          assert !MatchesAt(s, sep, j);
        }
      }
    }
  }

  /** Joining the pieces of a split with the same separator gives back the text. */
  lemma {:induction false} JoinSplit<T>(s: seq<T>, sep: seq<T>)
    requires |sep| > 0
    ensures Join(Split(s, sep), sep) == s
    decreases |s|
  {
    var i := IndexOf(s, sep, 0);
    if i != -1 {
      var tail := s[i + |sep|..];
      JoinSplit(tail, sep);
      JoinCons(s[..i], Split(tail, sep), sep);
      Slices(s, i, i + |sep|);
    }
  }

  /** Joining a part in front of at least one more part puts the separator
      between them. */
  lemma JoinCons<T>(p: seq<T>, rest: seq<seq<T>>, sep: seq<T>)
    requires rest != []
    ensures Join([p] + rest, sep) == p + sep + Join(rest, sep)
  {
    assert ([p] + rest)[1..] == rest;
  }

  /** A sequence is its three slices at two cut points. */
  lemma Slices<T>(s: seq<T>, i: nat, j: nat)
    requires i <= j <= |s|
    ensures s == s[..i] + s[i..j] + s[j..]
  {
  }

  /** When the first occurrence of `sep` in `a + sep + b` is the one after `a`,
      the split yields `a` and then the pieces of `b`. */
  lemma SplitAtFirst<T>(a: seq<T>, sep: seq<T>, b: seq<T>)
    requires |sep| > 0
    requires IndexOf(a + sep + b, sep, 0) == |a|
    ensures Split(a + sep + b, sep) == [a] + Split(b, sep)
  {
    var s := a + sep + b;
    assert s[..|a|] == a;
    assert s[|a| + |sep|..] == b;
  }

  /** Every character of `s` is 7-bit ASCII. */
  predicate IsAscii(s: string)
  {
    forall i :: 0 <= i < |s| ==> s[i] as int < 128
  }

  /** `Buffer.from(s, "ascii")`: each character keeps its low byte, so an
      ASCII character becomes its own code. */
  function AsciiEncode(s: string): (b: seq<Byte>)
    ensures |b| == |s|
    ensures forall i :: 0 <= i < |s| && s[i] as int < 128 ==> b[i] == s[i] as int
  {
    seq(|s|, i requires 0 <= i < |s| => (s[i] as int) % 256)
  }

  /** `buf.toString("ascii")`: each byte, with its high bit cleared, becomes
      one character; the text is ASCII and a byte below 128 is kept as is. */
  function AsciiDecode(b: seq<Byte>): (s: string)
    ensures |s| == |b| && IsAscii(s)
    ensures forall i :: 0 <= i < |b| && b[i] < 128 ==> s[i] as int == b[i]
  {
    seq(|b|, i requires 0 <= i < |b| => (b[i] % 128) as char)
  }

  lemma EncodeAppend(a: string, b: string)
    ensures AsciiEncode(a + b) == AsciiEncode(a) + AsciiEncode(b)
  {
  }

  lemma DecodeAppend(a: seq<Byte>, b: seq<Byte>)
    ensures AsciiDecode(a + b) == AsciiDecode(a) + AsciiDecode(b)
  {
  }

  /** Decoding undoes encoding on ASCII text. */
  lemma DecodeEncode(s: string)
    requires IsAscii(s)
    ensures AsciiDecode(AsciiEncode(s)) == s
  {
  }

  /** Over ASCII text, a byte-level occurrence of an encoded pattern is an
      occurrence of the pattern in the text, and the converse. */
  lemma EncodedMatch(s: string, pat: string, i: int)
    requires IsAscii(s) && IsAscii(pat)
    ensures MatchesAt(AsciiEncode(s), AsciiEncode(pat), i) <==> MatchesAt(s, pat, i)
  {
    if MatchesAt(AsciiEncode(s), AsciiEncode(pat), i) {
      forall k | 0 <= k < |pat|
        ensures s[i + k] == pat[k]
      {
        assert AsciiEncode(s)[i..i + |pat|][k] == AsciiEncode(pat)[k];
      }
    }
  }

  /** An absent pattern stays absent across a join point that holds an
      element the pattern does not contain. */
  lemma AbsentConcat<T>(a: seq<T>, b: seq<T>, pat: seq<T>)
    requires Absent(a, pat) && Absent(b, pat)
    requires (a != [] && a[|a| - 1] !in pat) || (b != [] && b[0] !in pat)
    ensures Absent(a + b, pat)
  {
    var s := a + b;
    forall i | 0 <= i <= |s| - |pat|
      ensures !MatchesAt(s, pat, i)
    {
      if i + |pat| <= |a| {
        assert s[i..i + |pat|] == a[i..i + |pat|];
        assert !MatchesAt(a, pat, i);
      } else if i >= |a| {
        assert s[i..i + |pat|] == b[i - |a|..i - |a| + |pat|];
        assert !MatchesAt(b, pat, i - |a|);
      } else if a != [] && a[|a| - 1] !in pat {
        assert s[i..i + |pat|][|a| - 1 - i] == a[|a| - 1];
      } else {
        assert s[i..i + |pat|][|a| - i] == b[0];
      }
    }
  }
}
