/** The base64 pair of mime_alter.c: an encoder that writes to a file and a decoder that works in place. */
module AlterBase64 {
  import opened Base64

  // ---- AM_base64_encode_buffer_to_FILE ----

  /** The file's contents: lines of 80 characters, the short group on a line of its own end, and a blank end. */
  function Encoded(b: seq<bv8>): seq<bv8> {
    Breaks(Body(b), 80) + Tail(Rest(b)) + (if Rest(b) == [] then [] else [NL]) + [NL]
  }

  /** What is still to be written when `cc` characters are on the line and the bytes `b` follow. */
  function Ahead(cc: nat, b: seq<bv8>): seq<bv8>
    requires cc < 80
  {
    BreaksFrom(Body(b), 80 - cc) + Tail(Rest(b)) + (if Rest(b) == [] then [] else [NL]) + [NL]
  }

  function BreaksFrom(s: seq<bv8>, room: nat): seq<bv8>
    requires 0 < room <= 80
  {
    if |s| < room then s else s[..room] + [NL] + Breaks(s[room..], 80)
  }

  lemma AheadGroup(cc: nat, b: seq<bv8>)
    requires cc < 80 && cc % 4 == 0 && |b| >= 3
    ensures var x := Chars(Split(b[0], b[1], b[2]));
            Ahead(cc, b) == if cc == 76 then x + [NL] + Ahead(0, b[3..]) else x + Ahead(cc + 4, b[3..])
  {
    hide Split, Chars, Body, Rest, Ahead, BreaksFrom;
    var x, s, end := Chars(Split(b[0], b[1], b[2])), Body(b[3..]), EndOf(b[3..]);
    GroupFirst(b);
    AheadIs(cc, b);
    FirstGroup(x, s, 80 - cc);
    if cc == 76 {
      AheadIs(0, b[3..]);
      Associates(x + [NL], BreaksFrom(s, 80), end);
    } else {
      AheadIs(cc + 4, b[3..]);
      Associates(x, BreaksFrom(s, 76 - cc), end);
    }
  }

  /** The short group and what is behind it. */
  function EndOf(b: seq<bv8>): seq<bv8> {
    Tail(Rest(b)) + (if Rest(b) == [] then [] else [NL]) + [NL]
  }

  lemma GroupFirst(b: seq<bv8>)
    requires |b| >= 3
    ensures Body(b) == Chars(Split(b[0], b[1], b[2])) + Body(b[3..]) && EndOf(b) == EndOf(b[3..])
  {
    hide Split, Chars, Tail;
  }

  lemma AheadIs(cc: nat, b: seq<bv8>)
    requires cc < 80
    ensures Ahead(cc, b) == BreaksFrom(Body(b), 80 - cc) + EndOf(b)
  {
    hide Body, Rest, Tail, BreaksFrom;
    var r := Rest(b);
    var e: seq<bv8> := if r == [] then [] else [NL];
    Associates(BreaksFrom(Body(b), 80 - cc), Tail(r), e);
    Associates(BreaksFrom(Body(b), 80 - cc), Tail(r) + e, [NL]);
  }

  lemma FirstGroup(x: seq<bv8>, s: seq<bv8>, room: nat)
    requires |x| == 4 && 4 <= room <= 80
    ensures BreaksFrom(x + s, room)
            == if room == 4 then x + [NL] + BreaksFrom(s, 80) else x + BreaksFrom(s, room - 4)
  {
    hide Breaks;
    if room == 4 {
      assert (x + s)[..4] == x && (x + s)[4..] == s;
      FullLine(s);
    } else if |x + s| >= room {
      assert (x + s)[..room] == x + s[..room - 4] && (x + s)[room..] == s[room - 4..];
      assert x + s[..room - 4] + [NL] == x + (s[..room - 4] + [NL]);
    }
  }

  lemma FullLine(s: seq<bv8>)
    ensures BreaksFrom(s, 80) == Breaks(s, 80)
  {
  }

  /** The masks and shifts of the source pick the sextets of the group. */
  function Out0(a: bv8): bv8 {
    (a & 0xFC) >> 2
  }

  function Out1(a: bv8, b: bv8): bv8 {
    ((a & 0x03) << 4) | ((b & 0xF0) >> 4)
  }

  function Out2(b: bv8, c: bv8): bv8 {
    ((b & 0x0F) << 2) | ((c & 0xC0) >> 6)
  }

  function Out3(c: bv8): bv8 {
    c & 0x3F
  }

  lemma MasksSplit(a: bv8, b: bv8, c: bv8)
    ensures [Out0(a), Out1(a, b), Out2(b, c), Out3(c)] == Split(a, b, c)
    ensures Out1(a, 0) == (a & 0x03) << 4 && Out2(b, 0) == (b & 0x0F) << 2
  {
  }

  /** `strlen`. */
  function StrLen(s: seq<bv8>): (n: nat)
    requires 0 in s
    ensures n < |s| && s[n] == 0 && 0 !in s[..n]
  {
    if s[0] == 0 then 0
    else
      assert s == [s[0]] + s[1..];
      assert s[..1 + StrLen(s[1..])] == [s[0]] + s[1..][..StrLen(s[1..])];
      1 + StrLen(s[1..])
  }

  method EncodeBufferToFile(buffer: seq<bv8>) returns (fout: seq<bv8>)
    requires 0 in buffer
    ensures fout == Encoded(buffer[..StrLen(buffer)])
  {
    hide Split, Char64, Chars, Ahead, StrLen, Encoded, Body, Rest, Tail;
    fout := [];
    var chars := StrLen(buffer);
    ghost var text := buffer[..chars];
    var at, cc := 0, 0;
    StartOfFile(text);
    assert text[0..] == text;
    while chars > 0
      invariant at + chars == |text| && cc < 80 && cc % 4 == 0
      invariant fout + Ahead(cc, text[at..]) == Encoded(text)
    {
      if chars >= 3 {
        var outbuf := EncodeGroup(buffer, at);
        GroupAt(text, at, cc);
        at := at + 3;
        chars := chars - 3;
        fout := fout + outbuf;
        cc := cc + 4;
        if cc > 76 {
          fout := fout + [NL];
          cc := 0;
        }
      } else {
        var rest := EncodeRest(buffer, at, chars);
        EndOfFile(cc, text[at..]);
        assert text[at..] == buffer[at..at + chars];
        return fout + rest + [NL] + [NL];
      }
    }
    EndOfFile(cc, text[at..]);
    fout := fout + [NL];
  }

  lemma GroupAt(text: seq<bv8>, at: nat, cc: nat)
    requires at + 3 <= |text| && cc < 80 && cc % 4 == 0
    ensures var x := Chars(Split(text[at], text[at + 1], text[at + 2]));
            Ahead(cc, text[at..])
            == if cc == 76 then x + [NL] + Ahead(0, text[at + 3..]) else x + Ahead(cc + 4, text[at + 3..])
  {
    hide Split, Chars, Ahead;
    AheadGroup(cc, text[at..]);
    assert text[at..][3..] == text[at + 3..];
  }

  /** Lines 881-884. */
  method EncodeGroup(buffer: seq<bv8>, at: nat) returns (outbuf: seq<bv8>)
    requires at + 3 <= |buffer|
    ensures outbuf == Chars(Split(buffer[at], buffer[at + 1], buffer[at + 2]))
  {
    hide Split, Char64, Out0, Out1, Out2, Out3;
    MasksSplit(buffer[at], buffer[at + 1], buffer[at + 2]);
    outbuf := Chars([Out0(buffer[at]), Out1(buffer[at], buffer[at + 1]),
                     Out2(buffer[at + 1], buffer[at + 2]), Out3(buffer[at + 2])]);
  }

  /** Lines 895-907: the last one or two bytes. */
  method EncodeRest(buffer: seq<bv8>, at: nat, chars: nat) returns (outbuf: seq<bv8>)
    requires 1 <= chars <= 2 && at + chars <= |buffer|
    ensures outbuf == Tail(buffer[at..at + chars])
  {
    hide Split, Char64, Out0, Out1, Out2, Out3;
    if chars == 2 {
      MasksSplit(buffer[at], buffer[at + 1], 0);
      var v := [Out0(buffer[at]), Out1(buffer[at], buffer[at + 1]), Out2(buffer[at + 1], 0)];
      assert v == Split(buffer[at], buffer[at + 1], 0)[..3];
      outbuf := Chars(v) + [PAD];
    } else {
      MasksSplit(buffer[at], 0, 0);
      var v := [Out0(buffer[at]), Out1(buffer[at], 0)];
      assert v == Split(buffer[at], 0, 0)[..2];
      outbuf := Chars(v) + [PAD, PAD];
    }
  }

  lemma StartOfFile(b: seq<bv8>)
    ensures Ahead(0, b) == Encoded(b)
  {
    hide Tail;
    FullLine(Body(b));
  }

  lemma EndOfFile(cc: nat, r: seq<bv8>)
    requires cc < 80 && |r| < 3
    ensures Ahead(cc, r) == (if r == [] then [] else Tail(r) + [NL]) + [NL]
  {
    hide Split, Char64;
    assert Body(r) == [] && Rest(r) == r;
  }

  /** The lines have 80 characters, not the 76 that section 6.8 of RFC 2045 allows: the file keeps to 76
      exactly for buffers of at most 57 bytes. */
  lemma LineLimit(b: seq<bv8>)
    ensures LinesWithin(Encoded(b), 0, 80)
    ensures LinesWithin(Encoded(b), 0, 76) <==> |b| <= 57
  {
    hide Body, Tail, Breaks, Rest;
    BodyChars(b);
    TailChars(Rest(b));
    var s, t := Body(b), Tail(Rest(b));
    var rest: seq<bv8> := if Rest(b) == [] then [] else [NL];
    assert t + rest + [NL] == t + [NL] + rest;
    assert Encoded(b) == Breaks(s, 80) + t + [NL] + rest;
    assert LinesWithin(rest, 0, 76) && LinesWithin(rest, 0, 80);
    BrokenLines(s, t, rest, 80, 80);
    BrokenLines(s, t, rest, 80, 76);
  }

  /** The lines have 80 characters each, except for the last; behind it is a blank line, unless the text ends
      with a group of three bytes. */
  lemma LinesAre80(b: seq<bv8>)
    ensures var t := Encoded(b); var ends := if |b| % 3 == 0 then 1 else 2;
            forall k :: 0 <= k < |t| ==> (t[k] == 10 <==> k % 81 == 80 || k >= |t| - ends)
  {
    hide Body, Tail, Rest, Breaks;
    var s, t := Body(b), Tail(Rest(b));
    BodyChars(b);
    TailChars(Rest(b));
    BreaksAt(s, 80);
    BreaksLength(s, 80);
    GroupsOn80(|b| / 3);
    var n, all := |Breaks(s, 80)|, Encoded(b);
    var end: seq<bv8> := if Rest(b) == [] then [NL] else [NL, NL];
    assert all == Breaks(s, 80) + t + end;
    forall k | 0 <= k < |all| ensures all[k] == 10 <==> k % 81 == 80 || k >= n + |t| {
      if k < n {
        assert all[k] == Breaks(s, 80)[k] && (all[k] == NL <==> IsBreak(k, 80));
      } else if k < n + |t| {
        assert all[k] == t[k - n] && all[k] in t;
        InLast80(n, k - n);
      } else {
        assert all[k] == end[k - n - |t|];
      }
    }
  }

  lemma GroupsOn80(groups: nat)
    ensures 4 * groups % 80 <= 76
  {
  }

  lemma InLast80(n: nat, j: nat)
    requires n % 81 <= 76 && j < 4
    ensures (n + j) % 81 != 80
  {
  }

  // ---- AM_base64_decode_buffer ----

  /** The decoding table of mime_alter.c, in which the stop character counts as a zero. */
  function B64(c: bv8): (x: bv8)
    ensures x < 64 || x == ILLEGAL
  {
    if c == PAD then 0 else Value64(c)
  }

  /** The shifts of lines 999-1001. */
  function Output(v: seq<bv8>): (b: seq<bv8>)
    requires |v| == 4
    ensures |b| == 3
  {
    [(v[0] << 2) | (v[1] >> 4), (v[1] << 4) | (v[2] >> 2), (v[2] << 6) | v[3]]
  }

  lemma OutputJoins(p: bv8, q: bv8, r: bv8, s: bv8)
    requires p < 64 && q < 64 && r < 64 && s < 64
    ensures Output([p, q, r, s]) == Join(p, q, r, s)
  {
  }

  /** How many bytes of a group are written once `stops` stop characters have been seen. */
  function Kept(stops: nat): (n: nat)
    ensures n <= 3
  {
    if stops >= 3 then 0 else 3 - stops
  }

  /** What the rest of the text decodes to when the sextets `v` and `stops` stop characters came before. */
  function DecodeFrom(text: seq<bv8>, v: seq<bv8>, stops: nat): seq<bv8>
    requires |v| < 4
    decreases |text|
  {
    if text == [] then []
    else
      var stops' := if text[0] == PAD then stops + 1 else stops;
      if B64(text[0]) == ILLEGAL then DecodeFrom(text[1..], v, stops')
      else if |v| < 3 then DecodeFrom(text[1..], v + [B64(text[0])], stops')
      else Output(v + [B64(text[0])])[..Kept(stops')] + DecodeFrom(text[1..], [], stops')
  }

  /** Lines 965-996: four characters of the alphabet, or fewer if the NUL comes first. */
  method ReadGroup(buffer: array<bv8>, length: nat, ghost text: seq<bv8>, from: nat, stops: nat)
    returns (read: nat, stopcount: nat, input: seq<bv8>)
    requires from < length == |text| < buffer.Length && buffer[length] == 0
    requires forall k :: from <= k < length ==> buffer[k] == text[k] && text[k] != 0
    ensures from < read <= length && |input| <= 4
    ensures |input| < 4 ==> read == length && DecodeFrom(text[from..], [], stops) == []
    ensures |input| == 4 ==>
              && from + 4 <= read
              && DecodeFrom(text[from..], [], stops)
                 == Output(input)[..Kept(stopcount)] + DecodeFrom(text[read..], [], stopcount)
  {
    hide B64, Output;
    read, stopcount, input := from, stops, [];
    while |input| < 4
      invariant from <= read <= length && |input| <= 4 && from + |input| <= read
      invariant |input| < 4 ==> DecodeFrom(text[from..], [], stops) == DecodeFrom(text[read..], input, stopcount)
      invariant |input| == 4 ==>
                  DecodeFrom(text[from..], [], stops)
                  == Output(input)[..Kept(stopcount)] + DecodeFrom(text[read..], [], stopcount)
      decreases length - read, 4 - |input|
    {
      var c := buffer[read];
      if c == 0 {
        assert text[read..] == [];
        break;
      }
      assert text[read..][0] == c && text[read..][1..] == text[read + 1..];
      read := read + 1;
      if c == PAD {
        stopcount := stopcount + 1;
      }
      if B64(c) == ILLEGAL {
        continue;
      }
      input := input + [B64(c)];
    }
  }

  /** Lines 1004-1008. */
  method WriteGroup(buffer: array<bv8>, read: nat, write: nat, output: seq<bv8>, n: nat) returns (write': nat)
    requires write + n <= read <= buffer.Length && n <= |output|
    modifies buffer
    ensures write' == write + n
    ensures buffer[..write'] == old(buffer[..write]) + output[..n]
    ensures forall k :: read <= k < buffer.Length ==> buffer[k] == old(buffer[k])
  {
    write' := write;
    var i := 0;
    while i < n
      invariant i <= n && write' == write + i
      invariant buffer[..write'] == old(buffer[..write]) + output[..i]
      invariant forall k :: read <= k < buffer.Length ==> buffer[k] == old(buffer[k])
    {
      buffer[write'] := output[i];
      assert output[..i + 1] == output[..i] + [output[i]];
      assert buffer[..write' + 1] == buffer[..write'] + [output[i]];
      write' := write' + 1;
      i := i + 1;
    }
  }

  /** Decoding in place. The text ends with a NUL, has none before it, and is ASCII; these are what the
      loop needs in order to end and to stay inside its table. The write index never passes the read
      index, so no character is overwritten before it is read. */
  method DecodeBuffer(buffer: array<bv8>, length: nat) returns (ghost end: nat)
    requires length < buffer.Length && buffer[length] == 0
    requires Ascii(buffer[..length])
    modifies buffer
    ensures end <= length && buffer[end] == 0
    ensures buffer[..end] == DecodeFrom(old(buffer[..length]), [], 0)
    ensures buffer[length + 1..] == old(buffer[length + 1..])
  {
    hide B64, Output;
    ghost var text := buffer[..length];
    ghost var whole := DecodeFrom(text, [], 0);
    var read: nat, write: nat, stopcount: nat := 0, 0, 0;
    assert text[0..] == text && buffer[..0] + whole == whole;
    while read < length
      invariant write <= read <= length
      invariant forall k :: read <= k < buffer.Length ==> buffer[k] == old(buffer[k])
      invariant buffer[..write] + DecodeFrom(text[read..], [], stopcount) == whole
      decreases length - read
    {
      var input;
      read, stopcount, input := ReadGroup(buffer, length, text, read, stopcount);
      if |input| == 4 {
        write := WriteGroup(buffer, read, write, Output(input), Kept(stopcount));
      }
    }
    assert text[read..] == [];
    ghost var out := buffer[..write];
    buffer[write] := 0;
    end := write;
    assert buffer[..write] == out;
  }

  // ---- the round trip ----

  lemma DecodeStep(c: bv8, t: seq<bv8>, v: seq<bv8>, stops: nat)
    requires |v| < 4
    ensures var stops' := if c == PAD then stops + 1 else stops;
            DecodeFrom([c] + t, v, stops)
            == if B64(c) == ILLEGAL then DecodeFrom(t, v, stops')
               else if |v| < 3 then DecodeFrom(t, v + [B64(c)], stops')
               else Output(v + [B64(c)])[..Kept(stops')] + DecodeFrom(t, [], stops')
  {
    assert ([c] + t)[1..] == t;
  }

  lemma CharStep(x: bv8, t: seq<bv8>, v: seq<bv8>, stops: nat)
    requires |v| < 4 && x < 64
    ensures DecodeFrom([Char64(x)] + t, v, stops)
            == if |v| < 3 then DecodeFrom(t, v + [x], stops)
               else Output(v + [x])[..Kept(stops)] + DecodeFrom(t, [], stops)
  {
    hide Output, Char64, Value64;
    ValueOfChar(x);
    DecodeStep(Char64(x), t, v, stops);
  }

  /** Characters outside the alphabet are skipped wherever they stand, except for the stop character. */
  lemma JunkIsSkipped(c: bv8, t: seq<bv8>, v: seq<bv8>, stops: nat)
    requires |v| < 4 && c as char !in ALPHABET && c != PAD
    ensures DecodeFrom([c] + t, v, stops) == DecodeFrom(t, v, stops)
  {
    hide Value64;
    AlphabetIs(0, c);
    DecodeStep(c, t, v, stops);
  }

  /** Behind three stop characters nothing is written any more, although the text is read to its end. */
  lemma {:induction false} NothingAfterThreeStops(t: seq<bv8>, v: seq<bv8>, stops: nat)
    requires |v| < 4 && stops >= 3
    ensures DecodeFrom(t, v, stops) == []
    decreases |t|
  {
    hide B64, Output;
    if t != [] {
      var stops' := if t[0] == PAD then stops + 1 else stops;
      if B64(t[0]) == ILLEGAL {
        NothingAfterThreeStops(t[1..], v, stops');
      } else if |v| < 3 {
        NothingAfterThreeStops(t[1..], v + [B64(t[0])], stops');
      } else {
        NothingAfterThreeStops(t[1..], [], stops');
      }
    }
  }

  lemma NewlineStep(t: seq<bv8>, v: seq<bv8>, stops: nat)
    requires |v| < 4
    ensures DecodeFrom([NL] + t, v, stops) == DecodeFrom(t, v, stops)
  {
    DecodeStep(NL, t, v, stops);
  }

  lemma PadStep(t: seq<bv8>, v: seq<bv8>, stops: nat)
    requires |v| < 4
    ensures DecodeFrom([PAD] + t, v, stops)
            == if |v| < 3 then DecodeFrom(t, v + [0], stops + 1)
               else Output(v + [0])[..Kept(stops + 1)] + DecodeFrom(t, [], stops + 1)
  {
    DecodeStep(PAD, t, v, stops);
  }

  lemma SplitOutput(a: bv8, b: bv8, c: bv8)
    ensures Output(Split(a, b, c)) == [a, b, c]
  {
    var v := Split(a, b, c);
    JoinSplit(a, b, c);
    OutputJoins(v[0], v[1], v[2], v[3]);
    assert v == [v[0], v[1], v[2], v[3]];
  }

  /** Two or three characters of a group are read. */
  lemma ReadTwo(x: bv8, y: bv8, t: seq<bv8>, stops: nat)
    requires x < 64 && y < 64
    ensures DecodeFrom(Chars([x, y]) + t, [], stops) == DecodeFrom(t, [x, y], stops)
  {
    hide DecodeFrom, Char64;
    CharStep(x, [Char64(y)] + t, [], stops);
    CharStep(y, t, [x], stops);
    assert Chars([x, y]) + t == [Char64(x)] + ([Char64(y)] + t);
    assert [] + [x] == [x] && [x] + [y] == [x, y];
  }

  lemma ReadThree(x: bv8, y: bv8, z: bv8, t: seq<bv8>, stops: nat)
    requires x < 64 && y < 64 && z < 64
    ensures DecodeFrom(Chars([x, y, z]) + t, [], stops) == DecodeFrom(t, [x, y, z], stops)
  {
    hide DecodeFrom, Char64;
    ReadTwo(x, y, [Char64(z)] + t, stops);
    CharStep(z, t, [x, y], stops);
    assert Chars([x, y, z]) + t == Chars([x, y]) + ([Char64(z)] + t);
    assert [x, y] + [z] == [x, y, z];
  }

  lemma DecodeGroup(a: bv8, b: bv8, c: bv8, t: seq<bv8>)
    ensures DecodeFrom(Chars(Split(a, b, c)) + t, [], 0) == [a, b, c] + DecodeFrom(t, [], 0)
  {
    hide DecodeFrom, Char64, Split, Output;
    var v := Split(a, b, c);
    ReadThree(v[0], v[1], v[2], [Char64(v[3])] + t, 0);
    CharStep(v[3], t, [v[0], v[1], v[2]], 0);
    assert Chars(v) + t == Chars([v[0], v[1], v[2]]) + ([Char64(v[3])] + t);
    assert [v[0], v[1], v[2]] + [v[3]] == v;
    SplitOutput(a, b, c);
    assert [a, b, c][..3] == [a, b, c];
  }

  lemma DecodeTwo(a: bv8, b: bv8, t: seq<bv8>)
    ensures DecodeFrom(Tail([a, b]) + t, [], 0) == [a, b] + DecodeFrom(t, [], 1)
  {
    hide DecodeFrom, Char64, Split, Output, Chars;
    var v := Split(a, b, 0);
    SplitShort(a, b);
    assert v[..3] == [v[0], v[1], v[2]] && v == [v[0], v[1], v[2]] + [0];
    ReadThree(v[0], v[1], v[2], [PAD] + t, 0);
    PadStep(t, [v[0], v[1], v[2]], 0);
    Associates(Chars(v[..3]), [PAD], t);
    SplitOutput(a, b, 0);
    assert [a, b, 0][..2] == [a, b];
  }

  lemma DecodeOne(a: bv8, t: seq<bv8>)
    ensures DecodeFrom(Tail([a]) + t, [], 0) == [a] + DecodeFrom(t, [], 2)
  {
    hide DecodeFrom, Char64, Split, Output, Chars;
    var v := Split(a, 0, 0);
    SplitShort(a, 0);
    assert v[..2] == [v[0], v[1]] && v == [v[0], v[1]] + [0] + [0];
    ReadTwo(v[0], v[1], [PAD] + ([PAD] + t), 0);
    PadStep([PAD] + t, [v[0], v[1]], 0);
    PadStep(t, [v[0], v[1]] + [0], 1);
    Associates([PAD], [PAD], t);
    Associates(Chars(v[..2]), [PAD] + [PAD], t);
    assert [PAD] + [PAD] == [PAD, PAD];
    SplitOutput(a, 0, 0);
    assert [a, 0, 0][..1] == [a];
  }

  /** A short group: each stop character takes one byte away. */
  lemma DecodeTail(r: seq<bv8>, t: seq<bv8>)
    requires 1 <= |r| <= 2
    ensures DecodeFrom(Tail(r) + t, [], 0) == r + DecodeFrom(t, [], 3 - |r|)
  {
    hide DecodeFrom, Tail;
    if |r| == 2 {
      DecodeTwo(r[0], r[1], t);
      assert r == [r[0], r[1]];
    } else {
      DecodeOne(r[0], t);
      assert r == [r[0]];
    }
  }

  lemma {:induction false} DecodeAhead(cc: nat, b: seq<bv8>)
    requires cc < 80 && cc % 4 == 0
    ensures DecodeFrom(Ahead(cc, b), [], 0) == b
    decreases |b|
  {
    hide DecodeFrom, Char64, Split, Ahead, Tail;
    if |b| >= 3 {
      var x, rest := Chars(Split(b[0], b[1], b[2])), b[3..];
      AheadGroup(cc, b);
      assert [b[0], b[1], b[2]] + rest == b;
      if cc == 76 {
        assert x + [NL] + Ahead(0, rest) == x + ([NL] + Ahead(0, rest));
        DecodeGroup(b[0], b[1], b[2], [NL] + Ahead(0, rest));
        NewlineStep(Ahead(0, rest), [], 0);
        DecodeAhead(0, rest);
      } else {
        DecodeGroup(b[0], b[1], b[2], Ahead(cc + 4, rest));
        DecodeAhead(cc + 4, rest);
      }
    } else {
      EndOfFile(cc, b);
      var stops := if b == [] then 0 else 3 - |b|;
      DecodeNothing(stops);
      if b != [] {
        DecodeTail(b, [NL] + [NL]);
        assert Tail(b) + [NL] + [NL] == Tail(b) + ([NL] + [NL]);
        NewlineStep([NL], [], stops);
      } else {
        assert [] + [NL] == [NL];
      }
    }
  }

  lemma DecodeNothing(stops: nat)
    ensures DecodeFrom([NL], [], stops) == []
  {
    NewlineStep([], [], stops);
    assert [NL] + [] == [NL];
  }

  /** Neither NUL nor a character above 127. */
  predicate Ascii(s: seq<bv8>) {
    forall i :: 0 <= i < |s| ==> s[i] != 0 && s[i] < 128
  }

  lemma {:induction false} BodyIsAscii(b: seq<bv8>)
    ensures Ascii(Body(b))
  {
    hide Split, Char64;
    if |b| >= 3 {
      CharsAreAscii(Split(b[0], b[1], b[2]));
      BodyIsAscii(b[3..]);
    }
  }

  lemma CharsAreAscii(v: seq<bv8>)
    requires Sextets(v)
    ensures Ascii(Chars(v))
  {
    hide Char64;
    forall i | 0 <= i < |v| ensures Chars(v)[i] != 0 && Chars(v)[i] < 128 {
      ValueOfChar(v[i]);
    }
  }

  lemma TailIsAscii(r: seq<bv8>)
    requires |r| <= 2
    ensures Ascii(Tail(r))
  {
    hide Split, Chars;
    if |r| == 2 {
      CharsAreAscii(Split(r[0], r[1], 0)[..3]);
    } else if |r| == 1 {
      CharsAreAscii(Split(r[0], 0, 0)[..2]);
    }
  }

  lemma {:induction false} BreaksAreAscii(s: seq<bv8>, width: nat)
    requires width > 0 && Ascii(s)
    ensures Ascii(Breaks(s, width))
    decreases |s|
  {
    if |s| >= width {
      BreaksAreAscii(s[width..], width);
    }
  }

  /** The file is what `DecodeBuffer` asks for, and decoding it gives back the buffer. */
  lemma RoundTrip(b: seq<bv8>)
    ensures Ascii(Encoded(b))
    ensures DecodeFrom(Encoded(b), [], 0) == b
  {
    hide Body, Tail, Breaks, DecodeFrom;
    BodyIsAscii(b);
    BreaksAreAscii(Body(b), 80);
    TailIsAscii(Rest(b));
    StartOfFile(b);
    DecodeAhead(0, b);
  }
}
