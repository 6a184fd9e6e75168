/** The quoted-printable codec of the mailing list manager: encodeQ.c and decodeQ.c (section 6.7 of
    RFC 2045, and section 4.2 of RFC 2047 for the underscore). */
module QuotedPrintable {
  import B = Base64
  import opened Ascii

  const NL: bv8 := 10

  const TAB: bv8 := 9

  const SPACE: bv8 := 32

  const EQUALS: bv8 := 61

  const UNDERSCORE: bv8 := 95

  // ---- encodeQ ----

  function HexChar(x: bv8): bv8
    requires x < 16
  {
    if x < 10 then 48 + x else 65 + (x - 10)
  }

  const HEX := DIGITS + "ABCDEF"

  /** The digits of section 6.7 of RFC 2045, the letters as capitals. */
  lemma HexIsListed(x: bv8)
    requires x < 16
    ensures HexChar(x) as char == HEX[x as int]
  {
    if x < 10 {
      DigitCode(x as int);
    } else {
      assert HEX[x as int] == "ABCDEF"[x as int - 10];
    }
  }

  predicate Escaped(c: bv8) {
    c != SPACE && c != NL && c != TAB && (c > 126 || c < 33 || c == EQUALS)
  }

  /** What stands for itself: the printable characters but '=', spaces, tabs and line feeds. */
  lemma EscapedExactly(c: bv8)
    ensures !Escaped(c) <==> 32 <= c <= 60 || 62 <= c <= 126 || c == 9 || c == 10
  {
  }

  function High(c: bv8): (x: bv8)
    ensures x < 16
  {
    (c >> 4) & 0xf
  }

  function Low(c: bv8): (x: bv8)
    ensures x < 16
  {
    c & 0xf
  }

  function Piece(c: bv8): seq<bv8> {
    if Escaped(c) then [EQUALS, HexChar(High(c)), HexChar(Low(c))] else [c]
  }

  /** The column counter: only escapes count, and a line feed starts over. */
  function Column(i: nat, c: bv8): nat {
    if Escaped(c) then i + 3 else if c == NL then 0 else i
  }

  /** One character's share of the output, with a soft line break behind it when the counter is high. */
  function Written(i: nat, c: bv8): seq<bv8> {
    if Column(i, c) >= 72 then Piece(c) + [EQUALS, NL] else Piece(c)
  }

  function NextColumn(i: nat, c: bv8): nat {
    if Column(i, c) >= 72 then 0 else Column(i, c)
  }

  /** The encoding of `s` when the counter stands at `i`. */
  function Encoded(s: seq<bv8>, i: nat): seq<bv8> {
    if s == [] then [] else Written(i, s[0]) + Encoded(s[1..], NextColumn(i, s[0]))
  }

  method EncodeQ(indata: seq<bv8>, n: nat) returns (outdata: seq<bv8>)
    requires n <= |indata|
    ensures outdata == Encoded(indata[..n], 0)
  {
    hide Escaped, HexChar, High, Low, Encoded, Written, NextColumn;
    outdata := [];
    ghost var s := indata[..n];
    var i, cpin := 0, 0;
    assert s[0..] == s;
    while cpin < n
      invariant cpin <= n
      invariant outdata + Encoded(s[cpin..], i) == Encoded(s, 0)
    {
      EncodedAt(s, cpin, i);
      var ch := indata[cpin];
      cpin := cpin + 1;
      outdata, i := EncodeChar(outdata, i, ch);
    }
    assert s[cpin..] == [];
    EncodedEnd(i);
  }

  /** Lines 27-42. */
  method EncodeChar(outdata: seq<bv8>, i: nat, ch: bv8) returns (out: seq<bv8>, i': nat)
    ensures out == outdata + Written(i, ch) && i' == NextColumn(i, ch)
  {
    hide Escaped, HexChar, High, Low;
    out, i' := outdata, i;
    if Escaped(ch) {
      out := out + [EQUALS, HexChar(High(ch)), HexChar(Low(ch))];
      i' := i' + 3;
    } else {
      if ch == NL {
        i' := 0;
      }
      out := out + [ch];
    }
    if i' >= 72 {
      out := out + [EQUALS, NL];
      i' := 0;
    }
  }

  lemma EncodedAt(s: seq<bv8>, at: nat, i: nat)
    requires at < |s|
    ensures Encoded(s[at..], i) == Written(i, s[at]) + Encoded(s[at + 1..], NextColumn(i, s[at]))
  {
    hide Piece, Column;
    assert s[at..][0] == s[at] && s[at..][1..] == s[at + 1..];
  }

  lemma EncodedEnd(i: nat)
    ensures Encoded([], i) == []
  {
  }

  // ---- decodeQ ----

  const ILLEGAL: bv8 := 0xff

  /** The hexadecimal digit `c`; both cases of the letters are read. */
  function Char16Enc(c: bv8): (x: bv8)
    ensures x < 16 || x == ILLEGAL
  {
    if 48 <= c <= 57 then c - 48
    else if 65 <= c <= 70 then c - 65 + 10
    else if 97 <= c <= 102 then c - 97 + 10
    else ILLEGAL
  }

  /** What an escape stands for; one that is not hexadecimal stands for its first character. */
  function Unescape(a: bv8, b: bv8): bv8 {
    if Char16Enc(a) != ILLEGAL && Char16Enc(b) != ILLEGAL then (Char16Enc(a) << 4) | Char16Enc(b) else EQUALS
  }

  function Underscore(c: bv8): bv8 {
    if c == UNDERSCORE then SPACE else c
  }

  /** A cut-off escape at the end decodes to nothing. */
  function Decoded(s: seq<bv8>): seq<bv8> {
    if s == [] then []
    else if s[0] != EQUALS then [Underscore(s[0])] + Decoded(s[1..])
    else if |s| < 2 then []
    else if s[1] == NL then Decoded(s[2..])
    else if |s| < 3 then []
    else [Unescape(s[1], s[2])] + Decoded(s[3..])
  }

  lemma DecodedFirst(s: seq<bv8>)
    ensures s == [] ==> Decoded(s) == []
    ensures s != [] && s[0] != EQUALS ==> Decoded(s) == [Underscore(s[0])] + Decoded(s[1..])
    ensures s != [] && s[0] == EQUALS && |s| >= 2 && s[1] == NL ==> Decoded(s) == Decoded(s[2..])
    ensures s != [] && s[0] == EQUALS && |s| < 3 && (|s| == 2 ==> s[1] != NL) ==> Decoded(s) == []
    ensures |s| >= 3 && s[0] == EQUALS && s[1] != NL ==> Decoded(s) == [Unescape(s[1], s[2])] + Decoded(s[3..])
  {
    hide Unescape, Underscore;
  }

  /** What the decoder has still to read, which is nothing when it has looked behind the end. */
  function Rest(from: seq<bv8>, n: nat, cp: nat): (r: seq<bv8>)
    requires n <= |from|
    ensures cp <= n ==> |r| == n - cp && forall k :: 0 <= k < n - cp ==> r[k] == from[cp + k]
  {
    if cp <= n then from[cp..n] else []
  }

  lemma RestRest(from: seq<bv8>, n: nat, cp: nat, k: nat)
    requires cp + k <= n <= |from|
    ensures Rest(from, n, cp)[k..] == Rest(from, n, cp + k)
  {
  }

  /** Decodes `from[..n]` onto the end of `outdata`. The character behind an '=' is looked at before the
      end is, so one at the very end needs another character behind it to be readable. What that
      character is makes no difference. */
  method DecodeQ(from: seq<bv8>, n: nat, outdata: seq<bv8>) returns (out: seq<bv8>)
    requires n <= |from|
    requires n > 0 && from[n - 1] == EQUALS ==> n < |from|
    ensures out == outdata + Decoded(from[..n])
  {
    hide Unescape, Decoded;
    out := outdata;
    var cp := 0;
    assert Rest(from, n, 0) == from[..n];
    while cp < n
      invariant cp <= n + 1
      invariant out + Decoded(Rest(from, n, cp)) == outdata + Decoded(from[..n])
      decreases n - cp
    {
      ghost var r, before := Rest(from, n, cp), cp;
      DecodedFirst(r);
      var ch := from[cp];
      cp := cp + 1;
      if ch == UNDERSCORE {
        ch := SPACE;
      }
      if ch != EQUALS {
        RestRest(from, n, before, 1);
        Appended(out, ch, Decoded(r[1..]));
      } else {
        if from[cp] == NL {
          cp := cp + 1;
          SoftBreakAt(from, n, before);
          continue;
        }
        var hex1 := from[cp];
        cp := cp + 1;
        if cp >= n {
          assert Decoded(r) == [];
          return;
        }
        var hex2 := from[cp];
        cp := cp + 1;
        ch := DecodeEscape(hex1, hex2);
        RestRest(from, n, before, 3);
        Appended(out, ch, Decoded(r[3..]));
      }
      out := out + [ch];
    }
    DecodedFirst([]);
    assert Rest(from, n, cp) == [];
  }

  lemma Appended(out: seq<bv8>, ch: bv8, more: seq<bv8>)
    ensures out + ([ch] + more) == out + [ch] + more
  {
  }

  /** A soft line break, whose line feed may stand behind the end. */
  lemma SoftBreakAt(from: seq<bv8>, n: nat, cp: nat)
    requires cp < n <= |from| && from[cp] == EQUALS && cp + 1 < |from| && from[cp + 1] == NL
    ensures Decoded(Rest(from, n, cp)) == Decoded(Rest(from, n, cp + 2))
  {
    hide Unescape;
    if cp + 2 <= n {
      RestRest(from, n, cp, 2);
    }
  }

  /** Lines 45-52: a `ch` of '=' is kept when one of the digits is illegal. */
  method DecodeEscape(c1: bv8, c2: bv8) returns (ch: bv8)
    ensures ch == Unescape(c1, c2)
  {
    ch := EQUALS;
    var ch1, ch2 := Char16Enc(c1), Char16Enc(c2);
    if ch1 != ILLEGAL && ch2 != ILLEGAL {
      ch := (ch1 << 4) | ch2;
    }
  }

  // ---- the round trip ----

  /** `s` with every underscore replaced by a space. */
  function Spaces(s: seq<bv8>): (r: seq<bv8>)
    ensures |r| == |s| && forall i :: 0 <= i < |s| ==> r[i] == Underscore(s[i])
  {
    seq(|s|, i requires 0 <= i < |s| => Underscore(s[i]))
  }

  lemma EscapeRoundTrip(c: bv8)
    ensures Unescape(HexChar(High(c)), HexChar(Low(c))) == c
    ensures HexChar(High(c)) != NL
  {
  }

  /** Escapes that are not whole or not hexadecimal, before any text: the first is read as an '=', what is cut
      off at the end as nothing. */
  lemma BadEscapes(a: bv8, b: bv8, t: seq<bv8>)
    requires a != 10
    ensures !IsHex(a) || !IsHex(b) ==> Decoded([61, a, b] + t) == [61] + Decoded(t)
    ensures Decoded([61]) == [] && Decoded([61, a]) == []
    ensures Decoded([61, 10] + t) == Decoded(t)
  {
    hide Unescape;
    DecodedFirst([61]);
    DecodedFirst([61, a]);
    DecodedFirst([61, 10] + t);
    assert ([61, 10] + t)[2..] == t;
    DecodedFirst([61, a, b] + t);
    assert ([61, a, b] + t)[3..] == t;
    HexOrNot(a, b);
  }

  predicate IsHex(c: bv8) {
    48 <= c <= 57 || 65 <= c <= 70 || 97 <= c <= 102
  }

  lemma HexOrNot(a: bv8, b: bv8)
    ensures !IsHex(a) || !IsHex(b) ==> Unescape(a, b) == 61
  {
  }

  function Upper(c: bv8): bv8 {
    if 97 <= c <= 122 then c - 32 else c
  }

  /** What the decoder reads as an escape is, but for the case of its letters, the escape that the encoder
      would write for it; any other pair stands for an '='. */
  lemma EscapeIsCanonical(a: bv8, b: bv8)
    ensures var c := Unescape(a, b);
            HexChar(High(c)) == Upper(a) && HexChar(Low(c)) == Upper(b)
            <==> Char16Enc(a) != ILLEGAL && Char16Enc(b) != ILLEGAL
  {
  }

  lemma DecodePiece(c: bv8, t: seq<bv8>)
    ensures Decoded(Piece(c) + t) == [Underscore(c)] + Decoded(t)
  {
    hide Unescape, HexChar, High, Low;
    var s := Piece(c) + t;
    if Escaped(c) {
      EscapeRoundTrip(c);
      assert s[3..] == t;
    } else {
      assert s[1..] == t;
    }
  }

  lemma DecodeSoftBreak(t: seq<bv8>)
    ensures Decoded([EQUALS, NL] + t) == Decoded(t)
  {
    assert ([EQUALS, NL] + t)[2..] == t;
  }

  /** Decoding undoes the encoding up to underscores, wherever the counter stood and whatever follows. */
  lemma {:induction false} DecodeEncoded(s: seq<bv8>, i: nat, t: seq<bv8>)
    ensures Decoded(Encoded(s, i) + t) == Spaces(s) + Decoded(t)
  {
    hide Decoded, Written, Underscore;
    if s == [] {
      assert [] + t == t && Spaces(s) + Decoded(t) == Decoded(t);
    } else {
      var c, r, next := s[0], s[1..], NextColumn(i, s[0]);
      B.Associates(Written(i, c), Encoded(r, next), t);
      DecodeWritten(i, c, Encoded(r, next) + t);
      DecodeEncoded(r, next, t);
      assert Spaces(s) == [Underscore(c)] + Spaces(r);
      B.Associates([Underscore(c)], Spaces(r), Decoded(t));
    }
  }

  lemma DecodeWritten(i: nat, c: bv8, t: seq<bv8>)
    ensures Decoded(Written(i, c) + t) == [Underscore(c)] + Decoded(t)
  {
    hide Decoded, Piece, Underscore;
    if Column(i, c) >= 72 {
      B.Associates(Piece(c), [EQUALS, NL], t);
      DecodePiece(c, [EQUALS, NL] + t);
      DecodeSoftBreak(t);
    } else {
      DecodePiece(c, t);
    }
  }

  /** The round trip changes underscores to spaces and nothing else, so it is exact just for inputs
      without underscores. */
  lemma RoundTrip(s: seq<bv8>)
    ensures Decoded(Encoded(s, 0)) == Spaces(s)
    ensures |Decoded(Encoded(s, 0))| == |s|
    ensures forall k :: 0 <= k < |s| ==> Decoded(Encoded(s, 0))[k] == if s[k] == 95 then 32 else s[k]
    ensures Decoded(Encoded(s, 0)) == s <==> 95 !in s
  {
    hide Encoded;
    DecodeEncoded(s, 0, []);
    assert Encoded(s, 0) + [] == Encoded(s, 0);
    if UNDERSCORE in s {
      var k :| 0 <= k < |s| && s[k] == UNDERSCORE;
      assert Spaces(s)[k] == SPACE;
    }
  }

  lemma SpacesConcat(s: seq<bv8>, t: seq<bv8>)
    ensures Spaces(s + t) == Spaces(s) + Spaces(t)
  {
    hide Underscore;
  }

  /** Pieces encoded by separate calls decode together. */
  lemma RoundTripInPieces(s: seq<bv8>, t: seq<bv8>)
    ensures Decoded(Encoded(s, 0) + Encoded(t, 0)) == Spaces(s + t)
  {
    hide Decoded, Encoded, Spaces, Underscore;
    DecodeEncoded(s, 0, Encoded(t, 0));
    RoundTrip(t);
    SpacesConcat(s, t);
  }

  predicate Printable(c: bv8) {
    c == TAB || c == NL || 32 <= c <= 126
  }

  lemma PieceIsPrintable(c: bv8)
    ensures forall k :: 0 <= k < |Piece(c)| ==> Printable(Piece(c)[k])
    ensures EQUALS in Piece(c) <==> Escaped(c)
  {
  }

  /** Only printable characters, tabs and line feeds are written. */
  lemma {:induction false} EncodedIsPrintable(s: seq<bv8>, i: nat)
    ensures forall k :: 0 <= k < |Encoded(s, i)| ==> Printable(Encoded(s, i)[k])
  {
    hide Piece;
    if s != [] {
      PieceIsPrintable(s[0]);
      EncodedIsPrintable(s[1..], 0);
      EncodedIsPrintable(s[1..], Column(i, s[0]));
    }
  }

  /** Characters that need no escape are not counted, so they are never broken into lines: the text is
      unchanged exactly when it holds no character to escape, however long its lines are. */
  lemma {:induction false} UnchangedWithoutEscapes(s: seq<bv8>, i: nat)
    requires i < 72
    ensures Encoded(s, i) == s <==> forall k :: 0 <= k < |s| ==> !Escaped(s[k])
    ensures |Encoded(s, i)| >= |s|
  {
    hide Escaped, HexChar, High, Low;
    if s != [] {
      var c, r := s[0], s[1..];
      assert s == [c] + r;
      UnchangedWithoutEscapes(r, 0);
      if Column(i, c) < 72 {
        UnchangedWithoutEscapes(r, Column(i, c));
      }
      assert (forall k :: 0 <= k < |s| ==> !Escaped(s[k]))
        <==> !Escaped(c) && forall k :: 0 <= k < |r| ==> !Escaped(r[k]);
    }
  }

  /** From `p` unescaped characters on, no line of `s` has more than `most` of them. */
  predicate PlainWithin(s: seq<bv8>, p: nat, most: nat)
    decreases |s|
  {
    p <= most && (s == [] || PlainWithin(s[1..], if s[0] == NL then 0 else if Escaped(s[0]) then p else p + 1, most))
  }

  /** For all text: a line of the output is at most as much longer than 73 characters as a line of the input
      has characters that need no escape. */
  lemma {:induction false} EncodedLines(s: seq<bv8>, i: nat, p: nat, column: nat, most: nat)
    requires i < 72 && i % 3 == 0 && column <= i + p && PlainWithin(s, p, most)
    ensures B.LinesWithin(Encoded(s, i), column, 73 + most)
    decreases |s|
  {
    hide HexChar, High, Low, Escaped, Written;
    if s != [] {
      var c, r, next := s[0], s[1..], NextColumn(i, s[0]);
      var more := Encoded(r, next);
      if Escaped(c) {
        EscapedIsNoBreak(c);
        var at := if i + 3 >= 72 then 0 else column + 3;
        EncodedLines(r, next, p, at, most);
        EscapeWithin(c, more, i, column, 73 + most);
      } else {
        var p' := if c == NL then 0 else p + 1;
        EncodedLines(r, next, p', if c == NL then 0 else column + 1, most);
        PlainStep(c, i);
        assert ([c] + more)[1..] == more;
      }
    }
  }

  lemma PlainStep(c: bv8, i: nat)
    requires !Escaped(c) && i < 72
    ensures Written(i, c) == [c] && NextColumn(i, c) == if c == NL then 0 else i
  {
  }

  lemma EscapeWithin(c: bv8, more: seq<bv8>, i: nat, column: nat, limit: nat)
    requires Escaped(c) && i <= 69 && column + 4 <= limit
    requires B.LinesWithin(more, if i + 3 >= 72 then 0 else column + 3, limit)
    ensures B.LinesWithin(Written(i, c) + more, column, limit)
  {
    hide HexChar, High, Low;
    HexIsNoBreak(c);
    EscapedIsNoBreak(c);
    if i + 3 >= 72 {
      SoftBreakWithin(more, column + 3, limit);
      WithinStep(Piece(c), [EQUALS, NL] + more, column, limit);
      assert Piece(c) + [EQUALS, NL] + more == Piece(c) + ([EQUALS, NL] + more);
    } else {
      WithinStep(Piece(c), more, column, limit);
    }
  }

  lemma EscapedIsNoBreak(c: bv8)
    requires Escaped(c)
    ensures c != NL
  {
  }

  /** Text of escapes and line feeds alone is broken into lines of at most 73 characters, within the 76 of
      section 6.7 of RFC 2045. */
  lemma {:induction false} EscapedLines(s: seq<bv8>, i: nat)
    requires i < 72 && i % 3 == 0
    requires forall k :: 0 <= k < |s| ==> Escaped(s[k]) || s[k] == NL
    ensures B.LinesWithin(Encoded(s, i), i, 73)
  {
    NothingPlain(s);
    EncodedLines(s, i, 0, i, 0);
  }

  lemma {:induction false} NothingPlain(s: seq<bv8>)
    requires forall k :: 0 <= k < |s| ==> Escaped(s[k]) || s[k] == NL
    ensures PlainWithin(s, 0, 0)
  {
    hide Escaped;
    if s != [] {
      NothingPlain(s[1..]);
    }
  }

  lemma HexIsNoBreak(c: bv8)
    ensures HexChar(High(c)) != NL && HexChar(Low(c)) != NL
  {
  }

  lemma WithinStep(p: seq<bv8>, t: seq<bv8>, i: nat, limit: nat)
    requires |p| == 3 && NL !in p && i + 3 <= limit && B.LinesWithin(t, i + 3, limit)
    ensures B.LinesWithin(p + t, i, limit)
  {
    var s := p + t;
    assert s[3..] == t && s[1..][1..] == s[2..] && s[2..][1..] == t;
    assert s[2] != NL && B.LinesWithin(s[2..], i + 2, limit);
    assert B.LinesWithin(s[1..], i + 1, limit);
  }

  lemma SoftBreakWithin(t: seq<bv8>, i: nat, limit: nat)
    requires B.LinesWithin(t, 0, limit) && i + 1 <= limit
    ensures B.LinesWithin([EQUALS, NL] + t, i, limit)
  {
    var s := [EQUALS, NL] + t;
    assert s[1..][1..] == t;
    assert B.LinesWithin(s[1..], i + 1, limit);
  }
}
