/** What the base64 codecs of both programs share: the alphabet and the groups of three bytes and
    four characters (section 6.8 of RFC 2045). */
module Base64 {
  import Calendar
  import opened Ascii

  const NL: bv8 := 10

  const CR: bv8 := 13

  const PAD: bv8 := 61

  /** Entry `x` of the table of 64 characters. */
  function Char64(x: bv8): bv8
    requires x < 64
  {
    if x < 26 then 65 + x
    else if x < 52 then 97 + (x - 26)
    else if x < 62 then 48 + (x - 52)
    else if x == 62 then 43
    else 47
  }

  const ILLEGAL: bv8 := 0x80

  /** The decoding table, with one value for all characters outside the alphabet. */
  function Value64(c: bv8): (x: bv8)
    ensures x < 64 || x == ILLEGAL
  {
    if 65 <= c <= 90 then c - 65
    else if 97 <= c <= 122 then c - 97 + 26
    else if 48 <= c <= 57 then c - 48 + 52
    else if c == 43 then 62
    else if c == 47 then 63
    else ILLEGAL
  }

  lemma ValueOfChar(x: bv8)
    requires x < 64
    ensures Value64(Char64(x)) == x
    ensures Char64(x) != NL && Char64(x) != PAD && Char64(x) != 0 && Char64(x) < 128
  {
  }

  const ALPHABET := CAPITALS + SMALLS + DIGITS + "+/"

  /** The table holds the 64 characters of section 6.8 of RFC 2045 in their order, and the decoding table knows
      no others. */
  lemma AlphabetIs(x: bv8, c: bv8)
    ensures x < 64 ==> Char64(x) as char == ALPHABET[x as int]
    ensures c as char !in ALPHABET ==> Value64(c) == ILLEGAL
  {
    hide Char64, Value64;
    if x < 64 {
      CharIsListed(x);
    }
    if c as char !in ALPHABET {
      OthersAreIllegal(c);
    }
  }

  lemma CharIsListed(x: bv8)
    requires x < 64
    ensures Char64(x) as char == ALPHABET[x as int]
  {
    if x < 26 {
      CapitalCode(x as int);
    } else if x < 52 {
      SmallCode(x as int - 26);
      assert ALPHABET[x as int] == SMALLS[x as int - 26];
    } else if x < 62 {
      DigitCode(x as int - 52);
      assert ALPHABET[x as int] == DIGITS[x as int - 52];
    }
  }

  lemma OthersAreIllegal(c: bv8)
    requires c as char !in ALPHABET
    ensures Value64(c) == ILLEGAL
  {
    DigitsListed(c as char);
    CapitalsListed(c as char);
    SmallsListed(c as char);
    assert "+/"[0] as int == 43 && "+/"[1] as int == 47;
  }

  predicate Sextets(v: seq<bv8>) {
    forall i :: 0 <= i < |v| ==> v[i] < 64
  }

  // A 32-bit register that bytes or sextets are shifted into.

  function PushByte(h: bv32, b: bv8): bv32 {
    (h << 8) | b as bv32
  }

  function PushSextet(h: bv32, x: bv8): bv32 {
    (h << 6) | (x & 0x7f) as bv32
  }

  function Byte0(h: bv32): bv8 {
    (h & 0xff) as bv8
  }

  function Byte1(h: bv32): bv8 {
    ((h >> 8) & 0xff) as bv8
  }

  function Byte2(h: bv32): bv8 {
    ((h >> 16) & 0xff) as bv8
  }

  function FourSextets(h: bv32): (v: seq<bv8>)
    ensures |v| == 4 && Sextets(v)
  {
    [((h >> 18) & 0x3f) as bv8, ((h >> 12) & 0x3f) as bv8, ((h >> 6) & 0x3f) as bv8, (h & 0x3f) as bv8]
  }

  lemma PushedBytes(h: bv32, b: bv8)
    ensures Byte0(PushByte(h, b)) == b && Byte1(PushByte(h, b)) == Byte0(h) && Byte2(PushByte(h, b)) == Byte1(h)
  {
  }

  /** The four sextets of three bytes. */
  function Split(a: bv8, b: bv8, c: bv8): (v: seq<bv8>)
    ensures |v| == 4 && Sextets(v)
  {
    FourSextets(PushByte(PushByte(PushByte(0, a), b), c))
  }

  /** The 24 bits of three bytes, in their order, are those of the four sextets. */
  lemma SplitIsBits(a: bv8, b: bv8, c: bv8)
    ensures var v := Split(a, b, c);
            (v[0] as bv32 << 18) | (v[1] as bv32 << 12) | (v[2] as bv32 << 6) | v[3] as bv32
            == (a as bv32 << 16) | (b as bv32 << 8) | c as bv32
  {
  }

  /** What stands above the last three bytes does not show in the sextets. */
  lemma SplitPushed(h: bv32, c: bv8)
    ensures FourSextets(PushByte(h, c)) == Split(Byte1(h), Byte0(h), c)
  {
  }

  /** The three bytes of four sextets. */
  function Join(p: bv8, q: bv8, r: bv8, s: bv8): (b: seq<bv8>)
    ensures |b| == 3
  {
    var h := PushSextet(PushSextet(PushSextet(PushSextet(0, p), q), r), s);
    [Byte2(h), Byte1(h), Byte0(h)]
  }

  lemma JoinSplit(a: bv8, b: bv8, c: bv8)
    ensures var v := Split(a, b, c); Join(v[0], v[1], v[2], v[3]) == [a, b, c]
  {
  }

  /** A missing byte leaves its sextets zero. */
  lemma SplitShort(a: bv8, b: bv8)
    ensures Split(a, b, 0)[3] == 0 && Split(a, 0, 0)[2] == 0
  {
  }

  function Chars(v: seq<bv8>): (s: seq<bv8>)
    requires Sextets(v)
    ensures |s| == |v| && forall i :: 0 <= i < |v| ==> s[i] == Char64(v[i])
  {
    seq(|v|, i requires 0 <= i < |v| => Char64(v[i]))
  }

  /** The characters of the complete groups of `b`. */
  function Body(b: seq<bv8>): seq<bv8> {
    if |b| < 3 then [] else Chars(Split(b[0], b[1], b[2])) + Body(b[3..])
  }

  /** The bytes behind the complete groups. */
  function Rest(b: seq<bv8>): (r: seq<bv8>)
    ensures |r| <= 2
  {
    if |b| < 3 then b else Rest(b[3..])
  }

  /** The padded group of one or two bytes. */
  function Tail(r: seq<bv8>): seq<bv8>
    requires |r| <= 2
  {
    if |r| == 2 then Chars(Split(r[0], r[1], 0)[..3]) + [PAD]
    else if |r| == 1 then Chars(Split(r[0], 0, 0)[..2]) + [PAD, PAD]
    else []
  }

  /** A line break behind every `width` characters. */
  function Breaks(s: seq<bv8>, width: nat): seq<bv8>
    requires width > 0
  {
    if |s| < width then s else s[..width] + [NL] + Breaks(s[width..], width)
  }

  predicate IsBreak(k: nat, width: nat) {
    k % (width + 1) == width
  }

  lemma BreakRepeats(k: nat, width: nat)
    ensures k <= width ==> (IsBreak(k, width) <==> k == width)
    ensures k > width ==> IsBreak(k, width) == IsBreak(k - (width + 1), width)
  {
    var n := width + 1;
    if k <= width {
      Calendar.Quotient(k, n, 0, k);
    } else {
      Calendar.Quotient(k, n, (k - n) / n + 1, (k - n) % n);
    }
  }

  /** Exactly every character number `width`, counted from 0 and with the breaks, is a break. */
  predicate BrokenEvery(t: seq<bv8>, width: nat) {
    forall k :: 0 <= k < |t| ==> (t[k] == NL <==> IsBreak(k, width))
  }

  lemma {:induction false} BreaksAt(s: seq<bv8>, width: nat)
    requires width > 0 && NL !in s
    ensures BrokenEvery(Breaks(s, width), width)
    decreases |s|
  {
    hide IsBreak, Breaks;
    var t := Breaks(s, width);
    BreaksFirst(s, width);
    forall k | 0 <= k < |t| ensures t[k] == NL <==> IsBreak(k, width) {
      BreakRepeats(k, width);
      if |s| >= width {
        BreaksAt(s[width..], width);
        if k > width {
          assert t[k] == Breaks(s[width..], width)[k - (width + 1)];
        }
      }
    }
  }

  lemma BreaksFirst(s: seq<bv8>, width: nat)
    requires width > 0
    ensures Breaks(s, width) == if |s| < width then s else s[..width] + [NL] + Breaks(s[width..], width)
  {
  }

  /** Counting from `column`, no line of `s` is longer than `limit`. */
  predicate LinesWithin(s: seq<bv8>, column: nat, limit: nat)
    decreases |s|
  {
    column <= limit && (s == [] || LinesWithin(s[1..], if s[0] == NL then 0 else column + 1, limit))
  }

  /** A character's sextet, or nothing. */
  function Keep(c: bv8): (v: seq<bv8>)
    ensures Sextets(v)
  {
    if Value64(c) == ILLEGAL then [] else [Value64(c)]
  }

  /** The characters of `s` that are in the alphabet, as sextets. */
  function Legal(s: seq<bv8>): (v: seq<bv8>)
    ensures Sextets(v)
  {
    if s == [] then [] else Keep(s[0]) + Legal(s[1..])
  }

  lemma Associates(x: seq<bv8>, y: seq<bv8>, z: seq<bv8>)
    ensures x + (y + z) == x + y + z
  {
  }

  lemma LegalFirst(s: seq<bv8>)
    ensures Legal([]) == []
    ensures s != [] ==> Legal(s) == Keep(s[0]) + Legal(s[1..])
  {
    hide Keep;
  }

  lemma {:induction false} LegalConcat(s: seq<bv8>, t: seq<bv8>)
    ensures Legal(s + t) == Legal(s) + Legal(t)
  {
    hide Keep, Sextets, Legal;
    LegalFirst(s);
    if s == [] {
      assert s + t == t && [] + Legal(t) == Legal(t);
    } else {
      LegalConcat(s[1..], t);
      assert (s + t)[1..] == s[1..] + t;
      LegalFirst(s + t);
      Associates(Keep(s[0]), Legal(s[1..]), Legal(t));
    }
  }

  lemma {:induction false} LegalChars(v: seq<bv8>)
    requires Sextets(v)
    ensures Legal(Chars(v)) == v
  {
    if v != [] {
      ValueOfChar(v[0]);
      LegalChars(v[1..]);
      assert Chars(v)[1..] == Chars(v[1..]);
      assert v == [v[0]] + v[1..];
    }
  }

  lemma LegalNewline()
    ensures Legal([NL]) == []
  {
    assert Keep(NL) == [];
  }

  /** Line breaks do not matter to the decoder. */
  lemma {:induction false} LegalBreaks(s: seq<bv8>, width: nat)
    requires width > 0
    ensures Legal(Breaks(s, width)) == Legal(s)
    decreases |s|
  {
    hide Keep, Sextets;
    if |s| >= width {
      LegalBreaks(s[width..], width);
      LegalConcat(s[..width] + [NL], Breaks(s[width..], width));
      LegalConcat(s[..width], [NL]);
      LegalNewline();
      LegalConcat(s[..width], s[width..]);
      assert s[..width] + s[width..] == s;
    }
  }

  /** All sextets of `b`: four for each complete group, and two or three for a short one. */
  function SextetsOf(b: seq<bv8>): (v: seq<bv8>)
    ensures Sextets(v)
  {
    if |b| >= 3 then Split(b[0], b[1], b[2]) + SextetsOf(b[3..])
    else if |b| == 2 then Split(b[0], b[1], 0)[..3]
    else if |b| == 1 then Split(b[0], 0, 0)[..2]
    else []
  }

  /** Sextets written as characters are read back ahead of whatever follows. */
  lemma LegalJoin(v: seq<bv8>, t: seq<bv8>)
    requires Sextets(v)
    ensures Legal(Chars(v) + t) == v + Legal(t)
  {
    hide Chars, Keep, Legal;
    LegalConcat(Chars(v), t);
    LegalChars(v);
  }

  lemma LegalPads()
    ensures Legal([]) == [] && Legal([PAD]) == [] && Legal([PAD, PAD]) == []
  {
    assert Keep(PAD) == [];
    assert [PAD, PAD][1..] == [PAD] && Legal([PAD]) == [];
  }

  lemma {:induction false} LegalEncoding(b: seq<bv8>)
    ensures Legal(Body(b)) + Legal(Tail(Rest(b))) == SextetsOf(b)
  {
    hide Split, Chars, Keep, Legal;
    LegalPads();
    if |b| >= 3 {
      var v := Split(b[0], b[1], b[2]);
      LegalEncoding(b[3..]);
      LegalJoin(v, Body(b[3..]));
      Associates(v, Legal(Body(b[3..])), Legal(Tail(Rest(b[3..]))));
    } else if |b| == 2 {
      var v := Split(b[0], b[1], 0)[..3];
      LegalJoin(v, [PAD]);
    } else if |b| == 1 {
      var v := Split(b[0], 0, 0)[..2];
      LegalJoin(v, [PAD, PAD]);
    }
  }

  // ---- line lengths ----

  lemma {:induction false} LineThen(x: seq<bv8>, y: seq<bv8>, column: nat, limit: nat)
    requires NL !in x
    ensures LinesWithin(x + [NL] + y, column, limit) <==> column + |x| <= limit && LinesWithin(y, 0, limit)
    decreases |x|
  {
    var s := x + [NL] + y;
    if x == [] {
      assert s[1..] == y;
    } else {
      assert s[1..] == x[1..] + [NL] + y;
      LineThen(x[1..], y, column + 1, limit);
    }
  }

  lemma {:induction false} BodyChars(b: seq<bv8>)
    ensures |Body(b)| == 4 * (|b| / 3) && NL !in Body(b)
    ensures |Rest(b)| == |b| % 3
  {
    if |b| >= 3 {
      BodyChars(b[3..]);
      var v := Split(b[0], b[1], b[2]);
      forall i | 0 <= i < 4 ensures Chars(v)[i] != NL {
        ValueOfChar(v[i]);
      }
    }
  }

  lemma TailChars(r: seq<bv8>)
    requires |r| <= 2
    ensures |Tail(r)| == (if r == [] then 0 else 4) && NL !in Tail(r)
  {
    hide Split, Char64;
    if r != [] {
      var v := if |r| == 2 then Split(r[0], r[1], 0)[..3] else Split(r[0], 0, 0)[..2];
      forall i | 0 <= i < |v| ensures Chars(v)[i] != NL {
        ValueOfChar(v[i]);
      }
    }
  }

  function Lines(s: seq<bv8>, t: seq<bv8>, rest: seq<bv8>, width: nat): seq<bv8>
    requires width > 0
  {
    Breaks(s, width) + t + [NL] + rest
  }

  lemma FirstLine(s: seq<bv8>, t: seq<bv8>, rest: seq<bv8>, width: nat)
    requires width > 0
    ensures Lines(s, t, rest, width)
            == if |s| < width then s + t + [NL] + rest
               else s[..width] + [NL] + Lines(s[width..], t, rest, width)
  {
    if |s| >= width {
      var x, y := s[..width] + [NL], Breaks(s[width..], width);
      assert Breaks(s, width) == x + y;
      assert x + y + t + [NL] + rest == x + (y + t + [NL] + rest);
    }
  }

  /** How many characters are on the last line. */
  function OnLast(n: nat, width: nat): nat
    requires width > 0
  {
    n % width
  }

  /** Taking a whole line away does not change it. */
  lemma LastLine(n: nat, width: nat)
    requires width > 0
    ensures n < width ==> OnLast(n, width) == n
    ensures n >= width ==> OnLast(n - width, width) == OnLast(n, width)
  {
    if n < width {
      Calendar.Quotient(n, width, 0, n);
    } else {
      Calendar.Quotient(n - width, width, n / width - 1, n % width);
    }
  }

  lemma {:induction false} BreaksLength(s: seq<bv8>, width: nat)
    requires width > 0
    ensures |Breaks(s, width)| >= |s| && OnLast(|Breaks(s, width)|, width + 1) == OnLast(|s|, width)
    decreases |s|
  {
    hide OnLast, Breaks;
    BreaksFirst(s, width);
    LastLine(|s|, width);
    LastLine(|Breaks(s, width)|, width + 1);
    if |s| >= width {
      BreaksLength(s[width..], width);
    }
  }

  lemma {:induction false} LinesFit(s: seq<bv8>, t: seq<bv8>, rest: seq<bv8>, width: nat, limit: nat)
    requires width > 0 && NL !in s && NL !in t && LinesWithin(rest, 0, limit)
    ensures LinesWithin(Lines(s, t, rest, width), 0, limit)
            <==> (|s| >= width ==> width <= limit) && OnLast(|s|, width) + |t| <= limit
    decreases |s|
  {
    hide LinesWithin, Lines, OnLast;
    FirstLine(s, t, rest, width);
    LastLine(|s|, width);
    if |s| < width {
      LineThen(s + t, rest, 0, limit);
    } else {
      var more := s[width..];
      LineThen(s[..width], Lines(more, t, rest, width), 0, limit);
      LinesFit(more, t, rest, width, limit);
    }
  }

  /** Broken text with something behind it keeps to the limit exactly when its full lines do, if it has any,
      and its last line does with what stands behind it. */
  lemma BrokenLines(s: seq<bv8>, t: seq<bv8>, rest: seq<bv8>, width: nat, limit: nat)
    requires width > 0 && NL !in s && NL !in t && LinesWithin(rest, 0, limit)
    ensures LinesWithin(Lines(s, t, rest, width), 0, limit)
            <==> (|s| >= width ==> width <= limit) && |s| % width + |t| <= limit
  {
    hide LinesWithin, Lines;
    LinesFit(s, t, rest, width, limit);
  }
}
