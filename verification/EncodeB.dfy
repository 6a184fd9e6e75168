/** encodeB.c: a streaming base64 encoder whose state survives from call to call, and whose output is
    cut into lines of 72 characters. */
module EncodeB {
  import opened Base64

  /** What a call finds: bytes already shifted into `hold32`, groups already on the line. */
  datatype State = State(pos: nat, i: nat, hold32: bv32)

  ghost predicate Valid(e: State) {
    e.pos <= 2 && e.i < 18
  }

  /** The bytes that wait in `hold32`. */
  function Pending(e: State): (b: seq<bv8>)
  {
    if e.pos == 1 then [Byte0(e.hold32)]
    else if e.pos == 2 then [Byte1(e.hold32), Byte0(e.hold32)]
    else []
  }

  function ByteOut(c: bv8): seq<bv8> {
    if c == NL then [CR, NL] else [c]
  }

  /** An LF is encoded as CR LF. */
  function CrLf(b: seq<bv8>): seq<bv8> {
    if b == [] then [] else ByteOut(b[0]) + CrLf(b[1..])
  }

  lemma CrLfFirst(s: seq<bv8>)
    ensures CrLf([]) == []
    ensures s != [] ==> CrLf(s) == ByteOut(s[0]) + CrLf(s[1..])
  {
    hide ByteOut;
  }

  lemma {:induction false} CrLfConcat(a: seq<bv8>, b: seq<bv8>)
    ensures CrLf(a + b) == CrLf(a) + CrLf(b)
  {
    hide ByteOut, CrLf;
    CrLfFirst(a);
    if a == [] {
      assert a + b == b && [] + CrLf(b) == CrLf(b);
    } else {
      CrLfConcat(a[1..], b);
      assert (a + b)[1..] == a[1..] + b;
      CrLfFirst(a + b);
      Associates(ByteOut(a[0]), CrLf(a[1..]), CrLf(b));
    }
  }

  function LfCount(b: seq<bv8>): nat {
    if b == [] then 0 else (if b[0] == 10 then 1 else 0) + LfCount(b[1..])
  }

  /** The text with one CR less before each LF. */
  function DropCr(s: seq<bv8>): seq<bv8> {
    if s == [] then []
    else if |s| >= 2 && s[0] == 13 && s[1] == 10 then [10] + DropCr(s[2..])
    else [s[0]] + DropCr(s[1..])
  }

  /** The expansion adds one CR directly before each LF and nothing else. */
  lemma {:induction false} CrLfAddsCr(b: seq<bv8>)
    ensures |CrLf(b)| == |b| + LfCount(b)
    ensures forall i :: 0 <= i < |CrLf(b)| && CrLf(b)[i] == 10 ==> i > 0 && CrLf(b)[i - 1] == 13
    ensures DropCr(CrLf(b)) == b
  {
    hide DropCr;
    if b == [] {
      DropsNothing();
    } else {
      CrLfAddsCr(b[1..]);
      var rest := CrLf(b[1..]);
      if b[0] == 10 {
        assert CrLf(b) == [13, 10] + rest;
        DropsPair(rest);
      } else {
        assert CrLf(b) == [b[0]] + rest;
        DropsNone(b[0], rest);
      }
      assert b == [b[0]] + b[1..];
    }
  }

  lemma DropsNothing()
    ensures DropCr([]) == []
  {
  }

  lemma DropsPair(rest: seq<bv8>)
    ensures DropCr([13, 10] + rest) == [10] + DropCr(rest)
  {
    assert ([13, 10] + rest)[2..] == rest;
  }

  lemma DropsNone(c: bv8, rest: seq<bv8>)
    requires rest == [] || rest[0] != 10
    ensures DropCr([c] + rest) == [c] + DropCr(rest)
  {
    assert ([c] + rest)[1..] == rest;
  }

  /** The whole encoded stream of `b`, written without any notion of chunks or state. */
  function Encoded(b: seq<bv8>): seq<bv8> {
    Breaks(Body(b), 72) + Tail(Rest(b)) + [NL]
  }

  /** What is still to come when the encoder is in state `e` and the bytes `b` follow. */
  function Ahead(e: State, b: seq<bv8>): seq<bv8>
    requires e.i < 18
  {
    var all := Pending(e) + b;
    BreaksFrom(Body(all), 72 - 4 * e.i) + Tail(Rest(all)) + [NL]
  }

  /** Line breaks in text that starts `room` characters before the end of a line. */
  function BreaksFrom(s: seq<bv8>, room: nat): seq<bv8>
    requires 0 < room <= 72
  {
    if |s| < room then s else s[..room] + [NL] + Breaks(s[room..], 72)
  }

  lemma StartsReset(b: seq<bv8>, hold: bv32)
    ensures Ahead(State(0, 0, hold), b) == Encoded(b)
  {
    assert [] + b == b;
  }

  /** `addone` shifts, except that the first byte of a group overwrites. */
  function Shift(e: State, ch: bv8): bv32 {
    if e.pos == 0 then ch as bv32 else PushByte(e.hold32, ch)
  }

  function Shift2(h: bv32): bv32 {
    h << 2
  }

  function Shift4(h: bv32): bv32 {
    h << 4
  }

  function ThreeSextets(h: bv32): (v: seq<bv8>)
    ensures |v| == 3 && Sextets(v)
  {
    [((h >> 12) & 0x3f) as bv8, ((h >> 6) & 0x3f) as bv8, (h & 0x3f) as bv8]
  }

  function TwoSextets(h: bv32): (v: seq<bv8>)
    ensures |v| == 2 && Sextets(v)
  {
    [((h >> 6) & 0x3f) as bv8, (h & 0x3f) as bv8]
  }

  lemma FirstByte(ch: bv8)
    ensures Byte0(ch as bv32) == ch
  {
  }

  lemma PendingGrows(e: State, ch: bv8)
    requires e.pos < 2
    ensures Pending(State(e.pos + 1, e.i, Shift(e, ch))) == Pending(e) + [ch]
  {
    hide Byte0, Byte1, PushByte;
    FirstByte(ch);
    PushedBytes(e.hold32, ch);
  }

  /** A byte that completes no group only waits. */
  lemma ByteWaits(e: State, ch: bv8, e': State, b: seq<bv8>)
    requires e.i == e'.i < 18 && Pending(e') == Pending(e) + [ch]
    ensures Ahead(e', b) == Ahead(e, [ch] + b)
  {
    hide Body, Rest, BreaksFrom, Tail, Pending;
    assert Pending(e) + [ch] + b == Pending(e) + ([ch] + b);
  }

  lemma BreaksFromGroup(x: seq<bv8>, s: seq<bv8>, room: nat)
    requires |x| == 4 <= room <= 72
    ensures BreaksFrom(x + s, room) == x + if room == 4 then [NL] + Breaks(s, 72) else BreaksFrom(s, room - 4)
  {
    if room == 4 {
      assert (x + s)[..4] == x && (x + s)[4..] == s;
    } else if |x + s| >= room {
      assert (x + s)[..room] == x + s[..room - 4] && (x + s)[room..] == s[room - 4..];
    }
  }

  /** A byte that completes a group makes four characters, and a line break behind the 18th group. */
  lemma ByteCompletes(e: State, ch: bv8, e': State, b: seq<bv8>)
    requires |Pending(e)| == 2 && e.i < 18
    requires Pending(e') == [] && e'.i == if e.i == 17 then 0 else e.i + 1
    ensures Chars(Split(Pending(e)[0], Pending(e)[1], ch)) + (if e.i == 17 then [NL] else []) + Ahead(e', b)
            == Ahead(e, [ch] + b)
  {
    hide Split, Char64, Breaks, BreaksFrom, Tail, Pending;
    var p := Pending(e);
    var all := p + ([ch] + b);
    var x := Chars(Split(p[0], p[1], ch));
    assert all[0] == p[0] && all[1] == p[1] && all[2] == ch && all[3..] == b;
    assert Body(all) == x + Body(b) && Rest(all) == Rest(b);
    BreaksFromGroup(x, Body(b), 72 - 4 * e.i);
    FullLine(Body(b));
    assert [] + b == b;
  }

  lemma FullLine(s: seq<bv8>)
    ensures BreaksFrom(s, 72) == Breaks(s, 72)
  {
  }

  /** Going from `e` to `e'` consumes `input` and writes `out`: together with anything that may still
      come, the output is as the stream ahead of `e` foretold. */
  ghost predicate Writes(e: State, input: seq<bv8>, out: seq<bv8>, e': State) {
    e.i < 18 && e'.i < 18 && forall b: seq<bv8> :: out + Ahead(e', b) == Ahead(e, input + b)
  }

  lemma WritesNothing(e: State)
    requires e.i < 18
    ensures Writes(e, [], [], e)
  {
    hide Ahead;
    forall b: seq<bv8> ensures [] + Ahead(e, b) == Ahead(e, [] + b) {
      assert [] + b == b;
    }
  }

  lemma WritesThen(e: State, input: seq<bv8>, out: seq<bv8>, e': State, input': seq<bv8>, out': seq<bv8>, e'': State)
    requires Writes(e, input, out, e') && Writes(e', input', out', e'')
    ensures Writes(e, input + input', out + out', e'')
  {
    hide Ahead;
    forall b: seq<bv8> ensures out + out' + Ahead(e'', b) == Ahead(e, input + input' + b) {
      assert out + out' + Ahead(e'', b) == out + (out' + Ahead(e'', b));
      assert input + input' + b == input + (input' + b);
    }
  }

  lemma WritesLast(e: State, input: seq<bv8>, out: seq<bv8>, e': State, input': seq<bv8>)
    requires Writes(e, input, out, e')
    ensures out + Ahead(e', input') == Ahead(e, input + input')
  {
  }

  lemma FlushEnds(e: State)
    requires Valid(e)
    ensures Ahead(e, []) == Tail(Pending(e)) + [NL]
  {
    assert Pending(e) + [] == Pending(e);
    assert Body(Pending(e)) == [];
  }

  class Encoder {
    var pos: nat
    var i: nat
    var hold32: bv32

    constructor ()
      ensures Now() == State(0, 0, 0) && Valid(Now())
    {
      pos, i, hold32 := 0, 0, 0;
    }

    function Now(): State
      reads this
    {
      State(pos, i, hold32)
    }

    method AddOne(ch: bv8) returns (out: seq<bv8>)
      requires Valid(Now())
      modifies this
      ensures Valid(Now()) && Writes(old(Now()), [ch], out, Now())
    {
      hide Ahead, Body, Rest, BreaksFrom, Tail, FourSextets, Byte0, Byte1, PushByte, Split, Char64;
      ghost var e := Now();
      out := [];
      hold32 := Shift(Now(), ch);
      pos := pos + 1;
      if pos == 3 {
        SplitPushed(e.hold32, ch);
        out := Chars(FourSextets(hold32));
        i := i + 1;
        if i == 18 {
          out := out + [NL];
          i := 0;
        }
        pos := 0;
        forall b: seq<bv8> ensures out + Ahead(Now(), b) == Ahead(e, [ch] + b) {
          ByteCompletes(e, ch, Now(), b);
        }
      } else {
        PendingGrows(e, ch);
        forall b: seq<bv8> ensures out + Ahead(Now(), b) == Ahead(e, [ch] + b) {
          ByteWaits(e, ch, Now(), b);
        }
      }
    }

    /** Lines 78-81: one input byte. */
    method AddByte(ch: bv8) returns (out: seq<bv8>)
      requires Valid(Now())
      modifies this
      ensures Valid(Now()) && Writes(old(Now()), ByteOut(ch), out, Now())
    {
      hide Writes;
      ghost var e := Now();
      out := [];
      if ch == NL {
        out := AddOne(CR);
        ghost var e' := Now();
        var more := AddOne(ch);
        WritesThen(e, [CR], out, e', [ch], more, Now());
        assert [CR] + [ch] == ByteOut(ch);
        out := out + more;
      } else {
        out := AddOne(ch);
      }
    }

    /** `dorest`: what is in the register, padded, and a line break. `pos` and `i` stay as they are. */
    method DoRest() returns (out: seq<bv8>)
      requires Valid(Now())
      modifies this`hold32
      ensures out == Ahead(old(Now()), [])
    {
      hide Ahead, Split, Byte0, Byte1, Char64, Shift2, Shift4, ThreeSextets, TwoSextets;
      FlushEnds(Now());
      RestSextets(hold32);
      out := [];
      if pos == 2 {
        hold32 := Shift2(hold32);
        out := Chars(ThreeSextets(hold32)) + [PAD];
      } else if pos == 1 {
        hold32 := Shift4(hold32);
        out := Chars(TwoSextets(hold32)) + [PAD, PAD];
      }
      out := out + [NL];
    }

    /** `encodeB`; control 1 resets and control 2 flushes, whatever its comment says about 0. */
    method EncodeB(indata: seq<bv8>, control: int) returns (out: seq<bv8>)
      requires Valid(Now())
      modifies this
      ensures Valid(Now())
      ensures control != 2 ==> Writes(Start(old(Now()), control), CrLf(indata), out, Now())
      ensures control == 1 ==> Writes(State(0, 0, old(hold32)), CrLf(indata), out, Now())
      ensures control == 2 ==> out == Ahead(old(Now()), CrLf(indata))
    {
      hide Writes, Ahead, ByteOut;
      if control == 1 {
        pos := 0;
        i := 0;
      }
      ghost var e := Now();
      WritesNothing(e);
      out := [];
      var k := 0;
      while k < |indata|
        invariant k <= |indata| && Valid(Now()) && Writes(e, CrLf(indata[..k]), out, Now())
      {
        ghost var e' := Now();
        var more := AddByte(indata[k]);
        WritesThen(e, CrLf(indata[..k]), out, e', ByteOut(indata[k]), more, Now());
        CrLfLast(indata, k);
        out := out + more;
        k := k + 1;
      }
      assert indata[..k] == indata;
      if control == 2 {
        WritesLast(e, CrLf(indata), out, Now(), []);
        assert CrLf(indata) + [] == CrLf(indata);
        var more := DoRest();
        out := out + more;
      }
    }
  }

  lemma CrLfLast(s: seq<bv8>, k: nat)
    requires k < |s|
    ensures CrLf(s[..k + 1]) == CrLf(s[..k]) + ByteOut(s[k])
  {
    hide ByteOut;
    CrLfConcat(s[..k], [s[k]]);
    assert s[..k] + [s[k]] == s[..k + 1] && [s[k]][1..] == [];
    assert CrLf([s[k]]) == ByteOut(s[k]);
  }

  function Start(e: State, control: int): State {
    if control == 1 then State(0, 0, e.hold32) else e
  }

  lemma ThreeOfFour(h: bv32)
    ensures ThreeSextets(Shift2(h)) == FourSextets(PushByte(h, 0))[..3]
  {
  }

  lemma TwoOfFour(h: bv32)
    ensures TwoSextets(Shift4(h)) == FourSextets(PushByte(PushByte(h, 0), 0))[..2]
  {
  }

  /** The short shifts of `dorest` give the sextets of a group that is filled up with zeros. */
  lemma RestSextets(h: bv32)
    ensures ThreeSextets(Shift2(h)) == Split(Byte1(h), Byte0(h), 0)[..3]
    ensures TwoSextets(Shift4(h)) == Split(Byte0(h), 0, 0)[..2]
  {
    hide Byte0, Byte1, PushByte, Split, Shift2, Shift4, ThreeSextets, TwoSextets, FourSextets;
    ThreeOfFour(h);
    TwoOfFour(h);
    SplitPushed(h, 0);
    SplitPushed(PushByte(h, 0), 0);
    PushedBytes(h, 0);
  }

  function Flatten(chunks: seq<seq<bv8>>): seq<bv8> {
    if chunks == [] then [] else Flatten(chunks[..|chunks| - 1]) + chunks[|chunks| - 1]
  }

  /** A stream opened in the reset state, fed in any chunks and flushed with the last one: the output
      depends on the bytes alone. */
  method EncodeStream(enc: Encoder, chunks: seq<seq<bv8>>, last: seq<bv8>) returns (out: seq<bv8>)
    requires enc.pos == 0 && enc.i == 0
    modifies enc
    ensures out == Encoded(CrLf(Flatten(chunks) + last))
  {
    hide Ahead, CrLf, Encoded, Writes;
    ghost var e := enc.Now();
    WritesNothing(e);
    out := [];
    var k := 0;
    CrLfNothing();
    while k < |chunks|
      invariant k <= |chunks| && Valid(enc.Now()) && Writes(e, CrLf(Flatten(chunks[..k])), out, enc.Now())
    {
      ghost var e' := enc.Now();
      var more := enc.EncodeB(chunks[k], 0);
      WritesThen(e, CrLf(Flatten(chunks[..k])), out, e', CrLf(chunks[k]), more, enc.Now());
      CrLfConcat(Flatten(chunks[..k]), chunks[k]);
      assert chunks[..k + 1][..k] == chunks[..k];
      out := out + more;
      k := k + 1;
    }
    assert chunks[..k] == chunks;
    WritesLast(e, CrLf(Flatten(chunks)), out, enc.Now(), CrLf(last));
    var more := enc.EncodeB(last, 2);
    out := out + more;
    CrLfConcat(Flatten(chunks), last);
    StartsReset(CrLf(Flatten(chunks) + last), e.hold32);
  }

  lemma CrLfNothing()
    ensures CrLf([]) == []
  {
  }

  /** Groups leave room for one more on the last line. */
  lemma GroupsOnLine(groups: nat)
    ensures 4 * groups % 72 <= 68
  {
  }

  /** No line of the stream is longer than 72 characters. */
  lemma LinesOf72(b: seq<bv8>)
    ensures LinesWithin(Encoded(b), 0, 72)
  {
    hide Body, Tail, Rest, Breaks, LinesWithin;
    var s, t := Body(b), Tail(Rest(b));
    BodyChars(b);
    TailChars(Rest(b));
    GroupsOnLine(|b| / 3);
    NoLines(72);
    BrokenLines(s, t, [], 72, 72);
    assert Breaks(s, 72) + t + [NL] + [] == Encoded(b);
  }

  /** The lines have 72 characters each, except for the last, and each ends with a line feed. */
  lemma LinesAre72(b: seq<bv8>)
    ensures forall k :: 0 <= k < |Encoded(b)| ==> (Encoded(b)[k] == 10 <==> k % 73 == 72 || k == |Encoded(b)| - 1)
  {
    hide Body, Tail, Rest, Breaks;
    var s, t := Body(b), Tail(Rest(b));
    BodyChars(b);
    TailChars(Rest(b));
    BreaksAt(s, 72);
    BreaksLength(s, 72);
    GroupsOnLine(|b| / 3);
    var n, all := |Breaks(s, 72)|, Encoded(b);
    assert n % 73 <= 68 && |t| <= 4;
    assert all == Breaks(s, 72) + t + [NL];
    forall k | 0 <= k < |all| ensures all[k] == 10 <==> k % 73 == 72 || k == |all| - 1 {
      if k < n {
        assert all[k] == Breaks(s, 72)[k] && (all[k] == NL <==> IsBreak(k, 72));
      } else if k < n + |t| {
        assert all[k] == t[k - n] && all[k] in t;
        InTail(n, k - n);
      }
    }
  }

  lemma InTail(n: nat, j: nat)
    requires n % 73 <= 68 && j < 4
    ensures (n + j) % 73 != 72
  {
  }

  lemma NoLines(limit: nat)
    ensures LinesWithin([], 0, limit)
  {
  }

  /** One, two and three bytes: "M", "Ma" and "Man". */
  lemma ShortStreams()
    ensures Encoded([77]) == [84, 81, 61, 61, 10]
    ensures Encoded([77, 97]) == [84, 87, 69, 61, 10]
    ensures Encoded([77, 97, 110]) == [84, 87, 70, 117, 10]
  {
    assert Split(77, 0, 0) == [19, 16, 0, 0] && Split(77, 97, 0) == [19, 22, 4, 0];
    assert Split(77, 97, 110) == [19, 22, 5, 46];
    var m: seq<bv8> := [77, 97, 110];
    assert m[3..] == [];
    assert Chars([19, 22, 5, 46]) == [84, 87, 70, 117];
    assert Split(77, 0, 0)[..2] == [19, 16] && Chars([19, 16]) == [84, 81];
    assert Split(77, 97, 0)[..3] == [19, 22, 4] && Chars([19, 22, 4]) == [84, 87, 69];
  }
}
