/** decodeB.c: base64 back to bytes, tolerant of anything outside the alphabet and of missing padding.
    A decoded group is appended as a C string, so it ends at its first zero byte. */
module DecodeB {
  import opened Base64
  import opened EncodeB

  /** `stralloc_cats`: up to the first NUL. */
  function UpToNul(b: seq<bv8>): seq<bv8> {
    if b == [] || b[0] == 0 then [] else [b[0]] + UpToNul(b[1..])
  }

  function At(v: seq<bv8>, i: nat): bv8 {
    if i < |v| then v[i] else 0
  }

  /** A group of up to four sextets, filled up with zeros. */
  function GroupOut(v: seq<bv8>): seq<bv8> {
    UpToNul(Join(At(v, 0), At(v, 1), At(v, 2), At(v, 3)))
  }

  function DecodeSextets(v: seq<bv8>): seq<bv8> {
    if |v| < 4 then GroupOut(v) else GroupOut(v[..4]) + DecodeSextets(v[4..])
  }

  function Decoded(s: seq<bv8>): seq<bv8> {
    DecodeSextets(Legal(s))
  }

  /** The register after the sextets of a group have been shifted in. */
  function Register(v: seq<bv8>): bv32 {
    if v == [] then 0 else PushSextet(Register(v[..|v| - 1]), v[|v| - 1])
  }

  /** The bytes that a full register is written out as. */
  function Lower3(h: bv32): seq<bv8> {
    [Byte2(h), Byte1(h), Byte0(h)]
  }

  lemma RegisterOfGroup(v: seq<bv8>)
    requires |v| == 4
    ensures Lower3(Register(v)) == Join(At(v, 0), At(v, 1), At(v, 2), At(v, 3))
  {
    hide PushSextet, Byte0, Byte1, Byte2;
    assert v[..3][..2] == v[..2] && v[..2][..1] == v[..1] && v[..1][..0] == [];
    assert Register(v[..1]) == PushSextet(0, v[0]);
    assert Register(v[..2]) == PushSextet(Register(v[..1]), v[1]);
    assert Register(v[..3]) == PushSextet(Register(v[..2]), v[2]);
  }

  /** A zero at the end of the input changes nothing: it fills up a group or starts an empty one. */
  lemma PadChangesNothing(v: seq<bv8>)
    requires |v| < 4
    ensures DecodeSextets(v + [0]) == DecodeSextets(v)
  {
    hide Join;
    var w := v + [0];
    assert forall i: nat :: At(w, i) == At(v, i);
    if |w| == 4 {
      assert w[..4] == w && w[4..] == [];
      EmptyGroup();
    }
  }

  lemma EmptyGroup()
    ensures DecodeSextets([]) == []
  {
    assert Join(0, 0, 0, 0)[0] == 0;
  }

  /** What the loop has still to put out, with `group` in the register. */
  function ToCome(from: seq<bv8>, cp: nat, group: seq<bv8>): seq<bv8>
    requires cp <= |from|
  {
    DecodeSextets(group + Legal(from[cp..]))
  }

  lemma ToComeStarts(from: seq<bv8>)
    ensures ToCome(from, 0, []) == Decoded(from)
  {
    hide DecodeSextets, Legal;
    assert from[0..] == from && [] + Legal(from) == Legal(from);
  }

  lemma ToComeEmits(from: seq<bv8>, cp: nat, group: seq<bv8>)
    requires cp <= |from| && |group| == 4
    ensures ToCome(from, cp, group) == UpToNul(Lower3(Register(group))) + ToCome(from, cp, [])
    ensures cp == |from| ==> ToCome(from, cp, []) == []
  {
    hide DecodeSextets, Legal, GroupOut, Register, Lower3, UpToNul;
    RegisterOfGroup(group);
    EmitGroup(group, Legal(from[cp..]));
    assert [] + Legal(from[cp..]) == Legal(from[cp..]);
    if cp == |from| {
      LegalFirst([]);
      EmptyGroup();
      assert from[cp..] == [];
    }
  }

  /** One character more, or a zero behind the end. */
  lemma ToComeReads(from: seq<bv8>, cp: nat, group: seq<bv8>)
    requires cp <= |from| && |group| < 4
    ensures cp < |from| && Value64(from[cp]) == ILLEGAL ==> ToCome(from, cp + 1, group) == ToCome(from, cp, group)
    ensures cp < |from| && Value64(from[cp]) != ILLEGAL ==>
              ToCome(from, cp + 1, group + [Value64(from[cp])]) == ToCome(from, cp, group)
    ensures cp == |from| ==> ToCome(from, cp, group + [0]) == ToCome(from, cp, group)
  {
    hide DecodeSextets, Legal, Value64;
    if cp < |from| {
      LegalStep(from, cp, group);
    } else {
      LegalFirst([]);
      PadChangesNothing(group);
      assert from[cp..] == [] && group + [] == group && group + [0] + [] == group + [0];
    }
  }

  lemma RegisterPushes(group: seq<bv8>, c: bv8)
    ensures Register(group + [c]) == PushSextet(Register(group), c)
  {
    hide PushSextet;
    assert (group + [c])[..|group|] == group;
  }

  lemma RegisterEmpty()
    ensures Register([]) == 0
  {
  }

  /** The loop of `decodeB`: `i` sextets are in the register; zeros are shifted in behind the input. */
  method DecodeB(from: seq<bv8>) returns (out: seq<bv8>)
    ensures out == Decoded(from)
  {
    hide Value64, PushSextet, Lower3, Register, ToCome, Decoded, UpToNul;
    out := [];
    var cp := 0;
    var i := 0;
    var hold32: bv32 := 0;
    ghost var group: seq<bv8> := [];
    ToComeStarts(from);
    RegisterEmpty();
    assert out + ToCome(from, cp, group) == Decoded(from);
    while true
      invariant cp <= |from| && i == |group| <= 4 && hold32 == Register(group)
      invariant out + ToCome(from, cp, group) == Decoded(from)
      decreases |from| - cp, 4 - i
    {
      if i == 4 {
        ToComeEmits(from, cp, group);
        Associates(out, UpToNul(Lower3(hold32)), ToCome(from, cp, []));
        out := out + UpToNul(Lower3(hold32));
        if cp >= |from| {
          break;
        }
        hold32 := 0;
        i := 0;
        group := [];
      }
      ToComeReads(from, cp, group);
      var c: bv8 := 0;
      if cp < |from| {
        c := Value64(from[cp]);
        cp := cp + 1;
      }
      if c != ILLEGAL {
        RegisterPushes(group, c);
        hold32 := PushSextet(hold32, c);
        group := group + [c];
        i := i + 1;
      }
    }
  }

  lemma EmitGroup(group: seq<bv8>, rest: seq<bv8>)
    requires |group| == 4
    ensures DecodeSextets(group + rest) == GroupOut(group) + DecodeSextets(rest)
    ensures GroupOut(group) == UpToNul(Join(At(group, 0), At(group, 1), At(group, 2), At(group, 3)))
  {
    assert (group + rest)[..4] == group && (group + rest)[4..] == rest;
  }

  /** Reading one character moves its sextet, if it has one, into the group. */
  lemma LegalStep(from: seq<bv8>, cp: nat, group: seq<bv8>)
    requires cp < |from|
    ensures group + Legal(from[cp..])
            == (if Value64(from[cp]) == ILLEGAL then group else group + [Value64(from[cp])]) + Legal(from[cp + 1..])
  {
    hide Value64;
    assert from[cp..][1..] == from[cp + 1..];
    assert Legal(from[cp..]) == Keep(from[cp]) + Legal(from[cp + 1..]);
  }

  // ---- the round trip ----

  /** What survives of `b`: each group of three bytes up to its first NUL. */
  function WithoutNulTails(b: seq<bv8>): seq<bv8> {
    if |b| < 3 then UpToNul(b) else UpToNul(b[..3]) + WithoutNulTails(b[3..])
  }

  lemma {:induction false} UpToNulKeeps(b: seq<bv8>)
    ensures 0 !in UpToNul(b) && |UpToNul(b)| <= |b|
    ensures 0 !in b ==> UpToNul(b) == b
    ensures UpToNul(b + [0]) == UpToNul(b)
  {
    if b != [] && b[0] != 0 {
      UpToNulKeeps(b[1..]);
      assert (b + [0])[1..] == b[1..] + [0];
      assert b == [b[0]] + b[1..];
    }
  }

  lemma {:induction false} NulTailsKept(b: seq<bv8>)
    ensures 0 !in WithoutNulTails(b)
    ensures WithoutNulTails(b) == b <==> 0 !in b
  {
    if |b| < 3 {
      UpToNulKeeps(b);
    } else {
      UpToNulKeeps(b[..3]);
      NulTailsKept(b[3..]);
      assert b == b[..3] + b[3..];
    }
  }

  lemma {:induction false} DecodeSextetsOf(b: seq<bv8>)
    ensures DecodeSextets(SextetsOf(b)) == WithoutNulTails(b)
  {
    hide Split, Join;
    if |b| >= 3 {
      var v := Split(b[0], b[1], b[2]);
      JoinSplit(b[0], b[1], b[2]);
      EmitGroup(v, SextetsOf(b[3..]));
      assert b[..3] == [b[0], b[1], b[2]];
      DecodeSextetsOf(b[3..]);
    } else if |b| == 2 {
      var v := Split(b[0], b[1], 0);
      JoinSplit(b[0], b[1], 0);
      SplitShort(b[0], b[1]);
      assert forall i: nat :: i < 4 ==> At(v[..3], i) == v[i];
      UpToNulKeeps(b);
      assert [b[0], b[1], 0] == b + [0];
    } else if |b| == 1 {
      var v := Split(b[0], 0, 0);
      JoinSplit(b[0], 0, 0);
      SplitShort(b[0], 0);
      assert forall i: nat :: i < 4 ==> At(v[..2], i) == v[i];
      UpToNulKeeps(b);
      UpToNulKeeps(b + [0]);
      assert [b[0], 0, 0] == b + [0] + [0];
    } else {
      EmptyGroup();
    }
  }

  lemma LegalOfEncoded(b: seq<bv8>)
    ensures Legal(Encoded(b)) == SextetsOf(b)
  {
    hide Body, Tail, Breaks, Legal, SextetsOf;
    LegalEncoding(b);
    LegalBreaks(Body(b), 72);
    LegalConcat(Breaks(Body(b), 72) + Tail(Rest(b)), [NL]);
    LegalConcat(Breaks(Body(b), 72), Tail(Rest(b)));
    LegalNewline();
    assert Legal(Body(b)) + Legal(Tail(Rest(b))) + [] == Legal(Body(b)) + Legal(Tail(Rest(b)));
  }

  /** Decoding a complete encoded stream gives each group of three bytes up to its first NUL, and so what was
      encoded exactly when that has no NUL. */
  lemma DecodeEncoded(b: seq<bv8>)
    ensures Decoded(Encoded(b)) == WithoutNulTails(b)
    ensures Decoded(Encoded(b)) == b <==> 0 !in b
  {
    LegalOfEncoded(b);
    DecodeSextetsOf(b);
    NulTailsKept(b);
  }

  /** The input comes back, with LF as CR LF, exactly when it has no NUL. */
  lemma RoundTrip(input: seq<bv8>)
    ensures Decoded(Encoded(CrLf(input))) == CrLf(input) <==> 0 !in input
  {
    DecodeEncoded(CrLf(input));
    CrLfNuls(input);
  }

  /** Then the input itself is what is left without those CRs. */
  lemma RoundTripWithoutCr(input: seq<bv8>)
    requires 0 !in input
    ensures DropCr(Decoded(Encoded(CrLf(input)))) == input
  {
    RoundTrip(input);
    CrLfAddsCr(input);
  }

  lemma {:induction false} CrLfNuls(b: seq<bv8>)
    ensures 0 in CrLf(b) <==> 0 in b
  {
    if b != [] {
      CrLfNuls(b[1..]);
      assert 0 in b <==> b[0] == 0 || 0 in b[1..];
    }
  }

  /** Characters outside the alphabet are skipped wherever they stand. */
  lemma JunkIsSkipped(s: seq<bv8>, c: bv8, t: seq<bv8>)
    requires c as char !in ALPHABET
    ensures Decoded(s + [c] + t) == Decoded(s + t)
  {
    hide Legal, Value64;
    AlphabetIs(0, c);
    LegalConcat(s + [c], t);
    LegalConcat(s, [c]);
    LegalConcat(s, t);
    LegalFirst([c]);
    LegalFirst([]);
    assert [c][1..] == [] && Legal([c]) == [] && Legal(s) + [] == Legal(s);
  }
}
