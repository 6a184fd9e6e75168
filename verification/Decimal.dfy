/** Decimal numbers as text: fmt_ulong.c, fmt_uint0.c, fmt_str.c and scan_ulong.c. */
module Decimal {
  import Calendar
  import opened Ascii

  predicate IsDigit(c: char) {
    '0' <= c <= '9'
  }

  function Digit(d: nat): char
    requires d < 10
  {
    '0' + d as char
  }

  function DigitValue(c: char): nat
    requires IsDigit(c)
  {
    c as int - '0' as int
  }

  /** The digits are the ten characters in their order. */
  lemma DigitIsListed(d: nat, c: char)
    ensures IsDigit(c) <==> c in DIGITS
    ensures d < 10 ==> IsDigit(DIGITS[d]) && Digit(d) == DIGITS[d] && DigitValue(DIGITS[d]) == d
  {
    DigitsListed(c);
    if d < 10 {
      DigitCode(d);
    }
  }

  predicate AllDigits(s: string) {
    forall i :: 0 <= i < |s| ==> IsDigit(s[i])
  }

  /** The number that a digit string denotes. */
  function Value(s: string): nat
    requires AllDigits(s)
  {
    if s == [] then 0 else 10 * Value(s[..|s| - 1]) + DigitValue(s[|s| - 1])
  }

  function Digits(u: nat): string {
    if u < 10 then [Digit(u)] else Digits(u / 10) + [Digit(u % 10)]
  }

  /** The digits still to be written when `u` is what is left of the number. */
  function Pending(u: nat): string {
    if u == 0 then [] else Digits(u)
  }

  function Zeros(n: nat): (s: string)
    ensures |s| == n && forall i :: 0 <= i < n ==> s[i] == '0'
  {
    seq(n, _ => '0')
  }

  function Padded(u: nat, n: nat): string {
    Zeros(if |Digits(u)| < n then n - |Digits(u)| else 0) + Digits(u)
  }

  /** `Digits` writes exactly the number, with no leading zero. */
  lemma {:induction false} DigitsValue(u: nat)
    ensures |Digits(u)| >= 1 && AllDigits(Digits(u)) && Value(Digits(u)) == u
    ensures Digits(u)[0] == '0' <==> u == 0
  {
    if u >= 10 {
      DigitsValue(u / 10);
      assert Digits(u)[..|Digits(u)| - 1] == Digits(u / 10);
    } else {
      assert Digits(u)[..0] == [];
    }
  }

  /** A number below 10^k has at most k digits. */
  lemma {:induction false} DigitsLength(u: nat, k: nat)
    requires k >= 1 && u < Power10(k)
    ensures 1 <= |Digits(u)| <= k
  {
    if u >= 10 {
      DigitsLength(u / 10, k - 1);
    }
  }

  function Power10(k: nat): nat {
    if k == 0 then 1 else 10 * Power10(k - 1)
  }

  lemma Distribute(v: nat, p: nat, w: nat)
    ensures 10 * (v * p + w) == v * (10 * p) + 10 * w
  {
  }

  lemma {:induction false} ValueOfSuffix(s: string, t: string)
    requires AllDigits(s) && AllDigits(t)
    ensures AllDigits(s + t) && Value(s + t) == Value(s) * Power10(|t|) + Value(t)
  {
    if t == [] {
      assert s + t == s;
    } else {
      var t', last := t[..|t| - 1], t[|t| - 1];
      ValueOfSuffix(s, t');
      assert (s + t)[..|s + t| - 1] == s + t';
      assert (s + t)[|s + t| - 1] == last;
      Distribute(Value(s), Power10(|t'|), Value(t'));
    }
  }

  lemma {:induction false} ZerosValue(n: nat)
    ensures AllDigits(Zeros(n)) && Value(Zeros(n)) == 0
  {
    if n > 0 {
      ZerosValue(n - 1);
      assert Zeros(n)[..n - 1] == Zeros(n - 1);
    }
  }

  /** A number below 100 in two digits. */
  lemma TwoDigits(u: nat)
    requires u < 100
    ensures Padded(u, 2) == [DIGITS[u / 10], DIGITS[u % 10]]
  {
    DigitIsListed(u / 10, '0');
    DigitIsListed(u % 10, '0');
    if u < 10 {
      assert Digits(u) == [Digit(u)] && Zeros(1) == ['0'] && Digit(0) == '0';
    } else {
      assert Digits(u / 10) == [Digit(u / 10)];
      assert Digits(u) == [Digit(u / 10)] + [Digit(u % 10)] && Zeros(0) == "";
    }
  }

  lemma PaddedValue(u: nat, n: nat)
    ensures |Padded(u, n)| == (if |Digits(u)| < n then n else |Digits(u)|)
    ensures AllDigits(Padded(u, n)) && Value(Padded(u, n)) == u
  {
    var z := if |Digits(u)| < n then n - |Digits(u)| else 0;
    ZerosValue(z);
    DigitsValue(u);
    ValueOfSuffix(Zeros(z), Digits(u));
  }

  /** The text `t` is written at `at` and nothing else changes. */
  ghost predicate Wrote(before: seq<char>, after: seq<char>, at: nat, t: string)
  {
    at + |t| <= |before| && after == before[..at] + t + before[at + |t|..]
  }

  lemma WroteTwice(before: string, mid: string, after: string, at: nat, t: string, t': string)
    requires Wrote(before, mid, at, t) && Wrote(mid, after, at + |t|, t')
    ensures Wrote(before, after, at, t + t')
  {
    assert mid[..at + |t|] == before[..at] + t;
    assert mid[at + |t| + |t'|..] == before[at + |t| + |t'|..];
  }

  method FmtUlong(s: array?<char>, at: nat, u: nat) returns (len: nat)
    requires s != null ==> at + |Digits(u)| <= s.Length
    modifies s
    ensures len == |Digits(u)|
    ensures s != null ==> Wrote(old(s[..]), s[..], at, Digits(u))
  {
    len := 1;
    var q := u;
    while q > 9
      invariant len - 1 + |Digits(q)| == |Digits(u)|
      decreases q
    {
      len := len + 1;
      q := q / 10;
    }
    if s != null {
      FillBackwards(s, at, at + len, u);
    }
  }

  lemma SpliceBackwards(before: string, p: nat, done: string, c: char)
    requires 1 <= p && p + |done| <= |before|
    ensures (before[..p] + done + before[p + |done|..])[p - 1 := c]
            == before[..p - 1] + ([c] + done) + before[p + |done|..]
  {
  }

  lemma SpliceForwards(before: string, at: nat, done: string, c: char)
    requires at + |done| < |before|
    ensures (before[..at] + done + before[at + |done|..])[at + |done| := c]
            == before[..at] + (done + [c]) + before[at + |done| + 1..]
  {
  }

  /** The backwards do-while loop of fmt_ulong.c: the digits of `u` end at `end`. */
  method FillBackwards(s: array<char>, at: nat, end: nat, u: nat)
    requires end == at + |Digits(u)| <= s.Length
    modifies s
    ensures Wrote(old(s[..]), s[..], at, Digits(u))
  {
    ghost var before := s[..];
    var p := end;
    var v: nat := u;
    ghost var done := "";
    assert s[..] == before[..p] + done + before[end..];
    var more := true;
    while more
      invariant p == at + |if more && v == 0 then Digits(0) else Pending(v)|
      invariant p + |done| == end && (if more then v != 0 || done == "" else v == 0)
      invariant (if more && v == 0 then Digits(0) else Pending(v)) + done == Digits(u)
      invariant s[..] == before[..p] + done + before[end..]
      decreases more, v
    {
      SpliceBackwards(before, p, done, Digit(v % 10));
      ghost var s0 := s[..];
      p := p - 1;
      s[p] := Digit(v % 10);
      assert s[..] == s0[p := Digit(v % 10)];
      done := [Digit(v % 10)] + done;
      v := v / 10;
      more := v != 0;
    }
    assert Pending(v) + done == done;
  }

  method FmtUint(s: array?<char>, at: nat, u: nat) returns (len: nat)
    requires s != null ==> at + |Digits(u)| <= s.Length
    modifies s
    ensures len == |Digits(u)|
    ensures s != null ==> Wrote(old(s[..]), s[..], at, Digits(u))
  {
    len := FmtUlong(s, at, u);
  }

  method FmtUint0(s: array?<char>, at: nat, u: nat, n: nat) returns (len: nat)
    requires s != null ==> at + |Padded(u, n)| <= s.Length
    modifies s
    ensures len == |Padded(u, n)|
    ensures s != null ==> Wrote(old(s[..]), s[..], at, Padded(u, n))
  {
    len := FmtUint(null, at, u);
    ghost var before := if s != null then s[..] else [];
    var p := PadZeros(s, at, len, n);
    if s != null {
      ghost var mid := s[..];
      var _ := FmtUint(s, p, u);
      WroteTwice(before, mid, s[..], at, Zeros(p - at), Digits(u));
    }
    len := len + p - at;
  }

  /** `*s++ = c`, behind the text `t` that was written from `at` on. */
  method Put(s: array<char>, ghost before: string, ghost at: nat, ghost t: string, p: nat, c: char)
    requires Wrote(before, s[..], at, t) && p == at + |t| < s.Length
    modifies s
    ensures Wrote(before, s[..], at, t + [c])
  {
    SpliceForwards(before, at, t, c);
    ghost var s0 := s[..];
    s[p] := c;
    assert s[..] == s0[p := c];
  }

  /** Line 9 of fmt_uint0.c: zeros until the field is `n` wide. */
  method PadZeros(s: array?<char>, at: nat, digits: nat, n: nat) returns (p: nat)
    requires s != null ==> at <= s.Length && at + n - digits <= s.Length
    modifies s
    ensures p == at + if digits < n then n - digits else 0
    ensures s != null ==> Wrote(old(s[..]), s[..], at, Zeros(p - at))
  {
    ghost var before := if s != null then s[..] else [];
    var len := digits;
    p := at;
    ghost var z := "";
    while len < n
      invariant len == digits + |z| && p == at + |z| && (len <= n || z == "") && z == Zeros(|z|)
      invariant s != null ==> Wrote(before, s[..], at, z)
    {
      if s != null {
        Put(s, before, at, z, p, '0');
      }
      z := z + ['0'];
      p := p + 1;
      len := len + 1;
    }
  }

  method FmtStr(s: array?<char>, at: nat, t: string) returns (len: nat)
    requires s != null ==> at + |t| <= s.Length
    modifies s
    ensures len == |t|
    ensures s != null ==> Wrote(old(s[..]), s[..], at, t)
  {
    ghost var before := if s != null then s[..] else [];
    len := 0;
    while len < |t|
      invariant len <= |t|
      invariant s != null ==> Wrote(before, s[..], at, t[..len])
    {
      assert t[..len] + [t[len]] == t[..len + 1];
      if s != null {
        Put(s, before, at, t[..len], at + len, t[len]);
      }
      len := len + 1;
    }
    assert t[..len] == t;
  }

  /** `scan_ulong` reads the longest run of digits at `at`; an unsigned long wraps modulo 2^64. */
  function Run(s: string, at: nat): nat
    requires at <= |s|
    decreases |s| - at
  {
    if at < |s| && IsDigit(s[at]) then 1 + Run(s, at + 1) else 0
  }

  lemma {:induction false} RunIsMaximal(s: string, at: nat)
    requires at <= |s|
    ensures at + Run(s, at) <= |s| && AllDigits(s[at..at + Run(s, at)])
    ensures at + Run(s, at) < |s| ==> !IsDigit(s[at + Run(s, at)])
    decreases |s| - at
  {
    if at < |s| && IsDigit(s[at]) {
      RunIsMaximal(s, at + 1);
      assert s[at..at + Run(s, at)] == [s[at]] + s[at + 1..at + 1 + Run(s, at + 1)];
    }
  }

  /** A digit string followed by anything that is not a digit is exactly what is scanned. */
  lemma {:induction false} RunIs(s: string, at: nat, t: string)
    requires at + |t| <= |s| && s[at..at + |t|] == t && AllDigits(t)
    requires at + |t| < |s| ==> !IsDigit(s[at + |t|])
    ensures Run(s, at) == |t|
    decreases |t|
  {
    if t != [] {
      assert s[at] == t[0];
      assert s[at + 1..at + 1 + |t[1..]|] == t[1..];
      RunIs(s, at + 1, t[1..]);
    }
  }

  lemma ExtendRun(s: string, from: nat, i: nat)
    requires from <= i < |s| && AllDigits(s[from..i]) && IsDigit(s[i])
    ensures AllDigits(s[from..i + 1]) && Value(s[from..i + 1]) == 10 * Value(s[from..i]) + DigitValue(s[i])
  {
    var longer := s[from..i + 1];
    assert longer == s[from..i] + [s[i]];
    assert longer[..|longer| - 1] == s[from..i];
  }

  /** One step of the source's accumulation in an unsigned type of `width` values. */
  function Accumulate(u: nat, d: nat, width: nat): nat
    requires width > 0
  {
    (u * 10 + d) % width
  }

  lemma AccumulateWraps(v: nat, d: nat, width: nat)
    requires width > 0
    ensures Accumulate(v % width, d, width) == (10 * v + d) % width
  {
    Calendar.ScaleWraps(v, 10, d, width);
  }

  const TWO64: nat := 0x1_0000_0000_0000_0000

  lemma ScanStarts(s: string, at: nat)
    requires at <= |s|
    ensures AllDigits(s[at..at]) && Value(s[at..at]) == 0
  {
  }

  lemma ScanStep(s: string, at: nat, i: nat)
    requires at <= i < |s| && AllDigits(s[at..i]) && IsDigit(s[i])
    ensures AllDigits(s[at..i + 1]) && Run(s, i) == 1 + Run(s, i + 1)
    ensures Accumulate(Value(s[at..i]) % TWO64, DigitValue(s[i]), TWO64) == Value(s[at..i + 1]) % TWO64
  {
    hide Accumulate, Value;
    ExtendRun(s, at, i);
    AccumulateWraps(Value(s[at..i]), DigitValue(s[i]), TWO64);
  }

  lemma ScanEnds(s: string, i: nat)
    requires i <= |s| && (i < |s| ==> !IsDigit(s[i]))
    ensures Run(s, i) == 0
  {
  }

  method ScanUlong(s: string, at: nat) returns (pos: nat, u: nat)
    requires at < |s| && '\0' in s[at..]
    ensures pos == Run(s, at) && at + pos <= |s| && AllDigits(s[at..at + pos])
    ensures u == Value(s[at..at + pos]) % TWO64
  {
    hide Accumulate, Value, Run, AllDigits;
    ScanStarts(s, at);
    pos, u := 0, 0;
    while at + pos < |s| && IsDigit(s[at + pos])
      invariant at + pos <= |s| && pos + Run(s, at + pos) == Run(s, at)
      invariant AllDigits(s[at..at + pos])
      invariant u == Value(s[at..at + pos]) % TWO64
    {
      ScanStep(s, at, at + pos);
      u := Accumulate(u, DigitValue(s[at + pos]), TWO64);
      pos := pos + 1;
    }
    ScanEnds(s, at + pos);
  }
}
