/** constmap.c: a chained hash table over NUL-terminated lines, and case_diffb.c, the comparison it
    uses. The table answers as a scan of all records would, last record first. */
module Constmap {

  import Calendar
  import opened Options

  type byte = x: int | 0 <= x < 256

  const TWO64: nat := 0x1_0000_0000_0000_0000

  // ---- case_diffb.c ----

  /** `*s - 'A'` in an unsigned char. */
  function FromA(c: byte): (x: byte)
    ensures x == if c >= 65 then c - 65 else c + 191
  {
    (c + 256 - 65) % 256
  }

  /** The byte that case_diffb compares. */
  function Fold(c: byte): byte {
    if FromA(c) <= 25 then (FromA(c) + 97) % 256 else (FromA(c) + 65) % 256
  }

  /** Only the 26 capital letters are folded, and they to small letters. */
  lemma FoldIsLower(c: byte)
    ensures Fold(c) == if 65 <= c <= 90 then c + 32 else c
  {
  }

  ghost predicate EqualFold(s: seq<byte>, t: seq<byte>) {
    |s| == |t| && forall i :: 0 <= i < |s| ==> Fold(s[i]) == Fold(t[i])
  }

  /** The two pointers advance while `len` falls; the answer is the difference at the first difference. */
  method CaseDiffb(s: seq<byte>, len: nat, t: seq<byte>) returns (diff: int)
    requires len <= |s| && len <= |t|
    ensures diff == 0 <==> EqualFold(s[..len], t[..len])
    ensures diff != 0 ==> exists k :: 0 <= k < len && diff == Fold(s[k]) - Fold(t[k]) && EqualFold(s[..k], t[..k])
  {
    hide Fold;
    var left, i := len, 0;
    while left > 0
      invariant i + left == len && EqualFold(s[..i], t[..i])
    {
      left := left - 1;
      var x: int := FoldByte(s[i]);
      var y: int := FoldByte(t[i]);
      if x != y {
        assert s[..len][i] == s[i] && t[..len][i] == t[i];
        diff := x - y;
        return;
      }
      i := i + 1;
    }
    return 0;
  }

  /** Lines 12-13 and 14-15 of case_diffb.c. */
  method FoldByte(c: byte) returns (x: byte)
    ensures x == Fold(c)
  {
    x := FromA(c);
    if x <= 25 {
      x := (x + 97) % 256;
    } else {
      x := (x + 65) % 256;
    }
  }

  // ---- the hash ----

  /** Bitwise exclusive or, and bitwise and, on non-negative integers. */
  function Xor(a: nat, b: nat): nat
    decreases a + b
  {
    if a == 0 then b else if b == 0 then a else 2 * Xor(a / 2, b / 2) + (a + b) % 2
  }

  function And(a: nat, b: nat): (r: nat)
    ensures r <= b
  {
    if a == 0 || b == 0 then 0 else 2 * And(a / 2, b / 2) + (a % 2) * (b % 2)
  }

  lemma XorStep(a: nat, b: nat)
    ensures Xor(a, 0) == a && Xor(0, b) == b
    ensures a > 0 && b > 0 ==> Xor(a, b) == 2 * Xor(a / 2, b / 2) + (a + b) % 2
  {
  }

  lemma AndStep(a: nat, b: nat)
    ensures And(a, 0) == 0 && And(0, b) == 0
    ensures a > 0 && b > 0 ==> And(a, b) == 2 * And(a / 2, b / 2) + if a % 2 == 1 && b % 2 == 1 then 1 else 0
  {
    if a % 2 == 0 {
      assert (a % 2) * (b % 2) == 0;
    } else {
      assert (a % 2) * (b % 2) == b % 2;
    }
  }

  lemma LastBit(x: nat, y: nat, e: nat)
    requires x == 2 * y + e && e <= 1
    ensures x % 2 == e && x / 2 == y
  {
  }

  /** Bit by bit: the last bits give the last bit, and the others the others. */
  lemma AndIsBitwise(a: nat, b: nat)
    ensures And(a, b) % 2 == if a % 2 == 1 && b % 2 == 1 then 1 else 0
    ensures And(a, b) / 2 == And(a / 2, b / 2)
  {
    hide And;
    var e := if a % 2 == 1 && b % 2 == 1 then 1 else 0;
    AndStep(a, b);
    AndStep(a / 2, b / 2);
    if a > 0 && b > 0 {
      LastBit(And(a, b), And(a / 2, b / 2), e);
    }
  }

  function Power2(k: nat): (n: nat)
    ensures n >= 1
  {
    if k == 0 then 1 else 2 * Power2(k - 1)
  }

  /** The mask of a table with 2^k chains takes the remainder. */
  lemma {:induction false} MaskIsRemainder(h: nat, k: nat)
    ensures And(h, Power2(k) - 1) == h % Power2(k)
  {
    hide And;
    AndStep(h, 0);
    if k > 0 {
      MaskIsRemainder(h / 2, k - 1);
      MaskStep(h, Power2(k - 1));
    }
  }

  lemma MaskStep(h: nat, n: nat)
    requires n >= 1 && And(h / 2, n - 1) == h / 2 % n
    ensures And(h, 2 * n - 1) == h % (2 * n)
  {
    hide And;
    var m := 2 * n - 1;
    LastBit(m, n - 1, 1);
    AndIsBitwise(h, m);
    HalfRemainder(h, n);
  }

  lemma HalfRemainder(h: nat, n: nat)
    requires n > 0
    ensures h % (2 * n) == 2 * (h / 2 % n) + h % 2
  {
    var q, r := h / 2 / n, h / 2 % n;
    assert h == 2 * n * q + (2 * r + h % 2) by {
      assert h / 2 == n * q + r;
    }
    Calendar.Quotient(h, 2 * n, q, 2 * r + h % 2);
  }

  function HashByte(c: byte): byte {
    if FromA(c) <= 25 then FromA(c) + 32 else FromA(c)
  }

  /** One round; `h << 5` and the sum wrap in an unsigned long. */
  function HashRound(h: nat, c: byte): nat {
    Xor((h * 32 + h) % TWO64, HashByte(c))
  }

  function HashFrom(h: nat, s: seq<byte>): nat {
    if s == [] then h else HashRound(HashFrom(h, s[..|s| - 1]), s[|s| - 1])
  }

  function Hash(s: seq<byte>): nat {
    HashFrom(5381, s)
  }

  method ComputeHash(s: seq<byte>, at: nat, len: nat) returns (h: nat)
    requires at + len <= |s|
    ensures h == Hash(s[at..at + len])
  {
    h := 5381;
    var left: nat, i := len, at;
    while left > 0
      invariant i + left == at + len && at <= i <= |s| && h == Hash(s[at..i])
    {
      assert s[at..i + 1][..i - at] == s[at..i];
      h := HashRound(h, s[i]);
      i := i + 1;
      left := left - 1;
    }
  }

  /** The hash of one letter: 5381 times 33, exclusive or 32. */
  lemma HashOfA()
    ensures Hash([]) == 5381 && Hash([65]) == Hash([97]) == 177541
  {
    hide Xor;
    var a, b: seq<byte> := [65], [97];
    assert a[..0] == [] && b[..0] == [];
    XorStep(2774, 0);
    XorStep(5549, 1);
    XorStep(11098, 2);
    XorStep(22196, 4);
    XorStep(44393, 8);
    XorStep(88786, 16);
    XorStep(177573, 32);
  }

  /** The hash sees bytes exactly as the comparison does. */
  lemma HashByteFolds(c: byte, d: byte)
    ensures HashByte(c) == HashByte(d) <==> Fold(c) == Fold(d)
  {
    FoldIsLower(c);
    FoldIsLower(d);
    assert HashByte(c) == FromA(Fold(c)) && HashByte(d) == FromA(Fold(d));
  }

  /** Strings that compare equal hash alike. */
  lemma {:induction false} HashCongruence(s: seq<byte>, t: seq<byte>)
    requires EqualFold(s, t)
    ensures Hash(s) == Hash(t)
    decreases |s|
  {
    if s != [] {
      var n := |s| - 1;
      assert forall i :: 0 <= i < n ==> s[..n][i] == s[i] && t[..n][i] == t[i];
      HashCongruence(s[..n], t[..n]);
      HashByteFolds(s[n], t[n]);
    }
  }

  // ---- the records of a buffer ----

  // A record's key starts at `at` and has `len` bytes.
  datatype Record = Record(at: nat, len: nat)

  function Key(data: seq<byte>, r: Record): seq<byte>
    requires r.at + r.len <= |data|
  {
    data[r.at..r.at + r.len]
  }

  /** The line that ends at `j` starts behind the NUL before it. */
  function LineStart(data: seq<byte>, j: nat): (i: nat)
    requires j <= |data|
    ensures i <= j
  {
    if j == 0 || data[j - 1] == 0 then j else LineStart(data, j - 1)
  }

  function FindByte(data: seq<byte>, c: byte, i: nat, j: nat): (k: nat)
    requires i <= j <= |data|
    ensures i <= k <= j
    decreases j - i
  {
    if i == j || data[i] == c then i else FindByte(data, c, i + 1, j)
  }

  /** The record of the line data[i..j]: all of it, or what is before the separator; none without one. */
  function LineRecord(data: seq<byte>, split: byte, i: nat, j: nat): seq<Record>
    requires i <= j <= |data|
  {
    if split == 0 then [Record(i, j - i)]
    else if FindByte(data, split, i, j) == j then []
    else [Record(i, FindByte(data, split, i, j) - i)]
  }

  /** The records of the lines that end before `j`. */
  function Records(data: seq<byte>, split: byte, j: nat): (rs: seq<Record>)
    requires j <= |data|
    ensures forall p :: 0 <= p < |rs| ==> rs[p].at + rs[p].len < j
  {
    if j == 0 then []
    else
      Records(data, split, j - 1)
      + if data[j - 1] == 0 then LineRecord(data, split, LineStart(data, j - 1), j - 1) else []
  }

  function NulCount(data: seq<byte>, j: nat): nat
    requires j <= |data|
  {
    if j == 0 then 0 else NulCount(data, j - 1) + if data[j - 1] == 0 then 1 else 0
  }

  lemma RecordsStart(data: seq<byte>, split: byte)
    ensures Records(data, split, 0) == [] && LineStart(data, 0) == 0
  {
  }

  lemma RecordsStep(data: seq<byte>, split: byte, j: nat)
    requires j < |data|
    ensures Records(data, split, j + 1)
            == if data[j] == 0 then Records(data, split, j) + LineRecord(data, split, LineStart(data, j), j)
               else Records(data, split, j)
    ensures LineStart(data, j + 1) == if data[j] == 0 then j + 1 else LineStart(data, j)
  {
    hide LineRecord;
  }

  lemma {:induction false} RecordsGrow(data: seq<byte>, split: byte, i: nat, j: nat)
    requires i <= j <= |data|
    ensures Records(data, split, i) <= Records(data, split, j)
    ensures NulCount(data, i) <= NulCount(data, j)
    ensures |Records(data, split, i)| <= NulCount(data, i)
    decreases j
  {
    if i < j {
      RecordsGrow(data, split, i, j - 1);
    } else if j > 0 {
      RecordsGrow(data, split, j - 1, j - 1);
    }
  }

  // ---- the records in terms of the bytes ----

  /** The bytes from `i` to before `j` are a line: behind the start or a NUL, before a NUL, and without one. */
  ghost predicate IsLine(data: seq<byte>, i: nat, j: nat) {
    && i <= j < |data| && data[j] == 0 && (i == 0 || data[i - 1] == 0)
    && forall k :: i <= k < j ==> data[k] != 0
  }

  /** The line's key has `len` bytes: all of them, or those before its first separator. */
  ghost predicate IsKey(data: seq<byte>, split: byte, i: nat, len: nat, j: nat) {
    && IsLine(data, i, j)
    && if split == 0 then i + len == j
       else i + len < j && data[i + len] == split && forall k :: i <= k < i + len ==> data[k] != split
  }

  lemma {:induction false} LineStartIs(data: seq<byte>, j: nat)
    requires j <= |data|
    ensures var i := LineStart(data, j);
            (i == 0 || data[i - 1] == 0) && forall k :: i <= k < j ==> data[k] != 0
  {
    if j > 0 && data[j - 1] != 0 {
      LineStartIs(data, j - 1);
    }
  }

  lemma {:induction false} FindByteIs(data: seq<byte>, c: byte, i: nat, j: nat)
    requires i <= j <= |data|
    ensures var k := FindByte(data, c, i, j);
            (k < j ==> data[k] == c) && forall m :: i <= m < k ==> data[m] != c
    decreases j - i
  {
    if i < j && data[i] != c {
      FindByteIs(data, c, i + 1, j);
    }
  }

  /** What a line that ends at `j` contributes is its key, if it has one. */
  lemma LineRecordIsKey(data: seq<byte>, split: byte, j: nat)
    requires j < |data| && data[j] == 0
    ensures var i := LineStart(data, j); var rs := LineRecord(data, split, i, j);
            && |rs| <= 1
            && (forall p :: 0 <= p < |rs| ==> rs[p].at == i && IsKey(data, split, i, rs[p].len, j))
            && forall a: nat, len: nat :: IsKey(data, split, a, len, j) ==> rs == [Record(a, len)]
  {
    var i := LineStart(data, j);
    LineStartIs(data, j);
    FindByteIs(data, split, i, j);
    forall a: nat, len: nat | IsKey(data, split, a, len, j)
      ensures LineRecord(data, split, i, j) == [Record(a, len)]
    {
      OneStart(data, i, a, j);
    }
  }

  lemma OneStart(data: seq<byte>, i: nat, a: nat, j: nat)
    requires IsLine(data, i, j) && IsLine(data, a, j)
    ensures i == a
  {
    assert !(i <= a - 1 < j) && !(a <= i - 1 < j);
  }

  /** The records are the keys of the lines that end before `n`, in order: every record is one, and every one
      has a record. */
  ghost predicate AreKeys(data: seq<byte>, split: byte, n: nat, rs: seq<Record>) {
    && (forall p :: 0 <= p < |rs| ==> HasLine(data, split, n, rs[p]))
    && (forall p, q :: 0 <= p < q < |rs| ==> rs[p].at < rs[q].at)
    && forall i: nat, len: nat, j: nat :: j < n && IsKey(data, split, i, len, j) ==> Record(i, len) in rs
  }

  ghost predicate HasLine(data: seq<byte>, split: byte, n: nat, r: Record) {
    exists j: nat :: j < n && IsKey(data, split, r.at, r.len, j)
  }

  lemma {:induction false} RecordsAreKeys(data: seq<byte>, split: byte, n: nat)
    requires n <= |data|
    ensures AreKeys(data, split, n, Records(data, split, n))
  {
    if n > 0 {
      RecordsAreKeys(data, split, n - 1);
      AddKey(data, split, n - 1);
    }
  }

  lemma AddKey(data: seq<byte>, split: byte, n: nat)
    requires n < |data| && AreKeys(data, split, n, Records(data, split, n))
    ensures AreKeys(data, split, n + 1, Records(data, split, n + 1))
  {
    hide IsKey, Records, LineRecord, LineStart;
    var prev, all := Records(data, split, n), Records(data, split, n + 1);
    RecordsStep(data, split, n);
    if data[n] == 0 {
      LineRecordIsKey(data, split, n);
      var more := LineRecord(data, split, LineStart(data, n), n);
      forall p | 0 <= p < |all| ensures HasLine(data, split, n + 1, all[p]) {
        if p < |prev| {
          assert all[p] == prev[p] && HasLine(data, split, n, prev[p]);
        } else {
          assert all[p] == more[p - |prev|];
          assert IsKey(data, split, all[p].at, all[p].len, n);
        }
      }
      forall p, q | 0 <= p < q < |all| ensures all[p].at < all[q].at {
        if q >= |prev| {
          assert HasLine(data, split, n, prev[p]);
          var j: nat :| j < n && IsKey(data, split, prev[p].at, prev[p].len, j);
          StartsBefore(data, split, prev[p].at, prev[p].len, j, more[0].at, more[0].len, n);
        }
      }
      forall i: nat, len: nat, j: nat | j < n + 1 && IsKey(data, split, i, len, j) ensures Record(i, len) in all {
        if j == n {
          assert more == [Record(i, len)];
        } else {
          assert Record(i, len) in prev;
        }
        assert Record(i, len) in prev + more;
      }
    } else {
      forall i: nat, len: nat ensures !IsKey(data, split, i, len, n) {
        if IsKey(data, split, i, len, n) {
          KeyEndsAtNul(data, split, i, len, n);
        }
      }
    }
  }

  lemma KeyEndsAtNul(data: seq<byte>, split: byte, i: nat, len: nat, j: nat)
    requires IsKey(data, split, i, len, j)
    ensures j < |data| && data[j] == 0
  {
  }

  lemma StartsBefore(data: seq<byte>, split: byte, i: nat, len: nat, j: nat, i': nat, len': nat, j': nat)
    requires IsKey(data, split, i, len, j) && IsKey(data, split, i', len', j') && j < j'
    ensures i <= j < i'
  {
    assert !(i' <= j < j');
  }

  ghost predicate HasSeparator(data: seq<byte>, split: byte, j: nat)
    requires j < |data|
  {
    split == 0 || FindByte(data, split, LineStart(data, j), j) < j
  }

  /** `num` counts lines, not records: the two agree exactly when no line is skipped. */
  lemma {:induction false} NumCountsRecords(data: seq<byte>, split: byte, j: nat)
    requires j <= |data|
    ensures |Records(data, split, j)| == NulCount(data, j)
            <==> forall e :: 0 <= e < j && data[e] == 0 ==> HasSeparator(data, split, e)
  {
    if j > 0 {
      NumCountsRecords(data, split, j - 1);
      RecordsGrow(data, split, j - 1, j - 1);
    }
  }

  /** A skipped line is counted: "a" has no separator ':' and makes no record. */
  lemma SkippedLineIsCounted()
    ensures Records([97, 0], 58, 2) == [] && NulCount([97, 0], 2) == 1
  {
    var data: seq<byte> := [97, 0];
    assert NulCount(data, 1) == 0 && Records(data, 58, 1) == [];
    assert LineStart(data, 1) == 0 && FindByte(data, 58, 0, 1) == FindByte(data, 58, 1, 1) == 1;
  }

  // ---- the table ----

  ghost predicate Matches(data: seq<byte>, r: Record, query: seq<byte>) {
    r.at + r.len <= |data| && EqualFold(Key(data, r), query)
  }

  /** The line from `i` to `j` has a key of `len` bytes that is the query, up to case. */
  ghost predicate Answers(data: seq<byte>, split: byte, query: seq<byte>, i: nat, len: nat, j: nat) {
    IsKey(data, split, i, len, j) && i + len <= |data| && EqualFold(data[i..i + len], query)
  }

  /** Of the lines whose key is the query, up to case, the one at `i` is the last. */
  ghost predicate LastAnswer(data: seq<byte>, split: byte, query: seq<byte>, i: nat, len: nat) {
    && (exists j: nat :: Answers(data, split, query, i, len, j))
    && forall i': nat, len': nat, j': nat :: Answers(data, split, query, i', len', j') ==> i' <= i
  }

  ghost predicate NoAnswer(data: seq<byte>, split: byte, query: seq<byte>) {
    forall i: nat, len: nat, j: nat :: !Answers(data, split, query, i, len, j)
  }

  /** The last record that matches is the last line whose key is the query. */
  lemma LastMatchAnswers(data: seq<byte>, split: byte, query: seq<byte>, pos: int)
    requires var rs := Records(data, split, |data|);
             && -1 <= pos < |rs| && (pos >= 0 ==> Matches(data, rs[pos], query))
             && forall q :: pos < q < |rs| ==> !Matches(data, rs[q], query)
    ensures pos < 0 ==> NoAnswer(data, split, query)
    ensures pos >= 0 ==> var r := Records(data, split, |data|)[pos]; LastAnswer(data, split, query, r.at, r.len)
  {
    hide IsKey, Records, EqualFold;
    var rs := Records(data, split, |data|);
    RecordsAreKeys(data, split, |data|);
    forall i: nat, len: nat, j: nat | Answers(data, split, query, i, len, j)
      ensures pos >= 0 && i <= rs[pos].at
    {
      KeyEndsAtNul(data, split, i, len, j);
      var q :| 0 <= q < |rs| && rs[q] == Record(i, len);
      assert Matches(data, rs[q], query);
    }
    if pos >= 0 {
      assert HasLine(data, split, |data|, rs[pos]);
      var j: nat :| j < |data| && IsKey(data, split, rs[pos].at, rs[pos].len, j);
      assert Answers(data, split, query, rs[pos].at, rs[pos].len, j);
    }
  }

  function Bucket(mask: nat, h: nat): (b: nat)
    ensures b <= mask
  {
    And(h, mask)
  }

  /** `p` is the last record before `n` in bucket `b`, or -1. */
  ghost predicate IsLast(hs: seq<nat>, mask: nat, b: nat, n: nat, p: int)
    requires n <= |hs|
  {
    && -1 <= p < n
    && (p >= 0 ==> Bucket(mask, hs[p]) == b)
    && forall q :: p < q < n ==> Bucket(mask, hs[q]) != b
  }

  /** Each bucket starts at its last record, and each record links to the one before it in its bucket. */
  ghost predicate Chains(fs: seq<int>, ns: seq<int>, hs: seq<nat>, mask: nat) {
    && |fs| == mask + 1 && |hs| <= |ns|
    && (forall p :: 0 <= p < |hs| ==> IsLast(hs, mask, Bucket(mask, hs[p]), p, ns[p]))
    && (forall b :: 0 <= b <= mask ==> IsLast(hs, mask, b, |hs|, fs[b]))
  }

  ghost predicate Columns(data: seq<byte>, rs: seq<Record>, ats: seq<nat>, ls: seq<nat>, hs: seq<nat>) {
    && |rs| == |hs| <= |ats| == |ls|
    && forall p :: 0 <= p < |rs| ==>
         && rs[p].at + rs[p].len < |data|
         && ats[p] == rs[p].at && ls[p] == rs[p].len && hs[p] == Hash(Key(data, rs[p]))
  }

  lemma ColumnsStart(data: seq<byte>, ats: seq<nat>, ls: seq<nat>)
    requires |ats| == |ls|
    ensures Columns(data, [], ats, ls, [])
  {
  }

  lemma ChainsStart(fs: seq<int>, ns: seq<int>, mask: nat)
    requires |fs| == mask + 1 && forall b :: 0 <= b <= mask ==> fs[b] == -1
    ensures Chains(fs, ns, [], mask)
  {
  }

  /** Inserting at the head of a chain. */
  lemma ChainsAdd(fs: seq<int>, ns: seq<int>, hs: seq<nat>, mask: nat, h: nat)
    requires Chains(fs, ns, hs, mask) && |hs| < |ns|
    ensures var b := Bucket(mask, h); Chains(fs[b := |hs|], ns[|hs| := fs[b]], hs + [h], mask)
  {
    var b, n := Bucket(mask, h), |hs|;
    var fs', ns', hs' := fs[b := n], ns[n := fs[b]], hs + [h];
    forall p | 0 <= p < |hs'| ensures IsLast(hs', mask, Bucket(mask, hs'[p]), p, ns'[p]) {
      if p < n {
        assert IsLast(hs, mask, Bucket(mask, hs[p]), p, ns[p]);
      } else {
        assert IsLast(hs, mask, b, n, fs[b]);
      }
    }
    forall c | 0 <= c <= mask ensures IsLast(hs', mask, c, |hs'|, fs'[c]) {
      assert IsLast(hs, mask, c, n, fs[c]);
    }
  }

  class Table {
    var num: nat
    var mask: nat
    var first: array<int>
    var next: array<int>
    var hash: array<nat>
    var input: array<nat>
    var inputlen: array<nat>
    // the caller's buffer, and the records that are in the table
    const data: seq<byte>
    ghost const split: byte
    ghost const records: seq<Record>

    ghost predicate Valid()
      reads this, first, next, hash, input, inputlen
    {
      && records == Records(data, split, |data|)
      && |records| <= num == next.Length == hash.Length == input.Length
      && Columns(data, records, input[..], inputlen[..], hash[..|records|])
      && Chains(first[..], next[..], hash[..|records|], mask)
    }

    /** `constmap_init`, with memory available. */
    constructor (s: seq<byte>, splitchar: byte)
      requires |s| < 0x8000_0000
      ensures Valid() && data == s && split == splitchar && AreKeys(s, splitchar, |s|, records)
      ensures num == NulCount(s, |s|)
      ensures exists k :: k >= 6 && mask + 1 == Power2(k) >= num && (k > 6 ==> Power2(k - 1) < num)
    {
      var n := 0;
      for j := 0 to |s|
        invariant n == NulCount(s, j)
      {
        if s[j] == 0 {
          n := n + 1;
        }
      }
      var h := 64;
      ghost var k: nat := 6;
      assert Power2(6) == 64;
      while h != 0 && h < n
        invariant h == Power2(k) && h >= 64 && k >= 6 && (k > 6 ==> Power2(k - 1) < n)
        decreases n - h
      {
        h := h + h;
        k := k + 1;
      }
      var fst := new int[h];
      var inp := new nat[n];
      var inl := new nat[n];
      var hsh := new nat[n];
      var nxt := new int[n];
      data, split, records := s, splitchar, Records(s, splitchar, |s|);
      num, mask, first, next, hash, input, inputlen := n, h - 1, fst, nxt, hsh, inp, inl;
      new;
      RecordsGrow(s, splitchar, |s|, |s|);
      RecordsAreKeys(s, splitchar, |s|);
      Fill(s, splitchar);
    }

    /** Lines 90-113. */
    method Fill(s: seq<byte>, splitchar: byte)
      requires num == NulCount(s, |s|) == next.Length == hash.Length == input.Length == inputlen.Length
      requires first.Length == mask + 1
      requires input != hash && inputlen != hash && input != inputlen && first != next
      modifies input, inputlen, hash, next, first
      ensures |Records(s, splitchar, |s|)| <= num
      ensures Columns(s, Records(s, splitchar, |s|), input[..], inputlen[..], hash[..|Records(s, splitchar, |s|)|])
      ensures Chains(first[..], next[..], hash[..|Records(s, splitchar, |s|)|], mask)
    {
      hide Columns, Chains, LineRecord, Records, LineStart, NulCount;
      ClearBuckets(first);
      RecordsStart(s, splitchar);
      ColumnsStart(s, input[..], inputlen[..]);
      ChainsStart(first[..], next[..], mask);
      var pos, i, j := 0, 0, 0;
      assert hash[..0] == [];
      while j < |s|
        invariant j <= |s| && i == LineStart(s, j)
        invariant pos == |Records(s, splitchar, j)| <= num
        invariant Columns(s, Records(s, splitchar, j), input[..], inputlen[..], hash[..pos])
        invariant Chains(first[..], next[..], hash[..pos], mask)
      {
        RecordsGrow(s, splitchar, j + 1, |s|);
        RecordsStep(s, splitchar, j);
        if s[j] == 0 {
          pos := AddLine(s, splitchar, Records(s, splitchar, j), i, j, pos);
          i := j + 1;
        }
        j := j + 1;
      }
      RecordsGrow(s, splitchar, |s|, |s|);
    }

    /** Lines 96-111: one line, which may be skipped. */
    method AddLine(s: seq<byte>, splitchar: byte, ghost rs: seq<Record>, i: nat, j: nat, pos: nat) returns (pos': nat)
      requires i <= j < |s| && pos == |rs| && next.Length == hash.Length == input.Length
      requires pos + |LineRecord(s, splitchar, i, j)| <= next.Length
      requires Columns(s, rs, input[..], inputlen[..], hash[..pos])
      requires Chains(first[..], next[..], hash[..pos], mask)
      requires input != hash && inputlen != hash && input != inputlen && first != next
      modifies input, inputlen, hash, next, first
      ensures pos' == pos + |LineRecord(s, splitchar, i, j)|
      ensures Columns(s, rs + LineRecord(s, splitchar, i, j), input[..], inputlen[..], hash[..pos'])
      ensures Chains(first[..], next[..], hash[..pos'], mask)
    {
      pos' := pos;
      var k := KeyLength(s, splitchar, i, j);
      if k.Some? {
        AddRecord(s, rs, pos, i, k.value);
        pos' := pos + 1;
      } else {
        assert rs + [] == rs;
      }
    }

    /** Lines 96-103: the key of the line s[i..j], or nothing if the line is to be skipped. */
    method KeyLength(s: seq<byte>, splitchar: byte, i: nat, j: nat) returns (k: Option<nat>)
      requires i <= j < |s|
      ensures LineRecord(s, splitchar, i, j) == if k.None? then [] else [Record(i, k.value)]
      ensures k.Some? ==> i + k.value <= j
      ensures k.None? ==> splitchar != 0 && splitchar !in s[i..j]
      ensures k.Some? ==> if splitchar == 0 then i + k.value == j
                          else i + k.value < j && s[i + k.value] == splitchar && splitchar !in s[i..i + k.value]
    {
      FindByteIs(s, splitchar, i, j);
      if splitchar == 0 {
        return Some(j - i);
      }
      var m := i;
      while m < j && s[m] != splitchar
        invariant i <= m <= j && FindByte(s, splitchar, i, j) == FindByte(s, splitchar, m, j)
      {
        m := m + 1;
      }
      k := if m >= j then None else Some(m - i);
    }

    /** Lines 104-111. */
    method AddRecord(s: seq<byte>, ghost rs: seq<Record>, pos: nat, i: nat, k: nat)
      requires pos == |rs| < next.Length == hash.Length && i + k < |s|
      requires Columns(s, rs, input[..], inputlen[..], hash[..pos]) && pos < input.Length
      requires Chains(first[..], next[..], hash[..pos], mask)
      requires input != hash && inputlen != hash && input != inputlen && first != next
      modifies input, inputlen, hash, next, first
      ensures Columns(s, rs + [Record(i, k)], input[..], inputlen[..], hash[..pos + 1])
      ensures Chains(first[..], next[..], hash[..pos + 1], mask)
    {
      ghost var fs, ns, hs := first[..], next[..], hash[..pos];
      input[pos] := i;
      inputlen[pos] := k;
      var h := ComputeHash(s, i, k);
      hash[pos] := h;
      assert hash[..pos + 1] == hs + [h];
      ChainsAdd(fs, ns, hs, mask, h);
      h := Bucket(mask, h);
      next[pos] := first[h];
      first[h] := pos;
      assert first[..] == fs[h := pos] && next[..] == ns[pos := fs[h]];
    }

    /** The three tests of lines 28-30. */
    method SameRecord(pos: nat, h: nat, query: seq<byte>) returns (same: bool)
      requires Valid() && pos < |records| && h == Hash(query)
      ensures same <==> Matches(data, records[pos], query)
    {
      ghost var r := records[pos];
      assert hash[..|records|][pos] == hash[pos] && input[..][pos] == input[pos] && inputlen[..][pos] == inputlen[pos];
      if Matches(data, r, query) {
        HashCongruence(Key(data, r), query);
      }
      if h == hash[pos] && |query| == inputlen[pos] {
        var diff := CaseDiffb(data[input[pos]..], |query|, query);
        assert data[input[pos]..][..|query|] == Key(data, r) && query[..|query|] == query;
        return diff == 0;
      }
      return false;
    }

    /** Records that the chain of the query's bucket jumps over do not match. */
    lemma NoneBetween(query: seq<byte>, hi: nat, lo: int)
      requires Valid() && hi <= |records|
      requires IsLast(hash[..|records|], mask, Bucket(mask, Hash(query)), hi, lo)
      ensures forall q :: lo < q < hi ==> !Matches(data, records[q], query)
    {
      forall q | lo < q < hi ensures !Matches(data, records[q], query) {
        if Matches(data, records[q], query) {
          HashCongruence(Key(data, records[q]), query);
        }
      }
    }

    /** `pos` is on the query's chain, and no record behind it matches. */
    ghost predicate Searched(query: seq<byte>, pos: int)
      reads this, first, next, hash, input, inputlen
      requires Valid()
    {
      && -1 <= pos < |records|
      && (pos >= 0 ==> Bucket(mask, hash[pos]) == Bucket(mask, Hash(query)))
      && forall q :: pos < q < |records| ==> !Matches(data, records[q], query)
    }

    lemma SearchStarts(query: seq<byte>)
      requires Valid()
      ensures Searched(query, first[Bucket(mask, Hash(query))])
    {
      var b := Bucket(mask, Hash(query));
      assert IsLast(hash[..|records|], mask, b, |records|, first[..][b]);
      NoneBetween(query, |records|, first[b]);
    }

    lemma SearchAdvances(query: seq<byte>, pos: nat)
      requires Valid() && Searched(query, pos) && !Matches(data, records[pos], query)
      ensures Searched(query, next[pos]) && next[pos] < pos
    {
      assert IsLast(hash[..|records|], mask, Bucket(mask, hash[..|records|][pos]), pos, next[..][pos]);
      NoneBetween(query, pos, next[pos]);
    }

    /** The walk that `constmap_index` and `constmap` share: the last matching record, or -1. */
    method Find(query: seq<byte>) returns (pos: int)
      requires Valid()
      ensures -1 <= pos < |records|
      ensures pos >= 0 ==> Matches(data, records[pos], query)
      ensures forall q :: pos < q < |records| ==> !Matches(data, records[q], query)
    {
      var h := ComputeHash(query, 0, |query|);
      assert query[0..0 + |query|] == query;
      pos := first[Bucket(mask, h)];
      SearchStarts(query);
      while pos != -1
        invariant Searched(query, pos)
        decreases pos
      {
        var same := SameRecord(pos, h, query);
        if same {
          return;
        }
        SearchAdvances(query, pos);
        pos := next[pos];
      }
    }

    method Index(query: seq<byte>) returns (idx: nat)
      requires Valid()
      ensures idx <= |records|
      ensures idx > 0 ==> Matches(data, records[idx - 1], query)
      ensures forall q :: idx <= q < |records| ==> !Matches(data, records[q], query)
      ensures idx == 0 ==> NoAnswer(data, split, query)
      ensures idx > 0 ==> LastAnswer(data, split, query, records[idx - 1].at, records[idx - 1].len)
    {
      var pos := Find(query);
      LastMatchAnswers(data, split, query, pos);
      idx := pos + 1;
    }

    /** `constmap`: where the text behind the key's terminator starts. */
    method Lookup(query: seq<byte>) returns (at: Option<nat>)
      requires Valid()
      ensures at.None? <==> forall q :: 0 <= q < |records| ==> !Matches(data, records[q], query)
      ensures at.Some? ==> exists p :: 0 <= p < |records| && Matches(data, records[p], query)
                                       && at.value == records[p].at + records[p].len + 1 <= |data|
                                       && forall q :: p < q < |records| ==> !Matches(data, records[q], query)
      ensures at.None? ==> NoAnswer(data, split, query)
      ensures at.Some? ==> exists i: nat, len: nat :: LastAnswer(data, split, query, i, len) && at.value == i + len + 1
    {
      var pos := Find(query);
      LastMatchAnswers(data, split, query, pos);
      at := None;
      if pos != -1 {
        assert input[..][pos] == input[pos] && inputlen[..][pos] == inputlen[pos];
        at := Some(input[pos] + inputlen[pos] + 1);
      }
    }

    /** `constmap_get` checks its index against the number of lines. */
    method Get(idx: nat) returns (at: Option<nat>)
      requires Valid()
      ensures 1 <= idx <= |records| ==> at == Some(records[idx - 1].at)
      ensures at.None? <==> idx <= 0 || idx > num
    {
      at := if idx <= 0 || idx > num then None else Some(input[idx - 1]);
      assert 1 <= idx <= |records| ==> input[..][idx - 1] == input[idx - 1];
    }
  }

  method ClearBuckets(a: array<int>)
    modifies a
    ensures forall b :: 0 <= b < a.Length ==> a[b] == -1
  {
    for h := 0 to a.Length
      invariant forall b :: 0 <= b < h ==> a[b] == -1
    {
      a[h] := -1;
    }
  }
}
