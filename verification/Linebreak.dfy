/** `AM_adapt_linebreak` of mime_alter.c: a text made to agree with the line breaks of the mail. */
module Linebreak {
  import opened StrReplace
  import opened Options

  function Expand(s: string): string {
    if s == [] then [] else (if s[0] == '\n' then "\r\n" else [s[0]]) + Expand(s[1..])
  }

  function Contract(s: string): string {
    if s == [] then []
    else if PairAt(s, 0) then "\n" + Contract(s[2..])
    else [s[0]] + Contract(s[1..])
  }

  predicate PairAt(s: string, i: nat) {
    i + 1 < |s| && s[i] == '\r' && s[i + 1] == '\n'
  }

  /** "\r\n" occurs somewhere. */
  ghost predicate HasPair(s: string) {
    exists i: nat :: PairAt(s, i)
  }

  /** "\r\r\n" occurs somewhere. */
  ghost predicate HasDoubleReturn(s: string) {
    exists i: nat :: i + 2 < |s| && s[i] == '\r' && PairAt(s, i + 1)
  }

  ghost predicate HasReturn(s: string) {
    exists i: nat :: i < |s| && s[i] == '\r'
  }

  /** Every line break is "\r\n" and every '\r' belongs to one. */
  ghost predicate UniformCrlf(s: string) {
    && (forall i: nat :: i < |s| && s[i] == '\r' ==> PairAt(s, i))
    && (forall i: nat :: i < |s| && s[i] == '\n' ==> i > 0 && PairAt(s, i - 1))
  }

  // ---- the two replacements, by the reference of StrReplace ----

  function ToCrlf(s: string): Request {
    Request(s, "\n", "\r\n", None, None, 0, false)
  }

  function ToLf(s: string): Request {
    Request(s, "\r\n", "\n", None, None, 0, false)
  }

  lemma MatchNewline(s: string, i: nat)
    requires i < |s|
    ensures MatchAt(s, "\n", i, false) <==> s[i] == '\n'
  {
    var pat := "\n";
    if MatchAt(s, pat, i, false) {
      assert Norm(s[i + 0], false) == Norm(pat[0], false);
    }
  }

  lemma {:induction false} ExpandIsRewrite(s: string, from: nat, budget: int)
    requires from <= |s| && budget < 0
    ensures Rewrite(ToCrlf(s), from, budget) == Expand(s[from..])
    decreases |s| - from
  {
    if from < |s| {
      assert s[from..][1..] == s[from + 1..];
      MatchNewline(s, from);
      ExpandIsRewrite(s, from + 1, if s[from] == '\n' then budget - 1 else budget);
    }
  }

  lemma MatchPair(s: string, i: nat)
    ensures MatchAt(s, "\r\n", i, false) <==> PairAt(s, i)
  {
    var pat := "\r\n";
    if MatchAt(s, pat, i, false) {
      assert Norm(s[i + 0], false) == Norm(pat[0], false) && Norm(s[i + 1], false) == Norm(pat[1], false);
    }
  }

  lemma {:induction false} ContractIsRewrite(s: string, from: nat, budget: int)
    requires from <= |s| && budget < 0
    ensures Rewrite(ToLf(s), from, budget) == Contract(s[from..])
    decreases |s| - from
  {
    if from < |s| {
      assert s[from..][1..] == s[from + 1..];
      MatchPair(s, from);
      if PairAt(s, from) {
        assert s[from..][2..] == s[from + 2..];
        ContractIsRewrite(s, from + 2, budget - 1);
      } else {
        ContractIsRewrite(s, from + 1, budget);
      }
    }
  }

  lemma ReplacementsMean(s: string)
    ensures Replaced(ToCrlf(s)) == Expand(s) && Replaced(ToLf(s)) == Contract(s)
  {
    ReplacedIsRewrite(ToCrlf(s));
    ReplacedIsRewrite(ToLf(s));
    ExpandIsRewrite(s, 0, -1);
    ContractIsRewrite(s, 0, -1);
    assert s[0..] == s;
  }

  // ---- the program ----

  datatype Target = Crlf | Lf

  /** What the text becomes. */
  ghost function Adapted(s: string, target: Target): string {
    match target
    case Crlf => if HasReturn(s) then s else Expand(s)
    case Lf => Contract(s)
  }

  /** Only the first character of `lb` matters; none, or an empty string, stands for "\r\n". */
  method AdaptLinebreak(input: string, lb: Option<string>) returns (newblock: string)
    requires lb.Some? && lb.value != [] ==> lb.value[0] == '\r' || lb.value[0] == '\n'
    requires if lb.Some? && lb.value != [] && lb.value[0] == '\n' then HasReturn(input) ==> SizeFits(ToLf(input))
             else !HasReturn(input) ==> SizeFits(ToCrlf(input))
    ensures newblock == Adapted(input, if lb.Some? && lb.value != [] && lb.value[0] == '\n' then Lf else Crlf)
  {
    var safe := if lb.None? || lb.value == [] then "\r\n" else lb.value;
    var found := HasChar(input, '\r');
    ReplacementsMean(input);
    if safe[0] == '\r' {
      if found {
        return input;
      }
      newblock := StrReplaceGeneral(ToCrlf(input));
    } else {
      if !found {
        ContractWithoutPairs(input);
        return input;
      }
      newblock := StrReplaceGeneral(ToLf(input));
    }
  }

  /** `strchr`. */
  method HasChar(s: string, c: char) returns (found: bool)
    ensures found <==> exists i: nat :: i < |s| && s[i] == c
  {
    var i: nat := 0;
    while i < |s|
      invariant i <= |s| && forall k: nat :: k < i ==> s[k] != c
    {
      if s[i] == c {
        return true;
      }
      i := i + 1;
    }
    return false;
  }

  // ---- what the two expansions do ----

  lemma {:induction false} ContractWithoutPairs(s: string)
    ensures !HasPair(s) <==> Contract(s) == s
    ensures HasPair(s) ==> |Contract(s)| < |s|
    ensures |Contract(s)| <= |s|
  {
    if s != [] {
      if PairAt(s, 0) {
        ContractWithoutPairs(s[2..]);
      } else {
        ContractWithoutPairs(s[1..]);
        assert forall i: nat :: PairAt(s[1..], i) <==> PairAt(s, i + 1);
        if HasPair(s) {
          var i: nat :| PairAt(s, i);
          assert PairAt(s[1..], i - 1);
        } else {
          assert Contract(s[1..]) == s[1..];
        }
      }
    }
  }

  /** Without '\r' the text can be expanded and contracted back. */
  lemma {:induction false} ContractExpand(s: string)
    requires !HasReturn(s)
    ensures Contract(Expand(s)) == s
  {
    if s != [] {
      assert forall i: nat :: i < |s[1..]| ==> s[1..][i] == s[i + 1];
      ContractExpand(s[1..]);
      var e := Expand(s);
      if s[0] == '\n' {
        assert e == "\r\n" + Expand(s[1..]) && PairAt(e, 0) && e[2..] == Expand(s[1..]);
      } else {
        assert s[0] != '\r';
        assert e == [s[0]] + Expand(s[1..]) && e[1..] == Expand(s[1..]);
      }
    }
  }

  lemma {:induction false} ExpandLonger(s: string)
    ensures |Expand(s)| >= |s|
    ensures Expand(s) == s <==> forall i: nat :: i < |s| ==> s[i] != '\n'
    ensures HasReturn(Expand(s)) <==> exists i: nat :: i < |s| && (s[i] == '\n' || s[i] == '\r')
  {
    if s != [] {
      ExpandLonger(s[1..]);
      var e := Expand(s[1..]);
      assert forall i: nat :: i < |s[1..]| ==> s[1..][i] == s[i + 1];
      if s[0] == '\n' {
        assert Expand(s)[0] == '\r';
      } else {
        assert Expand(s)[1..] == e && Expand(s)[0] == s[0];
        assert forall i: nat :: i < |e| ==> e[i] == Expand(s)[i + 1];
      }
    }
  }

  lemma DoubleReturnTail(s: string)
    requires s != []
    ensures HasDoubleReturn(s) <==> (s[0] == '\r' && PairAt(s, 1)) || HasDoubleReturn(s[1..])
  {
    var t := s[1..];
    assert forall i: nat :: PairAt(t, i) <==> PairAt(s, i + 1);
    if HasDoubleReturn(s) {
      var i: nat :| i + 2 < |s| && s[i] == '\r' && PairAt(s, i + 1);
      if i > 0 {
        assert t[i - 1] == '\r' && PairAt(t, i - 1 + 1);
      }
    }
    if HasDoubleReturn(t) {
      var i: nat :| i + 2 < |t| && t[i] == '\r' && PairAt(t, i + 1);
      assert s[i + 1] == '\r' && PairAt(s, i + 1 + 1);
    }
  }

  lemma PairTail(s: string)
    requires s != []
    ensures HasPair(s) <==> PairAt(s, 0) || HasPair(s[1..])
  {
    assert forall i: nat :: PairAt(s[1..], i) <==> PairAt(s, i + 1);
    if HasPair(s) {
      var i: nat :| PairAt(s, i);
      if i > 0 {
        assert PairAt(s[1..], i - 1);
      }
    }
  }

  /** Contracting leaves a pair behind exactly where two '\r' stood before a '\n'. */
  lemma {:induction false} PairAfterContract(s: string)
    ensures HasPair(Contract(s)) <==> HasDoubleReturn(s)
  {
    if s != [] {
      var c := Contract(s);
      PairTail(c);
      DoubleReturnTail(s);
      if PairAt(s, 0) {
        PairAfterContract(s[2..]);
        DoubleReturnTail(s[1..]);
        assert c[1..] == Contract(s[2..]) && s[1..][1..] == s[2..];
      } else {
        PairAfterContract(s[1..]);
        assert c[1..] == Contract(s[1..]);
        assert PairAt(s, 1) <==> PairAt(s[1..], 0);
      }
    }
  }

  /** A '\r' survives contraction exactly when some '\r' has no '\n' behind it. */
  lemma {:induction false} ReturnAfterContract(s: string)
    ensures HasReturn(Contract(s)) <==> exists i: nat :: i < |s| && s[i] == '\r' && !PairAt(s, i)
  {
    if s != [] {
      var c := Contract(s);
      var k := if PairAt(s, 0) then 2 else 1;
      ReturnAfterContract(s[k..]);
      assert c[1..] == Contract(s[k..]);
      assert forall i: nat :: i < |s[k..]| ==> s[k..][i] == s[i + k] && (PairAt(s[k..], i) <==> PairAt(s, i + k));
      assert HasReturn(c) <==> c[0] == '\r' || HasReturn(c[1..]) by {
        assert forall i: nat :: i < |c[1..]| ==> c[1..][i] == c[i + 1];
        if HasReturn(c) && c[0] != '\r' {
          var i: nat :| i < |c| && c[i] == '\r';
          assert c[1..][i - 1] == '\r';
        }
      }
      if i: nat :| i < |s| && s[i] == '\r' && !PairAt(s, i) {
        if i >= k {
          assert s[k..][i - k] == '\r' && !PairAt(s[k..], i - k);
        }
      }
    }
  }

  ghost predicate NoLoneReturn(s: string) {
    forall i: nat :: i < |s| && s[i] == '\r' ==> PairAt(s, i)
  }

  ghost predicate NoLoneNewline(s: string) {
    forall i: nat :: i < |s| && s[i] == '\n' ==> i > 0 && PairAt(s, i - 1)
  }

  lemma ExpandHead(c: char, t: string)
    ensures Expand([c] + t) == (if c == '\n' then "\r\n" else [c]) + Expand(t)
  {
    assert ([c] + t)[1..] == t;
  }

  lemma Cancel(p: string, x: string, y: string)
    ensures p + x == p + y <==> x == y
  {
    assert (p + x)[|p|..] == x && (p + y)[|p|..] == y;
  }

  lemma NoLoneReturnTail(s: string, k: nat)
    requires k <= |s| && NoLoneReturn(s)
    ensures NoLoneReturn(s[k..])
  {
    var t := s[k..];
    forall i: nat | i < |t| && t[i] == '\r' ensures PairAt(t, i) {
      assert PairAt(s, i + k);
    }
  }

  /** Contracting and expanding gives back a text that has no lone '\r' exactly when it has no lone '\n' either. */
  lemma {:induction false} ExpandContract(s: string)
    requires NoLoneReturn(s)
    ensures Expand(Contract(s)) == s <==> NoLoneNewline(s)
  {
    hide NoLoneReturn, NoLoneNewline;
    if s == [] {
      NothingLone();
    } else {
      var pair := PairAt(s, 0);
      var t := if pair then s[2..] else s[1..];
      var h := if pair then '\n' else s[0];
      NoLoneReturnTail(s, if pair then 2 else 1);
      ExpandContract(t);
      assert Contract(s) == [h] + Contract(t);
      ExpandHead(h, Contract(t));
      if h == '\n' && !pair {
        assert Expand(Contract(s))[0] == '\r';
        StartsWithNewline(s);
      } else {
        var p := if pair then "\r\n" else [h];
        assert s == p + t;
        Cancel(p, Expand(Contract(t)), t);
        NoLoneNewlineTail(s, if pair then 2 else 1);
      }
    }
  }

  lemma NothingLone()
    ensures NoLoneNewline("")
  {
  }

  lemma StartsWithNewline(s: string)
    requires s != [] && s[0] == '\n'
    ensures !NoLoneNewline(s)
  {
  }

  lemma NoLoneNewlineTail(s: string, k: nat)
    requires k == (if PairAt(s, 0) then 2 else 1) && k <= |s| && NoLoneReturn(s)
    requires k == 1 ==> s[0] != '\n'
    ensures NoLoneNewline(s) <==> NoLoneNewline(s[k..])
  {
    var t := s[k..];
    assert forall i: nat :: i < |t| ==> t[i] == s[i + k] && (PairAt(t, i) <==> PairAt(s, i + k));
    if NoLoneNewline(s) {
      forall i: nat | i < |t| && t[i] == '\n' ensures i > 0 && PairAt(t, i - 1) {
        assert PairAt(s, i + k - 1);
      }
    }
    if NoLoneNewline(t) {
      forall i: nat | i < |s| && s[i] == '\n' ensures i > 0 && PairAt(s, i - 1) {
        if i >= k {
          assert PairAt(t, i - k - 1);
        }
      }
    }
  }

  // ---- the laws of AM_adapt_linebreak ----

  lemma CrlfIdempotent(s: string)
    ensures Adapted(Adapted(s, Crlf), Crlf) == Adapted(s, Crlf)
  {
    ExpandLonger(s);
    if !HasReturn(s) && !HasReturn(Expand(s)) {
      assert Expand(s) == s;
    }
  }

  /** Adapting to LF twice is adapting once exactly when no two '\r' stand before a '\n'. */
  lemma LfIdempotent(s: string)
    ensures Adapted(Adapted(s, Lf), Lf) == Adapted(s, Lf) <==> !HasDoubleReturn(s)
  {
    PairAfterContract(s);
    ContractWithoutPairs(Contract(s));
  }

  /** The text on which the second adaptation still changes something. */
  lemma LfNotIdempotent()
    ensures Adapted("\r\r\n", Lf) == "\r\n" && Adapted("\r\n", Lf) == "\n"
  {
    assert "\r\r\n"[1..] == "\r\n";
    assert "\r\n"[2..] == "";
    assert Contract("\r\n") == "\n";
  }

  /** To CRLF and back is the identity exactly on texts without "\r\n": on all LF texts, in particular. */
  lemma CrlfThenLf(s: string)
    ensures Adapted(Adapted(s, Crlf), Lf) == s <==> !HasPair(s)
  {
    ContractWithoutPairs(s);
    if !HasReturn(s) {
      ContractExpand(s);
    }
  }

  /** To LF and back is the identity exactly on uniform CRLF texts, and on texts that have a '\r' but no "\r\n". */
  lemma LfThenCrlf(s: string)
    ensures Adapted(Adapted(s, Lf), Crlf) == s <==> UniformCrlf(s) || (HasReturn(s) && !HasPair(s))
  {
    ContractWithoutPairs(s);
    ReturnAfterContract(s);
    if NoLoneReturn(s) {
      ExpandContract(s);
      assert HasReturn(s) ==> HasPair(s);
    }
  }
}
