/** `copy_xlate` of copy.c: the tags of a text line are replaced by the addresses of the mailing list. */
module Template {
  import opened Ascii
  import opened Options

  datatype Setting = Setting(
    target: string, targetlocal: nat,
    verptarget: string,
    confirm: string, confirmlocal: nat, confirmprefix: nat,
    szmsgnum: string,
    local: string,        // quoted
    outlocal: string,     // quoted
    outhost: string,
    listdir: Option<string>,
    params: Option<seq<Option<string>>>)

  const UNSET := "?????"

  /** What the static variables start with. */
  predicate Untouched(e: Setting) {
    && e.target == e.verptarget == e.confirm == e.szmsgnum == UNSET
    && e.targetlocal == e.confirmlocal == e.confirmprefix == 0
  }

  /** `str_chr`. */
  function StrChr(s: string, c: char): (i: nat)
    ensures i <= |s| && c !in s[..i] && (i < |s| ==> s[i] == c)
  {
    if s == "" || s[0] == c then 0
    else
      assert s[..1 + StrChr(s[1..], c)] == [s[0]] + s[1..][..StrChr(s[1..], c)];
      1 + StrChr(s[1..], c)
  }

  function SetCptarget(e: Setting, tg: string): Setting {
    e.(target := tg, targetlocal := StrChr(tg, '@'))
  }

  function SetCpconfirm(e: Setting, cf: string, prefixlen: nat): Setting {
    e.(confirm := cf, confirmlocal := StrChr(cf, '@'), confirmprefix := prefixlen + 1)
  }

  /** The variables are as the functions that set them leave them, or untouched; ten parameters. The
      prefix of a confirm address ends before its local part does. */
  predicate Valid(e: Setting) {
    && e.targetlocal <= |e.target| && e.confirmprefix <= e.confirmlocal <= |e.confirm|
    && (e.params.Some? ==> |e.params.value| == 10)
  }

  function Param(e: Setting, i: nat): string
    requires Valid(e) && i < 10
  {
    if e.params.Some? && e.params.value[i].Some? then e.params.value[i].value else ""
  }

  /** The text of a tag; nothing when it would be unsafe in a header. Unknown tags are killed. */
  function Value(e: Setting, c: char, q: char): Option<string>
    requires Valid(e)
  {
    if c == 'A' then if q == 'H' then None else Some(e.target)
    else if c == 'L' then Some(e.local)
    else if c == 'R' then Some(e.confirm)
    else if c == 'a' then Some(e.target[..e.targetlocal])
    else if c == 'c' then Some(e.confirm[e.confirmprefix..e.confirmlocal])
    else if c == 'd' then Some(if e.listdir.Some? then e.listdir.value else "")
    else if c == 'r' then Some(e.confirm[..e.confirmlocal])
    else if c == 'l' then Some(e.outlocal)
    else if c == 'h' || c == 'H' then Some(e.outhost)
    else if c == 't' then if q == 'H' then None else Some(e.verptarget)
    else if c == 'n' then Some(e.szmsgnum)
    else if '0' <= c <= '9' then Some(Param(e, c as int - '0' as int))
    else Some("")
  }

  predicate TagAt(s: string, i: nat) {
    i + 4 < |s| && s[i] == '<' && s[i + 1] == '#' && s[i + 3] == '#' && s[i + 4] == '>'
  }

  lemma TagIs(s: string, i: nat)
    ensures TagAt(s, i) <==> i + 5 <= |s| && s[i..i + 2] == "<#" && s[i + 3..i + 5] == "#>"
  {
  }

  /** The line read from the left, character by character or tag by tag. */
  function Xlated(e: Setting, s: string, q: char): Option<string>
    requires Valid(e)
  {
    if s == "" then Some("")
    else if TagAt(s, 0) then Then(Value(e, s[2], q), Xlated(e, s[5..], q))
    else Then(Some([s[0]]), Xlated(e, s[1..], q))
  }

  function Then(a: Option<string>, b: Option<string>): Option<string> {
    if a.Some? && b.Some? then Some(a.value + b.value) else None
  }

  lemma ThenAssociates(a: Option<string>, b: Option<string>, c: Option<string>)
    ensures Then(Then(a, b), c) == Then(a, Then(b, c))
  {
    if a.Some? && b.Some? && c.Some? {
      assert a.value + b.value + c.value == a.value + (b.value + c.value);
    }
  }

  predicate NoTagFrom(s: string, n: nat) {
    forall i :: 0 <= i < n ==> !TagAt(s, i)
  }

  /** The part before the first tag is copied. */
  lemma {:induction false} PlainPrefix(e: Setting, s: string, n: nat, q: char)
    requires Valid(e) && n <= |s| && NoTagFrom(s, n)
    ensures Xlated(e, s, q) == Then(Some(s[..n]), Xlated(e, s[n..], q))
    decreases n
  {
    if n == 0 {
      assert s[0..] == s && s[..0] == "";
      var x := Xlated(e, s, q);
      if x.Some? {
        assert "" + x.value == x.value;
      }
    } else {
      assert !TagAt(s, 0);
      forall i | 0 <= i < n - 1 ensures !TagAt(s[1..], i) {
        assert !TagAt(s, i + 1);
      }
      PlainPrefix(e, s[1..], n - 1, q);
      assert s[1..][n - 1..] == s[n..] && [s[0]] + s[1..][..n - 1] == s[..n];
      ThenAssociates(Some([s[0]]), Some(s[1..][..n - 1]), Xlated(e, s[n..], q));
    }
  }

  /** `byte_chr`. */
  method ByteChr(s: string, from: nat, c: char) returns (n: nat)
    requires from <= |s|
    ensures from + n <= |s| && (from + n < |s| ==> s[from + n] == c)
    ensures forall i :: from <= i < from + n ==> s[i] != c
  {
    n := 0;
    while from + n < |s| && s[from + n] != c
      invariant from + n <= |s|
      invariant forall i :: from <= i < from + n ==> s[i] != c
    {
      n := n + 1;
    }
  }

  /** `copy_xlate`; nothing when the program dies of an unsafe tag. */
  method CopyXlate(e: Setting, line: string, q: char) returns (out: Option<string>)
    requires Valid(e)
    ensures out == Xlated(e, line, q)
  {
    hide Value, Xlated;
    var pos, nextpos := 0, 0;
    var text := "";
    StartOfLine(e, line, q);
    while true
      invariant nextpos <= pos <= |line|
      invariant forall i :: nextpos <= i < pos ==> !TagAt(line, i)
      invariant Xlated(e, line, q) == Then(Some(text), Xlated(e, line[nextpos..], q))
      decreases |line| - pos
    {
      var skipped := ByteChr(line, pos, '<');
      pos := pos + skipped;
      if pos >= |line| {
        break;
      }
      if pos + 4 < |line| && line[pos + 1] == '#' && line[pos + 3] == '#' && line[pos + 4] == '>' {
        TagStep(e, line, nextpos, pos, q, text);
        text := text + line[nextpos..pos];
        var value := Value(e, line[pos + 2], q);
        if value.None? {
          return None;
        }
        text := text + value.value;
        pos := pos + 5;
        nextpos := pos;
      } else {
        pos := pos + 1;
      }
    }
    EndOfLine(e, line, nextpos, q, text);
    text := text + line[nextpos..];
    out := Some(text);
  }

  lemma StartOfLine(e: Setting, line: string, q: char)
    requires Valid(e)
    ensures Xlated(e, line, q) == Then(Some(""), Xlated(e, line[0..], q))
  {
    PlainPrefix(e, line, 0, q);
  }

  lemma RestHasNoTag(line: string, from: nat, n: nat)
    requires from + n <= |line| && forall i :: from <= i < from + n ==> !TagAt(line, i)
    ensures NoTagFrom(line[from..], n)
  {
    forall i | 0 <= i < n ensures !TagAt(line[from..], i) {
      assert !TagAt(line, from + i);
    }
  }

  lemma TagStep(e: Setting, line: string, nextpos: nat, pos: nat, q: char, text: string)
    requires Valid(e) && nextpos <= pos && TagAt(line, pos)
    requires forall i :: nextpos <= i < pos ==> !TagAt(line, i)
    ensures Then(Some(text), Xlated(e, line[nextpos..], q))
            == if Value(e, line[pos + 2], q).None? then None
               else Then(Some(text + line[nextpos..pos] + Value(e, line[pos + 2], q).value),
                         Xlated(e, line[pos + 5..], q))
  {
    hide Value;
    RestHasNoTag(line, nextpos, pos - nextpos);
    PlainPrefix(e, line[nextpos..], pos - nextpos, q);
    var s := line[pos..];
    assert line[nextpos..][pos - nextpos..] == s && line[nextpos..][..pos - nextpos] == line[nextpos..pos];
    assert TagAt(s, 0) && s[5..] == line[pos + 5..] && s[2] == line[pos + 2];
    ThenAssociates(Some(text), Some(line[nextpos..pos]), Xlated(e, s, q));
    ThenAssociates(Some(text + line[nextpos..pos]), Value(e, s[2], q), Xlated(e, s[5..], q));
  }

  lemma EndOfLine(e: Setting, line: string, nextpos: nat, q: char, text: string)
    requires Valid(e) && nextpos <= |line| && forall i :: nextpos <= i < |line| ==> !TagAt(line, i)
    ensures Then(Some(text), Xlated(e, line[nextpos..], q)) == Some(text + line[nextpos..])
  {
    RestHasNoTag(line, nextpos, |line| - nextpos);
    PlainPrefix(e, line[nextpos..], |line| - nextpos, q);
    assert line[nextpos..] + "" == line[nextpos..];
    assert line[nextpos..][|line| - nextpos..] == "" && line[nextpos..][..|line| - nextpos] == line[nextpos..];
  }

  /** A line without tags is left alone. */
  lemma NoTagsNoChange(e: Setting, s: string, q: char)
    requires Valid(e) && NoTagFrom(s, |s|)
    ensures Xlated(e, s, q) == Some(s)
  {
    hide Xlated;
    assert s[0..] == s && "" + s == s;
    EndOfLine(e, s, 0, q, "");
    StartOfLine(e, s, q);
  }

  predicate UnsafeAt(s: string, i: nat) {
    TagAt(s, i) && (s[i + 2] == 'A' || s[i + 2] == 't')
  }

  lemma UnsafeFirst(e: Setting, s: string, q: char)
    requires Valid(e) && TagAt(s, 0)
    ensures Value(e, s[2], q).None? <==> q == 'H' && UnsafeAt(s, 0)
    ensures UnsafeAt(s, 0) <==> exists i: nat :: i < 5 && UnsafeAt(s, i)
  {
  }

  /** The program dies of a line exactly when it is for a header and holds an unsafe tag anywhere: a tag
      that begins inside another is never one of these. */
  lemma {:induction false} DiesOfUnsafeTags(e: Setting, s: string, q: char)
    requires Valid(e)
    ensures Xlated(e, s, q).None? <==> q == 'H' && exists i: nat :: UnsafeAt(s, i)
  {
    hide Value;
    if s != "" {
      var step := if TagAt(s, 0) then 5 else 1;
      var rest := s[step..];
      DiesOfUnsafeTags(e, rest, q);
      forall i: nat ensures UnsafeAt(rest, i) <==> UnsafeAt(s, step + i) {
      }
      assert (exists i: nat :: UnsafeAt(s, i))
        <==> (exists i: nat :: i < step && UnsafeAt(s, i)) || (exists i: nat :: UnsafeAt(rest, i)) by {
        if i: nat :| UnsafeAt(s, i) && i >= step {
          assert UnsafeAt(rest, i - step);
        }
      }
      if TagAt(s, 0) {
        UnsafeFirst(e, s, q);
      }
    }
  }

  // ---- what the tags promise ----

  lemma SplitAt(s: string, i: nat, host: string)
    requires i < |s|
    ensures s == s[..i] + [s[i]] + host <==> s[i + 1..] == host
  {
    assert s == s[..i] + [s[i]] + s[i + 1..];
    assert (s[..i] + [s[i]] + host)[i + 1..] == host;
  }

  lemma StrChrFinds(s: string, c: char)
    requires c in s
    ensures StrChr(s, c) < |s|
  {
    assert s[..|s|] == s;
  }

  lemma Middle(s: string, i: nat, j: nat)
    requires i < j <= |s|
    ensures s[..j] == s[..i] + [s[i]] + s[i + 1..j]
  {
  }

  lemma TargetParts(e: Setting, tg: string)
    requires Valid(e) && '@' in tg
    ensures var f := SetCptarget(e, tg); Valid(f) && Value(f, 'A', 'B') == Some(tg)
    ensures var f := SetCptarget(e, tg);
            var a, h := Value(f, 'a', 'B').value, Value(f, 'h', 'B').value;
            '@' !in a && (tg == a + "@" + h <==> tg[StrChr(tg, '@') + 1..] == e.outhost)
  {
    hide StrChr;
    StrChrFinds(tg, '@');
    var i := StrChr(tg, '@');
    SplitAt(tg, i, e.outhost);
    assert [tg[i]] == "@";
  }

  lemma ConfirmParts(e: Setting, cf: string, prefixlen: nat)
    requires Valid(e) && prefixlen < StrChr(cf, '@')
    ensures var f := SetCpconfirm(e, cf, prefixlen); Valid(f) && Value(f, 'R', 'B') == Some(cf)
    ensures var f := SetCpconfirm(e, cf, prefixlen);
            Value(f, 'r', 'B').value == cf[..prefixlen] + [cf[prefixlen]] + Value(f, 'c', 'B').value
  {
    Middle(cf, prefixlen, StrChr(cf, '@'));
  }

  /** A tag at the front of a text. */
  lemma TagFirst(e: Setting, c: char, rest: string, q: char)
    requires Valid(e)
    ensures Xlated(e, "<#" + [c] + "#>" + rest, q) == Then(Value(e, c, q), Xlated(e, rest, q))
  {
    hide Value;
    var s := "<#" + [c] + "#>" + rest;
    assert s[0] == '<' && s[1] == '#' && s[2] == c && s[3] == '#' && s[4] == '>' && s[5..] == rest;
  }

  /** A text of one tag. */
  lemma OneTag(e: Setting, c: char, q: char)
    requires Valid(e)
    ensures Xlated(e, "<#" + [c] + "#>", q) == Value(e, c, q)
  {
    hide Value;
    TagFirst(e, c, "", q);
    assert "<#" + [c] + "#>" + "" == "<#" + [c] + "#>";
    assert Value(e, c, q).Some? ==> Value(e, c, q).value + "" == Value(e, c, q).value;
  }

  /** Two tags with a character between them. */
  lemma TwoTags(e: Setting, c: char, between: char, c': char, q: char)
    requires Valid(e) && q != 'H' && between != '<'
    ensures Xlated(e, "<#" + [c] + "#>" + [between] + "<#" + [c'] + "#>", q)
            == Some(Value(e, c, q).value + [between] + Value(e, c', q).value)
  {
    hide Value;
    SafeValue(e, c, q);
    SafeValue(e, c', q);
    var rest := [between] + ("<#" + [c'] + "#>");
    assert "<#" + [c] + "#>" + [between] + "<#" + [c'] + "#>" == "<#" + [c] + "#>" + rest;
    TagFirst(e, c, rest, q);
    assert rest[1..] == "<#" + [c'] + "#>" && !TagAt(rest, 0);
    OneTag(e, c', q);
    assert Xlated(e, rest, q) == Some([between] + Value(e, c', q).value);
    var v, w := Value(e, c, q).value, Value(e, c', q).value;
    assert v + ([between] + w) == v + [between] + w;
  }

  lemma SafeValue(e: Setting, c: char, q: char)
    requires Valid(e) && q != 'H'
    ensures Value(e, c, q).Some?
  {
  }

  /** The documentation gives the whole target address as the text of the two other tags. The two templates
      print the same exactly when the target's host is the list's. */
  lemma TargetIsComposed(e: Setting, tg: string, q: char)
    requires Valid(e) && '@' in tg && q != 'H'
    ensures var f := SetCptarget(e, tg);
            && Valid(f)
            && (Xlated(f, "<#" + ['A'] + "#>", q) == Xlated(f, "<#" + ['a'] + "#>" + ['@'] + "<#" + ['h'] + "#>", q)
                <==> tg[StrChr(tg, '@') + 1..] == e.outhost)
  {
    hide Xlated;
    var f := SetCptarget(e, tg);
    TargetParts(e, tg);
    OneTag(f, 'A', q);
    TwoTags(f, 'a', '@', 'h', q);
  }

  /** And the local part of the confirm address as list name, hyphen and cookie: the two print the same
      exactly when the prefix that was set is the list's name with a hyphen behind it. */
  lemma ConfirmIsComposed(e: Setting, cf: string, prefixlen: nat, q: char)
    requires Valid(e) && prefixlen < StrChr(cf, '@') && q != 'H'
    ensures var f := SetCpconfirm(e, cf, prefixlen);
            && Valid(f)
            && (Xlated(f, "<#" + ['r'] + "#>", q) == Xlated(f, "<#" + ['l'] + "#>" + ['-'] + "<#" + ['c'] + "#>", q)
                <==> cf[..prefixlen + 1] == e.outlocal + "-")
  {
    hide Xlated;
    var f := SetCpconfirm(e, cf, prefixlen);
    var n := StrChr(cf, '@');
    OneTag(f, 'r', q);
    TwoTags(f, 'l', '-', 'c', q);
    ConfirmParts(e, cf, prefixlen);
    SameBehind(cf[..n], prefixlen + 1, e.outlocal + "-");
    assert cf[..n][..prefixlen + 1] == cf[..prefixlen + 1] && cf[..n][prefixlen + 1..] == cf[prefixlen + 1..n];
  }

  lemma SameBehind(s: string, k: nat, front: string)
    requires k <= |s|
    ensures s == front + s[k..] <==> s[..k] == front
  {
    assert s == s[..k] + s[k..];
    if s == front + s[k..] {
      assert |front| == k;
    }
  }

  /** The tags of what was never set: four of them print question marks, as documented, and the three that
      stand for parts of addresses print nothing. */
  lemma UnsetTags(e: Setting, c: char, q: char)
    requires Valid(e) && Untouched(e) && q != 'H'
    ensures c in {'A', 'R', 't', 'n'} ==> Xlated(e, "<#" + [c] + "#>", q) == Some(UNSET)
    ensures c in {'a', 'r', 'c'} ==> Xlated(e, "<#" + [c] + "#>", q) == Some("")
  {
    hide Xlated;
    OneTag(e, c, q);
  }

  /** What the other documented tags print, set or not: list name, host and directory of the list, the message
      number, the two addresses, and the ten parameters; a tag that is not documented prints nothing. */
  lemma DocumentedTags(e: Setting, q: char)
    requires Valid(e) && q != 'H'
    ensures Xlated(e, "<#L#>", q) == Some(e.local) && Xlated(e, "<#l#>", q) == Some(e.outlocal)
    ensures Xlated(e, "<#H#>", q) == Xlated(e, "<#h#>", q) == Some(e.outhost)
    ensures Xlated(e, "<#d#>", q) == Some(if e.listdir.Some? then e.listdir.value else "")
    ensures Xlated(e, "<#n#>", q) == Some(e.szmsgnum)
    ensures Xlated(e, "<#A#>", q) == Some(e.target) && Xlated(e, "<#R#>", q) == Some(e.confirm)
    ensures Xlated(e, "<#t#>", q) == Some(e.verptarget)
  {
    hide Xlated;
    TagText(e, 'L', q, "<#L#>");
    TagText(e, 'l', q, "<#l#>");
    TagText(e, 'H', q, "<#H#>");
    TagText(e, 'h', q, "<#h#>");
    TagText(e, 'd', q, "<#d#>");
    TagText(e, 'n', q, "<#n#>");
    TagText(e, 'A', q, "<#A#>");
    TagText(e, 'R', q, "<#R#>");
    TagText(e, 't', q, "<#t#>");
  }

  lemma TagText(e: Setting, c: char, q: char, tag: string)
    requires Valid(e) && tag == "<#" + [c] + "#>"
    ensures Xlated(e, tag, q) == Value(e, c, q)
  {
    hide Value;
    OneTag(e, c, q);
  }

  lemma ParameterTags(e: Setting, i: nat, q: char)
    requires Valid(e) && i < 10
    ensures Xlated(e, "<#" + [DIGITS[i]] + "#>", q)
            == Some(if e.params.Some? && e.params.value[i].Some? then e.params.value[i].value else "")
  {
    hide Xlated;
    DigitCode(i);
    OneTag(e, DIGITS[i], q);
  }

  lemma OtherTags(e: Setting, c: char, q: char)
    requires Valid(e) && c !in "ALRacdrlhHtn" && c !in DIGITS
    ensures Xlated(e, "<#" + [c] + "#>", q) == Some("")
  {
    hide Xlated;
    DigitsListed(c);
    NoLetterTag(c);
    OneTag(e, c, q);
  }

  lemma NoLetterTag(c: char)
    requires c !in "ALRacdrlhHtn"
    ensures c != 'A' && c != 'L' && c != 'R' && c != 'a' && c != 'c' && c != 'd'
    ensures c != 'r' && c != 'l' && c != 'h' && c != 'H' && c != 't' && c != 'n'
  {
    var s := "ALRacdrlhHtn";
    assert s[0] == 'A' && s[1] == 'L' && s[2] == 'R' && s[3] == 'a' && s[4] == 'c' && s[5] == 'd';
    assert s[6] == 'r' && s[7] == 'l' && s[8] == 'h' && s[9] == 'H' && s[10] == 't' && s[11] == 'n';
  }

  /** The output is not searched again: killing a tag can leave a new one. */
  lemma KillingLeavesTag(e: Setting)
    requires Valid(e)
    ensures Xlated(e, "<#<#z#>n#>", 'B') == Some("<#n#>") && TagAt("<#n#>", 0)
  {
    var s := "<#<#z#>n#>";
    PlainPrefix(e, s, 2, 'B');
    assert s[2..] == "<#z#>n#>" && s[2..][5..] == "n#>";
    NoTagsNoChange(e, "n#>", 'B');
    assert Value(e, 'z', 'B') == Some("");
    assert s[..2] + ("" + "n#>") == "<#n#>";
  }
}
