/** One run of ezmlm-send or of a digest, as the straight-line code that it is, on the files of
    the list directory; each run is shown to take exactly the steps of `ListProtocol`. */
module ListFiles {
  import opened ListProtocol
  import opened Options
  import D = Decimal

  /** What a process does when nobody interferes: step by step from the first state to the last. */
  ghost predicate Alone(trace: seq<(Dir, Process)>, actions: seq<Action>) {
    && |trace| == |actions| + 1
    && forall i :: 0 <= i < |actions| ==>
         Step(trace[i].0, trace[i].1, actions[i]) == (trace[i + 1].0, Some(trace[i + 1].1))
  }

  ghost predicate Leads(dir: Dir, p: Process, actions: seq<Action>, dir': Dir) {
    exists trace :: Alone(trace, actions) && trace[0] == (dir, p) && trace[|actions|] == (dir', Done)
  }

  // The actions of a run that the queue accepts, and of one that it refuses.
  function SendActions(queueOk: bool): seq<Action> {
    [Go, Go, Go, QueueClose(queueOk)] + if queueOk then [] else [Go]
  }

  function DigestActions(queueOk: bool): seq<Action> {
    [Go, Go, Go, Go, QueueClose(queueOk)] + if queueOk then [] else [Go, Go]
  }

  /** A sender left alone: the next number and its size if the queue accepts, and else only an index entry;
      the entry is there in both cases if the message is to be listed, and in neither if not. */
  lemma SendAlone(dir: Dir, size: nat, listed: bool, queueOk: bool)
    ensures var n := dir.num.max + 1;
            var index := if listed then Inserted(dir, n) else dir.index;
            Leads(dir, SendStart(size, listed), SendActions(queueOk),
                  if queueOk then dir.(num := Counter(n, dir.num.cum + Records(size)), index := index,
                                      messages := dir.messages + [Message(n, size, true, listed)])
                  else dir.(index := index))
  {
    hide DigestStep, Inserted, Records;
    var n, c := dir.num.max + 1, dir.num.cum;
    var cum := c + Records(size);
    var d1 := if listed then dir.(index := Inserted(dir, n)) else dir;
    var d2 := d1.(num := Counter(n, cum));
    var trace := [(dir, SendStart(size, listed)), (dir, SendLocked(n, c, size, listed)),
                  (d1, SendCopied(n, c, size, listed)), (d2, SendWritten(n, cum, size, listed))];
    if queueOk {
      trace := trace + [(d2.(messages := dir.messages + [Message(n, size, true, listed)]), Done)];
    } else {
      trace := trace + [(d2, SendFailed(n, cum, size, listed)), (d1, Done)];
    }
    assert Alone(trace, SendActions(queueOk));
  }

  /** A digest left alone from its unlocked read on. */
  lemma DigestAlone(dir: Dir, read: Counter, queueOk: bool)
    requires read.max > dir.dignum.max
    ensures Leads(dir, DigRead(read), DigestActions(queueOk),
                  if queueOk then dir.(dignum := read, digissue := dir.digissue + 1, digests := dir.digests +
                                       [Digest(dir.digissue + 1, dir.dignum.max + 1, read.max, read.cum, true)])
                  else dir)
  {
    hide SendStep;
    var plan := Plan(read.max, read.cum, dir.dignum, dir.digissue + 1);
    var d1 := dir.(digissue := plan.issue);
    var d2 := d1.(dignum := read);
    var trace := [(dir, DigRead(read)), (dir, DigLocked(read)), (dir, DigRange(plan)), (d1, DigIssued(plan)),
                  (d2, DigCommitted(plan))];
    if queueOk {
      trace := trace + [(d2.(digests := dir.digests + [Settle(plan, true)]), Done)];
    } else {
      trace := trace + [(d2, DigFailed(plan)), (d2.(digissue := dir.digissue), DigIssueBack(plan)), (dir, Done)];
    }
    assert Alone(trace, DigestActions(queueOk));
  }

  method CopyBelow(file: seq<nat>, outnum: nat) returns (indexn: seq<nat>)
    ensures indexn == Below(file, outnum)
  {
    indexn := [];
    var i := 0;
    while i < |file| && file[i] < outnum
      invariant i <= |file|
      invariant Below(file, outnum) == indexn + Below(file[i..], outnum)
    {
      assert file[i..][1..] == file[i + 1..];
      assert indexn + ([file[i]] + Below(file[i + 1..], outnum)) == indexn + [file[i]] + Below(file[i + 1..], outnum);
      indexn := indexn + [file[i]];
      i := i + 1;
    }
    assert Below(file[i..], outnum) == [];
  }

  class ListDir {
    var num: Counter
    var dignum: Counter
    var digissue: nat
    var index: map<nat, seq<nat>>

    constructor ()
      ensures num == dignum == Counter(0, 0) && digissue == 0 && index == map[]
    {
      num, dignum, digissue, index := Counter(0, 0), Counter(0, 0), 0, map[];
    }

    /** The files hold what the machine's directory holds. */
    ghost predicate Shows(dir: Dir)
      reads this
    {
      num == dir.num && dignum == dir.dignum && digissue == dir.digissue && index == dir.index
    }

    /** The copy loop of `idx_copy_insertsubject`: entries up to the first that is not smaller, then the new one. */
    method InsertIndex(outnum: nat)
      modifies this`index
      ensures var d := outnum / 100;
              var entries := if d in old(index) then old(index)[d] else [];
              index == old(index)[d := Below(entries, outnum) + [outnum]]
    {
      var d := outnum / 100;
      var file := if d in index then index[d] else [];
      var indexn := CopyBelow(file, outnum);
      indexn := indexn + [outnum];
      index := index[d := indexn];
    }

    /** The loop over the message, lines 494-678, as far as the index goes: `lines` holds the lengths of the
        lines that end in a line feed, and the first of length one ends the header. */
    method CopyMessage(outnum: nat, lines: seq<nat>, flagindexed: bool)
      modifies this`index
      ensures var entries := if outnum / 100 in old(index) then old(index)[outnum / 100] else [];
              index == if flagindexed && 1 in lines then old(index)[outnum / 100 := Below(entries, outnum) + [outnum]]
                       else old(index)
    {
      var flaginheader := true;
      var i := 0;
      while i < |lines|
        invariant i <= |lines| && (flaginheader <==> 1 !in lines[..i])
        invariant var entries := if outnum / 100 in old(index) then old(index)[outnum / 100] else [];
                  index == if flagindexed && 1 in lines[..i]
                           then old(index)[outnum / 100 := Below(entries, outnum) + [outnum]]
                           else old(index)
      {
        assert lines[..i + 1] == lines[..i] + [lines[i]];
        if flaginheader && lines[i] == 1 {
          flaginheader := false;
          if flagindexed {
            InsertIndex(outnum);
          }
        }
        i := i + 1;
      }
      assert lines[..i] == lines;
    }

    /** Lines 395-739 of ezmlm-send.c with the answer of the queue given; a refusal leaves `num` as it was. */
    method Send(size: nat, lines: seq<nat>, flagindexed: bool, queueOk: bool, ghost dir: Dir) returns (ghost dir': Dir)
      requires Shows(dir)
      modifies this`num, this`index
      ensures Leads(dir, SendStart(size, flagindexed && 1 in lines), SendActions(queueOk), dir') && Shows(dir')
      ensures num == if queueOk then Counter(old(num.max) + 1, old(num.cum) + Records(size)) else old(num)
      ensures queueOk ==> 256 * (num.cum - old(num.cum)) - 128 <= size < 256 * (num.cum - old(num.cum)) + 128
      ensures index == if flagindexed && 1 in lines then Inserted(dir, old(num.max) + 1) else old(index)
    {
      hide Leads;
      ghost var listed := flagindexed && 1 in lines;
      SendAlone(dir, size, listed, queueOk);
      RecordsRound(size);
      var msgnum, cumsize := num.max, num.cum;
      msgnum := msgnum + 1;
      CopyMessage(msgnum, lines, flagindexed);
      cumsize := cumsize + Records(size);
      num := Counter(msgnum, cumsize);
      dir' := dir.(num := num, index := index, messages := dir.messages + [Message(msgnum, size, true, listed)]);
      if !queueOk {
        msgnum := msgnum - 1;
        cumsize := cumsize - Records(size);
        num := Counter(msgnum, cumsize);
        dir' := dir.(index := index);
      }
    }

    /** Lines 971-1036 and 1323-1342 of ezmlm-get.c, with `max` and `cumsizen` read before the lock and
        the answer of the queue given; returns what was queued. A refusal restores both files. */
    method Digest(max: nat, cumsizen: nat, queueOk: bool, ghost dir: Dir)
      returns (sent: Option<ListProtocol.Digest>, ghost dir': Dir)
      requires Shows(dir)
      modifies this`dignum, this`digissue
      ensures sent == (if queueOk && max > old(dignum.max)
                       then Some(ListProtocol.Digest(old(digissue) + 1, old(dignum.max) + 1, max, cumsizen, true))
                       else None)
      ensures sent.None? ==> dignum == old(dignum) && digissue == old(digissue)
      ensures max > old(dignum.max) ==>
                Leads(dir, DigRead(Counter(max, cumsizen)), DigestActions(queueOk), dir') && Shows(dir')
    {
      var prevmax, cumsize := dignum.max, dignum.cum;
      var mno := prevmax + 1;
      dir' := dir;
      if max == 0 || mno > max {
        return None, dir;
      }
      DigestAlone(dir, Counter(max, cumsizen), queueOk);
      var issue := digissue;
      issue := issue + 1;
      digissue := issue;
      dignum := Counter(max, cumsizen);
      if queueOk {
        sent := Some(ListProtocol.Digest(issue, mno, max, cumsizen, true));
        dir' := dir.(dignum := dignum, digissue := digissue, digests := dir.digests + [sent.value]);
      } else {
        issue := issue - 1;
        digissue := issue;
        dignum := Counter(prevmax, cumsize);
        sent := None;
      }
    }
  }

  // ---- the text of `num` ----

  /** What `numwrite` writes. */
  function NumText(c: Counter): string {
    D.Digits(c.max) + ":" + D.Digits(c.cum) + "\n"
  }

  lemma FirstNumber(line: string, c: Counter)
    requires line == NumText(c)[..|NumText(c)| - 1] + "\0"
    ensures var k := |D.Digits(c.max)|;
            && 1 <= k < |line| && D.Run(line, 0) == k && line[k] == ':'
            && D.AllDigits(line[0..0 + k]) && D.Value(line[0..0 + k]) == c.max
  {
    var a, b := D.Digits(c.max), D.Digits(c.cum);
    D.DigitsValue(c.max);
    assert line == a + ":" + b + "\0";
    assert line[0..0 + |a|] == a;
    D.RunIs(line, 0, a);
  }

  lemma SecondNumber(line: string, c: Counter)
    requires line == NumText(c)[..|NumText(c)| - 1] + "\0"
    ensures var at, m := |D.Digits(c.max)| + 1, |D.Digits(c.cum)|;
            && at + m < |line| && D.Run(line, at) == m
            && D.AllDigits(line[at..at + m]) && D.Value(line[at..at + m]) == c.cum
  {
    var a, b := D.Digits(c.max), D.Digits(c.cum);
    D.DigitsValue(c.cum);
    assert line == a + ":" + b + "\0";
    assert line[|a| + 1..|a| + 1 + |b|] == b;
    D.RunIs(line, |a| + 1, b);
  }

  /** `scan_ulong` of a number that fits. */
  method Scan(line: string, at: nat, ghost expected: nat) returns (pos: nat, u: nat)
    requires at < |line| && line[|line| - 1] == '\0'
    ensures pos == D.Run(line, at) && at + pos < |line|
    ensures D.AllDigits(line[at..at + D.Run(line, at)]) && D.Value(line[at..at + D.Run(line, at)]) == expected < D.TWO64
            ==> u == expected
  {
    D.RunIsMaximal(line, at);
    pos, u := D.ScanUlong(line, at);
  }

  /** `getconf_ulong2` on the line of `num`, which has lost its newline and gained a NUL: it reads
      back what `numwrite` wrote. */
  method GetconfUlong2(line: string, ghost c: Counter) returns (colon: nat, n0: nat, n1: Option<nat>)
    requires |line| > 0 && line[|line| - 1] == '\0'
    ensures c.max < D.TWO64 && c.cum < D.TWO64 && line == NumText(c)[..|NumText(c)| - 1] + "\0"
            ==> n0 == c.max && n1 == Some(c.cum)
  {
    if line == NumText(c)[..|NumText(c)| - 1] + "\0" {
      FirstNumber(line, c);
      SecondNumber(line, c);
    }
    n1 := None;
    colon, n0 := Scan(line, 0, c.max);
    if colon != 0 {
      var ch := line[colon];
      colon := colon + 1;
      if ch == ':' {
        var pos, n := Scan(line, colon, c.cum);
        colon := colon + pos;
        n1 := Some(n);
      }
    }
  }
}
